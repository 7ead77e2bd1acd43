/** Ordered lists in the record graph. A short list lives inside its owner's record;
    a longer one spills into a chain of fixed-size chunk records, each an ordinary
    object of the document with an id of its own. */
module ChunkChains {
  import opened Numbers
  import opened Records
  import opened Sequences
  import opened Wrappers

  const INLINE_LAYERS: nat := 8
  const INLINE_INPUTS: nat := 4
  const TEXT_BYTES: nat := 96

  function Width(kind: ChunkKind): nat
  {
    if kind == OrderChunk then INLINE_LAYERS else TEXT_BYTES
  }

  // ---- Cutting a list into chunks ------------------------------------------------------

  ghost function Parts(items: seq<nat>, kind: ChunkKind): seq<seq<nat>>
  {
    if items == [] then []
    else if |items| <= Width(kind) then [items]
    else [items[..Width(kind)]] + Parts(items[Width(kind)..], kind)
  }

  ghost function Flatten(parts: seq<seq<nat>>): seq<nat>
  {
    if parts == [] then [] else parts[0] + Flatten(parts[1..])
  }

  lemma {:induction false} FlattenParts(items: seq<nat>, kind: ChunkKind)
    ensures Flatten(Parts(items, kind)) == items
  {
    if |items| > Width(kind) {
      var rest := items[Width(kind)..];
      FlattenParts(rest, kind);
      assert Parts(items, kind)[1..] == Parts(rest, kind);
      assert items == items[..Width(kind)] + rest;
    } else if items != [] {
      assert [items][1..] == [];
      assert items + [] == items;
    }
  }

  function CeilDiv(n: nat, kind: ChunkKind): nat
  {
    if kind == OrderChunk then (n + INLINE_LAYERS - 1) / INLINE_LAYERS else (n + TEXT_BYTES - 1) / TEXT_BYTES
  }

  function Begin(p: nat, kind: ChunkKind): nat
  {
    if kind == OrderChunk then p * INLINE_LAYERS else p * TEXT_BYTES
  }

  lemma {:induction false} PartsCount(items: seq<nat>, kind: ChunkKind)
    ensures |Parts(items, kind)| == CeilDiv(|items|, kind)
  {
    if |items| > Width(kind) {
      PartsCount(items[Width(kind)..], kind);
    }
  }

  lemma BeginStep(p: nat, kind: ChunkKind)
    requires p > 0
    ensures Begin(p, kind) == Begin(p - 1, kind) + Width(kind)
  {
  }

  lemma SliceOfRest(items: seq<nat>, w: nat, lo: nat, hi: nat)
    requires w <= |items| && lo <= hi <= |items| - w
    ensures items[w..][lo..hi] == items[w + lo..w + hi]
  {
  }

  /** Chunk `p` holds the items from `p * width` on. */
  lemma {:induction false} PartAt(items: seq<nat>, kind: ChunkKind, p: nat)
    requires p < |Parts(items, kind)|
    ensures Begin(p, kind) < |items|
    ensures Parts(items, kind)[p] == items[Begin(p, kind)..Min(Begin(p, kind) + Width(kind), |items|)]
  {
    var w := Width(kind);
    if p > 0 {
      var rest := items[w..];
      PartAt(rest, kind, p - 1);
      BeginStep(p, kind);
      var lo, hi := Begin(p - 1, kind), Min(Begin(p - 1, kind) + w, |rest|);
      assert Parts(items, kind)[p] == Parts(rest, kind)[p - 1] == rest[lo..hi];
      SliceOfRest(items, w, lo, hi);
    }
  }

  // ---- Chains ----------------------------------------------------------------------------

  function NextOf(ids: seq<Id>, p: nat): Option<Id>
  {
    if p + 1 < |ids| then Some(ids[p + 1]) else None
  }

  function HeadOf(ids: seq<Id>): Option<Id>
  {
    if ids == [] then None else Some(ids[0])
  }

  ghost predicate ChunkIs(doc: Doc, id: Id, kind: ChunkKind, items: seq<nat>, next: Option<Id>)
  {
    id in doc && doc[id].body == Chunk(kind, items, next)
  }

  /** The chunks `ids` hold the parts, in order, each linked to the next. */
  ghost predicate Chain(doc: Doc, kind: ChunkKind, ids: seq<Id>, parts: seq<seq<nat>>)
  {
    && |ids| == |parts| && Distinct(ids)
    && forall p | 0 <= p < |ids| :: ChunkIs(doc, ids[p], kind, parts[p], NextOf(ids, p))
  }

  /** How a chain stores a list: eight member ids or 96 bytes to a chunk, in order, all chunks
      but the last one full, each linked to the next. */
  lemma ChainHolds(doc: Doc, kind: ChunkKind, ids: seq<Id>, items: seq<nat>, p: nat)
    requires Chain(doc, kind, ids, Parts(items, kind)) && p < |ids|
    ensures var w := if kind == OrderChunk then 8 else 96;
            && |ids| == (|items| + w - 1) / w && p * w < |items| && ids[p] in doc && doc[ids[p]].body.Chunk?
            && var c := doc[ids[p]].body;
               && c.kind == kind && c.items == items[p * w..if p * w + w < |items| then p * w + w else |items|]
               && c.next == if p + 1 < |ids| then Some(ids[p + 1]) else None
  {
    PartsCount(items, kind);
    PartAt(items, kind, p);
    hide Parts;
  }

  lemma LinkAt(doc: Doc, kind: ChunkKind, ids: seq<Id>, parts: seq<seq<nat>>, p: nat)
    requires Chain(doc, kind, ids, parts) && p < |ids|
    ensures |ids| == |parts| && ChunkIs(doc, ids[p], kind, parts[p], NextOf(ids, p))
  {
  }

  /** The walk stands before chunk `p`, with what the chunks before it held. */
  ghost predicate WalkedTo(ids: seq<Id>, parts: seq<seq<nat>>, p: nat, items: seq<nat>, chunkIds: seq<Id>, cur: Option<Id>)
  {
    && p <= |ids| == |parts| && chunkIds == ids[..p] && cur == HeadOf(ids[p..])
    && items + Flatten(parts[p..]) == Flatten(parts)
  }

  lemma WalkOn(ids: seq<Id>, parts: seq<seq<nat>>, p: nat, items: seq<nat>, chunkIds: seq<Id>, cur: Option<Id>)
    requires WalkedTo(ids, parts, p, items, chunkIds, cur) && p < |ids|
    ensures cur == Some(ids[p])
    ensures WalkedTo(ids, parts, p + 1, items + parts[p], chunkIds + [ids[p]], NextOf(ids, p))
  {
    assert parts[p..][1..] == parts[p + 1..];
    assert items + parts[p] + Flatten(parts[p + 1..]) == items + (parts[p] + Flatten(parts[p + 1..]));
  }

  lemma WalkBegins(ids: seq<Id>, parts: seq<seq<nat>>)
    requires |ids| == |parts|
    ensures WalkedTo(ids, parts, 0, [], [], HeadOf(ids))
  {
    assert ids[0..] == ids && parts[0..] == parts;
  }

  /** `read_chunk_chain`: follow the links, collecting items and chunk ids. */
  method ReadChain(doc: Doc, kind: ChunkKind, head: Option<Id>, ghost ids: seq<Id>, ghost parts: seq<seq<nat>>)
    returns (items: seq<nat>, chunkIds: seq<Id>)
    requires Chain(doc, kind, ids, parts) && head == HeadOf(ids)
    ensures items == Flatten(parts) && chunkIds == ids
  {
    WalkBegins(ids, parts);
    items, chunkIds := [], [];
    var cur := head;
    ghost var p: nat := 0;
    while cur.Some?
      invariant WalkedTo(ids, parts, p, items, chunkIds, cur)
      decreases |ids| - p
    {
      hide WalkedTo, Chain, Flatten;
      assert p < |ids| by { StillLinked(ids, parts, p, items, chunkIds, cur); }
      WalkOn(ids, parts, p, items, chunkIds, cur);
      LinkAt(doc, kind, ids, parts, p);
      var chunk := doc[cur.value].body;
      items, chunkIds, cur := items + chunk.items, chunkIds + [cur.value], chunk.next;
      p := p + 1;
    }
  }

  lemma StillLinked(ids: seq<Id>, parts: seq<seq<nat>>, p: nat, items: seq<nat>, chunkIds: seq<Id>, cur: Option<Id>)
    requires WalkedTo(ids, parts, p, items, chunkIds, cur) && cur.Some?
    ensures p < |ids|
  {
  }

  ghost predicate Fresh(doc: Doc, nextId: Id)
  {
    forall id | id in doc :: id < nextId
  }

  /** `touched'` lists what `touched` does and the ids in `more`. */
  ghost predicate TouchesToo(touched: seq<Id>, touched': seq<Id>, more: seq<Id>)
  {
    forall id :: id in touched' <==> id in touched || id in more
  }

  /** Erase every listed record, touching it. The pool grants so many path copies. */
  method EraseAll(w: Draft, ids: seq<Id>, grants: nat, ghost base: Doc, ghost stamp: nat)
    returns (w': Draft, left: nat, ok: bool)
    requires ForkedFrom(base, w, stamp)
    ensures ForkedFrom(base, w', stamp)
    ensures ok <==> grants >= |ids|
    ensures ok ==> left == grants - |ids|
    ensures ok ==> forall id: Id :: Get(w'.root, id) == if id in ids then None else Get(w.root, id)
    ensures ok ==> TouchesToo(w.touched, w'.touched, ids)
  {
    w', left, ok := w, grants, true;
    for i := 0 to |ids|
      invariant left == grants - i && ok && ForkedFrom(base, w', stamp)
      invariant forall id: Id :: Get(w'.root, id) == if id in ids[..i] then None else Get(w.root, id)
      invariant TouchesToo(w.touched, w'.touched, ids[..i])
    {
      if left == 0 {
        return w', left, false;
      }
      EraseForks(base, w', stamp, ids[i]);
      w', left := Erase(w', ids[i]), left - 1;
      assert ids[..i + 1] == ids[..i] + [ids[i]];
    }
    assert ids[..|ids|] == ids;
  }

  /** Fresh chunk ids, off the document's counter. */
  method MintIds(kept: seq<Id>, count: nat, nextId: Id) returns (ids: seq<Id>, nextId': Id)
    requires |kept| <= count && Distinct(kept) && forall i | 0 <= i < |kept| :: kept[i] < nextId
    ensures |ids| == count && kept <= ids && Distinct(ids)
    ensures forall i | |kept| <= i < count :: nextId <= ids[i]
    ensures forall i | 0 <= i < count :: ids[i] < nextId'
    ensures nextId' == nextId + (count - |kept|)
  {
    ids, nextId' := kept, nextId;
    while |ids| < count
      invariant |kept| <= |ids| <= count && kept <= ids && Distinct(ids)
      invariant nextId' == nextId + (|ids| - |kept|)
      invariant forall i | 0 <= i < |ids| :: ids[i] < nextId'
      invariant forall i | |kept| <= i < |ids| :: nextId <= ids[i]
    {
      ids, nextId' := ids + [nextId'], nextId' + 1;
    }
  }

  /** Writing chunk `p` of a chain keeps the other chunks that are already there. */
  lemma PutChunk(doc: Doc, kind: ChunkKind, ids: seq<Id>, parts: seq<seq<nat>>, p: nat, stamp: nat, q: nat)
    requires Distinct(ids) && |parts| == |ids| && p < |ids| && q < |ids|
    requires q != p ==> ChunkIs(doc, ids[q], kind, parts[q], NextOf(ids, q))
    ensures ChunkIs(doc[ids[p] := Record(ids[p], stamp, Chunk(kind, parts[p], NextOf(ids, p)))], ids[q], kind, parts[q], NextOf(ids, q))
  {
  }

  lemma ChainStill(doc: Doc, doc': Doc, kind: ChunkKind, ids: seq<Id>, parts: seq<seq<nat>>)
    requires Chain(doc, kind, ids, parts) && forall p | 0 <= p < |ids| :: Get(doc', ids[p]) == Get(doc, ids[p])
    ensures Chain(doc', kind, ids, parts)
  {
    forall p | 0 <= p < |ids| ensures ChunkIs(doc', ids[p], kind, parts[p], NextOf(ids, p)) {
      assert ChunkIs(doc, ids[p], kind, parts[p], NextOf(ids, p));
    }
  }
}
