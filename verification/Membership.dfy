/** Layer membership as the transaction edits it, inline or spilled, and the list it
    stands for. */
module Membership {
  import opened ChunkChains
  import opened Numbers
  import opened Records
  import opened Sequences
  import opened Wrappers

  // ---- The lists -----------------------------------------------------------------------

  function InsertAt(s: seq<Id>, i: nat, x: Id): seq<Id>
    requires i <= |s|
  {
    s[..i] + [x] + s[i..]
  }

  function RemoveAt(s: seq<Id>, i: nat): seq<Id>
    requires i < |s|
  {
    s[..i] + s[i + 1..]
  }

  function MoveItem(s: seq<Id>, from: nat, to: nat): seq<Id>
    requires from < |s| && to < |s|
  {
    InsertAt(RemoveAt(s, from), to, s[from])
  }

  ghost predicate FirstAt(s: seq<Id>, x: Id, i: nat)
  {
    i <= |s| && (i < |s| ==> s[i] == x) && forall j | 0 <= j < i :: s[j] != x
  }

  /** `x` stands at `i`, what was there and after it one place further on. */
  lemma InsertedAt(s: seq<Id>, i: nat, x: Id, k: nat)
    requires i <= |s| && k <= |s|
    ensures |InsertAt(s, i, x)| == |s| + 1
    ensures InsertAt(s, i, x)[k] == if k < i then s[k] else if k == i then x else s[k - 1]
  {
  }

  /** What stood after `i` has moved up one place. */
  lemma RemovedAt(s: seq<Id>, i: nat, k: nat)
    requires i < |s| && k < |s| - 1
    ensures |RemoveAt(s, i)| == |s| - 1 && RemoveAt(s, i)[k] == if k < i then s[k] else s[k + 1]
  {
  }

  /** `t` is `s` with the item at `from` now at `to`: those between have moved up one place to
      close the gap, and all others stay where they are. */
  ghost predicate Moved(s: seq<Id>, from: nat, to: nat, t: seq<Id>)
    requires from < |s| && to < |s|
  {
    && |t| == |s| && t[to] == s[from]
    && (forall k | from <= k < to :: t[k] == s[k + 1])
    && (forall k | to < k <= from :: t[k] == s[k - 1])
    && (forall k | 0 <= k < |s| && (k < Min(from, to) || k > Max(from, to)) :: t[k] == s[k])
  }

  lemma MoveMoves(s: seq<Id>, from: nat, to: nat)
    requires from < |s| && to < |s|
    ensures Moved(s, from, to, MoveItem(s, from, to))
  {
  }

  /** With the item itself left out on both sides, a move changes nothing. */
  lemma MovedKeepsTheRest(s: seq<Id>, from: nat, to: nat, t: seq<Id>)
    requires from < |s| && to < |s| && Moved(s, from, to, t)
    ensures t[..to] + t[to + 1..] == s[..from] + s[from + 1..]
  {
    var a, b := t[..to] + t[to + 1..], s[..from] + s[from + 1..];
    forall k | 0 <= k < |a| ensures a[k] == b[k] {
      var j := if k < to then k else k + 1;
      assert a[k] == t[j];
    }
  }

  /** A move and its reverse cancel. */
  lemma MoveAndBack(s: seq<Id>, from: nat, to: nat)
    requires from < |s| && to < |s|
    ensures |MoveItem(s, from, to)| == |s| && MoveItem(MoveItem(s, from, to), to, from) == s
  {
    var rest, moved := RemoveAt(s, from), MoveItem(s, from, to);
    assert RemoveAt(moved, to) == rest && moved[to] == s[from];
    assert InsertAt(rest, from, s[from]) == s;
  }

  /** A move keeps every layer as often as it was there. */
  lemma MovePermutes(s: seq<Id>, from: nat, to: nat)
    requires from < |s| && to < |s|
    ensures multiset(MoveItem(s, from, to)) == multiset(s)
  {
    InsertCounts(RemoveAt(s, from), to, s[from]);
    InsertCounts(RemoveAt(s, from), from, s[from]);
    assert InsertAt(RemoveAt(s, from), from, s[from]) == s;
  }

  lemma InsertCounts(s: seq<Id>, i: nat, x: Id)
    requires i <= |s|
    ensures multiset(InsertAt(s, i, x)) == multiset(s) + multiset{x}
  {
    assert s == s[..i] + s[i..];
  }

  /** Detaching what was just attached in front of any other occurrence undoes it. */
  lemma AttachAndDetach(s: seq<Id>, i: nat, x: Id, j: nat)
    requires i <= |s| && x !in s[..i] && FirstAt(InsertAt(s, i, x), x, j)
    ensures j == i && RemoveAt(InsertAt(s, i, x), j) == s
  {
    var t := InsertAt(s, i, x);
    assert t[i] == x;
    assert forall k | 0 <= k < i :: t[k] == s[..i][k] != x;
    assert j >= i;
  }

  // ---- Membership records ----------------------------------------------------------------

  /** `comp`'s layers are `order`: in its record up to eight, beyond that in the
      chain `ids`, eight a chunk. */
  ghost predicate IsMembership(doc: Doc, comp: Id, order: seq<Id>, ids: seq<Id>)
  {
    && comp in doc && doc[comp].body.Composition? && comp !in ids
    && doc[comp].body.count == |order|
    && if |order| <= INLINE_LAYERS then
         ids == [] && doc[comp].body.layers == order && doc[comp].body.spill == None
       else
         && doc[comp].body.layers == [] && doc[comp].body.spill == HeadOf(ids)
         && Chain(doc, OrderChunk, ids, Parts(order, OrderChunk))
  }

  /** How a composition stores its members: up to eight in its own record, and more in chunks
      alone, the first of them named by the record. */
  lemma MembershipIsStored(doc: Doc, comp: Id, order: seq<Id>, ids: seq<Id>, p: nat)
    requires IsMembership(doc, comp, order, ids)
    ensures comp in doc && doc[comp].body.Composition? && doc[comp].body.count == |order|
    ensures |order| <= 8 ==> doc[comp].body.layers == order && doc[comp].body.spill == None && ids == []
    ensures |order| > 8 ==> doc[comp].body.layers == [] && ids != [] && doc[comp].body.spill == Some(ids[0])
    ensures |order| > 8 && p < |ids| ==>
              && |ids| == (|order| + 7) / 8 && 8 * p < |order| && ids[p] in doc && doc[ids[p]].body.Chunk?
              && doc[ids[p]].body.items == order[8 * p..if 8 * p + 8 < |order| then 8 * p + 8 else |order|]
  {
    if |order| > 8 {
      PartsCount(order, OrderChunk);
      if p < |ids| {
        ChainHolds(doc, OrderChunk, ids, order, p);
      }
    }
  }

  /** `read_layer_order`. */
  method ReadLayerOrder(doc: Doc, comp: Id, ghost order: seq<Id>, ghost ids: seq<Id>) returns (read: seq<Id>, chunkIds: seq<Id>)
    requires IsMembership(doc, comp, order, ids)
    ensures read == order && chunkIds == ids
  {
    var c := doc[comp].body;
    if c.spill.None? {
      NotSpilled(doc, comp, order, ids);
      read, chunkIds := [], [];
      for i := 0 to c.count
        invariant read == order[..i]
      {
        read := read + [c.layers[i]];
      }
    } else {
      PartsCount(order, OrderChunk);
      read, chunkIds := ReadChain(doc, OrderChunk, c.spill, ids, Parts(order, OrderChunk));
      FlattenParts(order, OrderChunk);
    }
  }

  lemma NotSpilled(doc: Doc, comp: Id, order: seq<Id>, ids: seq<Id>)
    requires IsMembership(doc, comp, order, ids) && doc[comp].body.spill.None?
    ensures |order| <= INLINE_LAYERS
  {
    PartsCount(order, OrderChunk);
  }

  ghost predicate SamePart(order: seq<Id>, order': seq<Id>, p: nat)
  {
    var a, b := Parts(order, OrderChunk), Parts(order', OrderChunk);
    p < |a| && p < |b| && a[p] == b[p]
  }

  /** Neither the members nor the link of chunk `p` change. */
  ghost predicate ChunkStays(order: seq<Id>, ids: seq<Id>, order': seq<Id>, ids': seq<Id>, p: nat)
  {
    p < |ids| && SamePart(order, order', p) && NextOf(ids, p) == NextOf(ids', p)
  }

  /** One of the first `n` chunks, written anew. */
  ghost predicate Rewritten(order: seq<Id>, ids: seq<Id>, order': seq<Id>, ids': seq<Id>, n: nat, id: Id)
  {
    exists p: nat :: p < n && p < |ids'| && ids'[p] == id && !ChunkStays(order, ids, order', ids', p)
  }

  /** Exactly the owner, the chunks erased and the chunks written anew are touched. */
  ghost predicate TouchedExactly(touched: seq<Id>, touched': seq<Id>, comp: Id, order: seq<Id>, ids: seq<Id>,
                                 order': seq<Id>, ids': seq<Id>)
  {
    forall id :: id in touched' <==>
      || id in touched || id == comp || (id in ids && id !in ids')
      || Rewritten(order, ids, order', ids', |ids'|, id)
  }

  /** What an edit of `comp` leaves alone and what it gives back: other records keep,
      chunks no longer in the chain are gone, and chunks whose part and link did not
      change are the very records they were. */
  ghost predicate Framed(doc: Doc, doc': Doc, comp: Id, order: seq<Id>, ids: seq<Id>, order': seq<Id>, ids': seq<Id>)
  {
    && (forall id: Id | id != comp && id !in ids && id !in ids' :: Get(doc', id) == Get(doc, id))
    && (forall id: Id | id in ids && id !in ids' :: id !in doc')
    && (forall p | 0 <= p < |ids| && p < |ids'| :: ids'[p] == ids[p])
    && (forall p: nat | p < |ids'| && ChunkStays(order, ids, order', ids', p) :: Get(doc', ids[p]) == Get(doc, ids[p]))
  }

  ghost predicate NewIdsFrom(ids: seq<Id>, ids': seq<Id>, nextId: Id)
  {
    forall p | |ids| <= p < |ids'| :: ids'[p] >= nextId
  }

  /** One chunk of the loop of `store_membership`: skip it when its members and link
      are what they were, else rewrite it. */
  method RewriteChunk(w: Draft, order: seq<Id>, ids: seq<Id>, order': seq<Id>, ids': seq<Id>, p: nat, stamp: nat, grants: nat)
    returns (w': Draft, left: nat, ok: bool)
    requires |ids'| == CeilDiv(|order'|, OrderChunk) && p < |ids'|
    requires p < |ids| ==>
               && p < |Parts(order, OrderChunk)| && ids'[p] == ids[p]
               && ChunkIs(w.root, ids[p], OrderChunk, Parts(order, OrderChunk)[p], NextOf(ids, p))
    ensures p < |Parts(order', OrderChunk)|
    ensures ok <==> ChunkStays(order, ids, order', ids', p) || grants > 0
    ensures ok ==> left == grants - if ChunkStays(order, ids, order', ids', p) then 0 else 1
    ensures w' == if ok && !ChunkStays(order, ids, order', ids', p)
                  then Write(w, ids'[p], stamp, Chunk(OrderChunk, Parts(order', OrderChunk)[p], NextOf(ids', p))) else w
    ensures ok ==> ChunkIs(w'.root, ids'[p], OrderChunk, Parts(order', OrderChunk)[p], NextOf(ids', p))
  {
    PartsCount(order', OrderChunk);
    PartAt(order', OrderChunk, p);
    w', left, ok := w, grants, true;
    var begin, next := Begin(p, OrderChunk), NextOf(ids', p);
    var part := order'[begin..Min(begin + INLINE_LAYERS, |order'|)];
    var asBefore := false;
    if p < |ids| {
      PartAt(order, OrderChunk, p);
      asBefore := order[begin..Min(begin + INLINE_LAYERS, |order|)] == part && NextOf(ids, p) == next;
    }
    if !asBefore {
      if left == 0 {
        return w', left, false;
      }
      w', left := Write(w, ids'[p], stamp, Chunk(OrderChunk, part, next)), left - 1;
    }
  }

  /** The first `p` chunks hold their parts of the new list, the unchanged ones as the very
      records they were, and the others' records are untouched. */
  ghost predicate RewrittenUpTo(w: Draft, w': Draft, order: seq<Id>, ids: seq<Id>, order': seq<Id>, ids': seq<Id>, p: nat)
    requires p <= |ids'| && |ids'| == |Parts(order', OrderChunk)|
  {
    && (forall id: Id | id !in ids'[..p] :: Get(w'.root, id) == Get(w.root, id))
    && (forall q: nat | q < p :: ChunkIs(w'.root, ids'[q], OrderChunk, Parts(order', OrderChunk)[q], NextOf(ids', q)))
    && (forall q: nat | q < p && ChunkStays(order, ids, order', ids', q) :: Get(w'.root, ids'[q]) == Get(w.root, ids'[q]))
    && (forall id :: id in w'.touched <==> id in w.touched || Rewritten(order, ids, order', ids', p, id))
  }

  lemma NextUntouched(w: Draft, w': Draft, order: seq<Id>, ids: seq<Id>, order': seq<Id>, ids': seq<Id>, p: nat)
    requires p < |ids'| && |ids'| == |Parts(order', OrderChunk)| && Distinct(ids')
    requires RewrittenUpTo(w, w', order, ids, order', ids', p)
    ensures Get(w'.root, ids'[p]) == Get(w.root, ids'[p])
  {
    hide ChunkIs, ChunkStays, Rewritten;
    NotYetWritten(ids', p);
  }

  lemma RewriteOneMore(w: Draft, before: Draft, after: Draft, order: seq<Id>, ids: seq<Id>, order': seq<Id>, ids': seq<Id>,
                       p: nat, stamp: nat)
    requires p < |ids'| && |ids'| == |Parts(order', OrderChunk)| && Distinct(ids')
    requires RewrittenUpTo(w, before, order, ids, order', ids', p)
    requires after == if ChunkStays(order, ids, order', ids', p) then before
                      else Write(before, ids'[p], stamp, Chunk(OrderChunk, Parts(order', OrderChunk)[p], NextOf(ids', p)))
    requires ChunkIs(after.root, ids'[p], OrderChunk, Parts(order', OrderChunk)[p], NextOf(ids', p))
    ensures RewrittenUpTo(w, after, order, ids, order', ids', p + 1)
  {
    NextUntouched(w, before, order, ids, order', ids', p);
    hide ChunkStays, Rewritten, Parts;
    assert ids'[..p + 1] == ids'[..p] + [ids'[p]];
    assert forall id: Id | id != ids'[p] :: Get(after.root, id) == Get(before.root, id);
    forall q: nat | q < p + 1 ensures ChunkIs(after.root, ids'[q], OrderChunk, Parts(order', OrderChunk)[q], NextOf(ids', q)) {
      if q < p {
        PutChunk(before.root, OrderChunk, ids', Parts(order', OrderChunk), p, stamp, q);
      }
    }
    hide ChunkIs, NextOf, Get;
    assert forall q: nat | q < p :: ids'[q] != ids'[p];
    TouchOneMore(w.touched, before.touched, after.touched, order, ids, order', ids', p);
    hide Rewritten, Touched;
  }

  lemma TouchOneMore(touched: seq<Id>, before: seq<Id>, after: seq<Id>, order: seq<Id>, ids: seq<Id>, order': seq<Id>,
                     ids': seq<Id>, p: nat)
    requires p < |ids'| && forall id :: id in before <==> id in touched || Rewritten(order, ids, order', ids', p, id)
    requires after == if ChunkStays(order, ids, order', ids', p) then before else Touched(before, ids'[p])
    ensures forall id :: id in after <==> id in touched || Rewritten(order, ids, order', ids', p + 1, id)
  {
    hide Rewritten, ChunkStays;
    OneMoreRewritten(order, ids, order', ids', p);
  }

  /** The chunk loop of `store_membership`. */
  method RewriteChunks(w: Draft, order: seq<Id>, ids: seq<Id>, order': seq<Id>, ids': seq<Id>, stamp: nat,
                       grants: nat, ghost base: Doc)
    returns (w': Draft, left: nat, ok: bool)
    requires ForkedFrom(base, w, stamp)
    requires |ids'| == CeilDiv(|order'|, OrderChunk) && Distinct(ids')
    requires forall p | 0 <= p < |ids| && p < |ids'| :: ids'[p] == ids[p]
    requires forall p | 0 <= p < |ids| && p < |ids'| ::
               p < |Parts(order, OrderChunk)| && ChunkIs(w.root, ids[p], OrderChunk, Parts(order, OrderChunk)[p], NextOf(ids, p))
    ensures ForkedFrom(base, w', stamp)
    ensures grants >= |ids'| ==> ok && left >= grants - |ids'|
    ensures ok ==> Chain(w'.root, OrderChunk, ids', Parts(order', OrderChunk))
    ensures ok ==> forall id: Id | id !in ids' :: Get(w'.root, id) == Get(w.root, id)
    ensures ok ==> forall p: nat | p < |ids'| && ChunkStays(order, ids, order', ids', p) :: Get(w'.root, ids[p]) == Get(w.root, ids[p])
    ensures ok ==> forall id :: id in w'.touched <==> id in w.touched || Rewritten(order, ids, order', ids', |ids'|, id)
  {
    w', left, ok := w, grants, true;
    PartsCount(order', OrderChunk);
    hide Parts, ChunkStays, ForkedFrom, Rewritten;
    NoneRewritten(order, ids, order', ids');
    for p := 0 to |ids'|
      invariant ok && left >= grants - p && ForkedFrom(base, w', stamp)
      invariant RewrittenUpTo(w, w', order, ids, order', ids', p)
    {
      hide RewrittenUpTo;
      NextUntouched(w, w', order, ids, order', ids', p);
      if p < |ids| {
        assert ChunkIs(w.root, ids[p], OrderChunk, Parts(order, OrderChunk)[p], NextOf(ids, p));
      }
      var before := w';
      w', left, ok := RewriteChunk(before, order, ids, order', ids', p, stamp, left);
      WriteForks(base, before, stamp, ids'[p], Chunk(OrderChunk, Parts(order', OrderChunk)[p], NextOf(ids', p)));
      if !ok {
        return;
      }
      RewriteOneMore(w, before, w', order, ids, order', ids', p, stamp);
    }
    assert ids'[..|ids'|] == ids';
    StaysInChain(order, ids, order', ids');
  }

  lemma NoneRewritten(order: seq<Id>, ids: seq<Id>, order': seq<Id>, ids': seq<Id>)
    ensures forall id :: !Rewritten(order, ids, order', ids', 0, id)
  {
  }

  lemma OneMoreRewritten(order: seq<Id>, ids: seq<Id>, order': seq<Id>, ids': seq<Id>, p: nat)
    requires p < |ids'|
    ensures forall id :: Rewritten(order, ids, order', ids', p + 1, id) <==>
              Rewritten(order, ids, order', ids', p, id) || (id == ids'[p] && !ChunkStays(order, ids, order', ids', p))
  {
    hide ChunkStays;
    forall id ensures Rewritten(order, ids, order', ids', p + 1, id) <==>
                        Rewritten(order, ids, order', ids', p, id) || (id == ids'[p] && !ChunkStays(order, ids, order', ids', p))
    {
      if Rewritten(order, ids, order', ids', p, id) {
        var q: nat :| q < p && q < |ids'| && ids'[q] == id && !ChunkStays(order, ids, order', ids', q);
        assert q < p + 1;
      }
    }
  }

  lemma StaysInChain(order: seq<Id>, ids: seq<Id>, order': seq<Id>, ids': seq<Id>)
    ensures forall p: nat | ChunkStays(order, ids, order', ids', p) :: p < |ids|
  {
  }

  lemma NotYetWritten(ids: seq<Id>, p: nat)
    requires Distinct(ids) && p < |ids|
    ensures ids[p] !in ids[..p]
  {
  }

  predicate IsComposition(doc: Doc, comp: Id)
  {
    comp in doc && doc[comp].body.Composition?
  }

  /** The new list stored, with its frame, and exactly what was written touched. */
  ghost predicate Edited(w: Draft, w': Draft, comp: Id, order: seq<Id>, ids: seq<Id>, order': seq<Id>, ids': seq<Id>,
                         nextId: Id, nextId': Id)
  {
    && IsComposition(w.root, comp)
    && IsMembership(w'.root, comp, order', ids') && Fresh(w'.root, nextId') && nextId <= nextId'
    && Framed(w.root, w'.root, comp, order, ids, order', ids') && NewIdsFrom(ids, ids', nextId)
    && TouchedExactly(w.touched, w'.touched, comp, order, ids, order', ids')
    && w'.root[comp].body.rest == w.root[comp].body.rest
  }

  /** `store_membership`. */
  method StoreMembership(w: Draft, comp: Id, order: seq<Id>, ids: seq<Id>, order': seq<Id>, nextId: Id, stamp: nat, grants: nat,
                         ghost base: Doc)
    returns (w': Draft, ids': seq<Id>, nextId': Id, ok: bool)
    requires ForkedFrom(base, w, stamp)
    requires IsMembership(w.root, comp, order, ids) && Fresh(w.root, nextId)
    ensures ForkedFrom(base, w', stamp) && nextId <= nextId'
    ensures grants > |ids| + CeilDiv(|order'|, OrderChunk) ==> ok
    ensures ok ==> Edited(w, w', comp, order, ids, order', ids', nextId, nextId')
  {
    if |order'| <= INLINE_LAYERS {
      w', ok := StoreInline(w, comp, order, ids, order', nextId, stamp, grants, base);
      return w', [], nextId, ok;
    }
    w', ids', nextId', ok := StoreSpilled(w, comp, order, ids, order', nextId, stamp, grants, base);
  }

  /** It fits: drop the whole chain and rewrite the owner's record. */
  method StoreInline(w: Draft, comp: Id, ghost order: seq<Id>, ids: seq<Id>, order': seq<Id>, ghost nextId: Id, stamp: nat,
                     grants: nat, ghost base: Doc)
    returns (w': Draft, ok: bool)
    requires ForkedFrom(base, w, stamp)
    requires IsMembership(w.root, comp, order, ids) && Fresh(w.root, nextId) && |order'| <= INLINE_LAYERS
    ensures ForkedFrom(base, w', stamp)
    ensures grants > |ids| ==> ok
    ensures ok ==> Edited(w, w', comp, order, ids, order', [], nextId, nextId)
  {
    hide ForkedFrom;
    var left;
    w', left, ok := EraseAll(w, ids, grants, base, stamp);
    if !ok || left == 0 {
      return w', false;
    }
    var body := Composition(|order'|, order', None, w.root[comp].body.rest);
    WriteForks(base, w', stamp, comp, body);
    InlineEdited(w, w', comp, order, ids, order', nextId, stamp);
    w' := Write(w', comp, stamp, body);
  }

  lemma InlineEdited(w: Draft, erased: Draft, comp: Id, order: seq<Id>, ids: seq<Id>, order': seq<Id>, nextId: Id, stamp: nat)
    requires IsMembership(w.root, comp, order, ids) && Fresh(w.root, nextId) && |order'| <= INLINE_LAYERS
    requires forall id: Id :: Get(erased.root, id) == if id in ids then None else Get(w.root, id)
    requires TouchesToo(w.touched, erased.touched, ids)
    ensures var body := Composition(|order'|, order', None, w.root[comp].body.rest);
            Edited(w, Write(erased, comp, stamp, body), comp, order, ids, order', [], nextId, nextId)
  {
    hide Chain, Parts, ChunkStays;
    var w' := Write(erased, comp, stamp, Composition(|order'|, order', None, w.root[comp].body.rest));
    forall id: Id | id != comp ensures Get(w'.root, id) == if id in ids then None else Get(w.root, id) {
      assert Get(w'.root, id) == Get(erased.root, id);
    }
    forall id | id in w'.root ensures id < nextId {
      assert Get(erased.root, id) == if id in ids then None else Get(w.root, id);
    }
  }

  /** It does not: reuse chunk ids by position, mint the growth, erase the surplus. */
  method StoreSpilled(w: Draft, comp: Id, order: seq<Id>, ids: seq<Id>, order': seq<Id>, nextId: Id, stamp: nat, grants: nat,
                      ghost base: Doc)
    returns (w': Draft, ids': seq<Id>, nextId': Id, ok: bool)
    requires ForkedFrom(base, w, stamp)
    requires IsMembership(w.root, comp, order, ids) && Fresh(w.root, nextId) && |order'| > INLINE_LAYERS
    ensures ForkedFrom(base, w', stamp) && nextId <= nextId'
    ensures grants > |ids| + CeilDiv(|order'|, OrderChunk) ==> ok
    ensures ok ==> Edited(w, w', comp, order, ids, order', ids', nextId, nextId')
  {
    var erased, left;
    erased, ids', nextId', left, ok := AssignIds(w, comp, order, ids, CeilDiv(|order'|, OrderChunk), nextId, stamp, grants, base);
    if !ok {
      return erased, ids', nextId', false;
    }
    KeptChunks(w.root, erased.root, comp, order, ids, |ids'|);
    hide Chain, Parts, ChunkIs, ChunkStays, ForkedFrom, Rewritten, TouchedExactly, IsMembership, Framed, NewIdsFrom, Fresh;
    w', left, ok := RewriteChunks(erased, order, ids, order', ids', stamp, left, base);
    if !ok || left == 0 {
      return w', ids', nextId', false;
    }
    ghost var chained := w';
    var body := Composition(|order'|, [], Some(ids'[0]), w.root[comp].body.rest);
    WriteForks(base, w', stamp, comp, body);
    w' := Write(w', comp, stamp, body);
    SpilledOk(w.root, erased.root, chained.root, w'.root, comp, order, ids, order', ids', nextId');
    TouchedSpill(w.touched, erased.touched, chained.touched, comp, order, ids, order', ids', nextId);
  }

  lemma TouchedSpill(touched: seq<Id>, erased: seq<Id>, chained: seq<Id>, comp: Id, order: seq<Id>, ids: seq<Id>,
                     order': seq<Id>,
                     ids': seq<Id>, nextId: Id)
    requires Distinct(ids) && forall p | 0 <= p < |ids| && p < |ids'| :: ids'[p] == ids[p]
    requires NewIdsFrom(ids, ids', nextId) && forall i | 0 <= i < |ids| :: ids[i] < nextId
    requires TouchesToo(touched, erased, ids[Min(|ids'|, |ids|)..])
    requires forall id :: id in chained <==> id in erased || Rewritten(order, ids, order', ids', |ids'|, id)
    ensures TouchedExactly(touched, Touched(chained, comp), comp, order, ids, order', ids')
  {
    hide Rewritten;
    SurplusIsGone(ids, ids');
  }

  /** Chunk ids by position: keep what fits, erase the surplus, mint the growth. */
  method AssignIds(w: Draft, comp: Id, ghost order: seq<Id>, ids: seq<Id>, count: nat, nextId: Id, stamp: nat,
                   grants: nat, ghost base: Doc)
    returns (erased: Draft, ids': seq<Id>, nextId': Id, left: nat, ok: bool)
    requires ForkedFrom(base, w, stamp)
    requires IsMembership(w.root, comp, order, ids) && Fresh(w.root, nextId)
    ensures ForkedFrom(base, erased, stamp)
    ensures nextId <= nextId' && |ids'| == count && Distinct(ids') && Distinct(ids)
    ensures comp !in ids' && NewIdsFrom(ids, ids', nextId) && forall i | 0 <= i < |ids'| :: ids'[i] < nextId'
    ensures forall i | 0 <= i < |ids| :: ids[i] < nextId
    ensures forall p | 0 <= p < |ids| && p < |ids'| :: ids'[p] == ids[p]
    ensures grants >= |ids| ==> ok && left >= grants - |ids|
    ensures ok ==> forall id: Id :: Get(erased.root, id) == if id in ids[Min(count, |ids|)..] then None else Get(w.root, id)
    ensures ok ==> TouchesToo(w.touched, erased.touched, ids[Min(count, |ids|)..])
  {
    MembersAreRecords(w.root, comp, order, ids);
    var kept := Min(count, |ids|);
    ids', nextId' := MintIds(ids[..kept], count, nextId);
    assert forall p | 0 <= p < kept :: ids'[p] == ids[..kept][p] == ids[p];
    CompNotInChain(w.root, comp, order, ids, ids', kept, nextId);
    erased, left, ok := EraseAll(w, ids[kept..], grants, base, stamp);
  }

  /** The surplus is what the new chain no longer lists. */
  lemma SurplusIsGone(ids: seq<Id>, ids': seq<Id>)
    requires Distinct(ids) && forall p | 0 <= p < |ids| && p < |ids'| :: ids'[p] == ids[p]
    requires forall p | |ids| <= p < |ids'| :: ids'[p] !in ids
    ensures forall id :: id in ids[Min(|ids'|, |ids|)..] <==> id in ids && id !in ids'
  {
    var kept := Min(|ids'|, |ids|);
    forall id | id in ids[kept..] ensures id in ids && id !in ids' {
      var i :| 0 <= i < |ids| - kept && ids[kept..][i] == id;
      assert ids[kept + i] == id;
    }
    forall i | 0 <= i < kept ensures ids[i] in ids' {
      assert ids'[i] in ids';
    }
    forall i | kept <= i < |ids| ensures ids[i] in ids[kept..] {
      assert ids[kept..][i - kept] == ids[i];
    }
  }

  lemma SpilledOk(doc: Doc, erased: Doc, chained: Doc, doc': Doc, comp: Id, order: seq<Id>, ids: seq<Id>, order': seq<Id>,
                  ids': seq<Id>, nextId': Id)
    requires IsMembership(doc, comp, order, ids) && comp !in ids' && Distinct(ids) && |order'| > INLINE_LAYERS
    requires forall p | 0 <= p < |ids| && p < |ids'| :: ids'[p] == ids[p]
    requires forall id: Id :: Get(erased, id) == if id in ids[Min(|ids'|, |ids|)..] then None else Get(doc, id)
    requires Chain(chained, OrderChunk, ids', Parts(order', OrderChunk)) && ids' != []
    requires forall id: Id | id !in ids' :: Get(chained, id) == Get(erased, id)
    requires forall p: nat | p < |ids'| && ChunkStays(order, ids, order', ids', p) :: Get(chained, ids[p]) == Get(erased, ids[p])
    requires exists stamp, rest :: doc' == chained[comp := Record(comp, stamp, Composition(|order'|, [], Some(ids'[0]), rest))]
    requires Fresh(doc, nextId') && forall i | 0 <= i < |ids'| :: ids'[i] < nextId'
    ensures IsMembership(doc', comp, order', ids') && Fresh(doc', nextId')
    ensures Framed(doc, doc', comp, order, ids, order', ids')
  {
    forall id: Id | id != comp ensures Get(doc', id) == Get(chained, id) {
    }
    forall p: nat | p < |ids'| && ChunkStays(order, ids, order', ids', p) ensures Get(doc', ids[p]) == Get(erased, ids[p]) {
      assert ids[p] == ids'[p];
    }
    assert comp in doc' && doc'[comp].body.Composition? && doc'[comp].body.count == |order'| && doc'[comp].body.layers == [];
    assert doc'[comp].body.spill == HeadOf(ids');
    hide ChunkStays, Chain, Parts;
    ChainStill(chained, doc', OrderChunk, ids', Parts(order', OrderChunk));
    FramedSpill(doc, erased, doc', comp, order, ids, order', ids', Min(|ids'|, |ids|));
    forall id | id in doc' ensures id < nextId' {
      assert id !in ids' && id != comp ==> Get(doc', id) == Get(erased, id);
    }
  }

  lemma MembersAreRecords(doc: Doc, comp: Id, order: seq<Id>, ids: seq<Id>)
    requires IsMembership(doc, comp, order, ids)
    ensures Distinct(ids) && forall p | 0 <= p < |ids| :: ids[p] in doc
    ensures |order| <= INLINE_LAYERS || |ids| == |Parts(order, OrderChunk)|
  {
    if |order| > INLINE_LAYERS {
      forall p | 0 <= p < |ids| ensures ids[p] in doc {
        assert ChunkIs(doc, ids[p], OrderChunk, Parts(order, OrderChunk)[p], NextOf(ids, p));
      }
    }
  }

  lemma KeptChunks(doc: Doc, erased: Doc, comp: Id, order: seq<Id>, ids: seq<Id>, count: nat)
    requires IsMembership(doc, comp, order, ids)
    requires forall id: Id :: Get(erased, id) == if id in ids[Min(count, |ids|)..] then None else Get(doc, id)
    ensures forall p | 0 <= p < |ids| && p < count ::
              p < |Parts(order, OrderChunk)| && ChunkIs(erased, ids[p], OrderChunk, Parts(order, OrderChunk)[p], NextOf(ids, p))
  {
    MembersAreRecords(doc, comp, order, ids);
    forall p | 0 <= p < |ids| && p < count
      ensures p < |Parts(order, OrderChunk)|
      ensures ChunkIs(erased, ids[p], OrderChunk, Parts(order, OrderChunk)[p], NextOf(ids, p))
    {
      assert ChunkIs(doc, ids[p], OrderChunk, Parts(order, OrderChunk)[p], NextOf(ids, p));
      assert ids[p] !in ids[Min(count, |ids|)..];
      assert Get(erased, ids[p]) == Get(doc, ids[p]);
    }
  }

  lemma CompNotInChain(doc: Doc, comp: Id, order: seq<Id>, ids: seq<Id>, ids': seq<Id>, kept: nat, nextId: Id)
    requires IsMembership(doc, comp, order, ids) && Fresh(doc, nextId) && kept <= |ids| && ids[..kept] <= ids'
    requires forall i | kept <= i < |ids'| :: nextId <= ids'[i]
    ensures comp !in ids'
  {
    forall i | 0 <= i < |ids'| ensures ids'[i] != comp {
      if i < kept {
        assert ids'[i] == ids[..kept][i] == ids[i];
      }
    }
  }

  lemma FramedSpill(doc: Doc, erased: Doc, doc': Doc, comp: Id, order: seq<Id>, ids: seq<Id>, order': seq<Id>,
                    ids': seq<Id>, kept: nat)
    requires comp !in ids && comp !in ids' && Distinct(ids) && kept == Min(|ids'|, |ids|)
    requires forall p | 0 <= p < kept :: ids'[p] == ids[p]
    requires forall id: Id :: Get(erased, id) == if id in ids[kept..] then None else Get(doc, id)
    requires forall id: Id | id !in ids' && id != comp :: Get(doc', id) == Get(erased, id)
    requires forall p: nat | p < |ids'| && ChunkStays(order, ids, order', ids', p) :: Get(doc', ids[p]) == Get(erased, ids[p])
    ensures Framed(doc, doc', comp, order, ids, order', ids')
  {
    forall id: Id | id in ids && id !in ids' ensures id !in doc' {
      var p :| 0 <= p < |ids| && ids[p] == id;
      assert forall q | 0 <= q < kept :: ids'[q] == ids[q] && ids'[q] in ids';
      assert ids[kept..][p - kept] == id;
      assert Get(doc', id) == Get(erased, id);
    }
    forall p: nat | p < |ids'| && ChunkStays(order, ids, order', ids', p)
      ensures Get(doc', ids[p]) == Get(doc, ids[p])
    {
      assert ids[p] !in ids[kept..];
    }
    forall id: Id | id != comp && id !in ids && id !in ids' ensures Get(doc', id) == Get(doc, id) {
      assert id !in ids[kept..];
    }
  }

  // ---- The transaction's edits ---------------------------------------------------------------

  /** `attach_layer`: insert at the index, or at the end when it is past it. */
  method AttachLayer(w: Draft, comp: Id, layer: Id, at: nat, ghost order: seq<Id>, ghost ids: seq<Id>, nextId: Id,
                     stamp: nat, grants: nat, ghost base: Doc)
    returns (w': Draft, ghost ids': seq<Id>, nextId': Id, ok: bool)
    requires ForkedFrom(base, w, stamp)
    requires Fresh(w.root, nextId) && (IsComposition(w.root, comp) ==> IsMembership(w.root, comp, order, ids))
    ensures ForkedFrom(base, w', stamp) && nextId <= nextId'
    ensures grants > |ids| + CeilDiv(|order| + 1, OrderChunk) ==> ok
    ensures if !IsComposition(w.root, comp) || layer !in w.root then ok && w' == w && nextId' == nextId
            else ok ==> Edited(w, w', comp, order, ids, InsertAt(order, Min(at, |order|), layer), ids', nextId, nextId')
  {
    w', ids', nextId', ok := w, ids, nextId, true;
    if comp !in w.root || !w.root[comp].body.Composition? || layer !in w.root {
      return;
    }
    var oldOrder, chunkIds := ReadLayerOrder(w.root, comp, order, ids);
    var newOrder := InsertAt(oldOrder, Min(at, |oldOrder|), layer);
    w', ids', nextId', ok := StoreMembership(w, comp, oldOrder, chunkIds, newOrder, nextId, stamp, grants, base);
  }

  /** `std::find`. */
  method IndexOf(order: seq<Id>, layer: Id) returns (index: nat)
    ensures index <= |order| && (index == |order| <==> layer !in order)
    ensures index < |order| ==> FirstAt(order, layer, index)
  {
    index := 0;
    while index < |order| && order[index] != layer
      invariant index <= |order| && forall j | 0 <= j < index :: order[j] != layer
    {
      index := index + 1;
    }
  }

  /** `detach_layer`: remove the first occurrence; a non-member changes nothing. */
  method DetachLayer(w: Draft, comp: Id, layer: Id, ghost order: seq<Id>, ghost ids: seq<Id>, nextId: Id, stamp: nat,
                     grants: nat,
                     ghost base: Doc)
    returns (w': Draft, ghost ids': seq<Id>, nextId': Id, ok: bool)
    requires ForkedFrom(base, w, stamp)
    requires Fresh(w.root, nextId) && (IsComposition(w.root, comp) ==> IsMembership(w.root, comp, order, ids))
    ensures ForkedFrom(base, w', stamp) && nextId <= nextId'
    ensures grants > |ids| + CeilDiv(|order|, OrderChunk) ==> ok
    ensures if !IsComposition(w.root, comp) || layer !in order then ok && w' == w && nextId' == nextId
            else exists i: nat :: FirstAt(order, layer, i) && i < |order| &&
                   (ok ==> Edited(w, w', comp, order, ids, RemoveAt(order, i), ids', nextId, nextId'))
  {
    w', ids', nextId', ok := w, ids, nextId, true;
    if comp !in w.root || !w.root[comp].body.Composition? {
      return;
    }
    var oldOrder, chunkIds := ReadLayerOrder(w.root, comp, order, ids);
    var index := IndexOf(oldOrder, layer);
    if index == |oldOrder| {
      return;
    }
    hide Framed, Chain, Parts, NewIdsFrom, Fresh, FirstAt, ForkedFrom, TouchedExactly;
    CeilDivMonotone(|oldOrder| - 1, |oldOrder|);
    w', ids', nextId', ok := StoreMembership(w, comp, oldOrder, chunkIds, RemoveAt(oldOrder, index), nextId, stamp, grants, base);
  }

  lemma CeilDivMonotone(a: nat, b: nat)
    requires a <= b
    ensures CeilDiv(a, OrderChunk) <= CeilDiv(b, OrderChunk)
  {
  }

  /** `reorder_layer`: out of range or in place changes nothing. */
  method ReorderLayer(w: Draft, comp: Id, from: nat, to: nat, ghost order: seq<Id>, ghost ids: seq<Id>, nextId: Id, stamp: nat,
                      grants: nat, ghost base: Doc)
    returns (w': Draft, ghost ids': seq<Id>, nextId': Id, ok: bool)
    requires ForkedFrom(base, w, stamp)
    requires Fresh(w.root, nextId) && (IsComposition(w.root, comp) ==> IsMembership(w.root, comp, order, ids))
    ensures ForkedFrom(base, w', stamp) && nextId <= nextId'
    ensures grants > |ids| + CeilDiv(|order|, OrderChunk) ==> ok
    ensures if !IsComposition(w.root, comp) || from >= |order| || to >= |order| || from == to then ok && w' == w && nextId' == nextId
            else ok ==> Edited(w, w', comp, order, ids, MoveItem(order, from, to), ids', nextId, nextId')
    ensures from < |order| && to < |order| ==> Moved(order, from, to, MoveItem(order, from, to))
  {
    if from < |order| && to < |order| {
      MoveMoves(order, from, to);
    }
    hide Moved;
    w', ids', nextId', ok := w, ids, nextId, true;
    if comp !in w.root || !w.root[comp].body.Composition? {
      return;
    }
    var oldOrder, chunkIds := ReadLayerOrder(w.root, comp, order, ids);
    if from >= |oldOrder| || to >= |oldOrder| || from == to {
      return;
    }
    w', ids', nextId', ok := StoreMembership(w, comp, oldOrder, chunkIds, MoveItem(oldOrder, from, to), nextId, stamp, grants, base);
  }

  /** The stored form is determined by the records: one list, one chain. */
  lemma MembershipUnique(doc: Doc, comp: Id, a: seq<Id>, idsA: seq<Id>, b: seq<Id>, idsB: seq<Id>)
    requires IsMembership(doc, comp, a, idsA) && IsMembership(doc, comp, b, idsB)
    ensures a == b && idsA == idsB
  {
    if |a| > INLINE_LAYERS {
      PartsCount(a, OrderChunk);
      PartsCount(b, OrderChunk);
      FlattenParts(a, OrderChunk);
      FlattenParts(b, OrderChunk);
      var pa, pb := Parts(a, OrderChunk), Parts(b, OrderChunk);
      forall p: nat | p < |idsA| ensures idsA[p] == idsB[p] && pa[p] == pb[p] {
        SameChain(doc, OrderChunk, idsA, pa, idsB, pb, p);
      }
      assert pa == pb && idsA == idsB;
    }
  }

  lemma {:induction false} SameChain(doc: Doc, kind: ChunkKind, ids: seq<Id>, parts: seq<seq<nat>>, ids': seq<Id>,
                                     parts': seq<seq<nat>>, p: nat)
    requires Chain(doc, kind, ids, parts) && Chain(doc, kind, ids', parts') && |ids| == |ids'|
    requires HeadOf(ids) == HeadOf(ids') && p < |ids|
    ensures ids[p] == ids'[p] && parts[p] == parts'[p]
  {
    if p > 0 {
      SameChain(doc, kind, ids, parts, ids', parts', p - 1);
      assert ChunkIs(doc, ids[p - 1], kind, parts[p - 1], NextOf(ids, p - 1));
      assert ChunkIs(doc, ids'[p - 1], kind, parts'[p - 1], NextOf(ids', p - 1));
    }
    assert ChunkIs(doc, ids[p], kind, parts[p], NextOf(ids, p));
    assert ChunkIs(doc, ids'[p], kind, parts'[p], NextOf(ids', p));
  }
}
