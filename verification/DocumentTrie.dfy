/** The document as it runs on the stores: a version is a trie root, a record is a counted
    slot, and a journal entry owns the slots it names. Every write, commit and navigation
    is the one of Document on the maps the roots stand for, and every count stays exact,
    whatever the pool refuses on the way. */
module DocumentTrie {
  import D = Document
  import opened HamtOps
  import opened HamtStore
  import opened HamtTrie
  import opened HamtVersions
  import opened Records
  import opened Sequences
  import opened Wrappers

  // ---- The map a root stands for ------------------------------------------------------------

  /** What the record slots hold: written once, when a slot is created. */
  type Payloads = map<Slot, Record>

  function Valued(payloads: Payloads, s: Option<Slot>): Option<Record>
  {
    if s.Some? && s.value in payloads then Some(payloads[s.value]) else None
  }

  /** The root binds each id to a slot that holds the document's record of it. */
  ghost predicate Shows(nodes: NodeMap, root: Root, payloads: Payloads, doc: Doc)
  {
    && ValidRoot(nodes, root) && (forall id | id in doc :: id < 0x1_0000_0000_0000_0000)
    && forall k: Key :: ShowsAt(nodes, root, payloads, doc, k)
  }

  ghost predicate ShowsAt(nodes: NodeMap, root: Root, payloads: Payloads, doc: Doc, k: Key)
  {
    var slot := Find(nodes, root, k);
    (slot.Some? ==> slot.value in payloads) && Get(doc, k) == Valued(payloads, slot)
  }

  /** Slots are written once: an older payload is never replaced. */
  ghost predicate Grows(payloads: Payloads, payloads': Payloads)
  {
    forall s | s in payloads :: s in payloads' && payloads'[s] == payloads[s]
  }

  ghost predicate PayloadsOk(payloads: Payloads, next: Slot)
  {
    forall s | s in payloads :: s < next
  }

  lemma FindIsBinding(nodes: NodeMap, root: Root, k: Key)
    requires ValidRoot(nodes, root)
    ensures var m := Bindings(nodes, root); Find(nodes, root, k) == if k in m then Some(m[k]) else None
  {
    BindingsAreFinds(nodes, root);
  }

  /** Older versions show the same document while nodes and payloads are only added. */
  lemma StillShows(nodes: NodeMap, nodes': NodeMap, root: Root, payloads: Payloads, payloads': Payloads, doc: Doc)
    requires Shows(nodes, root, payloads, doc) && Extends(nodes, nodes') && Grows(payloads, payloads')
    ensures Shows(nodes', root, payloads', doc)
  {
    ExtendedVersions(nodes, nodes', root);
    forall k: Key ensures ShowsAt(nodes', root, payloads', doc, k) {
      assert ShowsAt(nodes, root, payloads, doc, k);
      FindIsBinding(nodes, root, k);
      FindIsBinding(nodes', root, k);
    }
  }

  /** ... and while a drain takes away only what nobody holds. */
  lemma DrainedShows(st: Stores, st': Stores, refs: Refs, recordRefs: Refs, root: Root, payloads: Payloads, doc: Doc)
    requires Shows(st.nodes, root, payloads, doc) && (root.Some? ==> root.value in refs)
    requires Balanced(st', refs, recordRefs) && Extends(st'.nodes, st.nodes)
    ensures Shows(st'.nodes, root, payloads, doc)
  {
    DrainKeepsHeldVersions(st, st', refs, recordRefs, root);
    forall k: Key ensures ShowsAt(st'.nodes, root, payloads, doc, k) {
      assert ShowsAt(st.nodes, root, payloads, doc, k);
      FindIsBinding(st.nodes, root, k);
      FindIsBinding(st'.nodes, root, k);
    }
  }

  /** A root whose bindings are the old ones with one key rebound shows the document with
      that object rebound. */
  lemma ReboundShows(nodes: NodeMap, root: Root, nodes': NodeMap, root': Root, payloads: Payloads, payloads': Payloads,
                     doc: Doc, key: Key, slot: Option<Slot>)
    requires Shows(nodes, root, payloads, doc) && ValidRoot(nodes', root') && Grows(payloads, payloads')
    requires slot.Some? ==> slot.value in payloads'
    requires var m := Bindings(nodes, root);
             Bindings(nodes', root') == if slot.Some? then m[key := slot.value] else m - {key}
    ensures Shows(nodes', root', payloads', Bind(doc, key, Valued(payloads', slot)))
  {
    var doc' := Bind(doc, key, Valued(payloads', slot));
    forall k: Key ensures ShowsAt(nodes', root', payloads', doc', k) {
      assert ShowsAt(nodes, root, payloads, doc, k);
      FindIsBinding(nodes, root, k);
      FindIsBinding(nodes', root', k);
    }
  }

  /** Two roots that show the same document over the same payloads bind the same objects. */
  lemma ShownUnique(nodes: NodeMap, root: Root, payloads: Payloads, a: Doc, b: Doc)
    requires Shows(nodes, root, payloads, a) && Shows(nodes, root, payloads, b)
    ensures a == b
  {
    forall id: Id ensures Get(a, id) == Get(b, id) {
      if id < 0x1_0000_0000_0000_0000 {
        assert ShowsAt(nodes, root, payloads, a, id) && ShowsAt(nodes, root, payloads, b, id);
      }
    }
    D.SameGets(a, b);
  }

  // ---- One write ------------------------------------------------------------------------------

  /** Let go of one handle on a root. */
  method DropRoot(st: Stores, root: Root, ghost refs: Refs, ghost recordRefs: Refs) returns (st': Stores)
    requires Balanced(st, refs + RootRef(root), recordRefs)
    ensures Balanced(st', refs, recordRefs)
    ensures st'.nodes == st.nodes && st'.next == st.next && st'.limit == st.limit && st'.recordCounts == st.recordCounts
  {
    match root
    case None =>
      assert refs + RootRef(root) == refs;
      return st;
    case Some(slot) =>
      assert refs + RootRef(root) - multiset{slot} == refs;
      ReleaseNodeExact(st, refs + RootRef(root), recordRefs, slot);
      return ReleaseNode(st, slot);
  }

  lemma HandleIsUsable(st: Stores, root: Root, refs: Refs, recordRefs: Refs)
    requires Balanced(st, refs + RootRef(root), recordRefs) && ValidRoot(st.nodes, root)
    ensures UsableRoot(st, root)
  {
    if root.Some? {
      HeldMeansCounted(st, refs + RootRef(root), recordRefs, root.value);
    }
  }

  /** The working root makes way for the next one. */
  lemma HandOver(refs: Refs, root: Root, root': Root)
    ensures refs + RootRef(root) + RootRef(root') == refs + RootRef(root') + RootRef(root)
  {
  }

  /** A setter's tail: a fresh record for `key`, bound in the next working root. A refusal
      leaves the working root as it was. */
  method WriteObject(st: Stores, payloads: Payloads, root: Root, key: Key, value: Record, ghost refs: Refs,
                     ghost recordRefs: Refs, ghost doc: Doc)
    returns (st': Stores, payloads': Payloads, root': Root, r: Result<Slot, PoolError>)
    requires Balanced(st, refs + RootRef(root), recordRefs) && Shows(st.nodes, root, payloads, doc)
    requires PayloadsOk(payloads, st.next)
    ensures Balanced(st', refs + RootRef(root'), recordRefs) && Extends(st.nodes, st'.nodes)
    ensures Grows(payloads, payloads') && PayloadsOk(payloads', st'.next) && st'.limit == st.limit
    ensures Shows(st'.nodes, root', payloads', if r.Success? then doc[key := value] else doc)
    ensures r.Success? ==> r.value == st.next && payloads' == payloads[r.value := value]
    ensures r.Failure? ==> root' == root && payloads' == payloads && Refused(st', refs + RootRef(root), recordRefs, 3, r.error)
  {
    hide Shows, Balanced, Bindings, ValidRoot, Refused;
    assert ValidRoot(st.nodes, root) by { ShownIsValid(st.nodes, root, payloads, doc); }
    HandleIsUsable(st, root, refs, recordRefs);
    st', r, root' := PutRecord(st, root, key, refs + RootRef(root), recordRefs);
    payloads' := payloads;
    match r {
      case Failure(e) =>
        StillShows(st.nodes, st'.nodes, root, payloads, payloads, doc);
        root' := root;
      case Success(slot) =>
        payloads' := payloads[slot := value];
        ReboundShows(st.nodes, root, st'.nodes, root', payloads, payloads', doc, key, Some(slot));
        HandOver(refs, root, root');
        st' := DropRoot(st', root, refs + RootRef(root'), recordRefs);
    }
  }

  lemma ShownIsValid(nodes: NodeMap, root: Root, payloads: Payloads, doc: Doc)
    requires Shows(nodes, root, payloads, doc)
    ensures ValidRoot(nodes, root)
  {
  }

  /** Bind `key` to a record somebody already holds. */
  method BindObject(st: Stores, payloads: Payloads, root: Root, key: Key, slot: Slot, ghost refs: Refs,
                    ghost recordRefs: Refs, ghost doc: Doc)
    returns (st': Stores, root': Root, r: Result<Slot, PoolError>)
    requires Balanced(st, refs + RootRef(root), recordRefs) && Shows(st.nodes, root, payloads, doc)
    requires slot in recordRefs && slot in payloads
    ensures Balanced(st', refs + RootRef(root'), recordRefs) && Extends(st.nodes, st'.nodes) && st.next <= st'.next
    ensures Shows(st'.nodes, root', payloads, if r.Success? then doc[key := payloads[slot]] else doc) && st'.limit == st.limit
    ensures r.Failure? ==> root' == root && Refused(st', refs + RootRef(root), recordRefs, 3, r.error)
  {
    hide Shows, Balanced, Bindings, ValidRoot;
    assert ValidRoot(st.nodes, root) by { ShownIsValid(st.nodes, root, payloads, doc); }
    HandleIsUsable(st, root, refs, recordRefs);
    st', r := HamtInsert(st, root, key, slot, refs + RootRef(root), recordRefs);
    root' := root;
    match r {
      case Failure(e) =>
        StillShows(st.nodes, st'.nodes, root, payloads, payloads, doc);
      case Success(n) =>
        root' := Some(n);
        ReboundShows(st.nodes, root, st'.nodes, root', payloads, payloads, doc, key, Some(slot));
        HandOver(refs, root, root');
        st' := DropRoot(st', root, refs + RootRef(root'), recordRefs);
    }
  }

  /** Erase `key` from the working root. */
  method EraseObject(st: Stores, payloads: Payloads, root: Root, key: Key, ghost refs: Refs, ghost recordRefs: Refs,
                     ghost doc: Doc)
    returns (st': Stores, root': Root, r: Result<Root, PoolError>)
    requires Balanced(st, refs + RootRef(root), recordRefs) && Shows(st.nodes, root, payloads, doc)
    ensures Balanced(st', refs + RootRef(root'), recordRefs) && Extends(st.nodes, st'.nodes) && st.next <= st'.next
    ensures Shows(st'.nodes, root', payloads, if r.Success? then doc - {key} else doc) && st'.limit == st.limit
    ensures r.Failure? ==> root' == root && Refused(st', refs + RootRef(root), recordRefs, 3, r.error)
  {
    hide Shows, Balanced, Bindings, ValidRoot;
    assert ValidRoot(st.nodes, root) by { ShownIsValid(st.nodes, root, payloads, doc); }
    HandleIsUsable(st, root, refs, recordRefs);
    st', r := HamtErase(st, root, key, refs + RootRef(root), recordRefs);
    root' := root;
    match r {
      case Failure(e) =>
        StillShows(st.nodes, st'.nodes, root, payloads, payloads, doc);
      case Success(next) =>
        root' := next;
        ReboundShows(st.nodes, root, st'.nodes, root', payloads, payloads, doc, key, None);
        NoneIsNoRef(refs + RootRef(root), next);
        HandOver(refs, root, root');
        st' := DropRoot(st', root, refs + RootRef(root'), recordRefs);
    }
  }

  lemma NoneIsNoRef(refs: Refs, root: Root)
    ensures refs + RootRef(root) == if root.Some? then refs + multiset{root.value} else refs
  {
  }

  // ---- What a journal entry owns ----------------------------------------------------------------

  type SlotEdit = D.Edit<Option<Slot>>

  /** The record slots the edits name, each once for each side that names it. */
  ghost function SlotsOf(edits: seq<SlotEdit>): seq<Option<Slot>>
  {
    if edits == [] then []
    else
      var last := edits[|edits| - 1];
      SlotsOf(edits[..|edits| - 1]) + [last.before] + [last.after]
  }

  ghost function OwnedBy(edits: seq<SlotEdit>): Refs
  {
    Handles(SlotsOf(edits))
  }

  ghost function Owned(entries: seq<seq<SlotEdit>>): Refs
  {
    if entries == [] then multiset{} else Owned(entries[..|entries| - 1]) + OwnedBy(entries[|entries| - 1])
  }

  ghost function Valuation(edits: seq<SlotEdit>, payloads: Payloads): seq<D.Edit<Option<Record>>>
  {
    seq(|edits|, i requires 0 <= i < |edits| =>
      D.Edit(edits[i].subject, Valued(payloads, edits[i].before), Valued(payloads, edits[i].after)))
  }

  lemma OwnedByMore(edits: seq<SlotEdit>, e: SlotEdit)
    ensures OwnedBy(edits + [e]) == OwnedBy(edits) + RootRef(e.before) + RootRef(e.after)
  {
    assert (edits + [e])[..|edits|] == edits;
    HandlesPlus(SlotsOf(edits), e.before);
    HandlesPlus(SlotsOf(edits) + [e.before], e.after);
  }

  lemma OwnedMore(entries: seq<seq<SlotEdit>>, edits: seq<SlotEdit>)
    ensures Owned(entries + [edits]) == Owned(entries) + OwnedBy(edits)
  {
    assert (entries + [edits])[..|entries|] == entries;
  }

  lemma {:induction false} OwnedWithout(entries: seq<seq<SlotEdit>>, i: nat)
    requires i < |entries|
    ensures Owned(entries) == Owned(entries[..i] + entries[i + 1..]) + OwnedBy(entries[i])
  {
    hide OwnedBy;
    var last := |entries| - 1;
    if i == last {
      assert entries[..i] + entries[i + 1..] == entries[..last];
    } else {
      hide Owned;
      OwnedWithout(entries[..last], i);
      var rest, front := entries[..i] + entries[i + 1..], entries[..last][..i] + entries[..last][i + 1..];
      assert rest == front + [entries[last]] && entries == entries[..last] + [entries[last]];
      OwnedMore(front, entries[last]);
      OwnedMore(entries[..last], entries[last]);
      Swap(Owned(front), OwnedBy(entries[i]), OwnedBy(entries[last]));
    }
  }

  lemma {:induction false} NamedIsOwned(edits: seq<SlotEdit>, i: nat)
    requires i < |edits|
    ensures edits[i].before.Some? ==> edits[i].before.value in OwnedBy(edits)
    ensures edits[i].after.Some? ==> edits[i].after.value in OwnedBy(edits)
  {
    var last := |edits| - 1;
    OwnedByMore(edits[..last], edits[last]);
    assert edits == edits[..last] + [edits[last]];
    if i < last {
      hide OwnedBy;
      NamedIsOwned(edits[..last], i);
    }
  }

  /** Count one more owner of the record a root binds to `key`, if any. */
  method HoldEdge(st: Stores, root: Root, key: Key, ghost refs: Refs, ghost recordRefs: Refs)
    returns (st': Stores, r: Result<Option<Slot>, PoolError>)
    requires Balanced(st, refs, recordRefs) && ValidRoot(st.nodes, root)
    ensures st'.nodes == st.nodes && st'.next == st.next && st'.limit == st.limit
    ensures r.Success? ==> r.value == Find(st.nodes, root, key) && Balanced(st', refs, recordRefs + RootRef(r.value))
    ensures r.Failure? ==> st' == st && r.error == CapacityExhausted && Crowded(st, refs, recordRefs, 0)
  {
    FindIsBinding(st.nodes, root, key);
    var edge := HamtLookup(st.nodes, root, key);
    match edge {
      case None =>
        assert recordRefs + RootRef(None) == recordRefs;
        return st, Success(None);
      case Some(slot) =>
        BoundMeansCounted(st, refs, recordRefs, root, key);
        if st.recordCounts[slot] == MAX_COUNT {
          SaturatedMeansCrowded(st, refs, recordRefs, slot);
          return st, Failure(CapacityExhausted);
        }
        RetainRecordExact(st, refs, recordRefs, slot);
        return RetainRecord(st, slot), Success(edge);
    }
  }

  lemma BoundMeansCounted(st: Stores, refs: Refs, recordRefs: Refs, root: Root, key: Key)
    requires Balanced(st, refs, recordRefs) && Find(st.nodes, root, key).Some?
    ensures Counted(st.recordCounts, Find(st.nodes, root, key).value)
  {
    var p := LeafOf(st.nodes, root.value, key, 0);
    LeafMeansCounted(st, refs, recordRefs, p);
  }

  lemma LeafMeansCounted(st: Stores, refs: Refs, recordRefs: Refs, p: Slot)
    requires Balanced(st, refs, recordRefs) && p in st.nodes && st.nodes[p].Leaf?
    ensures Counted(st.recordCounts, st.nodes[p].record)
  {
    Open(st, refs, recordRefs);
    var r := st.nodes[p].record;
    assert p in LeafEdges(st.nodes, r);
    assert st.recordCounts[r] == LeafDegree(st.nodes, r) + recordRefs[r];
  }

  /** The leaf a successful lookup ends at. */
  lemma {:induction false} LeafOf(nodes: NodeMap, slot: Slot, key: Key, depth: nat) returns (p: Slot)
    requires Lookup(nodes, slot, key, depth).Some?
    ensures p in nodes && nodes[p].Leaf? && nodes[p].record == Lookup(nodes, slot, key, depth).value
    decreases DEPTH + 1 - depth
  {
    match nodes[slot]
    case Leaf(_, _) => p := slot;
    case Branch(kids) => p := LeafOf(nodes, kids[DigitAt(key, depth)], key, depth + 1);
  }

  /** Give up one owner of a record. */
  method DropEdge(st: Stores, edge: Option<Slot>, ghost refs: Refs, ghost recordRefs: Refs) returns (st': Stores)
    requires Balanced(st, refs, recordRefs + RootRef(edge))
    ensures Balanced(st', refs, recordRefs)
    ensures st'.nodes == st.nodes && st'.next == st.next && st'.limit == st.limit
  {
    match edge
    case None =>
      assert recordRefs + RootRef(edge) == recordRefs;
      return st;
    case Some(slot) =>
      assert recordRefs + RootRef(edge) - multiset{slot} == recordRefs;
      ReleaseRecordExact(st, refs, recordRefs + RootRef(edge), slot);
      return ReleaseRecord(st, slot);
  }

  /** An entry goes, and gives up every record it named. */
  method DropEntry(st: Stores, edits: seq<SlotEdit>, ghost refs: Refs, ghost recordRefs: Refs) returns (st': Stores)
    requires Balanced(st, refs, recordRefs + OwnedBy(edits))
    ensures Balanced(st', refs, recordRefs)
    ensures st'.nodes == st.nodes && st'.next == st.next && st'.limit == st.limit
  {
    hide OwnedBy, Balanced, RootRef;
    st' := st;
    var n := |edits|;
    assert edits[..n] == edits;
    while n > 0
      invariant n <= |edits| && Balanced(st', refs, recordRefs + OwnedBy(edits[..n]))
      invariant st'.nodes == st.nodes && st'.next == st.next && st'.limit == st.limit
    {
      var e := edits[n - 1];
      EntryShrinks(recordRefs, edits, n);
      st' := DropEdge(st', e.after, refs, recordRefs + OwnedBy(edits[..n - 1]) + RootRef(e.before));
      st' := DropEdge(st', e.before, refs, recordRefs + OwnedBy(edits[..n - 1]));
      n := n - 1;
    }
    NothingOwned(recordRefs, edits[..0]);
  }

  lemma EntryShrinks(recordRefs: Refs, edits: seq<SlotEdit>, n: nat)
    requires 0 < n <= |edits|
    ensures recordRefs + OwnedBy(edits[..n])
         == recordRefs + OwnedBy(edits[..n - 1]) + RootRef(edits[n - 1].before) + RootRef(edits[n - 1].after)
  {
    assert edits[..n] == edits[..n - 1] + [edits[n - 1]];
    hide OwnedBy;
    OwnedByMore(edits[..n - 1], edits[n - 1]);
  }

  lemma NothingOwned(recordRefs: Refs, edits: seq<SlotEdit>)
    requires edits == []
    ensures recordRefs + OwnedBy(edits) == recordRefs
  {
  }

  /** Ids are 64 bits wide. */
  ghost predicate AllKeys(touched: seq<Id>)
  {
    forall i | 0 <= i < |touched| :: touched[i] < 0x1_0000_0000_0000_0000
  }

  // ---- The commit's entry -------------------------------------------------------------------------

  /** The entry names, for each of the first `n` touched ids, what either root binds. */
  ghost predicate Names(nodes: NodeMap, base: Root, root: Root, touched: seq<Id>, edits: seq<SlotEdit>, n: nat)
    requires AllKeys(touched)
  {
    && |edits| == n <= |touched|
    && forall i | 0 <= i < n ::
         edits[i] == D.Edit(touched[i], Find(nodes, base, touched[i]), Find(nodes, root, touched[i]))
  }

  /** Own both edges of one touched id, or neither. */
  method HoldBoth(st: Stores, base: Root, root: Root, id: Key, ghost refs: Refs, ghost recordRefs: Refs)
    returns (st': Stores, r: Result<SlotEdit, PoolError>)
    requires Balanced(st, refs, recordRefs) && ValidRoot(st.nodes, base) && ValidRoot(st.nodes, root)
    ensures st'.nodes == st.nodes && st'.next == st.next && st'.limit == st.limit
    ensures r.Success? ==>
              && r.value == D.Edit(id, Find(st.nodes, base, id), Find(st.nodes, root, id))
              && Balanced(st', refs, recordRefs + RootRef(r.value.before) + RootRef(r.value.after))
    ensures r.Failure? ==> r.error == CapacityExhausted && Balanced(st', refs, recordRefs) && Crowded(st', refs, recordRefs, 1)
  {
    hide Balanced, ValidRoot, Find;
    var before, after;
    st', before := HoldEdge(st, base, id, refs, recordRefs);
    if before.Failure? {
      return st', Failure(CapacityExhausted);
    }
    st', after := HoldEdge(st', root, id, refs, recordRefs + RootRef(before.value));
    if after.Failure? {
      st' := DropEdge(st', before.value, refs, recordRefs);
      return st', Failure(CapacityExhausted);
    }
    return st', Success(D.Edit(id, before.value, after.value));
  }

  /** `commit`'s loop over the touched ids. The first refused retain gives back all the
      others. */
  method BuildEntry(st: Stores, base: Root, root: Root, touched: seq<Id>, ghost refs: Refs, ghost recordRefs: Refs)
    returns (st': Stores, r: Result<seq<SlotEdit>, PoolError>)
    requires Balanced(st, refs, recordRefs) && ValidRoot(st.nodes, base) && ValidRoot(st.nodes, root) && AllKeys(touched)
    ensures st'.nodes == st.nodes && st'.next == st.next && st'.limit == st.limit
    ensures r.Success? ==>
              Balanced(st', refs, recordRefs + OwnedBy(r.value)) && Names(st.nodes, base, root, touched, r.value, |touched|)
    ensures r.Failure? ==> Balanced(st', refs, recordRefs) && r.error == CapacityExhausted
    ensures r.Failure? ==> Crowded(st', refs, recordRefs, 2 * |touched|)
  {
    hide Balanced, OwnedBy, ValidRoot, Find, RootRef;
    st' := st;
    var edits: seq<SlotEdit> := [];
    NothingOwned(recordRefs, []);
    for i := 0 to |touched|
      invariant st'.nodes == st.nodes && st'.next == st.next && st'.limit == st.limit
      invariant Names(st.nodes, base, root, touched, edits, i) && Balanced(st', refs, recordRefs + OwnedBy(edits))
    {
      var e;
      st', e := HoldBoth(st', base, root, touched[i], refs, recordRefs + OwnedBy(edits));
      if e.Failure? {
        OwnedSize(edits);
        st' := DropEntry(st', edits, refs, recordRefs);
        return st', Failure(CapacityExhausted);
      }
      OwnedByMore(edits, e.value);
      Gathered(recordRefs, OwnedBy(edits), RootRef(e.value.before), RootRef(e.value.after));
      edits := edits + [e.value];
    }
    return st', Success(edits);
  }

  lemma Gathered(a: Refs, b: Refs, c: Refs, d: Refs)
    ensures a + b + c + d == a + (b + c + d)
  {
  }

  lemma {:induction false} OwnedSize(edits: seq<SlotEdit>)
    ensures |OwnedBy(edits)| <= 2 * |edits|
  {
    if edits != [] {
      var last := |edits| - 1;
      assert edits == edits[..last] + [edits[last]];
      hide OwnedBy;
      OwnedByMore(edits[..last], edits[last]);
      OwnedSize(edits[..last]);
    } else {
      NothingOwned(multiset{}, edits);
    }
  }

  /** Read through the payloads, the entry maps the base document to the new one. */
  lemma NamesMap(nodes: NodeMap, base: Root, root: Root, payloads: Payloads, touched: seq<Id>, edits: seq<SlotEdit>,
                 before: Doc, after: Doc)
    requires AllKeys(touched) && Names(nodes, base, root, touched, edits, |touched|) && Distinct(touched)
    requires Shows(nodes, base, payloads, before) && Shows(nodes, root, payloads, after)
    requires forall id: Id | id !in touched :: Get(after, id) == Get(before, id)
    ensures D.EditsMap(Valuation(edits, payloads), before, after)
  {
    var values := Valuation(edits, payloads);
    forall i | 0 <= i < |values|
      ensures values[i].before == Get(before, touched[i]) && values[i].after == Get(after, touched[i])
    {
      assert ShowsAt(nodes, base, payloads, before, touched[i]) && ShowsAt(nodes, root, payloads, after, touched[i]);
    }
    forall id: Id | !D.Touches(values, id) ensures Get(before, id) == Get(after, id) {
      forall i | 0 <= i < |touched| ensures touched[i] != id {
        assert values[i].subject == touched[i];
      }
    }
  }

  // ---- Navigation -----------------------------------------------------------------------------------

  /** An entry's edits are of distinct objects, and every record they name is the object's. */
  ghost predicate EntryOk(edits: seq<SlotEdit>, payloads: Payloads)
  {
    && D.DistinctObjects(edits)
    && forall i | 0 <= i < |edits| ::
         && edits[i].subject < 0x1_0000_0000_0000_0000
         && NamesObject(edits[i].before, edits[i].subject, payloads) && NamesObject(edits[i].after, edits[i].subject, payloads)
  }

  ghost predicate NamesObject(slot: Option<Slot>, id: Id, payloads: Payloads)
  {
    slot.Some? ==> slot.value in payloads && payloads[slot.value].id == id
  }

  function TargetSlot(e: SlotEdit, dir: D.Direction): Option<Slot>
  {
    if dir == D.ToBefore then e.before else e.after
  }

  /** `navigate` up to its publish, from a root the caller holds. A refusal gives it back. */
  method Rebind(st: Stores, payloads: Payloads, root: Root, edits: seq<SlotEdit>, dir: D.Direction, ghost refs: Refs,
                ghost recordRefs: Refs, ghost doc: Doc)
    returns (st': Stores, root': Root, ghost doc': Doc, r: Result<Root, PoolError>)
    requires Balanced(st, refs + RootRef(root), recordRefs) && Shows(st.nodes, root, payloads, doc) && WellNamed(doc)
    requires EntryOk(edits, payloads) && OwnedBy(edits) <= recordRefs
    ensures Extends(st.nodes, st'.nodes) && st.next <= st'.next && st'.limit == st.limit
    ensures r.Success? ==> r.value == root' && Balanced(st', refs + RootRef(root'), recordRefs)
    ensures r.Success? ==> Shows(st'.nodes, root', payloads, doc') && WellNamed(doc')
    ensures r.Success? ==> D.Rebound(Valuation(edits, payloads), dir, doc, doc')
    ensures r.Failure? ==> Balanced(st', refs, recordRefs) && Refused(st', refs, recordRefs, 4, r.error)
  {
    hide Balanced, Shows, OwnedBy, RootRef, Extends, EntryOk, Refused;
    st', root', doc' := st, root, doc;
    ghost var values := Valuation(edits, payloads);
    assert D.Rebound(values[..0], dir, doc, doc);
    ExtendsItself(st.nodes);
    for i := 0 to |edits|
      invariant Balanced(st', refs + RootRef(root'), recordRefs) && Shows(st'.nodes, root', payloads, doc') && WellNamed(doc')
      invariant Extends(st.nodes, st'.nodes) && st.next <= st'.next && st'.limit == st.limit
      invariant D.Rebound(values[..i], dir, doc, doc')
    {
      EntryAt(edits, payloads, recordRefs, i, dir);
      ghost var was, before := st'.nodes, doc';
      var key: Key, target, failed := edits[i].subject, TargetSlot(edits[i], dir), None;
      if target.Some? {
        var bound;
        st', root', bound := BindObject(st', payloads, root', key, target.value, refs, recordRefs, doc');
        failed := if bound.Failure? then Some(bound.error) else None;
      } else {
        var erased;
        st', root', erased := EraseObject(st', payloads, root', key, refs, recordRefs, doc');
        failed := if erased.Failure? then Some(erased.error) else None;
      }
      ExtendsOn(st.nodes, was, st'.nodes);
      if failed.Some? {
        RefusedWithRoot(st', refs, root', recordRefs, failed.value);
        ghost var full := st';
        st' := DropRoot(st', root', refs, recordRefs);
        SameRefusal(full, st', refs, recordRefs, failed.value);
        return st', root', doc', Failure(failed.value);
      }
      doc' := Bind(before, key, Valued(payloads, target));
      D.RebindOne(values, i, dir, doc, before, doc');
    }
    assert values[..|edits|] == values;
    return st', root', doc', Success(root');
  }

  lemma RefusedWithRoot(st: Stores, refs: Refs, root: Root, recordRefs: Refs, error: PoolError)
    requires Refused(st, refs + RootRef(root), recordRefs, 3, error)
    ensures Refused(st, refs, recordRefs, 4, error)
  {
  }

  lemma SameRefusal(st: Stores, st': Stores, refs: Refs, recordRefs: Refs, error: PoolError)
    requires Refused(st, refs, recordRefs, 4, error) && st'.next == st.next && st'.limit == st.limit
    ensures Refused(st', refs, recordRefs, 4, error)
  {
  }

  lemma ExtendsItself(nodes: NodeMap)
    ensures Extends(nodes, nodes)
  {
  }

  lemma ExtendsOn(a: NodeMap, b: NodeMap, c: NodeMap)
    requires Extends(a, b) && Extends(b, c)
    ensures Extends(a, c)
  {
  }

  lemma EntryAt(edits: seq<SlotEdit>, payloads: Payloads, recordRefs: Refs, i: nat, dir: D.Direction)
    requires EntryOk(edits, payloads) && OwnedBy(edits) <= recordRefs && i < |edits|
    ensures edits[i].subject < 0x1_0000_0000_0000_0000 && D.DistinctObjects(Valuation(edits, payloads))
    ensures var target := TargetSlot(edits[i], dir);
            target.Some? ==> target.value in payloads && payloads[target.value].id == edits[i].subject && target.value in recordRefs
  {
    hide OwnedBy;
    NamedIsOwned(edits, i);
  }

  // ---- Coalescing -----------------------------------------------------------------------------------

  /** Copy the handle on a record somebody holds. The copy asserts that the count is not
      saturated; `ok` says that it was not. */
  method CopyEdge(st: Stores, edge: Option<Slot>, ghost refs: Refs, ghost recordRefs: Refs) returns (st': Stores, ok: bool)
    requires Balanced(st, refs, recordRefs) && RootRef(edge) <= recordRefs
    ensures st'.nodes == st.nodes && st'.next == st.next && st'.limit == st.limit
    ensures ok ==> Balanced(st', refs, recordRefs + RootRef(edge))
    ensures !ok ==> st' == st && Crowded(st, refs, recordRefs, 0)
  {
    match edge
    case None =>
      assert recordRefs + RootRef(edge) == recordRefs;
      return st, true;
    case Some(slot) =>
      assert slot in RootRef(edge) && slot in recordRefs;
      HeldMeansCounted(st, refs, recordRefs, slot);
      if st.recordCounts[slot] == MAX_COUNT {
        SaturatedMeansCrowded(st, refs, recordRefs, slot);
        return st, false;
      }
      RetainRecordExact(st, refs, recordRefs, slot);
      return RetainRecord(st, slot), true;
  }

  /** What a fold passes over: the record between the two commits, once for each entry that
      named it. */
  ghost function Between(base: seq<SlotEdit>, fe: SlotEdit): Refs
  {
    var e := D.EditAt(base, fe.subject);
    if e.Some? then RootRef(e.value.after) + RootRef(fe.before) else multiset{}
  }

  ghost function Middle(base: seq<SlotEdit>, follow: seq<SlotEdit>): Refs
  {
    if follow == [] then multiset{}
    else Middle(base, follow[..|follow| - 1]) + Between(base, follow[|follow| - 1])
  }

  lemma MiddleMore(base: seq<SlotEdit>, follow: seq<SlotEdit>, fe: SlotEdit)
    ensures Middle(base, follow + [fe]) == Middle(base, follow) + Between(base, fe)
  {
    assert (follow + [fe])[..|follow|] == follow;
  }

  /** One edge of an entry replaced. */
  lemma {:induction false} OwnedReplaced(edits: seq<SlotEdit>, i: nat, after: Option<Slot>)
    requires i < |edits|
    ensures OwnedBy(edits) + RootRef(after) == OwnedBy(edits[i := edits[i].(after := after)]) + RootRef(edits[i].after)
  {
    var last := |edits| - 1;
    var front, front' := edits[..last], if i < last then edits[..last][i := edits[i].(after := after)] else edits[..last];
    var edits' := edits[i := edits[i].(after := after)];
    assert edits == front + [edits[last]] && edits' == front' + [edits'[last]];
    hide OwnedBy, RootRef;
    OwnedByMore(front, edits[last]);
    OwnedByMore(front', edits'[last]);
    if i == last {
      Replaced(OwnedBy(front), RootRef(edits[last].before), RootRef(edits[last].after), RootRef(after));
    } else {
      OwnedReplaced(front, i, after);
      ReplacedBelow(OwnedBy(front), RootRef(after), OwnedBy(front'), RootRef(edits[i].after), RootRef(edits[last].before),
                    RootRef(edits[last].after));
    }
  }

  lemma Replaced(a: Refs, b: Refs, was: Refs, now: Refs)
    ensures a + b + was + now == a + b + now + was
  {
  }

  lemma ReplacedBelow(a: Refs, now: Refs, a': Refs, was: Refs, b: Refs, c: Refs)
    requires a + now == a' + was
    ensures a + b + c + now == a' + b + c + was
  {
    assert a + b + c + now == (a + now) + (b + c);
    assert a' + b + c + was == (a' + was) + (b + c);
  }

  method IndexOf(edits: seq<SlotEdit>, id: Id) returns (i: nat)
    ensures i <= |edits| && (i < |edits| ==> edits[i].subject == id)
    ensures i == |edits| ==> forall j | 0 <= j < |edits| :: edits[j].subject != id
  {
    i := 0;
    while i < |edits| && edits[i].subject != id
      invariant i <= |edits| && forall j | 0 <= j < i :: edits[j].subject != id
    {
      i := i + 1;
    }
  }

  /** Fold one edit into an entry: a known object's last edge gives way to a copy of the new
      one, an unknown object comes with copies of both. `others` hold the new edit's edges. */
  method FoldSlots(st: Stores, base: seq<SlotEdit>, fe: SlotEdit, ghost refs: Refs, ghost others: Refs)
    returns (st': Stores, merged: seq<SlotEdit>, ok: bool)
    requires Balanced(st, refs, others + OwnedBy(base)) && D.DistinctObjects(base)
    requires RootRef(fe.before) <= others && RootRef(fe.after) <= others
    ensures st'.nodes == st.nodes && st'.next == st.next && st'.limit == st.limit
    ensures ok ==> D.IsMerge(merged, base, [fe]) && Balanced(st', refs, others + OwnedBy(merged))
    ensures ok ==> OwnedBy(base) + OwnedBy([fe]) == OwnedBy(merged) + Between(base, fe)
    ensures !ok ==> Crowded(st, refs, others + OwnedBy(base), 1)
  {
    hide Balanced, OwnedBy, RootRef, D.IsMerge, D.DistinctObjects;
    OwnedByMore([], fe);
    NothingOwned(multiset{}, []);
    assert [] + [fe] == [fe];
    var i := IndexOf(base, fe.subject);
    if i < |base| {
      st', ok := CopyEdge(st, fe.after, refs, others + OwnedBy(base));
      merged := base[i := base[i].(after := fe.after)];
      if ok {
        D.OnlyEdit(base, i);
        OwnedReplaced(base, i, fe.after);
        Exchange(others, OwnedBy(base), RootRef(fe.after), OwnedBy(merged), RootRef(base[i].after));
        st' := DropEdge(st', base[i].after, refs, others + OwnedBy(merged));
        D.ReplacedEdit(base, i, fe, merged);
        PassedOver(OwnedBy(base), RootRef(fe.before), RootRef(fe.after), OwnedBy(merged), RootRef(base[i].after));
      }
    } else {
      st', ok := CopyEdge(st, fe.before, refs, others + OwnedBy(base));
      merged := base + [fe];
      if ok {
        ghost var held := others + OwnedBy(base) + RootRef(fe.before);
        ghost var one := st';
        st', ok := CopyEdge(st', fe.after, refs, held);
        OwnedByMore(base, fe);
        Gathered(others, OwnedBy(base), RootRef(fe.before), RootRef(fe.after));
        D.AppendedEdit(base, fe, merged);
        OneEdge(fe.before);
        Unknown(OwnedBy(base), RootRef(fe.before), RootRef(fe.after));
      }
    }
  }

  lemma OneEdge(edge: Option<Slot>)
    ensures |RootRef(edge)| <= 1
  {
  }

  lemma Exchange(others: Refs, owned: Refs, after: Refs, owned': Refs, was: Refs)
    requires owned + after == owned' + was
    ensures others + owned + after == others + owned' + was
  {
    assert others + owned + after == others + (owned + after) && others + owned' + was == others + (owned' + was);
  }

  lemma PassedOver(owned: Refs, before: Refs, after: Refs, owned': Refs, was: Refs)
    requires owned + after == owned' + was
    ensures owned + (multiset{} + before + after) == owned' + (was + before)
  {
    assert owned + (multiset{} + before + after) == owned + after + before;
    assert owned' + (was + before) == owned' + was + before;
  }

  lemma Unknown(owned: Refs, before: Refs, after: Refs)
    ensures owned + (multiset{} + before + after) == owned + before + after + multiset{}
  {
  }

  /** The loop of `coalesce_entries` over the objects, and the end of the entry folded in. */
  method MergeSlots(st: Stores, base: seq<SlotEdit>, follow: seq<SlotEdit>, ghost refs: Refs, ghost others: Refs)
    returns (st': Stores, merged: seq<SlotEdit>, ok: bool)
    requires Balanced(st, refs, others + OwnedBy(base) + OwnedBy(follow))
    requires D.DistinctObjects(base) && D.DistinctObjects(follow)
    ensures st'.nodes == st.nodes && st'.next == st.next && st'.limit == st.limit
    ensures ok ==> D.IsMerge(merged, base, follow) && Balanced(st', refs, others + OwnedBy(merged))
    ensures ok ==> OwnedBy(base) + OwnedBy(follow) == OwnedBy(merged) + Middle(base, follow)
    ensures !ok ==> Crowded(st, refs, others + OwnedBy(base) + OwnedBy(follow), 2 * |follow|)
  {
    hide Balanced, OwnedBy, RootRef, D.IsMerge, D.DistinctObjects, Between, Middle, Crowded;
    ghost var all := others + OwnedBy(follow);
    Swap(others, OwnedBy(base), OwnedBy(follow));
    st', merged, ok := st, base, true;
    MergedNone(base, follow[..0]);
    for i := 0 to |follow|
      invariant st'.nodes == st.nodes && st'.next == st.next && st'.limit == st.limit
      invariant Folded(base, follow[..i], merged) && Balanced(st', refs, all + OwnedBy(merged))
    {
      var was := merged;
      ghost var full := st';
      HoldsItsEdges(others, follow, i);
      FoldedDistinct(base, follow[..i], merged);
      st', merged, ok := FoldSlots(st', was, follow[i], refs, all);
      if !ok {
        FoldedCrowd(st, full, refs, others, base, follow, i, was);
        return;
      }
      OneByOne(follow, i);
      MergedMore(base, follow[..i], follow[i], was, merged);
    }
    assert follow[..|follow|] == follow;
    FoldedOwns(base, follow, merged);
    Swap(others, OwnedBy(follow), OwnedBy(merged));
    st' := DropEntry(st', follow, refs, others + OwnedBy(merged));
  }

  /** The loop's state: the edits folded so far, and what the folds passed over. */
  ghost predicate Folded(base: seq<SlotEdit>, follow: seq<SlotEdit>, merged: seq<SlotEdit>)
  {
    && D.IsMerge(merged, base, follow)
    && OwnedBy(base) + OwnedBy(follow) == OwnedBy(merged) + Middle(base, follow)
  }

  lemma FoldedOwns(base: seq<SlotEdit>, follow: seq<SlotEdit>, merged: seq<SlotEdit>)
    requires Folded(base, follow, merged)
    ensures D.IsMerge(merged, base, follow)
    ensures OwnedBy(base) + OwnedBy(follow) == OwnedBy(merged) + Middle(base, follow)
  {
  }

  lemma FoldedDistinct(base: seq<SlotEdit>, follow: seq<SlotEdit>, merged: seq<SlotEdit>)
    requires Folded(base, follow, merged)
    ensures D.DistinctObjects(merged)
  {
  }

  lemma MergedNone(base: seq<SlotEdit>, none: seq<SlotEdit>)
    requires D.DistinctObjects(base) && none == []
    ensures Folded(base, none, base)
  {
    NothingOwned(OwnedBy(base), none);
  }

  lemma MergedMore(base: seq<SlotEdit>, some: seq<SlotEdit>, fe: SlotEdit, was: seq<SlotEdit>, merged: seq<SlotEdit>)
    requires D.DistinctObjects(some + [fe]) && Folded(base, some, was) && D.IsMerge(merged, was, [fe])
    requires OwnedBy(was) + OwnedBy([fe]) == OwnedBy(merged) + Between(was, fe)
    ensures Folded(base, some + [fe], merged)
  {
    hide OwnedBy, Between, Middle, D.IsMerge, D.DistinctObjects, RootRef;
    MergedSubject(base, some, fe, was);
    D.MergeOneMore(base, some, fe, was, merged);
    OwnsOneMore(base, some, fe, was, merged);
  }

  lemma OwnsOneMore(base: seq<SlotEdit>, some: seq<SlotEdit>, fe: SlotEdit, was: seq<SlotEdit>, merged: seq<SlotEdit>)
    requires OwnedBy(base) + OwnedBy(some) == OwnedBy(was) + Middle(base, some)
    requires OwnedBy(was) + OwnedBy([fe]) == OwnedBy(merged) + Between(base, fe)
    ensures OwnedBy(base) + OwnedBy(some + [fe]) == OwnedBy(merged) + Middle(base, some + [fe])
  {
    hide OwnedBy, Between, Middle, RootRef;
    MiddleMore(base, some, fe);
    OwnedByMore(some, fe);
    OwnedByMore([], fe);
    NothingOwned(multiset{}, []);
    assert [] + [fe] == [fe];
    AddUp(OwnedBy(base), OwnedBy(some), OwnedBy(was), Middle(base, some), RootRef(fe.before), RootRef(fe.after), OwnedBy(merged),
          Between(base, fe));
  }

  /** What the earlier folds left of a later edit's object is what the base had of it. */
  lemma MergedSubject(base: seq<SlotEdit>, some: seq<SlotEdit>, fe: SlotEdit, was: seq<SlotEdit>)
    requires D.DistinctObjects(some + [fe]) && D.IsMerge(was, base, some)
    ensures Between(was, fe) == Between(base, fe)
  {
    var more := some + [fe];
    forall j | 0 <= j < |some| ensures some[j].subject != fe.subject {
      assert more[j] == some[j] && more[|some|] == fe;
    }
    assert D.EditAt(was, fe.subject) == D.Joined(D.EditAt(base, fe.subject), D.EditAt(some, fe.subject));
  }

  lemma OneByOne(follow: seq<SlotEdit>, i: nat)
    requires i < |follow| && D.DistinctObjects(follow)
    ensures follow[..i + 1] == follow[..i] + [follow[i]] && D.DistinctObjects(follow[..i] + [follow[i]])
  {
    assert D.DistinctObjects(follow[..i + 1]);
    assert follow[..i + 1] == follow[..i] + [follow[i]];
  }

  lemma AddUp(base: Refs, some: Refs, was: Refs, middle: Refs, before: Refs, after: Refs, merged: Refs, between: Refs)
    requires base + some == was + middle && was + (multiset{} + before + after) == merged + between
    ensures base + (some + before + after) == merged + (middle + between)
  {
    assert base + (some + before + after) == (base + some) + (multiset{} + before + after);
    assert (was + middle) + (multiset{} + before + after) == (was + (multiset{} + before + after)) + middle;
    assert (merged + between) + middle == merged + (middle + between);
  }

  lemma HoldsItsEdges(others: Refs, follow: seq<SlotEdit>, i: nat)
    requires i < |follow|
    ensures RootRef(follow[i].before) <= others + OwnedBy(follow) && RootRef(follow[i].after) <= others + OwnedBy(follow)
  {
    hide OwnedBy;
    NamedIsOwned(follow, i);
  }

  /** Each fold holds at most two records more than before. */
  lemma FoldedCrowd(st: Stores, st': Stores, refs: Refs, others: Refs, base: seq<SlotEdit>, follow: seq<SlotEdit>, i: nat,
                    was: seq<SlotEdit>)
    requires i < |follow| && Folded(base, follow[..i], was) && st'.next == st.next
    requires Crowded(st', refs, others + OwnedBy(follow) + OwnedBy(was), 1)
    ensures Crowded(st, refs, others + OwnedBy(base) + OwnedBy(follow), 2 * |follow|)
  {
    hide OwnedBy, Middle;
    OwnedSize(follow[..i]);
    assert |OwnedBy(was)| <= |OwnedBy(base) + OwnedBy(follow[..i])|;
  }

  /** The merged entry names the objects' own records, as the two did. */
  lemma MergedEntryOk(merged: seq<SlotEdit>, base: seq<SlotEdit>, follow: seq<SlotEdit>, payloads: Payloads)
    requires EntryOk(base, payloads) && EntryOk(follow, payloads) && D.IsMerge(merged, base, follow)
    ensures EntryOk(merged, payloads)
  {
    forall i | 0 <= i < |merged|
      ensures merged[i].subject < 0x1_0000_0000_0000_0000
      ensures NamesObject(merged[i].before, merged[i].subject, payloads) && NamesObject(merged[i].after, merged[i].subject, payloads)
    {
      D.OnlyEdit(merged, i);
      var id := merged[i].subject;
      assert D.EditAt(merged, id) == D.Joined(D.EditAt(base, id), D.EditAt(follow, id));
    }
  }

  /** Read through the payloads, the merge of the entries is the merge of what they read as. */
  lemma MergeReads(merged: seq<SlotEdit>, base: seq<SlotEdit>, follow: seq<SlotEdit>, payloads: Payloads)
    requires D.DistinctObjects(base) && D.DistinctObjects(follow) && D.IsMerge(merged, base, follow)
    ensures D.IsMerge(Valuation(merged, payloads), Valuation(base, payloads), Valuation(follow, payloads))
  {
    var m, b, f := Valuation(merged, payloads), Valuation(base, payloads), Valuation(follow, payloads);
    assert D.DistinctObjects(m);
    forall id: Id ensures D.EditAt(m, id) == D.Joined(D.EditAt(b, id), D.EditAt(f, id)) {
      assert D.EditAt(merged, id) == D.Joined(D.EditAt(base, id), D.EditAt(follow, id));
      ReadAt(merged, payloads, id);
      ReadAt(base, payloads, id);
      ReadAt(follow, payloads, id);
    }
  }

  lemma ReadAt(edits: seq<SlotEdit>, payloads: Payloads, id: Id)
    requires D.DistinctObjects(edits)
    ensures var e, v := D.EditAt(edits, id), D.EditAt(Valuation(edits, payloads), id);
            v == if e.Some? then Some(D.Edit(id, Valued(payloads, e.value.before), Valued(payloads, e.value.after))) else None
  {
    var values := Valuation(edits, payloads);
    assert D.DistinctObjects(values);
    if D.Touches(edits, id) {
      var i :| 0 <= i < |edits| && edits[i].subject == id;
      D.OnlyEdit(edits, i);
      assert values[i].subject == id;
      D.OnlyEdit(values, i);
    } else {
      assert forall i | 0 <= i < |values| :: values[i].subject == edits[i].subject;
    }
  }

  // ---- The document on its stores ---------------------------------------------------------------------

  /** Exact counts for the versions somebody holds, the working root and the entries, and
      each version still shows the document it was published as. */
  ghost predicate Consistent(st: Stores, payloads: Payloads, versions: seq<Root>, docs: seq<Doc>, entries: seq<seq<SlotEdit>>,
                             root: Root)
  {
    && Balanced(st, Handles(versions) + RootRef(root), Owned(entries)) && PayloadsOk(payloads, st.next)
    && |docs| == |versions| > 0
    && (forall i | 0 <= i < |versions| :: Shows(st.nodes, versions[i], payloads, docs[i]) && WellNamed(docs[i]))
    && (forall i | 0 <= i < |entries| :: EntryOk(entries[i], payloads))
  }

  lemma EntryStillOk(edits: seq<SlotEdit>, payloads: Payloads, payloads': Payloads)
    requires EntryOk(edits, payloads) && Grows(payloads, payloads')
    ensures EntryOk(edits, payloads') && Valuation(edits, payloads') == Valuation(edits, payloads)
  {
  }

  /** Work on one root disturbs no version and no entry. */
  lemma StillConsistent(st: Stores, st': Stores, payloads: Payloads, payloads': Payloads, versions: seq<Root>, docs: seq<Doc>,
                        entries: seq<seq<SlotEdit>>, root: Root, root': Root)
    requires Consistent(st, payloads, versions, docs, entries, root)
    requires Extends(st.nodes, st'.nodes) && Grows(payloads, payloads') && PayloadsOk(payloads', st'.next)
    requires Balanced(st', Handles(versions) + RootRef(root'), Owned(entries))
    ensures Consistent(st', payloads', versions, docs, entries, root')
  {
    hide Balanced, Shows, Extends, EntryOk, Grows, WellNamed;
    forall i | 0 <= i < |versions| ensures Shows(st'.nodes, versions[i], payloads', docs[i]) {
      StillShows(st.nodes, st'.nodes, versions[i], payloads, payloads', docs[i]);
    }
    forall i | 0 <= i < |entries| ensures EntryOk(entries[i], payloads') {
      EntryStillOk(entries[i], payloads, payloads');
    }
  }

  /** The working root becomes a version. */
  lemma Published(st: Stores, payloads: Payloads, versions: seq<Root>, docs: seq<Doc>, entries: seq<seq<SlotEdit>>, root: Root,
                  doc: Doc)
    requires Consistent(st, payloads, versions, docs, entries, root)
    requires Shows(st.nodes, root, payloads, doc) && WellNamed(doc)
    ensures Consistent(st, payloads, versions + [root], docs + [doc], entries, None)
  {
    hide Balanced, Shows, EntryOk, WellNamed;
    HandlesPlus(versions, root);
    assert Handles(versions + [root]) + RootRef(None) == Handles(versions) + RootRef(root);
  }

  /** The journal takes an entry. */
  lemma Recorded(st: Stores, st': Stores, payloads: Payloads, versions: seq<Root>, docs: seq<Doc>, entries: seq<seq<SlotEdit>>,
                 root: Root, edits: seq<SlotEdit>)
    requires Consistent(st, payloads, versions, docs, entries, root) && EntryOk(edits, payloads)
    requires Balanced(st', Handles(versions) + RootRef(root), Owned(entries) + OwnedBy(edits))
    requires st'.nodes == st.nodes && st'.next == st.next
    ensures Consistent(st', payloads, versions, docs, entries + [edits], root)
  {
    hide Balanced, Shows, EntryOk, WellNamed, OwnedBy;
    OwnedMore(entries, edits);
  }

  /** What a commit's entry names is well named. */
  lemma EntryIsOk(nodes: NodeMap, base: Root, root: Root, payloads: Payloads, touched: seq<Id>, edits: seq<SlotEdit>,
                  before: Doc, after: Doc)
    requires AllKeys(touched) && Names(nodes, base, root, touched, edits, |touched|) && Distinct(touched)
    requires Shows(nodes, base, payloads, before) && Shows(nodes, root, payloads, after)
    requires WellNamed(before) && WellNamed(after)
    ensures EntryOk(edits, payloads)
  {
    forall i | 0 <= i < |edits|
      ensures NamesObject(edits[i].before, edits[i].subject, payloads) && NamesObject(edits[i].after, edits[i].subject, payloads)
    {
      assert ShowsAt(nodes, base, payloads, before, touched[i]) && ShowsAt(nodes, root, payloads, after, touched[i]);
    }
  }

  // ---- The steps of a transaction ---------------------------------------------------------------------

  /** The working root shows the draft, and the draft is a fork of the published document. */
  ghost predicate Working(st: Stores, payloads: Payloads, docs: seq<Doc>, root: Root, draft: Doc, touched: seq<Id>, stamp: nat)
  {
    && docs != [] && Shows(st.nodes, root, payloads, draft) && AllKeys(touched)
    && ForkedFrom(docs[|docs| - 1], Draft(draft, touched), stamp)
  }

  /** The count of the root can grow. */
  predicate MayCopy(st: Stores, root: Root)
  {
    root.Some? ==> root.value in st.nodeCounts && st.nodeCounts[root.value] < MAX_COUNT
  }

  /** One more handle on a held root. */
  method CopyRoot(st: Stores, root: Root, ghost refs: Refs, ghost recordRefs: Refs) returns (st': Stores)
    requires Balanced(st, refs, recordRefs) && (root.Some? ==> root.value in refs) && MayCopy(st, root)
    ensures Balanced(st', refs + RootRef(root), recordRefs)
    ensures st'.nodes == st.nodes && st'.next == st.next && st'.limit == st.limit
  {
    match root
    case None =>
      assert refs + RootRef(root) == refs;
      return st;
    case Some(slot) =>
      HeldMeansCounted(st, refs, recordRefs, slot);
      RetainNodeExact(st, refs, recordRefs, slot);
      return RetainNode(st, slot);
  }

  method Fork(st: Stores, payloads: Payloads, versions: seq<Root>, ghost docs: seq<Doc>, ghost entries: seq<seq<SlotEdit>>)
    returns (st': Stores)
    requires Consistent(st, payloads, versions, docs, entries, None) && MayCopy(st, versions[|versions| - 1])
    ensures Consistent(st', payloads, versions, docs, entries, versions[|versions| - 1])
    ensures st'.nodes == st.nodes && st'.next == st.next && st'.limit == st.limit
  {
    hide Balanced, Shows, EntryOk, PayloadsOk, WellNamed;
    var root := versions[|versions| - 1];
    assert Handles(versions) + RootRef(None) == Handles(versions);
    if root.Some? {
      HandleIsHeld(versions, |versions| - 1);
    }
    st' := CopyRoot(st, root, Handles(versions), Owned(entries));
  }

  lemma ForkWorks(st: Stores, payloads: Payloads, versions: seq<Root>, docs: seq<Doc>, entries: seq<seq<SlotEdit>>, stamp: nat)
    requires versions != [] && Consistent(st, payloads, versions, docs, entries, versions[|versions| - 1])
    ensures Working(st, payloads, docs, versions[|versions| - 1], docs[|docs| - 1], [], stamp)
  {
    hide Balanced, Shows, EntryOk;
  }

  method PutDraft(st: Stores, payloads: Payloads, root: Root, id: Key, stamp: nat, body: Body, ghost versions: seq<Root>,
                  ghost docs: seq<Doc>, ghost entries: seq<seq<SlotEdit>>, ghost draft: Doc, ghost touched: seq<Id>)
    returns (st': Stores, payloads': Payloads, root': Root, r: Result<Slot, PoolError>)
    requires Consistent(st, payloads, versions, docs, entries, root)
    requires Working(st, payloads, docs, root, draft, touched, stamp)
    ensures Consistent(st', payloads', versions, docs, entries, root') && Grows(payloads, payloads')
    ensures r.Success? ==>
              Working(st', payloads', docs, root', draft[id := Record(id, stamp, body)], Touched(touched, id), stamp)
    ensures r.Failure? ==> root' == root && Working(st', payloads', docs, root, draft, touched, stamp)
    ensures r.Failure? ==> Refused(st', Handles(versions) + RootRef(root), Owned(entries), 3, r.error)
  {
    hide Balanced, Shows, EntryOk, WellNamed, PayloadsOk, Grows, Extends, Refused, ForkedFrom;
    ghost var refs, recordRefs := Handles(versions), Owned(entries);
    st', payloads', root', r := WriteObject(st, payloads, root, id, Record(id, stamp, body), refs, recordRefs, draft);
    StillConsistent(st, st', payloads, payloads', versions, docs, entries, root, root');
    WriteForks(docs[|docs| - 1], Draft(draft, touched), stamp, id, body);
  }

  method RemoveDraft(st: Stores, payloads: Payloads, root: Root, id: Key, ghost stamp: nat, ghost versions: seq<Root>,
                     ghost docs: seq<Doc>, ghost entries: seq<seq<SlotEdit>>, ghost draft: Doc, ghost touched: seq<Id>)
    returns (st': Stores, root': Root, found: bool, r: Result<Root, PoolError>)
    requires Consistent(st, payloads, versions, docs, entries, root)
    requires Working(st, payloads, docs, root, draft, touched, stamp)
    ensures Consistent(st', payloads, versions, docs, entries, root') && (found <==> id in draft)
    ensures !found ==> r == Success(root) && root' == root && st' == st
    ensures found && r.Success? ==> Working(st', payloads, docs, root', draft - {id}, Touched(touched, id), stamp)
    ensures r.Failure? ==> root' == root && Working(st', payloads, docs, root, draft, touched, stamp)
    ensures r.Failure? ==> Refused(st', Handles(versions) + RootRef(root), Owned(entries), 3, r.error)
  {
    hide Balanced, EntryOk, WellNamed, PayloadsOk, Grows, Extends, Refused, ForkedFrom, Bindings;
    assert ShowsAt(st.nodes, root, payloads, draft, id);
    FindIsBinding(st.nodes, root, id);
    var edge := HamtLookup(st.nodes, root, id);
    found := edge.Some?;
    if !found {
      return st, root, found, Success(root);
    }
    hide Shows;
    st', root', r := EraseObject(st, payloads, root, id, Handles(versions), Owned(entries), draft);
    PayloadsStay(payloads, st.next, st'.next);
    StillConsistent(st, st', payloads, payloads, versions, docs, entries, root, root');
    EraseForks(docs[|docs| - 1], Draft(draft, touched), stamp, id);
  }

  lemma PayloadsStay(payloads: Payloads, next: Slot, next': Slot)
    requires PayloadsOk(payloads, next) && next <= next'
    ensures PayloadsOk(payloads, next') && Grows(payloads, payloads)
  {
  }

  /** `commit`: build the entry, then publish both; or give back what the entry already
      owned and publish nothing. */
  method CommitDraft(st: Stores, payloads: Payloads, root: Root, touched: seq<Id>, versions: seq<Root>, ghost docs: seq<Doc>,
                     ghost entries: seq<seq<SlotEdit>>, ghost draft: Doc, ghost stamp: nat)
    returns (st': Stores, r: Result<seq<SlotEdit>, PoolError>)
    requires Consistent(st, payloads, versions, docs, entries, root)
    requires Working(st, payloads, docs, root, draft, touched, stamp)
    ensures r.Success? ==> Consistent(st', payloads, versions + [root], docs + [draft], entries + [r.value], None)
    ensures r.Success? ==> D.EditsMap(Valuation(r.value, payloads), docs[|docs| - 1], draft)
    ensures r.Success? ==> D.Subjects(r.value) == touched
    ensures r.Failure? ==> Consistent(st', payloads, versions, docs, entries, root)
    ensures r.Failure? ==> Working(st', payloads, docs, root, draft, touched, stamp) && r.error == CapacityExhausted
    ensures r.Failure? ==> Crowded(st', Handles(versions) + RootRef(root), Owned(entries), 2 * |touched|)
  {
    var base, before := versions[|versions| - 1], docs[|docs| - 1];
    assert WellNamed(before) && WellNamed(draft) && Distinct(touched);
    assert forall id: Id | id !in touched :: Get(draft, id) == Get(before, id);
    hide Balanced, Shows, EntryOk, WellNamed, PayloadsOk, ForkedFrom, OwnedBy, D.EditsMap, Crowded;
    ShownIsValid(st.nodes, base, payloads, before);
    ShownIsValid(st.nodes, root, payloads, draft);
    st', r := BuildEntry(st, base, root, touched, Handles(versions) + RootRef(root), Owned(entries));
    if r.Success? {
      CommitPublishes(st, st', payloads, root, touched, versions, docs, entries, draft, r.value);
    }
  }

  lemma CommitPublishes(st: Stores, st': Stores, payloads: Payloads, root: Root, touched: seq<Id>, versions: seq<Root>,
                        docs: seq<Doc>, entries: seq<seq<SlotEdit>>, draft: Doc, edits: seq<SlotEdit>)
    requires Consistent(st, payloads, versions, docs, entries, root) && Shows(st.nodes, root, payloads, draft)
    requires WellNamed(draft) && Distinct(touched) && AllKeys(touched)
    requires forall id: Id | id !in touched :: Get(draft, id) == Get(docs[|docs| - 1], id)
    requires Names(st.nodes, versions[|versions| - 1], root, touched, edits, |touched|)
    requires Balanced(st', Handles(versions) + RootRef(root), Owned(entries) + OwnedBy(edits))
    requires st'.nodes == st.nodes && st'.next == st.next
    ensures Consistent(st', payloads, versions + [root], docs + [draft], entries + [edits], None)
    ensures D.EditsMap(Valuation(edits, payloads), docs[|docs| - 1], draft) && D.Subjects(edits) == touched
  {
    var base, before := versions[|versions| - 1], docs[|docs| - 1];
    assert Shows(st.nodes, base, payloads, before) && WellNamed(before);
    assert D.Subjects(edits) == touched;
    hide Balanced, Shows, EntryOk, WellNamed, OwnedBy, Names, D.EditsMap, D.Subjects, Distinct, AllKeys;
    NamesMap(st.nodes, base, root, payloads, touched, edits, before, draft);
    EntryIsOk(st.nodes, base, root, payloads, touched, edits, before, draft);
    hide Consistent, Valuation;
    Recorded(st, st', payloads, versions, docs, entries, root, edits);
    Published(st', payloads, versions, docs, entries + [edits], root, draft);
  }

  /** `navigate`. */
  method NavigateDocument(st: Stores, payloads: Payloads, versions: seq<Root>, entries: seq<seq<SlotEdit>>, e: nat,
                          dir: D.Direction, ghost docs: seq<Doc>)
    returns (st': Stores, root': Root, ghost doc': Doc, failure: Option<PoolError>)
    requires Consistent(st, payloads, versions, docs, entries, None) && e < |entries| && MayCopy(st, versions[|versions| - 1])
    ensures failure.None? ==> Consistent(st', payloads, versions + [root'], docs + [doc'], entries, None)
    ensures failure.None? ==> D.Rebound(Valuation(entries[e], payloads), dir, docs[|docs| - 1], doc')
    ensures failure.Some? ==> Consistent(st', payloads, versions, docs, entries, None)
    ensures failure.Some? ==> Refused(st', Handles(versions), Owned(entries), 4, failure.value)
  {
    var forked := Fork(st, payloads, versions, docs, entries);
    hide Balanced, Shows, EntryOk, WellNamed, PayloadsOk, OwnedBy, Extends, D.Rebound, Grows, Refused;
    ghost var refs, recordRefs := Handles(versions), Owned(entries);
    OwnedWithout(entries, e);
    var r;
    st', root', doc', r := Rebind(forked, payloads, versions[|versions| - 1], entries[e], dir, refs, recordRefs, docs[|docs| - 1]);
    failure := if r.Failure? then Some(r.error) else None;
    PayloadsStay(payloads, forked.next, st'.next);
    if failure.None? {
      StillConsistent(forked, st', payloads, payloads, versions, docs, entries, versions[|versions| - 1], root');
      Published(st', payloads, versions, docs, entries, root', doc');
    } else {
      assert refs + RootRef(None) == refs;
      StillConsistent(forked, st', payloads, payloads, versions, docs, entries, versions[|versions| - 1], None);
    }
  }

  /** The working tree is dropped. */
  method AbandonDraft(st: Stores, ghost payloads: Payloads, root: Root, ghost versions: seq<Root>, ghost docs: seq<Doc>,
                      ghost entries: seq<seq<SlotEdit>>)
    returns (st': Stores)
    requires Consistent(st, payloads, versions, docs, entries, root)
    ensures Consistent(st', payloads, versions, docs, entries, None)
  {
    st' := DropRoot(st, root, Handles(versions), Owned(entries));
    hide Balanced, Shows, EntryOk, WellNamed, PayloadsOk;
    assert Handles(versions) + RootRef(None) == Handles(versions);
  }

  /** Nobody holds version `i` any more. */
  method DropVersion(st: Stores, ghost payloads: Payloads, versions: seq<Root>, i: nat, ghost docs: seq<Doc>,
                     ghost entries: seq<seq<SlotEdit>>)
    returns (st': Stores)
    requires Consistent(st, payloads, versions, docs, entries, None) && i < |versions| - 1
    ensures Consistent(st', payloads, versions[..i] + versions[i + 1..], docs[..i] + docs[i + 1..], entries, None)
  {
    hide Balanced, Shows, EntryOk, WellNamed, PayloadsOk, Handles, Owned;
    ghost var rest := versions[..i] + versions[i + 1..];
    HandlesWithout(versions, i);
    assert Handles(versions) + RootRef(None) == Handles(rest) + RootRef(versions[i]);
    st' := DropRoot(st, versions[i], Handles(rest), Owned(entries));
    assert Handles(rest) + RootRef(None) == Handles(rest);
    ShownWithout(st.nodes, payloads, versions, docs, i);
  }

  lemma ShownWithout(nodes: NodeMap, payloads: Payloads, versions: seq<Root>, docs: seq<Doc>, i: nat)
    requires |docs| == |versions| && i < |versions|
    requires forall j | 0 <= j < |versions| :: Shows(nodes, versions[j], payloads, docs[j]) && WellNamed(docs[j])
    ensures var rest, kept := versions[..i] + versions[i + 1..], docs[..i] + docs[i + 1..];
            |kept| == |rest| && forall j | 0 <= j < |rest| :: Shows(nodes, rest[j], payloads, kept[j]) && WellNamed(kept[j])
  {
    hide Shows, WellNamed;
    var rest, kept := versions[..i] + versions[i + 1..], docs[..i] + docs[i + 1..];
    forall j | 0 <= j < |rest| ensures Shows(nodes, rest[j], payloads, kept[j]) && WellNamed(kept[j]) {
      var k := if j < i then j else j + 1;
      assert rest[j] == versions[k] && kept[j] == docs[k];
    }
  }

  /** The journal lets go of entry `i`. */
  method DropHistory(st: Stores, ghost payloads: Payloads, entries: seq<seq<SlotEdit>>, i: nat, ghost versions: seq<Root>,
                     ghost docs: seq<Doc>)
    returns (st': Stores)
    requires Consistent(st, payloads, versions, docs, entries, None) && i < |entries|
    ensures Consistent(st', payloads, versions, docs, entries[..i] + entries[i + 1..], None)
  {
    hide Balanced, Shows, EntryOk, WellNamed, PayloadsOk, OwnedBy;
    OwnedWithout(entries, i);
    st' := DropEntry(st, entries[i], Handles(versions) + RootRef(None), Owned(entries[..i] + entries[i + 1..]));
  }

  lemma OwnedLastTwo(entries: seq<seq<SlotEdit>>)
    requires |entries| >= 2
    ensures var n := |entries|;
            Owned(entries) == Owned(entries[..n - 2]) + OwnedBy(entries[n - 2]) + OwnedBy(entries[n - 1])
  {
    hide OwnedBy;
    var n := |entries|;
    assert entries[..n - 1][..n - 2] == entries[..n - 2];
  }

  /** The last entry folds into the one before it. */
  method CoalesceHistory(st: Stores, ghost payloads: Payloads, entries: seq<seq<SlotEdit>>, ghost versions: seq<Root>,
                         ghost docs: seq<Doc>)
    returns (st': Stores, merged: seq<SlotEdit>, ok: bool)
    requires Consistent(st, payloads, versions, docs, entries, None) && |entries| >= 2
    ensures ok ==> Consistent(st', payloads, versions, docs, entries[..|entries| - 2] + [merged], None)
    ensures ok ==> Folded(entries[|entries| - 2], entries[|entries| - 1], merged)
    ensures !ok ==> Crowded(st, Handles(versions), Owned(entries), 2 * |entries[|entries| - 1]|)
  {
    hide Balanced, Shows, EntryOk, WellNamed, PayloadsOk, OwnedBy, Owned, Middle, D.IsMerge, Crowded;
    var base, follow := entries[|entries| - 2], entries[|entries| - 1];
    ghost var refs, others := Handles(versions) + RootRef(None), Owned(entries[..|entries| - 2]);
    assert refs == Handles(versions);
    OwnedLastTwo(entries);
    EntryDistinct(base, payloads);
    EntryDistinct(follow, payloads);
    st', merged, ok := MergeSlots(st, base, follow, refs, others);
    if ok {
      MergedEntryOk(merged, base, follow, payloads);
      OwnedMore(entries[..|entries| - 2], merged);
    }
  }

  lemma EntryDistinct(edits: seq<SlotEdit>, payloads: Payloads)
    requires EntryOk(edits, payloads)
    ensures D.DistinctObjects(edits)
  {
  }

  lemma DrainedConsistent(st: Stores, st': Stores, payloads: Payloads, versions: seq<Root>, docs: seq<Doc>,
                          entries: seq<seq<SlotEdit>>)
    requires Consistent(st, payloads, versions, docs, entries, None)
    requires Balanced(st', Handles(versions) + RootRef(None), Owned(entries)) && Extends(st'.nodes, st.nodes)
    requires st'.next == st.next
    ensures Consistent(st', payloads, versions, docs, entries, None)
  {
    hide Balanced, Shows, EntryOk, WellNamed, PayloadsOk, Extends;
    assert Handles(versions) + RootRef(None) == Handles(versions);
    forall i | 0 <= i < |versions| ensures Shows(st'.nodes, versions[i], payloads, docs[i]) {
      if versions[i].Some? {
        HandleIsHeld(versions, i);
      }
      DrainedShows(st, st', Handles(versions), Owned(entries), versions[i], payloads, docs[i]);
    }
  }

  lemma EmptyConsistent(limit: nat)
    ensures Consistent(NoStores(limit), map[], [None], [map[]], [], None)
  {
    EmptyStoresExact(limit);
    assert Handles([None]) == multiset{};
    assert Shows(map[], None, map[], map[]);
  }

  // ---- The model and its transaction ------------------------------------------------------------------

  /** `Model` and its journal's entries: the versions somebody holds, the last one published. */
  datatype Holdings = Holdings(st: Stores, payloads: Payloads, versions: seq<Root>, entries: seq<seq<SlotEdit>>, revision: nat)

  /** `Transaction`: its working root, what it touched, and why it failed. */
  datatype Work = Closed | Running(root: Root, touched: seq<Id>, status: Option<PoolError>)

  function WorkRoot(w: Work): Root
  {
    if w.Running? then w.root else None
  }

  /** Exact counts throughout; each version shows its document, and the working root a fork
      of the last. */
  ghost predicate Sound(h: Holdings, w: Work, docs: seq<Doc>, draft: Doc)
  {
    && Consistent(h.st, h.payloads, h.versions, docs, h.entries, WorkRoot(w)) && |docs| == |h.versions| > 0
    && (w.Running? ==> Working(h.st, h.payloads, docs, w.root, draft, w.touched, h.revision + 1))
  }

  /** The pool's only reasons to refuse, seen from the handles held. */
  ghost predicate PoolRefused(h: Holdings, w: Work, error: PoolError)
  {
    Refused(h.st, Handles(h.versions) + RootRef(WorkRoot(w)), Owned(h.entries), 3, error)
  }

  /** A write leaves the versions and the entries alone. It is the one asked for, or a
      refusal that leaves the draft as it was and the transaction inert. */
  ghost predicate Wrote(h: Holdings, w: Work, draft: Doc, h': Holdings, w': Work, draft': Doc, goal: Draft)
    requires w.Running? && w'.Running?
  {
    && h' == h.(st := h'.st, payloads := h'.payloads) && Grows(h.payloads, h'.payloads)
    && (w.status.Some? ==> h' == h && w' == w && draft' == draft)
    && (w.status.None? && w'.status.None? ==> Draft(draft', w'.touched) == goal)
    && (w.status.None? && w'.status.Some? ==>
          w' == w.(status := w'.status) && draft' == draft && PoolRefused(h', w', w'.status.value))
  }

  method WriteStep(h: Holdings, w: Work, id: Key, body: Body, ghost docs: seq<Doc>, ghost draft: Doc)
    returns (h': Holdings, w': Work, ghost draft': Doc)
    requires Sound(h, w, docs, draft) && w.Running?
    ensures w'.Running? && Sound(h', w', docs, draft')
    ensures Wrote(h, w, draft, h', w', draft', Write(Draft(draft, w.touched), id, h.revision + 1, body))
  {
    hide Consistent, Working, Refused, Handles, Owned, RootRef;
    if w.status.Some? {
      PayloadsGrowFrom(h.payloads);
      return h, w, draft;
    }
    var st', payloads', root', r :=
      PutDraft(h.st, h.payloads, w.root, id, h.revision + 1, body, h.versions, docs, h.entries, draft, w.touched);
    hide Grows;
    h' := h.(st := st', payloads := payloads');
    match r {
      case Failure(e) => w', draft' := w.(status := Some(e)), draft;
      case Success(_) =>
        w', draft' := Running(root', Touched(w.touched, id), None), draft[id := Record(id, h.revision + 1, body)];
    }
  }

  lemma PayloadsGrowFrom(payloads: Payloads)
    ensures Grows(payloads, payloads)
  {
  }

  method RemoveStep(h: Holdings, w: Work, id: Key, ghost docs: seq<Doc>, ghost draft: Doc)
    returns (h': Holdings, w': Work, ghost draft': Doc)
    requires Sound(h, w, docs, draft) && w.Running?
    ensures w'.Running? && Sound(h', w', docs, draft')
    ensures Wrote(h, w, draft, h', w', draft',
                  if id in draft then Erase(Draft(draft, w.touched), id) else Draft(draft, w.touched))
    ensures id !in draft ==> h' == h && w' == w
  {
    hide Consistent, Working, Refused, Handles, Owned, RootRef;
    PayloadsGrowFrom(h.payloads);
    if w.status.Some? {
      return h, w, draft;
    }
    var st', root', found, r :=
      RemoveDraft(h.st, h.payloads, w.root, id, h.revision + 1, h.versions, docs, h.entries, draft, w.touched);
    hide Grows;
    if !found {
      return h, w, draft;
    }
    h' := h.(st := st');
    match r {
      case Failure(e) => w', draft' := w.(status := Some(e)), draft;
      case Success(_) => w', draft' := Running(root', Touched(w.touched, id), None), draft - {id};
    }
  }

  /** One version and one entry more, the entry mapping the published document to the draft;
      or none of either. */
  ghost predicate Committed(h: Holdings, w: Work, docs: seq<Doc>, draft: Doc, h': Holdings, w': Work, docs': seq<Doc>)
    requires w.Running? && docs != []
  {
    if w'.Closed? then
      && docs' == docs + [draft] && h'.versions == h.versions + [w.root] && h'.payloads == h.payloads
      && h'.revision == h.revision + 1 && |h'.entries| == |h.entries| + 1 && h'.entries[..|h.entries|] == h.entries
      && var edits := h'.entries[|h.entries|];
         D.Subjects(edits) == w.touched && D.EditsMap(Valuation(edits, h.payloads), docs[|docs| - 1], draft)
    else
      && docs' == docs && h' == h.(st := h'.st) && w'.status.Some? && w' == w.(status := w'.status)
      && (if w.status.Some? then h' == h && w' == w
          else Crowded(h'.st, Handles(h.versions) + RootRef(w.root), Owned(h.entries), 2 * |w.touched|))
  }

  method CommitStep(h: Holdings, w: Work, ghost docs: seq<Doc>, ghost draft: Doc)
    returns (h': Holdings, w': Work, ghost docs': seq<Doc>)
    requires Sound(h, w, docs, draft) && w.Running?
    ensures Sound(h', w', docs', draft) && Committed(h, w, docs, draft, h', w', docs')
  {
    hide Consistent, Working, Refused, Handles, Owned, RootRef, Crowded, D.EditsMap, D.Subjects, Valuation;
    if w.status.Some? {
      return h, w, docs;
    }
    var st', r := CommitDraft(h.st, h.payloads, w.root, w.touched, h.versions, docs, h.entries, draft, h.revision + 1);
    match r {
      case Failure(e) => h', w', docs' := h.(st := st'), w.(status := Some(e)), docs;
      case Success(edits) =>
        h' := Holdings(st', h.payloads, h.versions + [w.root], h.entries + [edits], h.revision + 1);
        w', docs' := Closed, docs + [draft];
    }
  }

  /** One version more, the published document with the entry's objects rebound; or none, when
      the pool refused. */
  ghost predicate Navigated(h: Holdings, docs: seq<Doc>, e: nat, dir: D.Direction, h': Holdings, docs': seq<Doc>,
                            failure: Option<PoolError>)
    requires docs != [] && e < |h.entries|
  {
    if failure.None? then
      && |docs'| == |docs| + 1 && docs'[..|docs|] == docs && |h'.versions| == |h.versions| + 1
      && h' == h.(st := h'.st, versions := h.versions + [h'.versions[|h.versions|]], revision := h.revision + 1)
      && D.Rebound(Valuation(h.entries[e], h.payloads), dir, docs[|docs| - 1], docs'[|docs|])
    else
      && docs' == docs && h' == h.(st := h'.st)
      && Refused(h'.st, Handles(h.versions), Owned(h.entries), 4, failure.value)
  }

  method NavigateStep(h: Holdings, e: nat, dir: D.Direction, ghost docs: seq<Doc>, ghost draft: Doc)
    returns (h': Holdings, ghost docs': seq<Doc>, failure: Option<PoolError>)
    requires Sound(h, Closed, docs, draft) && e < |h.entries| && MayCopy(h.st, h.versions[|h.versions| - 1])
    ensures Sound(h', Closed, docs', draft) && Navigated(h, docs, e, dir, h', docs', failure)
  {
    hide Consistent, D.Rebound, Valuation, Refused, Handles, Owned;
    var st', root';
    ghost var doc';
    st', root', doc', failure := NavigateDocument(h.st, h.payloads, h.versions, h.entries, e, dir, docs);
    h', docs' := h.(st := st'), docs;
    if failure.None? {
      h', docs' := h.(st := st', versions := h.versions + [root'], revision := h.revision + 1), docs + [doc'];
    }
  }

  /** One entry for the last two: first edges before, last edges after, the records between
      given up; or a copy met a saturated count. */
  ghost predicate Coalesced(h: Holdings, h': Holdings, ok: bool)
    requires |h.entries| >= 2
  {
    var n := |h.entries|;
    if ok then
      && |h'.entries| == n - 1 && h' == h.(st := h'.st, entries := h.entries[..n - 2] + [h'.entries[n - 2]])
      && Folded(h.entries[n - 2], h.entries[n - 1], h'.entries[n - 2])
    else h' == h && Crowded(h.st, Handles(h.versions), Owned(h.entries), 2 * |h.entries[n - 1]|)
  }

  method CoalesceStep(h: Holdings, ghost docs: seq<Doc>, ghost draft: Doc) returns (h': Holdings, ok: bool)
    requires Sound(h, Closed, docs, draft) && |h.entries| >= 2
    ensures Sound(h', Closed, docs, draft) && Coalesced(h, h', ok)
  {
    hide Consistent, Folded, Crowded, Handles, Owned;
    var st', merged;
    st', merged, ok := CoalesceHistory(h.st, h.payloads, h.entries, h.versions, docs);
    h' := if ok then h.(st := st', entries := h.entries[..|h.entries| - 2] + [merged]) else h;
  }

  /** A model, its journal's entries, and its one open transaction if any. */
  class Workspace {
    var model: Holdings
    var work: Work
    /** What each version was published as, and what the working root stands for. */
    ghost var docs: seq<Doc>
    ghost var draft: Doc

    ghost predicate Valid()
      reads this
    {
      Sound(model, work, docs, draft)
    }

    constructor (limit: nat)
      ensures Valid() && work.Closed? && docs == [map[]] && model.entries == [] && model.revision == 0
    {
      model, work, docs, draft := Holdings(NoStores(limit), map[], [None], [], 0), Closed, [map[]], map[];
      new;
      EmptyConsistent(limit);
    }

    /** Opening a transaction forks the published root. Copying a handle asserts that its
        count is not saturated. */
    method Begin()
      requires Valid() && work.Closed? && MayCopy(model.st, model.versions[|model.versions| - 1])
      modifies this
      ensures Valid() && work == Running(model.versions[|model.versions| - 1], [], None) && draft == docs[|docs| - 1]
      ensures docs == old(docs) && model == old(model).(st := model.st)
    {
      hide Consistent, Working;
      var root := model.versions[|model.versions| - 1];
      var forked := Fork(model.st, model.payloads, model.versions, docs, model.entries);
      ForkWorks(forked, model.payloads, model.versions, docs, model.entries, model.revision + 1);
      model, work, draft := model.(st := forked), Running(root, [], None), docs[|docs| - 1];
    }

    /** A setter: a record stamped with the revision to come, written over `id`. */
    method Put(id: Key, body: Body)
      requires Valid() && work.Running?
      modifies this
      ensures Valid() && work.Running? && docs == old(docs)
      ensures Wrote(old(model), old(work), old(draft), model, work, draft,
                    Write(old(Draft(draft, work.touched)), id, old(model.revision) + 1, body))
    {
      hide Sound, Wrote;
      model, work, draft := WriteStep(model, work, id, body, docs, draft);
    }

    /** `remove`: an absent object is left alone. */
    method Remove(id: Key)
      requires Valid() && work.Running?
      modifies this
      ensures Valid() && work.Running? && docs == old(docs)
      ensures Wrote(old(model), old(work), old(draft), model, work, draft,
                    if id in old(draft) then Erase(old(Draft(draft, work.touched)), id) else old(Draft(draft, work.touched)))
      ensures id !in old(draft) ==> model == old(model) && work == old(work)
    {
      hide Sound, Wrote;
      model, work, draft := RemoveStep(model, work, id, docs, draft);
    }

    method Commit()
      requires Valid() && work.Running?
      modifies this
      ensures Valid() && draft == old(draft)
      ensures old(docs) != [] && Committed(old(model), old(work), old(docs), draft, model, work, docs)
    {
      assert docs != [];
      hide Sound, Committed;
      model, work, docs := CommitStep(model, work, docs, draft);
    }

    method Abort()
      requires Valid() && work.Running?
      modifies this
      ensures Valid() && work.Closed? && docs == old(docs) && model == old(model).(st := model.st)
    {
      hide Consistent;
      var st' := AbandonDraft(model.st, model.payloads, work.root, model.versions, docs, model.entries);
      model, work := model.(st := st'), Closed;
    }

    /** Undo or redo one entry. */
    method Navigate(e: nat, dir: D.Direction) returns (failure: Option<PoolError>)
      requires Valid() && work.Closed? && e < |model.entries| && MayCopy(model.st, model.versions[|model.versions| - 1])
      modifies this
      ensures Valid() && work.Closed?
      ensures old(docs) != [] && Navigated(old(model), old(docs), e, dir, model, docs, failure)
    {
      assert docs != [];
      hide Sound, Navigated;
      model, docs, failure := NavigateStep(model, e, dir, docs, draft);
    }

    /** The last holder of an older version lets go. */
    method Forget(i: nat)
      requires Valid() && work.Closed? && i < |model.versions| - 1
      modifies this
      ensures Valid() && work.Closed? && docs == old(docs[..i] + docs[i + 1..])
      ensures model == old(model).(st := model.st, versions := old(model.versions[..i] + model.versions[i + 1..]))
    {
      hide Consistent;
      var st' := DropVersion(model.st, model.payloads, model.versions, i, docs, model.entries);
      model := model.(st := st', versions := model.versions[..i] + model.versions[i + 1..]);
      docs := docs[..i] + docs[i + 1..];
    }

    /** The journal drops an entry, and gives up the records it owned. */
    method Discard(i: nat)
      requires Valid() && work.Closed? && i < |model.entries|
      modifies this
      ensures Valid() && work.Closed? && docs == old(docs)
      ensures model == old(model).(st := model.st, entries := old(model.entries[..i] + model.entries[i + 1..]))
    {
      hide Consistent;
      var st' := DropHistory(model.st, model.payloads, model.entries, i, model.versions, docs);
      model := model.(st := st', entries := model.entries[..i] + model.entries[i + 1..]);
    }

    /** The journal folds its newest entry into the one before. `ok` is false when copying a
        handle met a saturated count, which the copy asserts against. */
    method Coalesce() returns (ok: bool)
      requires Valid() && work.Closed? && |model.entries| >= 2
      modifies this
      ensures Valid() && work.Closed? && docs == old(docs) && Coalesced(old(model), model, ok)
    {
      hide Sound, Coalesced;
      model, ok := CoalesceStep(model, docs, draft);
    }

    /** Reclaim what neither a version nor an entry reaches, and nothing else. */
    method Collect()
      requires Valid() && work.Closed?
      modifies this
      ensures Valid() && work.Closed? && docs == old(docs) && model == old(model).(st := model.st)
      ensures Reclaimed(model)
    {
      hide Consistent, Reclaimed;
      var st' := CollectStep(model, docs);
      model := model.(st := st');
    }
  }

  /** No node is left that the versions do not reach, and no record that neither a leaf binds
      nor an entry owns. */
  ghost predicate Reclaimed(h: Holdings)
  {
    && Quiescent(h.st)
    && (forall reached, n | ClosedFrom(h.st.nodes, Handles(h.versions), reached) && n in h.st.nodes :: n in reached)
    && (forall r | r in h.st.recordCounts ::
          r in Owned(h.entries) || exists p :: p in h.st.nodes && h.st.nodes[p].Leaf? && h.st.nodes[p].record == r)
  }

  method CollectStep(h: Holdings, ghost docs: seq<Doc>) returns (st': Stores)
    requires Consistent(h.st, h.payloads, h.versions, docs, h.entries, None)
    ensures Consistent(st', h.payloads, h.versions, docs, h.entries, None) && Reclaimed(h.(st := st'))
  {
    ghost var refs, recordRefs := Handles(h.versions), Owned(h.entries);
    assert refs + RootRef(None) == refs;
    st' := Drain(h.st, refs, recordRefs);
    DrainedConsistent(h.st, st', h.payloads, h.versions, docs, h.entries);
    hide Consistent, Balanced, Quiescent, ClosedFrom;
    forall r | r in st'.recordCounts
      ensures r in recordRefs || exists p :: p in st'.nodes && st'.nodes[p].Leaf? && st'.nodes[p].record == r
    {
      NoRecordLeaks(st', refs, recordRefs, r);
    }
    forall reached, n | ClosedFrom(st'.nodes, refs, reached) && n in st'.nodes ensures n in reached {
      NothingLeaks(st', refs, recordRefs, reached, n);
    }
  }

  /** What the last entry maps, in the stores' terms. */
  ghost predicate LastMaps(h: Holdings, before: Doc, after: Doc)
  {
    h.entries != [] && D.EditsMap(Valuation(h.entries[|h.entries| - 1], h.payloads), before, after)
  }

  lemma CommittedMaps(h: Holdings, w: Work, docs: seq<Doc>, draft: Doc, h': Holdings, w': Work, docs': seq<Doc>)
    requires w.Running? && docs != [] && Committed(h, w, docs, draft, h', w', docs') && w'.Closed?
    ensures docs' != [] && docs'[|docs'| - 1] == draft && h'.entries != [] && LastMaps(h', docs[|docs| - 1], draft)
  {
    hide Valuation, D.EditsMap;
  }

  lemma UndoneTo(h: Holdings, docs: seq<Doc>, h': Holdings, docs': seq<Doc>, before: Doc)
    requires docs != [] && LastMaps(h, before, docs[|docs| - 1])
    requires Navigated(h, docs, |h.entries| - 1, D.ToBefore, h', docs', None)
    ensures docs' != [] && docs'[|docs'| - 1] == before && h'.entries == h.entries
  {
    hide Valuation, D.EditsMap, D.Rebound;
    D.NavigationInverts(Valuation(h.entries[|h.entries| - 1], h.payloads), before, docs[|docs| - 1], D.ToBefore, docs'[|docs|]);
  }

  /** On the stores, too, undoing a commit restores the document before it, record for record. */
  method CommitThenUndo(ws: Workspace) returns (ok: bool)
    requires ws.Valid() && ws.work.Running?
    modifies ws
    ensures ws.Valid()
    ensures ok ==> old(ws.docs) != [] && ws.docs != [] && ws.docs[|ws.docs| - 1] == old(ws.docs)[|old(ws.docs)| - 1]
  {
    hide Consistent, Committed, LastMaps, Navigated;
    ghost var h, w, docs := ws.model, ws.work, ws.docs;
    ws.Commit();
    if ws.work.Running? || !MayCopy(ws.model.st, ws.model.versions[|ws.model.versions| - 1]) {
      return false;
    }
    CommittedMaps(h, w, docs, ws.draft, ws.model, ws.work, ws.docs);
    ghost var h', docs' := ws.model, ws.docs;
    var failure := ws.Navigate(|ws.model.entries| - 1, D.ToBefore);
    ok := failure.None?;
    if ok {
      UndoneTo(h', docs', ws.model, ws.docs, docs[|docs| - 1]);
    }
  }

  /** The merged entry, read through the payloads, maps the document before the first commit
      to the one after the second. */
  lemma FoldedMaps(base: seq<SlotEdit>, follow: seq<SlotEdit>, merged: seq<SlotEdit>, payloads: Payloads, d0: Doc, d1: Doc, d2: Doc)
    requires D.DistinctObjects(base) && D.DistinctObjects(follow) && Folded(base, follow, merged)
    requires D.EditsMap(Valuation(base, payloads), d0, d1) && D.EditsMap(Valuation(follow, payloads), d1, d2)
    ensures D.EditsMap(Valuation(merged, payloads), d0, d2)
  {
    FoldedOwns(base, follow, merged);
    MergeReads(merged, base, follow, payloads);
    hide Folded, Valuation, D.EditsMap, D.IsMerge;
    D.MergedEditsMap(Valuation(merged, payloads), Valuation(base, payloads), Valuation(follow, payloads), d0, d1, d2);
  }

  ghost predicate LastTwoMap(h: Holdings, start: Doc, middle: Doc, after: Doc)
  {
    && |h.entries| >= 2 && LastMaps(h, middle, after)
    && D.EditsMap(Valuation(h.entries[|h.entries| - 2], h.payloads), start, middle)
  }

  lemma CoalescedMaps(h: Holdings, h': Holdings, docs: seq<Doc>, start: Doc, middle: Doc, after: Doc)
    requires Consistent(h.st, h.payloads, h.versions, docs, h.entries, None)
    requires LastTwoMap(h, start, middle, after) && Coalesced(h, h', true)
    ensures LastMaps(h', start, after)
  {
    var base, follow := h.entries[|h.entries| - 2], h.entries[|h.entries| - 1];
    EntryDistinct(base, h.payloads);
    EntryDistinct(follow, h.payloads);
    hide Consistent, Folded, Valuation, D.EditsMap, D.DistinctObjects;
    FoldedMaps(base, follow, h'.entries[|h.entries| - 2], h.payloads, start, middle, after);
  }

  /** A gesture of two commits is one undo: with their entries coalesced on the stores, a
      single navigation restores the document before the first. */
  method CoalesceThenUndo(ws: Workspace, ghost start: Doc, ghost middle: Doc) returns (ok: bool)
    requires ws.Valid() && ws.work.Closed? && ws.docs != [] && LastTwoMap(ws.model, start, middle, ws.docs[|ws.docs| - 1])
    modifies ws
    ensures ws.Valid()
    ensures ok ==> ws.docs != [] && ws.docs[|ws.docs| - 1] == start && |ws.model.entries| == |old(ws.model.entries)| - 1
  {
    hide Consistent, LastMaps, Folded, Crowded, Navigated, D.EditsMap, Valuation;
    ghost var h, after := ws.model, ws.docs[|ws.docs| - 1];
    ok := ws.Coalesce();
    if !ok || !MayCopy(ws.model.st, ws.model.versions[|ws.model.versions| - 1]) {
      return false;
    }
    CoalescedMaps(h, ws.model, ws.docs, start, middle, after);
    ghost var h', docs := ws.model, ws.docs;
    var failure := ws.Navigate(|ws.model.entries| - 1, D.ToBefore);
    ok := failure.None?;
    if ok {
      UndoneTo(h', docs, ws.model, ws.docs, start);
    }
  }
}
