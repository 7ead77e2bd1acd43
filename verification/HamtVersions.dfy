/** The whole map: insert, erase and lookup from a root, the deferred drain, and
    a set of versions that live side by side over one pair of stores. */
module HamtVersions {
  import opened Wrappers
  import opened HamtTrie
  import opened HamtStore
  import opened HamtOps

  // ---- Root operations ------------------------------------------------------------

  /** Whole-root update, read as a finite map. */
  lemma UpdatedBindings(nodes: NodeMap, root: Root, nodes': NodeMap, root': Root, key: Key, value: Option<Slot>)
    requires ValidRoot(nodes, root) && ValidRoot(nodes', root')
    requires Updated(nodes, root, nodes', root', 0, key, value)
    ensures Bindings(nodes', root')
         == if value.Some? then Bindings(nodes, root)[key := value.value] else Bindings(nodes, root) - {key}
  {
    BindingsAreFinds(nodes, root);
    var prior := Bindings(nodes, root);
    var m := if value.Some? then prior[key := value.value] else prior - {key};
    forall k: Key ensures Find(nodes', root', k) == if k in m then Some(m[k]) else None {
      assert FindAt(nodes', root', k, 0) == if k == key then value else FindAt(nodes, root, k, 0);
    }
    FindsDetermineBindings(nodes', root', m);
  }

  ghost predicate UsableRoot(st: Stores, root: Root)
  {
    ValidRoot(st.nodes, root) && (root.Some? ==> Counted(st.nodeCounts, root.value))
  }

  /** The next version with `key` bound to `record`, or the pool's refusal with
      every count still exact. */
  method HamtInsert(st: Stores, root: Root, key: Key, record: Slot, ghost refs: Refs, ghost recordRefs: Refs)
    returns (st': Stores, r: Result<Slot, PoolError>)
    requires Balanced(st, refs, recordRefs) && record in recordRefs && UsableRoot(st, root)
    ensures Delivers(st, st', refs, recordRefs, 2, r)
    ensures st'.next <= st.next + (DEPTH + 1)
    ensures r.Success? ==> ValidRoot(st'.nodes, Some(r.value))
    ensures r.Success? ==> Bindings(st'.nodes, Some(r.value)) == Bindings(st.nodes, root)[key := record]
  {
    if root.None? {
      st', r := MakeLeaf(st, key, record, refs, recordRefs);
    } else {
      st', r := InsertRec(st, root.value, key, record, [], 0, refs, recordRefs);
    }
    if r.Success? {
      assert Updated(st.nodes, root, st'.nodes, Some(r.value), 0, key, Some(record));
      UpdatedBindings(st.nodes, root, st'.nodes, Some(r.value), key, Some(record));
    }
  }

  /** The next version without `key`; the absent root exactly when nothing is left. */
  method HamtErase(st: Stores, root: Root, key: Key, ghost refs: Refs, ghost recordRefs: Refs)
    returns (st': Stores, r: Result<Root, PoolError>)
    requires Balanced(st, refs, recordRefs) && UsableRoot(st, root)
    ensures DeliversRoot(st, st', refs, recordRefs, r)
    ensures st'.next <= st.next + DEPTH
    ensures r.Success? ==> ValidRoot(st'.nodes, r.value)
    ensures r.Success? ==> Bindings(st'.nodes, r.value) == Bindings(st.nodes, root) - {key}
    ensures r.Success? ==> (r.value == None <==> Bindings(st'.nodes, r.value) == map[])
  {
    if root.None? {
      st', r := st, Success(None);
    } else {
      st', r := EraseRec(st, root.value, key, [], 0, refs, recordRefs);
    }
    if r.Success? {
      assert Updated(st.nodes, root, st'.nodes, r.value, 0, key, None);
      UpdatedBindings(st.nodes, root, st'.nodes, r.value, key, None);
      OnlyTheAbsentRootIsEmpty(st'.nodes, r.value);
    }
  }

  lemma OnlyTheAbsentRootIsEmpty(nodes: NodeMap, root: Root)
    requires ValidRoot(nodes, root)
    ensures root == None <==> Bindings(nodes, root) == map[]
  {
    if root.Some? {
      var k := TrieBindsAKey(nodes, root.value, []);
      BindingsAreFinds(nodes, root);
      assert Find(nodes, root, k).Some?;
      assert k in Bindings(nodes, root);
    }
  }

  /** The reader's loop: it ends within thirteen branches and finds what the map binds. */
  method HamtLookup(nodes: NodeMap, root: Root, key: Key) returns (r: Option<Slot>)
    requires ValidRoot(nodes, root)
    ensures r == if key in Bindings(nodes, root) then Some(Bindings(nodes, root)[key]) else None
  {
    BindingsAreFinds(nodes, root);
    if root.None? {
      return None;
    }
    var cur, depth := root.value, 0;
    ghost var path: seq<Digit> := [];
    while true
      invariant depth == |path| && Trie(nodes, cur, path)
      invariant Lookup(nodes, cur, key, depth) == Find(nodes, root, key)
      decreases DEPTH - depth
    {
      match nodes[cur] {
        case Leaf(k, record) =>
          return if k == key then Some(record) else None;
        case Branch(kids) =>
          var digit := DigitAt(key, depth);
          if digit !in kids {
            return None;
          }
          path := path + [digit];
          cur, depth := kids[digit], depth + 1;
      }
    }
  }

  // ---- The drain ------------------------------------------------------------------

  /** Take one edge out of a dying node; its count passes to the destructor. */
  function UnlinkChild(st: Stores, p: Slot, d: Digit): Stores
    requires p in st.nodes && st.nodes[p].Branch?
  {
    st.(nodes := st.nodes[p := Branch(st.nodes[p].kids - {d})])
  }

  lemma UnlinkChildExact(st: Stores, refs: Refs, recordRefs: Refs, p: Slot, d: Digit)
    requires Balanced(st, refs, recordRefs)
    requires p in st.nodes && st.nodes[p].Branch? && d in st.nodes[p].kids
    ensures Balanced(UnlinkChild(st, p, d), refs + multiset{st.nodes[p].kids[d]}, recordRefs)
  {
    Open(st, refs, recordRefs);
    RemovedEdge(st.nodes, p, d);
    var after := UnlinkChild(st, p, d).nodes;
    assert after.Keys == st.nodes.Keys;
  }

  function UnlinkRecord(st: Stores, p: Slot): Stores
  {
    st.(nodes := st.nodes[p := Branch(map[])])
  }

  lemma UnlinkRecordExact(st: Stores, refs: Refs, recordRefs: Refs, p: Slot)
    requires Balanced(st, refs, recordRefs) && p in st.nodes && st.nodes[p].Leaf?
    ensures Balanced(UnlinkRecord(st, p), refs, recordRefs + multiset{st.nodes[p].record})
  {
    Open(st, refs, recordRefs);
    RemovedLeaf(st.nodes, p);
    assert UnlinkRecord(st, p).nodes.Keys == st.nodes.Keys;
  }

  /** Return a childless, uncounted node's slot to the pool. */
  function RemoveNode(st: Stores, s: Slot): Stores
  {
    st.(nodes := st.nodes - {s}, nodeCounts := st.nodeCounts - {s}, pendingNodes := st.pendingNodes - {s})
  }

  lemma UncountedMeansUnlinked(nodes: NodeMap, s: Slot)
    requires InDegree(nodes, s) == 0
    ensures forall p, d | p in nodes && nodes[p].Branch? && d in nodes[p].kids :: nodes[p].kids[d] != s
  {
    assert InEdges(nodes, s) == {};
    forall p, d | p in nodes && nodes[p].Branch? && d in nodes[p].kids ensures nodes[p].kids[d] != s {
      assert (p, d) !in InEdges(nodes, s);
    }
  }

  lemma RemoveNodeExact(st: Stores, refs: Refs, recordRefs: Refs, s: Slot)
    requires Balanced(st, refs, recordRefs)
    requires s in st.pendingNodes && s in st.nodes && st.nodes[s] == Branch(map[])
    ensures Balanced(RemoveNode(st, s), refs, recordRefs)
  {
    Open(st, refs, recordRefs);
    assert st.nodeCounts[s] == InDegree(st.nodes, s) + refs[s];
    UncountedMeansUnlinked(st.nodes, s);
    ChildlessNodeHasNoEdges(st.nodes - {s}, s);
    assert (st.nodes - {s})[s := Branch(map[])] == st.nodes;
  }

  function RemoveRecord(st: Stores, r: Slot): Stores
  {
    st.(recordCounts := st.recordCounts - {r}, pendingRecords := st.pendingRecords - {r})
  }

  lemma RemoveRecordExact(st: Stores, refs: Refs, recordRefs: Refs, r: Slot)
    requires Balanced(st, refs, recordRefs) && r in st.pendingRecords
    ensures Balanced(RemoveRecord(st, r), refs, recordRefs)
  {
    Open(st, refs, recordRefs);
    assert st.recordCounts[r] == LeafDegree(st.nodes, r) + recordRefs[r];
    assert LeafEdges(st.nodes, r) == {};
    forall p | p in st.nodes && st.nodes[p].Leaf? ensures st.nodes[p].record != r {
      assert p !in LeafEdges(st.nodes, r);
    }
  }

  lemma PendingMeansUncounted(st: Stores, refs: Refs, recordRefs: Refs, s: Slot)
    requires Balanced(st, refs, recordRefs)
    ensures s in st.pendingNodes <==> s in st.nodes && s in st.nodeCounts && st.nodeCounts[s] == 0
    ensures s in st.pendingNodes ==> s !in refs
  {
    Open(st, refs, recordRefs);
    if s in st.pendingNodes {
      assert st.nodeCounts[s] == InDegree(st.nodes, s) + refs[s];
    }
  }

  ghost function FromDigit(kids: map<Digit, Slot>, i: nat): map<Digit, Slot>
  {
    map d | d in kids && d >= i :: kids[d]
  }

  /** `~HamtNode`: give back every count the node owned, then its slot. Children
      that reach zero join the queue. */
  method DestroyNode(st: Stores, s: Slot, ghost refs: Refs, ghost recordRefs: Refs) returns (st': Stores)
    requires Balanced(st, refs, recordRefs) && s in st.pendingNodes && s in st.nodes
    ensures Balanced(st', refs, recordRefs)
    ensures st'.nodes == st.nodes - {s} && st'.next == st.next && st'.limit == st.limit
    ensures st'.recordCounts.Keys == st.recordCounts.Keys
  {
    st' := st;
    match st.nodes[s] {
      case Leaf(_, record) =>
        UnlinkRecordExact(st, refs, recordRefs, s);
        st' := UnlinkRecord(st, s);
        ReleaseRecordExact(st', refs, recordRefs + multiset{record}, record);
        assert recordRefs + multiset{record} - multiset{record} == recordRefs;
        st' := ReleaseRecord(st', record);
      case Branch(_) =>
        st' := DropEdges(st, s, refs, recordRefs);
    }
    RemoveNodeExact(st', refs, recordRefs, s);
    return RemoveNode(st', s);
  }

  /** Unlink and release every child edge of a dying branch, lowest digit first. */
  method DropEdges(st: Stores, s: Slot, ghost refs: Refs, ghost recordRefs: Refs) returns (st': Stores)
    requires Balanced(st, refs, recordRefs) && s in st.pendingNodes && s in st.nodes && st.nodes[s].Branch?
    ensures Balanced(st', refs, recordRefs) && s in st'.pendingNodes
    ensures st'.nodes == st.nodes[s := Branch(map[])] && st'.next == st.next && st'.limit == st.limit
    ensures st'.recordCounts.Keys == st.recordCounts.Keys
  {
    st' := st;
    ghost var kids := st.nodes[s].kids;
    assert FromDigit(kids, 0) == kids && st.nodes == st.nodes[s := Branch(FromDigit(kids, 0))];
    var i: nat := 0;
    while i < ARITY
      invariant i <= ARITY && Balanced(st', refs, recordRefs) && s in st'.pendingNodes
      invariant st'.nodes == st.nodes[s := Branch(FromDigit(kids, i))]
      invariant st'.next == st.next && st'.limit == st.limit && st'.recordCounts.Keys == st.recordCounts.Keys
    {
      NextDigit(kids, i);
      if i in st'.nodes[s].kids {
        st' := DropEdge(st', s, i, refs, recordRefs);
      }
      i := i + 1;
    }
    assert FromDigit(kids, ARITY) == map[];
  }

  lemma NextDigit(kids: map<Digit, Slot>, i: nat)
    ensures FromDigit(kids, i + 1) == if i in kids then FromDigit(kids, i) - {i} else FromDigit(kids, i)
  {
  }

  /** Unlink and release one child edge. */
  method DropEdge(st: Stores, p: Slot, d: Digit, ghost refs: Refs, ghost recordRefs: Refs) returns (st': Stores)
    requires Balanced(st, refs, recordRefs)
    requires p in st.nodes && st.nodes[p].Branch? && d in st.nodes[p].kids
    ensures Balanced(st', refs, recordRefs) && st.pendingNodes <= st'.pendingNodes
    ensures st'.nodes == st.nodes[p := Branch(st.nodes[p].kids - {d})]
    ensures st'.next == st.next && st'.limit == st.limit && st'.recordCounts == st.recordCounts
  {
    var child := st.nodes[p].kids[d];
    UnlinkChildExact(st, refs, recordRefs, p, d);
    st' := UnlinkChild(st, p, d);
    ReleaseNodeExact(st', refs + multiset{child}, recordRefs, child);
    assert refs + multiset{child} - multiset{child} == refs;
    return ReleaseNode(st', child);
  }

  ghost predicate Quiescent(st: Stores)
  {
    st.pendingNodes == {} && st.pendingRecords == {}
  }

  /** Destroy queued slots, in any order, until none is left. */
  method Drain(st: Stores, ghost refs: Refs, ghost recordRefs: Refs) returns (st': Stores)
    requires Balanced(st, refs, recordRefs)
    ensures Balanced(st', refs, recordRefs) && Quiescent(st')
    ensures Extends(st'.nodes, st.nodes) && st'.next == st.next && st'.limit == st.limit
  {
    st' := st;
    while st'.pendingNodes != {}
      invariant Balanced(st', refs, recordRefs)
      invariant Extends(st'.nodes, st.nodes) && st'.next == st.next && st'.limit == st.limit
      decreases |st'.nodes|
    {
      var s :| s in st'.pendingNodes;
      PendingMeansUncounted(st', refs, recordRefs, s);
      var was := st'.nodes;
      st' := DestroyNode(st', s, refs, recordRefs);
      assert st'.nodes.Keys == was.Keys - {s};
    }
    while st'.pendingRecords != {}
      invariant Balanced(st', refs, recordRefs)
      invariant Extends(st'.nodes, st.nodes) && st'.next == st.next && st'.limit == st.limit && st'.pendingNodes == {}
      decreases |st'.pendingRecords|
    {
      var r :| r in st'.pendingRecords;
      RemoveRecordExact(st', refs, recordRefs, r);
      st' := RemoveRecord(st', r);
    }
  }

  // ---- What a drain keeps and what it cannot leave behind ----------------------------

  lemma {:induction false} HeldTrieSurvives(before: NodeMap, after: NodeMap, recordCounts: Counts, slot: Slot, path: seq<Digit>)
    requires Trie(before, slot, path) && slot in after
    requires Extends(after, before) && EdgesOk(after, recordCounts)
    ensures Agree(before, after, slot, |path|)
    decreases DEPTH + 1 - |path|
  {
    match before[slot]
    case Leaf(_, _) =>
    case Branch(kids) =>
      forall d | d in kids ensures Agree(before, after, kids[d], |path| + 1) {
        HeldTrieSurvives(before, after, recordCounts, kids[d], path + [d]);
      }
  }

  /** A held version reads the same map after any drain. */
  lemma DrainKeepsHeldVersions(st: Stores, st': Stores, refs: Refs, recordRefs: Refs, root: Root)
    requires Balanced(st', refs, recordRefs) && Extends(st'.nodes, st.nodes)
    requires ValidRoot(st.nodes, root) && (root.Some? ==> root.value in refs)
    ensures ValidRoot(st'.nodes, root) && Bindings(st'.nodes, root) == Bindings(st.nodes, root)
  {
    if root.Some? {
      Open(st', refs, recordRefs);
      HeldTrieSurvives(st.nodes, st'.nodes, st'.recordCounts, root.value, []);
      AgreeingVersions(st.nodes, st'.nodes, root);
    }
  }

  lemma AgreeingVersions(nodes: NodeMap, nodes': NodeMap, root: Root)
    requires ValidRoot(nodes, root) && (root.Some? ==> Agree(nodes, nodes', root.value, 0))
    ensures ValidRoot(nodes', root) && Bindings(nodes', root) == Bindings(nodes, root)
  {
    if root.Some? {
      AgreeingTriesReadAlike(nodes, nodes', root.value, []);
      BindingsAreFinds(nodes, root);
      var m := Bindings(nodes, root);
      forall k: Key ensures Find(nodes', root, k) == if k in m then Some(m[k]) else None {
        assert Find(nodes', root, k) == Find(nodes, root, k);
      }
      FindsDetermineBindings(nodes', root, m);
    }
  }

  /** A version keeps its map while other versions are being built. */
  lemma ExtendedVersions(nodes: NodeMap, nodes': NodeMap, root: Root)
    requires ValidRoot(nodes, root) && Extends(nodes, nodes')
    ensures ValidRoot(nodes', root) && Bindings(nodes', root) == Bindings(nodes, root)
  {
    if root.Some? {
      ExtendsAgrees(nodes, nodes', root.value, []);
    }
    AgreeingVersions(nodes, nodes', root);
  }

  /** `slots` contains the handles and every child of its members. */
  ghost predicate ClosedFrom(nodes: NodeMap, refs: Refs, slots: set<Slot>)
  {
    && (forall s | s in refs :: s in slots)
    && (forall p, d | p in slots && p in nodes && nodes[p].Branch? && d in nodes[p].kids :: nodes[p].kids[d] in slots)
  }

  /** After a drain nothing leaks: every live node is reachable from a handle (it
      lies in every closed set that contains the handles), and every live record
      is bound by a live leaf or held. */
  lemma {:induction false} NothingLeaks(st: Stores, refs: Refs, recordRefs: Refs, reached: set<Slot>, n: Slot)
    requires Balanced(st, refs, recordRefs) && Quiescent(st) && ClosedFrom(st.nodes, refs, reached)
    ensures n in st.nodes ==> n in reached
    decreases st.next - n
  {
    if n in st.nodes && n !in refs {
      PendingMeansUncounted(st, refs, recordRefs, n);
      Open(st, refs, recordRefs);
      assert st.nodeCounts[n] == InDegree(st.nodes, n) + refs[n];
      assert InEdges(st.nodes, n) != {};
      var e :| e in InEdges(st.nodes, n);
      assert n < e.0 < st.next;
      NothingLeaks(st, refs, recordRefs, reached, e.0);
    }
  }

  lemma NoRecordLeaks(st: Stores, refs: Refs, recordRefs: Refs, r: Slot)
    requires Balanced(st, refs, recordRefs) && Quiescent(st) && r in st.recordCounts
    ensures r in recordRefs || exists p :: p in st.nodes && st.nodes[p].Leaf? && st.nodes[p].record == r
  {
    Open(st, refs, recordRefs);
    assert st.recordCounts[r] == LeafDegree(st.nodes, r) + recordRefs[r];
    if r !in recordRefs {
      assert LeafEdges(st.nodes, r) != {};
      var p :| p in LeafEdges(st.nodes, r);
    }
  }

  // ---- Versions side by side ----------------------------------------------------------

  ghost function Handles(roots: seq<Root>): Refs
  {
    if roots == [] then multiset{}
    else Handles(roots[..|roots| - 1]) + RootRef(roots[|roots| - 1])
  }

  ghost function RootRef(root: Root): Refs
  {
    if root.Some? then multiset{root.value} else multiset{}
  }

  lemma {:induction false} HandlesWithout(roots: seq<Root>, i: nat)
    requires i < |roots|
    ensures Handles(roots) == Handles(roots[..i] + roots[i + 1..]) + RootRef(roots[i])
  {
    hide RootRef;
    var last := |roots| - 1;
    if i == last {
      assert roots[..i] + roots[i + 1..] == roots[..last];
    } else {
      hide Handles;
      HandlesWithout(roots[..last], i);
      var rest, front := roots[..i] + roots[i + 1..], roots[..last][..i] + roots[..last][i + 1..];
      assert rest == front + [roots[last]] && roots == roots[..last] + [roots[last]];
      HandlesPlus(front, roots[last]);
      HandlesPlus(roots[..last], roots[last]);
      Swap(Handles(front), RootRef(roots[i]), RootRef(roots[last]));
    }
  }

  lemma Swap(a: Refs, b: Refs, c: Refs)
    ensures a + b + c == a + c + b
  {
  }

  lemma HandleIsHeld(roots: seq<Root>, i: nat)
    requires i < |roots| && roots[i].Some?
    ensures roots[i].value in Handles(roots)
  {
    HandlesWithout(roots, i);
  }

  lemma HandlesPlus(roots: seq<Root>, root: Root)
    ensures Handles(roots + [root]) == Handles(roots) + RootRef(root)
  {
    assert (roots + [root])[..|roots|] == roots;
  }

  /** Every version reads as its map. */
  ghost predicate Reads(nodes: NodeMap, roots: seq<Root>, maps: seq<map<Key, Slot>>)
  {
    |maps| == |roots| && forall i | 0 <= i < |roots| :: ReadsAs(nodes, roots[i], maps[i])
  }

  ghost predicate ReadsAs(nodes: NodeMap, root: Root, m: map<Key, Slot>)
  {
    ValidRoot(nodes, root) && Bindings(nodes, root) == m
  }

  lemma ReadsPlus(nodes: NodeMap, roots: seq<Root>, maps: seq<map<Key, Slot>>, root: Root, m: map<Key, Slot>)
    requires Reads(nodes, roots, maps) && ReadsAs(nodes, root, m)
    ensures Reads(nodes, roots + [root], maps + [m])
  {
    hide ReadsAs;
  }

  lemma StillReads(nodes: NodeMap, nodes': NodeMap, roots: seq<Root>, maps: seq<map<Key, Slot>>)
    requires Reads(nodes, roots, maps) && Extends(nodes, nodes')
    ensures Reads(nodes', roots, maps)
  {
    forall i | 0 <= i < |roots| ensures ReadsAs(nodes', roots[i], maps[i]) {
      assert ReadsAs(nodes, roots[i], maps[i]);
      ExtendedVersions(nodes, nodes', roots[i]);
    }
  }

  /** A document's stores and the versions some reader or journal still holds.
      `maps` is the ghost truth: the finite map each version was published as. */
  class Versions {
    var st: Stores
    var roots: seq<Root>
    ghost var maps: seq<map<Key, Slot>>

    ghost predicate Valid()
      reads this
    {
      Balanced(st, Handles(roots), multiset{}) && Reads(st.nodes, roots, maps)
    }

    constructor (limit: nat)
      ensures Valid() && roots == [None] && maps == [map[]]
      ensures st.next == 0 && st.limit == limit
    {
      st, roots, maps := NoStores(limit), [None], [map[]];
      new;
      EmptyStoresExact(limit);
      assert Handles([None]) == multiset{};
    }

    /** One transaction mutation: create a record, insert it, drop the creator's
        handle. A refusal anywhere publishes nothing, no older version moves, and
        it is the pool's: no slot left, or a count saturated. */
    method Put(i: nat, key: Key) returns (r: Result<Slot, PoolError>)
      requires Valid() && i < |roots|
      modifies this
      ensures Valid()
      ensures r.Failure? ==> roots == old(roots) && maps == old(maps)
      ensures r.Failure? ==> Refused(st, Handles(roots), multiset{}, 3, r.error)
      ensures st.next <= old(st.next) + (DEPTH + 2) && st.limit == old(st.limit)
      ensures r.Success? ==> |roots| == |old(roots)| + 1 && old(roots) <= roots
      ensures r.Success? ==> maps == old(maps) + [old(maps[i])[key := r.value]]
      ensures r.Success? ==> r.value == old(st.next)
    {
      assert |maps| == |roots|;
      hide Handles, Reads, Balanced, Refused;
      var st', root;
      st', r, root := PutStep(st, roots, i, key, maps);
      st := st';
      if r.Success? {
        roots, maps := roots + [root], maps + [maps[i][key := r.value]];
      }
    }

    method Erase(i: nat, key: Key) returns (r: Result<Root, PoolError>)
      requires Valid() && i < |roots|
      modifies this
      ensures Valid()
      ensures r.Failure? ==> roots == old(roots) && maps == old(maps)
      ensures r.Failure? ==> Refused(st, Handles(roots), multiset{}, 3, r.error)
      ensures st.next <= old(st.next) + DEPTH && st.limit == old(st.limit)
      ensures r.Success? ==> roots == old(roots) + [r.value] && maps == old(maps) + [old(maps[i]) - {key}]
    {
      assert |maps| == |roots|;
      hide Handles, Reads, Balanced, Refused;
      var st';
      st', r := EraseStep(st, roots, i, key, maps);
      st := st';
      if r.Success? {
        roots, maps := roots + [r.value], maps + [maps[i] - {key}];
      }
    }

    /** Let go of one version. */
    method Drop(i: nat)
      requires Valid() && i < |roots|
      modifies this
      ensures Valid()
      ensures roots == old(roots[..i] + roots[i + 1..]) && maps == old(maps[..i] + maps[i + 1..])
    {
      st := DropStep(st, roots, i, maps);
      roots, maps := roots[..i] + roots[i + 1..], maps[..i] + maps[i + 1..];
    }

    /** Reclaim everything no version reaches, and nothing else. The pool may
        grant that many more slots afterwards. */
    method Collect(granted: nat)
      requires Valid()
      modifies this`st
      ensures Valid() && Quiescent(st)
      ensures st.next == old(st.next) && st.limit == old(st.limit) + granted
      ensures forall reached, n | ClosedFrom(st.nodes, Handles(roots), reached) && n in st.nodes :: n in reached
    {
      var st' := Drain(st, Handles(roots), multiset{});
      CollectedReads(st, st', roots, maps);
      LimitIsFree(st', Handles(roots), multiset{}, st'.limit + granted);
      st := st'.(limit := st'.limit + granted);
      forall reached, n | ClosedFrom(st.nodes, Handles(roots), reached) && n in st.nodes ensures n in reached {
        NothingLeaks(st, Handles(roots), multiset{}, reached, n);
      }
    }
  }

  lemma EmptyStoresExact(limit: nat)
    ensures Balanced(NoStores(limit), multiset{}, multiset{})
  {
  }

  lemma LimitIsFree(st: Stores, refs: Refs, recordRefs: Refs, limit: nat)
    requires Balanced(st, refs, recordRefs)
    ensures Balanced(st.(limit := limit), refs, recordRefs)
  {
    Open(st, refs, recordRefs);
  }

  lemma CollectedReads(st: Stores, st': Stores, roots: seq<Root>, maps: seq<map<Key, Slot>>)
    requires Balanced(st', Handles(roots), multiset{}) && Extends(st'.nodes, st.nodes)
    requires Reads(st.nodes, roots, maps)
    ensures Reads(st'.nodes, roots, maps)
  {
    forall i | 0 <= i < |roots| ensures ReadsAs(st'.nodes, roots[i], maps[i]) {
      assert ReadsAs(st.nodes, roots[i], maps[i]);
      if roots[i].Some? {
        HandleIsHeld(roots, i);
      }
      DrainKeepsHeldVersions(st, st', Handles(roots), multiset{}, roots[i]);
    }
  }

  lemma HeldRootIsUsable(st: Stores, roots: seq<Root>, i: nat, maps: seq<map<Key, Slot>>, recordRefs: Refs)
    requires Balanced(st, Handles(roots), recordRefs) && Reads(st.nodes, roots, maps) && i < |roots|
    ensures |maps| == |roots| && UsableRoot(st, roots[i]) && Bindings(st.nodes, roots[i]) == maps[i]
  {
    assert ReadsAs(st.nodes, roots[i], maps[i]);
    if roots[i].Some? {
      HandleIsHeld(roots, i);
      HeldMeansCounted(st, Handles(roots), recordRefs, roots[i].value);
    }
  }

  lemma ReadsWithout(nodes: NodeMap, roots: seq<Root>, maps: seq<map<Key, Slot>>, i: nat)
    requires Reads(nodes, roots, maps) && i < |roots|
    ensures Reads(nodes, roots[..i] + roots[i + 1..], maps[..i] + maps[i + 1..])
  {
    var rest, kept := roots[..i] + roots[i + 1..], maps[..i] + maps[i + 1..];
    forall j | 0 <= j < |rest| ensures ReadsAs(nodes, rest[j], kept[j]) {
      var k := if j < i then j else j + 1;
      assert rest[j] == roots[k] && kept[j] == maps[k];
      assert ReadsAs(nodes, roots[k], maps[k]);
    }
  }

  method DropStep(st: Stores, roots: seq<Root>, i: nat, ghost maps: seq<map<Key, Slot>>) returns (st': Stores)
    requires Balanced(st, Handles(roots), multiset{}) && Reads(st.nodes, roots, maps) && i < |roots|
    ensures Balanced(st', Handles(roots[..i] + roots[i + 1..]), multiset{})
    ensures Reads(st'.nodes, roots[..i] + roots[i + 1..], maps[..i] + maps[i + 1..])
  {
    HandlesWithout(roots, i);
    ReadsWithout(st.nodes, roots, maps, i);
    ghost var held, left := Handles(roots), Handles(roots[..i] + roots[i + 1..]);
    if roots[i].Some? {
      var slot := roots[i].value;
      assert held == left + multiset{slot};
      assert held - multiset{slot} == left;
      ReleaseNodeExact(st, held, multiset{}, slot);
      return ReleaseNode(st, slot);
    } else {
      assert left == held;
      return st;
    }
  }

  /** Create a record, bind it in the next version of `root`, and give up the
      creator's handle, whatever happened. */
  method PutRecord(st: Stores, root: Root, key: Key, ghost refs: Refs, ghost recordRefs: Refs)
    returns (st': Stores, r: Result<Slot, PoolError>, root': Root)
    requires Balanced(st, refs, recordRefs) && UsableRoot(st, root)
    ensures Balanced(st', if r.Success? then refs + RootRef(root') else refs, recordRefs)
    ensures Extends(st.nodes, st'.nodes)
    ensures r.Success? ==> r.value == st.next && ReadsAs(st'.nodes, root', Bindings(st.nodes, root)[key := r.value])
    ensures r.Failure? ==> Refused(st', refs, recordRefs, 3, r.error)
    ensures st.next <= st'.next <= st.next + (DEPTH + 2) && st'.limit == st.limit
    ensures r.Success? ==> st'.next > st.next
  {
    if st.next >= st.limit {
      return st, Failure(OutOfMemory), None;
    }
    var record := st.next;
    ghost var held := recordRefs + multiset{record};
    CreateRecordExact(st, refs, recordRefs);
    var made;
    st', made := HamtInsert(CreateRecord(st), root, key, record, refs, held);
    ReleaseRecordExact(st', if made.Success? then refs + multiset{made.value} else refs, held, record);
    assert held - multiset{record} == recordRefs;
    st' := ReleaseRecord(st', record);
    match made {
      case Failure(e) => return st', Failure(e), None;
      case Success(n) => return st', Success(record), Some(n);
    }
  }

  method PutStep(st: Stores, roots: seq<Root>, i: nat, key: Key, ghost maps: seq<map<Key, Slot>>)
    returns (st': Stores, r: Result<Slot, PoolError>, root: Root)
    requires Balanced(st, Handles(roots), multiset{}) && Reads(st.nodes, roots, maps) && i < |roots|
    ensures Balanced(st', Handles(if r.Success? then roots + [root] else roots), multiset{})
    ensures Reads(st'.nodes, if r.Success? then roots + [root] else roots,
                  if r.Success? then maps + [maps[i][key := r.value]] else maps)
    ensures r.Success? ==> r.value == st.next
    ensures r.Failure? ==> Refused(st', Handles(roots), multiset{}, 3, r.error)
    ensures st'.next <= st.next + (DEPTH + 2) && st'.limit == st.limit
  {
    HeldRootIsUsable(st, roots, i, maps, multiset{});
    st', r, root := PutRecord(st, roots[i], key, Handles(roots), multiset{});
    StillReads(st.nodes, st'.nodes, roots, maps);
    if r.Success? {
      HandlesPlus(roots, root);
      ReadsPlus(st'.nodes, roots, maps, root, maps[i][key := r.value]);
    }
  }

  method EraseStep(st: Stores, roots: seq<Root>, i: nat, key: Key, ghost maps: seq<map<Key, Slot>>)
    returns (st': Stores, r: Result<Root, PoolError>)
    requires Balanced(st, Handles(roots), multiset{}) && Reads(st.nodes, roots, maps) && i < |roots|
    ensures Balanced(st', Handles(if r.Success? then roots + [r.value] else roots), multiset{})
    ensures Reads(st'.nodes, if r.Success? then roots + [r.value] else roots,
                  if r.Success? then maps + [maps[i] - {key}] else maps)
    ensures r.Failure? ==> Refused(st', Handles(roots), multiset{}, 3, r.error)
    ensures st'.next <= st.next + DEPTH && st'.limit == st.limit
  {
    hide Handles, Reads, Balanced, Bindings, ValidRoot;
    ghost var held := Handles(roots);
    HeldRootIsUsable(st, roots, i, maps, multiset{});
    st', r := HamtErase(st, roots[i], key, held, multiset{});
    StillReads(st.nodes, st'.nodes, roots, maps);
    if r.Success? {
      HandlesPlus(roots, r.value);
      assert held + multiset{} == held;
      ReadsPlus(st'.nodes, roots, maps, r.value, maps[i] - {key});
    }
  }
}
