/** The two typed slab stores behind the persistent map, with one reference count
    per slot. Every stored edge holds one count on its target and every owning
    handle holds one; `Balanced` says that the counts are precisely that. It is kept
    by every single retain, release and edge store, so it holds on the success paths
    and on every failure path alike. */
module HamtStore {
  import opened HamtTrie

  /** A count is 32 bits wide. One that reaches this value refuses to grow. */
  const MAX_COUNT: nat := 0xFFFF_FFFF

  type Count = c: nat | c <= 0xFFFF_FFFF
  type Counts = map<Slot, nat>
  type Refs = multiset<Slot>

  /** The stores' state. The pending sets are the deferred-reclaim stacks: slots
      whose count reached zero and that no drain has destroyed yet. The pool grants
      slots until `next` reaches `limit`, wherever that is, and then refuses. */
  datatype Stores = Stores(
    nodes: NodeMap, nodeCounts: map<Slot, Count>, pendingNodes: set<Slot>,
    recordCounts: map<Slot, Count>, pendingRecords: set<Slot>,
    next: Slot, limit: nat)

  function NoStores(limit: nat): Stores
  {
    Stores(map[], map[], {}, map[], {}, 0, limit)
  }

  // ---- Counting edges -------------------------------------------------------------

  /** The child edges into node slot `s`: one per (branch, digit). */
  ghost function InEdges(nodes: NodeMap, s: Slot): set<(Slot, Digit)>
  {
    set p, d | p in nodes && nodes[p].Branch? && d in nodes[p].kids && nodes[p].kids[d] == s :: (p, d)
  }

  /** The leaves that bind record slot `r`. */
  ghost function LeafEdges(nodes: NodeMap, r: Slot): set<Slot>
  {
    set p | p in nodes && nodes[p].Leaf? && nodes[p].record == r
  }

  ghost function InDegree(nodes: NodeMap, s: Slot): nat
  {
    |InEdges(nodes, s)|
  }

  ghost function LeafDegree(nodes: NodeMap, r: Slot): nat
  {
    |LeafEdges(nodes, r)|
  }

  /** The triggers keep the solver from walking from every node to its parents. */
  ghost predicate NodeCountsExact(nodes: NodeMap, counts: Counts, refs: Refs)
  {
    && counts.Keys == nodes.Keys
    && (forall s {:trigger InDegree(nodes, s)} | s in nodes :: counts[s] == InDegree(nodes, s) + refs[s])
    && (forall s | s in refs :: s in nodes)
  }

  ghost predicate RecordCountsExact(nodes: NodeMap, counts: Counts, refs: Refs)
  {
    && (forall r {:trigger LeafDegree(nodes, r)} | r in counts :: counts[r] == LeafDegree(nodes, r) + refs[r])
    && (forall r | r in refs :: r in counts)
  }

  /** No edge dangles, and every child edge points at an older node. */
  ghost predicate EdgesOk(nodes: NodeMap, recordCounts: Counts)
  {
    && (forall p, d | p in nodes && nodes[p].Branch? && d in nodes[p].kids ::
          nodes[p].kids[d] in nodes && nodes[p].kids[d] < p)
    && (forall p | p in nodes && nodes[p].Leaf? :: nodes[p].record in recordCounts)
  }

  ghost predicate PendingExact(counts: Counts, pending: set<Slot>)
  {
    forall s :: s in pending <==> s in counts && counts[s] == 0
  }

  predicate Counted(counts: Counts, s: Slot)
  {
    s in counts && counts[s] > 0
  }

  ghost predicate AllBefore(slots: set<Slot>, next: Slot)
  {
    forall s | s in slots :: s < next
  }

  /** The counts are exactly the stored edges plus the handles `refs` (on nodes)
      and `recordRefs` (on records) that exist right now. */
  ghost predicate Exact(st: Stores, refs: Refs, recordRefs: Refs)
  {
    && NodeCountsExact(st.nodes, st.nodeCounts, refs)
    && RecordCountsExact(st.nodes, st.recordCounts, recordRefs)
    && EdgesOk(st.nodes, st.recordCounts)
    && PendingExact(st.nodeCounts, st.pendingNodes)
    && PendingExact(st.recordCounts, st.pendingRecords)
    && AllBefore(st.nodes.Keys, st.next)
    && AllBefore(st.recordCounts.Keys, st.next)
  }

  ghost predicate Opened(t: int) { true }

  /** `Exact` behind a seal: its parts enter a proof only where `Open` is called,
      which keeps the proofs of whole operations small. */
  ghost predicate Balanced(st: Stores, refs: Refs, recordRefs: Refs)
  {
    forall t {:trigger Opened(t)} :: Opened(t) ==> Exact(st, refs, recordRefs)
  }

  lemma Open(st: Stores, refs: Refs, recordRefs: Refs)
    requires Balanced(st, refs, recordRefs)
    ensures Exact(st, refs, recordRefs)
  {
    assert Opened(0);
  }

  lemma EdgesAfterAdding(nodes: NodeMap, p: Slot, d: Digit, child: Slot, s: Slot)
    requires p in nodes && nodes[p].Branch? && d !in nodes[p].kids
    ensures InEdges(nodes[p := Branch(nodes[p].kids[d := child])], s)
         == if s == child then InEdges(nodes, s) + {(p, d)} else InEdges(nodes, s)
    ensures (p, d) !in InEdges(nodes, s)
  {
    var after := nodes[p := Branch(nodes[p].kids[d := child])];
    var a, b := InEdges(after, s), if s == child then InEdges(nodes, s) + {(p, d)} else InEdges(nodes, s);
    forall q, e ensures (q, e) in a <==> (q, e) in b {
      if q == p && e == d {} else if q == p {
        assert after[q].kids == nodes[p].kids[d := child];
      }
    }
    assert forall x :: x in a ==> x == (x.0, x.1) && x in b;
    assert forall x :: x in b ==> x == (x.0, x.1) && x in a;
  }

  /** One stored edge adds one to the in-degree of its target and to nothing else. */
  lemma AddedEdge(nodes: NodeMap, p: Slot, d: Digit, child: Slot)
    requires p in nodes && nodes[p].Branch? && d !in nodes[p].kids
    ensures var after := nodes[p := Branch(nodes[p].kids[d := child])];
            && (forall s :: InDegree(after, s) == InDegree(nodes, s) + if s == child then 1 else 0)
            && (forall r :: LeafDegree(after, r) == LeafDegree(nodes, r))
  {
    var after := nodes[p := Branch(nodes[p].kids[d := child])];
    forall s ensures InDegree(after, s) == InDegree(nodes, s) + if s == child then 1 else 0 {
      EdgesAfterAdding(nodes, p, d, child, s);
    }
    forall r ensures LeafDegree(after, r) == LeafDegree(nodes, r) {
      assert LeafEdges(after, r) == LeafEdges(nodes, r);
    }
  }

  lemma RemovedEdge(nodes: NodeMap, p: Slot, d: Digit)
    requires p in nodes && nodes[p].Branch? && d in nodes[p].kids
    ensures var after := nodes[p := Branch(nodes[p].kids - {d})];
            && (forall s :: InDegree(nodes, s) == InDegree(after, s) + if s == nodes[p].kids[d] then 1 else 0)
            && (forall r :: LeafDegree(after, r) == LeafDegree(nodes, r))
  {
    var after := nodes[p := Branch(nodes[p].kids - {d})];
    AddedEdge(after, p, d, nodes[p].kids[d]);
    assert (nodes[p].kids - {d})[d := nodes[p].kids[d]] == nodes[p].kids;
    assert after[p := Branch(nodes[p].kids)] == nodes;
  }

  /** Turning a childless branch into a leaf adds one record edge. */
  lemma AddedLeaf(nodes: NodeMap, p: Slot, key: Key, record: Slot)
    requires p in nodes && nodes[p] == Branch(map[])
    ensures var after := nodes[p := Leaf(key, record)];
            && (forall s :: InDegree(after, s) == InDegree(nodes, s))
            && (forall r :: LeafDegree(after, r) == LeafDegree(nodes, r) + if r == record then 1 else 0)
  {
    var after := nodes[p := Leaf(key, record)];
    forall s ensures InDegree(after, s) == InDegree(nodes, s) {
      assert InEdges(after, s) == InEdges(nodes, s);
    }
    forall r ensures LeafDegree(after, r) == LeafDegree(nodes, r) + if r == record then 1 else 0 {
      assert LeafEdges(after, r) == LeafEdges(nodes, r) + if r == record then {p} else {};
    }
  }

  lemma RemovedLeaf(nodes: NodeMap, p: Slot)
    requires p in nodes && nodes[p].Leaf?
    ensures var after := nodes[p := Branch(map[])];
            && (forall s :: InDegree(after, s) == InDegree(nodes, s))
            && (forall r :: LeafDegree(nodes, r) == LeafDegree(after, r) + if r == nodes[p].record then 1 else 0)
  {
    var after := nodes[p := Branch(map[])];
    AddedLeaf(after, p, nodes[p].key, nodes[p].record);
    assert after[p := nodes[p]] == nodes;
  }

  /** A childless branch has no outgoing edge, so it comes and goes without
      touching any degree. */
  lemma ChildlessNodeHasNoEdges(nodes: NodeMap, p: Slot)
    requires p !in nodes
    ensures var after := nodes[p := Branch(map[])];
            && (forall s :: InDegree(after, s) == InDegree(nodes, s))
            && (forall r :: LeafDegree(after, r) == LeafDegree(nodes, r))
  {
    var after := nodes[p := Branch(map[])];
    forall s ensures InDegree(after, s) == InDegree(nodes, s) {
      assert InEdges(after, s) == InEdges(nodes, s);
    }
    forall r ensures LeafDegree(after, r) == LeafDegree(nodes, r) {
      assert LeafEdges(after, r) == LeafEdges(nodes, r);
    }
  }

  lemma NothingPointsOutside(nodes: NodeMap, recordCounts: Counts, s: Slot)
    requires EdgesOk(nodes, recordCounts)
    ensures s !in nodes ==> InDegree(nodes, s) == 0
    ensures s !in recordCounts ==> LeafDegree(nodes, s) == 0
  {
    if s !in nodes {
      assert InEdges(nodes, s) == {};
    }
    if s !in recordCounts {
      assert LeafEdges(nodes, s) == {};
    }
  }

  lemma HeldMeansCounted(st: Stores, refs: Refs, recordRefs: Refs, s: Slot)
    requires Balanced(st, refs, recordRefs)
    ensures s in refs ==> s in st.nodes && s < st.next && Counted(st.nodeCounts, s)
    ensures s in recordRefs ==> Counted(st.recordCounts, s)
  {
    Open(st, refs, recordRefs);
    if s in refs {
      assert st.nodeCounts[s] == InDegree(st.nodes, s) + refs[s];
    }
    if s in recordRefs {
      assert st.recordCounts[s] == LeafDegree(st.nodes, s) + recordRefs[s];
    }
  }

  lemma LinkedMeansCounted(st: Stores, refs: Refs, recordRefs: Refs, p: Slot, d: Digit)
    requires Balanced(st, refs, recordRefs)
    requires p in st.nodes && st.nodes[p].Branch? && d in st.nodes[p].kids
    ensures var c := st.nodes[p].kids[d]; c in st.nodes && c < p < st.next && Counted(st.nodeCounts, c)
  {
    Open(st, refs, recordRefs);
    var c := st.nodes[p].kids[d];
    assert (p, d) in InEdges(st.nodes, c);
    assert st.nodeCounts[c] == InDegree(st.nodes, c) + refs[c];
  }

  /** A slot in use stays in use while nodes and handles are only added. */
  lemma StillCounted(st: Stores, st': Stores, refs: Refs, refs': Refs, recordRefs: Refs, s: Slot)
    requires Balanced(st, refs, recordRefs) && Balanced(st', refs', recordRefs)
    requires Extends(st.nodes, st'.nodes) && refs <= refs' && Counted(st.nodeCounts, s)
    ensures s in st'.nodes && s < st'.next && Counted(st'.nodeCounts, s)
  {
    Open(st, refs, recordRefs);
    Open(st', refs', recordRefs);
    assert st.nodeCounts[s] == InDegree(st.nodes, s) + refs[s];
    assert st'.nodeCounts[s] == InDegree(st'.nodes, s) + refs'[s];
    if refs[s] == 0 {
      var e :| e in InEdges(st.nodes, s);
      assert e in InEdges(st'.nodes, s);
    }
  }

  // ---- When a count saturates -------------------------------------------------------

  /** So many nodes and handles exist that some count may have saturated. */
  ghost predicate Crowded(st: Stores, refs: Refs, recordRefs: Refs, slack: nat)
  {
    ARITY * st.next + |refs| + |recordRefs| + slack >= MAX_COUNT
  }

  /** The slots below `n`, and their possible edges. */
  ghost function Below(n: nat): (b: set<Slot>)
    ensures |b| <= n
    ensures forall p: Slot :: p in b <==> p < n
  {
    if n == 0 then {} else Below(n - 1) + {n - 1}
  }

  ghost function Row(p: Slot, w: nat): (row: set<(Slot, Digit)>)
    requires w <= 32
    ensures |row| <= w
  {
    if w == 0 then {} else Row(p, w - 1) + {(p, w - 1)}
  }

  ghost function Grid(n: nat): (g: set<(Slot, Digit)>)
    ensures |g| <= ARITY * n
  {
    if n == 0 then {} else Grid(n - 1) + Row(n - 1, 32)
  }

  lemma {:induction false} InRow(p: Slot, w: nat, d: Digit)
    requires d < w <= 32
    ensures (p, d) in Row(p, w)
  {
    if d < w - 1 {
      InRow(p, w - 1, d);
    }
  }

  lemma {:induction false} InGrid(n: nat, p: Slot, d: Digit)
    requires p < n
    ensures (p, d) in Grid(n)
  {
    if p < n - 1 {
      InGrid(n - 1, p, d);
    } else {
      InRow(p, 32, d);
    }
  }

  lemma SubsetSize<T>(a: set<T>, b: set<T>)
    requires a <= b
    ensures |a| <= |b|
  {
    assert b == a + (b - a);
  }

  lemma HandleCountAtMostAll(refs: Refs, s: Slot)
    ensures refs[s] <= |refs|
  {
    assert refs == refs[s := 0] + multiset{}[s := refs[s]];
  }

  /** A saturated count needs that many edges and handles. */
  lemma SaturatedMeansCrowded(st: Stores, refs: Refs, recordRefs: Refs, s: Slot)
    requires Balanced(st, refs, recordRefs)
    ensures s in st.nodeCounts && st.nodeCounts[s] == MAX_COUNT ==> Crowded(st, refs, recordRefs, 0)
    ensures s in st.recordCounts && st.recordCounts[s] == MAX_COUNT ==> Crowded(st, refs, recordRefs, 0)
  {
    Open(st, refs, recordRefs);
    if s in st.nodeCounts {
      assert st.nodeCounts[s] == InDegree(st.nodes, s) + refs[s];
      forall e | e in InEdges(st.nodes, s) ensures e in Grid(st.next) {
        InGrid(st.next, e.0, e.1);
      }
      SubsetSize(InEdges(st.nodes, s), Grid(st.next));
      HandleCountAtMostAll(refs, s);
    }
    if s in st.recordCounts {
      assert st.recordCounts[s] == LeafDegree(st.nodes, s) + recordRefs[s];
      SubsetSize(LeafEdges(st.nodes, s), Below(st.next));
      HandleCountAtMostAll(recordRefs, s);
    }
  }

  // ---- Single store steps -----------------------------------------------------------

  /** `RefStore::create` on the node store, when the pool grants a slot. */
  function CreateNode(st: Stores): Stores
    requires st.next < st.limit
  {
    st.(nodes := st.nodes[st.next := Branch(map[])], nodeCounts := st.nodeCounts[st.next := 1], next := st.next + 1)
  }

  lemma NewChildlessNodeKeepsEdges(nodes: NodeMap, recordCounts: Counts, n: Slot)
    requires n !in nodes && EdgesOk(nodes, recordCounts)
    ensures EdgesOk(nodes[n := Branch(map[])], recordCounts)
  {
  }

  lemma NewNodeCountsExact(nodes: NodeMap, after: NodeMap, counts: Counts, refs: Refs, n: Slot)
    requires NodeCountsExact(nodes, counts, refs) && n !in nodes && InDegree(nodes, n) == 0
    requires after.Keys == nodes.Keys + {n}
    requires forall s :: InDegree(after, s) == InDegree(nodes, s)
    ensures NodeCountsExact(after, counts[n := 1], refs + multiset{n})
  {
    assert n !in refs;
  }

  lemma NewNodeRecordsExact(nodes: NodeMap, after: NodeMap, counts: Counts, refs: Refs)
    requires RecordCountsExact(nodes, counts, refs)
    requires forall r :: LeafDegree(after, r) == LeafDegree(nodes, r)
    ensures RecordCountsExact(after, counts, refs)
  {
  }

  lemma NewSlotNotPending(counts: Counts, pending: set<Slot>, n: Slot)
    requires PendingExact(counts, pending) && n !in counts
    ensures PendingExact(counts[n := 1], pending)
  {
  }

  lemma CreateNodeExact(st: Stores, refs: Refs, recordRefs: Refs)
    requires Balanced(st, refs, recordRefs) && st.next < st.limit
    ensures st.next !in st.nodes && Balanced(CreateNode(st), refs + multiset{st.next}, recordRefs)
  {
    Open(st, refs, recordRefs);
    ChildlessNodeHasNoEdges(st.nodes, st.next);
    NothingPointsOutside(st.nodes, st.recordCounts, st.next);
    NewChildlessNodeKeepsEdges(st.nodes, st.recordCounts, st.next);
    ghost var after := CreateNode(st).nodes;
    NewNodeCountsExact(st.nodes, after, st.nodeCounts, refs, st.next);
    NewNodeRecordsExact(st.nodes, after, st.recordCounts, recordRefs);
    NewSlotNotPending(st.nodeCounts, st.pendingNodes, st.next);
    assert AllBefore(after.Keys, st.next + 1);
  }

  /** `RefStore<ObjectRecord>::create`, when the pool grants a slot. */
  function CreateRecord(st: Stores): Stores
    requires st.next < st.limit
  {
    st.(recordCounts := st.recordCounts[st.next := 1], next := st.next + 1)
  }

  lemma CreateRecordExact(st: Stores, refs: Refs, recordRefs: Refs)
    requires Balanced(st, refs, recordRefs) && st.next < st.limit
    ensures st.next !in st.recordCounts && Balanced(CreateRecord(st), refs, recordRefs + multiset{st.next})
  {
    Open(st, refs, recordRefs);
    NothingPointsOutside(st.nodes, st.recordCounts, st.next);
    OneMoreRecord(st.nodes, st.recordCounts, recordRefs, st.next);
    hide NodeCountsExact, RecordCountsExact;
  }

  lemma OneMoreRecord(nodes: NodeMap, counts: Counts, refs: Refs, r: Slot)
    requires RecordCountsExact(nodes, counts, refs) && r !in counts && LeafDegree(nodes, r) == 0
    ensures RecordCountsExact(nodes, counts[r := 1], refs + multiset{r})
  {
    hide LeafDegree;
    assert refs[r] == 0;
    forall s | s in counts[r := 1] ensures counts[r := 1][s] == LeafDegree(nodes, s) + (refs + multiset{r})[s] {
      if s != r {
        assert counts[s] == LeafDegree(nodes, s) + refs[s];
      }
    }
  }

  function RetainNode(st: Stores, s: Slot): Stores
    requires s in st.nodeCounts && st.nodeCounts[s] < MAX_COUNT
  {
    st.(nodeCounts := st.nodeCounts[s := st.nodeCounts[s] + 1])
  }

  lemma RetainNodeExact(st: Stores, refs: Refs, recordRefs: Refs, s: Slot)
    requires Balanced(st, refs, recordRefs) && Counted(st.nodeCounts, s) && st.nodeCounts[s] < MAX_COUNT
    ensures Balanced(RetainNode(st, s), refs + multiset{s}, recordRefs)
  {
    Open(st, refs, recordRefs);
  }

  function RetainRecord(st: Stores, r: Slot): Stores
    requires r in st.recordCounts && st.recordCounts[r] < MAX_COUNT
  {
    st.(recordCounts := st.recordCounts[r := st.recordCounts[r] + 1])
  }

  lemma RetainRecordExact(st: Stores, refs: Refs, recordRefs: Refs, r: Slot)
    requires Balanced(st, refs, recordRefs) && Counted(st.recordCounts, r) && st.recordCounts[r] < MAX_COUNT
    ensures Balanced(RetainRecord(st, r), refs, recordRefs + multiset{r})
  {
    Open(st, refs, recordRefs);
  }

  /** Give one owned count back; at zero the slot is queued, never destroyed here. */
  function ReleaseNode(st: Stores, s: Slot): Stores
    requires Counted(st.nodeCounts, s)
  {
    st.(nodeCounts := st.nodeCounts[s := st.nodeCounts[s] - 1],
        pendingNodes := if st.nodeCounts[s] == 1 then st.pendingNodes + {s} else st.pendingNodes)
  }

  lemma ReleaseNodeExact(st: Stores, refs: Refs, recordRefs: Refs, s: Slot)
    requires Balanced(st, refs, recordRefs) && s in refs
    ensures Counted(st.nodeCounts, s)
    ensures Balanced(ReleaseNode(st, s), refs - multiset{s}, recordRefs)
  {
    Open(st, refs, recordRefs);
    HeldMeansCounted(st, refs, recordRefs, s);
  }

  function ReleaseRecord(st: Stores, r: Slot): Stores
    requires Counted(st.recordCounts, r)
  {
    st.(recordCounts := st.recordCounts[r := st.recordCounts[r] - 1],
        pendingRecords := if st.recordCounts[r] == 1 then st.pendingRecords + {r} else st.pendingRecords)
  }

  lemma ReleaseRecordExact(st: Stores, refs: Refs, recordRefs: Refs, r: Slot)
    requires Balanced(st, refs, recordRefs) && r in recordRefs
    ensures Counted(st.recordCounts, r)
    ensures Balanced(ReleaseRecord(st, r), refs, recordRefs - multiset{r})
  {
    Open(st, refs, recordRefs);
    HeldMeansCounted(st, refs, recordRefs, r);
  }

  /** Store a child edge in a node under construction. */
  function StoreChild(st: Stores, p: Slot, d: Digit, child: Slot): Stores
    requires p in st.nodes && st.nodes[p].Branch?
  {
    st.(nodes := st.nodes[p := Branch(st.nodes[p].kids[d := child])])
  }

  lemma AddedEdgeOk(nodes: NodeMap, recordCounts: Counts, p: Slot, d: Digit, child: Slot)
    requires EdgesOk(nodes, recordCounts) && p in nodes && nodes[p].Branch? && child in nodes && child < p
    ensures EdgesOk(nodes[p := Branch(nodes[p].kids[d := child])], recordCounts)
  {
  }

  lemma MovedToEdge(nodes: NodeMap, after: NodeMap, counts: Counts, refs: Refs, child: Slot)
    requires NodeCountsExact(nodes, counts, refs) && after.Keys == nodes.Keys && child in refs
    requires forall s :: InDegree(after, s) == InDegree(nodes, s) + if s == child then 1 else 0
    ensures NodeCountsExact(after, counts, refs - multiset{child})
  {
  }

  /** The stored edge takes over a count its builder owned. */
  lemma StoreChildExact(st: Stores, refs: Refs, recordRefs: Refs, p: Slot, d: Digit, child: Slot)
    requires Balanced(st, refs, recordRefs) && p in st.nodes && st.nodes[p].Branch? && d !in st.nodes[p].kids
    requires child in refs && child < p
    ensures Balanced(StoreChild(st, p, d, child), refs - multiset{child}, recordRefs)
  {
    Open(st, refs, recordRefs);
    AddedEdge(st.nodes, p, d, child);
    AddedEdgeOk(st.nodes, st.recordCounts, p, d, child);
    var after := StoreChild(st, p, d, child).nodes;
    MovedToEdge(st.nodes, after, st.nodeCounts, refs, child);
    NewNodeRecordsExact(st.nodes, after, st.recordCounts, recordRefs);
  }

  /** Make a node under construction a leaf. */
  function StoreLeaf(st: Stores, p: Slot, key: Key, record: Slot): Stores
  {
    st.(nodes := st.nodes[p := Leaf(key, record)])
  }

  lemma StoreLeafExact(st: Stores, refs: Refs, recordRefs: Refs, p: Slot, key: Key, record: Slot)
    requires Balanced(st, refs, recordRefs) && p in st.nodes && st.nodes[p] == Branch(map[]) && record in recordRefs
    ensures Balanced(StoreLeaf(st, p, key, record), refs, recordRefs - multiset{record})
  {
    Open(st, refs, recordRefs);
    AddedLeaf(st.nodes, p, key, record);
  }
}
