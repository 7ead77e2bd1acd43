/** Path-copying insert and erase over the stores. A refused allocation or a
    saturated count may strike at any point of either; the partial nodes then
    fall to count zero and wait for the drain, and no count is off by one. */
module HamtOps {
  import opened Wrappers
  import opened HamtTrie
  import opened HamtStore

  /** What an operation owes its caller: exact counts with (on success) one more
      handle, and every node that was there before left as it was. */
  ghost predicate Delivers(st: Stores, st': Stores, refs: Refs, recordRefs: Refs, slack: nat, r: Result<Slot, PoolError>)
  {
    && Extends(st.nodes, st'.nodes)
    && st'.recordCounts.Keys == st.recordCounts.Keys
    && st.next <= st'.next && st'.limit == st.limit
    && Balanced(st', if r.Success? then refs + multiset{r.value} else refs, recordRefs)
    && (r.Success? ==> r.value in st'.nodes)
    && (r.Failure? ==> Refused(st', refs, recordRefs, slack, r.error))
  }

  /** The only reasons to fail: the pool has no slot left, or a count saturated. */
  ghost predicate Refused(st: Stores, refs: Refs, recordRefs: Refs, slack: nat, error: PoolError)
  {
    match error
    case OutOfMemory => st.next >= st.limit
    case CapacityExhausted => Crowded(st, refs, recordRefs, slack)
  }

  ghost predicate NewNode(st: Stores, st': Stores, n: Slot, node: Node)
  {
    n >= st.next && n !in st.nodes && st'.nodes == st.nodes[n := node]
  }

  /** A fresh leaf binding `key` to `record`, with its own count on the record. */
  method MakeLeaf(st: Stores, key: Key, record: Slot, ghost refs: Refs, ghost recordRefs: Refs)
    returns (st': Stores, r: Result<Slot, PoolError>)
    requires Balanced(st, refs, recordRefs) && record in recordRefs
    ensures Delivers(st, st', refs, recordRefs, 1, r)
    ensures r.Success? ==> NewNode(st, st', r.value, Leaf(key, record))
    ensures st'.next <= st.next + 1
  {
    if st.next >= st.limit {
      return st, Failure(OutOfMemory);
    }
    var n := st.next;
    CreateNodeExact(st, refs, recordRefs);
    st' := CreateNode(st);
    HeldMeansCounted(st', refs + multiset{n}, recordRefs, record);
    if st'.recordCounts[record] == MAX_COUNT {
      SaturatedMeansCrowded(st', refs + multiset{n}, recordRefs, record);
      ReleaseNodeExact(st', refs + multiset{n}, recordRefs, n);
      assert refs + multiset{n} - multiset{n} == refs;
      return ReleaseNode(st', n), Failure(CapacityExhausted);
    }
    RetainRecordExact(st', refs + multiset{n}, recordRefs, record);
    st' := RetainRecord(st', record);
    StoreLeafExact(st', refs + multiset{n}, recordRefs + multiset{record}, n, key, record);
    st' := StoreLeaf(st', n, key, record);
    assert recordRefs + multiset{record} - multiset{record} == recordRefs;
    return st', Success(n);
  }

  /** Retain `child` and store the edge to it in `p`: both, or neither. */
  method LinkChild(st: Stores, p: Slot, d: Digit, child: Slot, ghost refs: Refs, ghost recordRefs: Refs)
    returns (st': Stores, ok: bool)
    requires Balanced(st, refs, recordRefs) && p in st.nodes && st.nodes[p].Branch? && d !in st.nodes[p].kids
    requires child in st.nodes && Counted(st.nodeCounts, child) && child < p
    ensures Balanced(st', refs, recordRefs) && st'.recordCounts == st.recordCounts
    ensures st'.next == st.next && st'.limit == st.limit
    ensures !ok ==> Crowded(st', refs, recordRefs, 0)
    ensures st'.nodes == if ok then st.nodes[p := Branch(st.nodes[p].kids[d := child])] else st.nodes
  {
    if st.nodeCounts[child] == MAX_COUNT {
      SaturatedMeansCrowded(st, refs, recordRefs, child);
      return st, false;
    }
    RetainNodeExact(st, refs, recordRefs, child);
    var held := RetainNode(st, child);
    StoreChildExact(held, refs + multiset{child}, recordRefs, p, d, child);
    assert refs + multiset{child} - multiset{child} == refs;
    return StoreChild(held, p, d, child), true;
  }

  /** The children of a base branch below digit `upTo`, without `skip`. */
  ghost function Shared(kids: map<Digit, Slot>, skip: Digit, upTo: nat): map<Digit, Slot>
  {
    map d | d in kids && d < upTo && d != skip :: kids[d]
  }

  method EmptyBranch(st: Stores, ghost refs: Refs, ghost recordRefs: Refs)
    returns (st': Stores, r: Result<Slot, PoolError>)
    requires Balanced(st, refs, recordRefs)
    ensures Delivers(st, st', refs, recordRefs, 1, r)
    ensures r.Success? ==> NewNode(st, st', r.value, Branch(map[])) && r.value == st.next
    ensures st'.next <= st.next + 1
  {
    if st.next >= st.limit {
      return st, Failure(OutOfMemory);
    }
    CreateNodeExact(st, refs, recordRefs);
    return CreateNode(st), Success(st.next);
  }

  /** The children of an optional base branch. */
  ghost function BaseKids(nodes: NodeMap, base: Root): map<Digit, Slot>
  {
    if base.Some? && base.value in nodes && nodes[base.value].Branch? then nodes[base.value].kids else map[]
  }

  /** A new branch sharing every child of `base` except `skip`, one retain and one
      edge at a time, lowest digit first. */
  method BranchWithoutChild(st: Stores, base: Slot, skip: Digit, ghost refs: Refs, ghost recordRefs: Refs)
    returns (st': Stores, r: Result<Slot, PoolError>)
    requires Balanced(st, refs, recordRefs) && base in st.nodes && st.nodes[base].Branch?
    ensures Delivers(st, st', refs, recordRefs, 1, r)
    ensures r.Success? ==> NewNode(st, st', r.value, Branch(st.nodes[base].kids - {skip})) && r.value == st.next
    ensures st'.next <= st.next + 1
  {
    st', r := EmptyBranch(st, refs, recordRefs);
    if r.Failure? {
      return;
    }
    var n := r.value;
    var kids := st.nodes[base].kids;
    assert Shared(kids, skip, 0) == map[];
    var i: nat := 0;
    while i < ARITY
      invariant i <= ARITY && SharedUpTo(st, st', base, n, skip, i, refs, recordRefs)
    {
      if i in kids && i != skip {
        var ok;
        st', ok := ShareChild(st, st', base, n, skip, i, refs, recordRefs);
        if !ok {
          return st', Failure(CapacityExhausted);
        }
      } else {
        assert Shared(kids, skip, i + 1) == Shared(kids, skip, i);
      }
      i := i + 1;
    }
    assert Shared(kids, skip, ARITY) == kids - {skip};
  }

  /** The new branch `n` holds the children of `base` below digit `upTo`, without `skip`. */
  ghost predicate SharedUpTo(st: Stores, st': Stores, base: Slot, n: Slot, skip: Digit, upTo: nat, refs: Refs,
                             recordRefs: Refs)
  {
    && n == st.next && n !in st.nodes && base in st.nodes && st.nodes[base].Branch?
    && Balanced(st', refs + multiset{n}, recordRefs)
    && st'.nodes == st.nodes[n := Branch(Shared(st.nodes[base].kids, skip, upTo))]
    && st'.recordCounts.Keys == st.recordCounts.Keys
    && st.next <= st'.next <= st.next + 1 && st'.limit == st.limit
  }

  /** One more child; when its count is saturated the unfinished branch is given up. */
  method ShareChild(ghost st: Stores, st1: Stores, base: Slot, n: Slot, skip: Digit, i: Digit, ghost refs: Refs,
                    ghost recordRefs: Refs)
    returns (st': Stores, ok: bool)
    requires Balanced(st, refs, recordRefs) && SharedUpTo(st, st1, base, n, skip, i, refs, recordRefs)
    requires i in st.nodes[base].kids && i != skip
    ensures ok ==> SharedUpTo(st, st', base, n, skip, i + 1, refs, recordRefs)
    ensures !ok ==> Delivers(st, st', refs, recordRefs, 1, Failure(CapacityExhausted)) && st'.next <= st.next + 1
  {
    ghost var held := refs + multiset{n};
    var kids := st1.nodes[base].kids;
    assert base != n && st1.nodes[base] == st.nodes[base];
    LinkedMeansCounted(st1, held, recordRefs, base, i);
    LinkedMeansCounted(st, refs, recordRefs, base, i);
    st', ok := LinkChild(st1, n, i, kids[i], held, recordRefs);
    if ok {
      assert Shared(kids, skip, i)[i := kids[i]] == Shared(kids, skip, i + 1);
    } else {
      ReleaseNodeExact(st', held, recordRefs, n);
      assert held - multiset{n} == refs;
      st' := ReleaseNode(st', n);
    }
  }

  /** A new branch with the children of `base` (none when absent) but `skip`. */
  method BranchOver(st: Stores, base: Root, skip: Digit, ghost refs: Refs, ghost recordRefs: Refs)
    returns (st': Stores, r: Result<Slot, PoolError>)
    requires Balanced(st, refs, recordRefs)
    requires base.Some? ==> base.value in st.nodes && st.nodes[base.value].Branch?
    ensures Delivers(st, st', refs, recordRefs, 1, r)
    ensures r.Success? ==> NewNode(st, st', r.value, Branch(BaseKids(st.nodes, base) - {skip})) && r.value == st.next
    ensures st'.next <= st.next + 1
  {
    if base.Some? {
      st', r := BranchWithoutChild(st, base.value, skip, refs, recordRefs);
    } else {
      st', r := EmptyBranch(st, refs, recordRefs);
      assert BaseKids(st.nodes, base) - {skip} == map[];
    }
  }

  /** A new branch: the children of `base` (none when absent) with `digit` set to
      `child`. The caller keeps its own count on `child`. */
  method BranchWithChild(st: Stores, base: Root, digit: Digit, child: Slot, ghost refs: Refs, ghost recordRefs: Refs)
    returns (st': Stores, r: Result<Slot, PoolError>)
    requires Balanced(st, refs, recordRefs) && child in refs
    requires base.Some? ==> base.value in st.nodes && st.nodes[base.value].Branch?
    ensures Delivers(st, st', refs, recordRefs, 1, r)
    ensures r.Success? ==> NewNode(st, st', r.value, Branch(BaseKids(st.nodes, base)[digit := child]))
    ensures st'.next <= st.next + 1
  {
    HeldMeansCounted(st, refs, recordRefs, child);
    st', r := BranchOver(st, base, digit, refs, recordRefs);
    if r.Failure? {
      return;
    }
    var n := r.value;
    ghost var kids, held := BaseKids(st.nodes, base), refs + multiset{n};
    assert st'.nodes[n] == Branch(kids - {digit});
    HeldMeansCounted(st', held, recordRefs, child);
    var ok;
    st', ok := LinkChild(st', n, digit, child, held, recordRefs);
    if !ok {
      ReleaseNodeExact(st', held, recordRefs, n);
      assert held - multiset{n} == refs;
      return ReleaseNode(st', n), Failure(CapacityExhausted);
    }
    assert (kids - {digit})[digit := child] == kids[digit := child];
  }

  // ---- Insert -----------------------------------------------------------------------

  /** What a possibly absent subtrie at `depth` binds `key` to. */
  ghost function FindAt(nodes: NodeMap, root: Root, key: Key, depth: nat): Option<Slot>
  {
    if root.None? then None else Lookup(nodes, root.value, key, depth)
  }

  /** The new subtrie reads as the old one, except at `key`. */
  ghost predicate Updated(nodes: NodeMap, root: Root, nodes': NodeMap, root': Root, depth: nat,
                          key: Key, value: Option<Slot>)
  {
    forall k: Key :: FindAt(nodes', root', k, depth) == if k == key then value else FindAt(nodes, root, k, depth)
  }

  /** A one-child branch over a subtrie whose keys all share the digit reads as
      that subtrie. */
  lemma SingleChildReads(nodes: NodeMap, slot: Slot, digit: Digit, child: Slot, path: seq<Digit>)
    requires |path| < DEPTH && slot in nodes && nodes[slot] == Branch(map[digit := child])
    requires Trie(nodes, child, path + [digit])
    ensures Trie(nodes, slot, path)
    ensures forall k: Key :: Lookup(nodes, slot, k, |path|)
                          == if DigitAt(k, |path|) == digit then Lookup(nodes, child, k, |path| + 1) else None
  {
    assert map[][digit := child] == map[digit := child];
    BranchWithChildReads(nodes, slot, map[], digit, child, path);
  }

  lemma TakeTurns(refs: Refs, a: Slot, b: Slot)
    ensures refs + multiset{a} + multiset{b} - multiset{a} == refs + multiset{b}
  {
  }

  lemma AgreesLonger(key: Key, path: seq<Digit>)
    requires Agrees(key, path)
    ensures Agrees(key, path + [DigitAt(key, |path|)])
  {
  }

  /** Put a new branch over `inner` at digit `digit`, and give up the handle on
      `inner` whatever happened. */
  method Wrap(st: Stores, base: Root, digit: Digit, inner: Slot, ghost refs: Refs, ghost recordRefs: Refs)
    returns (st': Stores, r: Result<Slot, PoolError>)
    requires Balanced(st, refs + multiset{inner}, recordRefs)
    requires base.Some? ==> base.value in st.nodes && st.nodes[base.value].Branch?
    ensures Delivers(st, st', refs, recordRefs, 2, r)
    ensures r.Success? ==> NewNode(st, st', r.value, Branch(BaseKids(st.nodes, base)[digit := inner]))
    ensures st'.next <= st.next + 1
  {
    ghost var held := refs + multiset{inner};
    st', r := BranchWithChild(st, base, digit, inner, held, recordRefs);
    if r.Success? {
      TakeTurns(refs, inner, r.value);
      ReleaseNodeExact(st', held + multiset{r.value}, recordRefs, inner);
    } else {
      assert held - multiset{inner} == refs;
      ReleaseNodeExact(st', held, recordRefs, inner);
    }
    st' := ReleaseNode(st', inner);
  }

  lemma TwoLeavesRead(nodes: NodeMap, branch: Slot, ed: Digit, existing: Slot, nd: Digit, leaf: Slot, path: seq<Digit>)
    requires |path| < DEPTH && ed != nd
    requires branch in nodes && nodes[branch] == Branch(map[nd := leaf][ed := existing])
    requires existing in nodes && nodes[existing].Leaf? && Agrees(nodes[existing].key, path + [ed])
    requires leaf in nodes && nodes[leaf].Leaf? && Agrees(nodes[leaf].key, path + [nd])
    ensures Trie(nodes, branch, path)
    ensures forall k: Key :: Lookup(nodes, branch, k, |path|)
                          == if k == nodes[leaf].key then Some(nodes[leaf].record)
                             else if k == nodes[existing].key then Some(nodes[existing].record) else None
  {
    BranchWithChildReads(nodes, branch, map[nd := leaf], ed, existing, path);
    assert DigitAt(nodes[existing].key, |path|) == (path + [ed])[|path|];
    assert DigitAt(nodes[leaf].key, |path|) == (path + [nd])[|path|];
  }

  /** The colliding step of `Split`, seen by a reader. */
  lemma CollidingKeysReadOn(nodes: NodeMap, existing: Slot, key: Key, value: Option<Slot>,
                            nodes1: NodeMap, inner: Slot, nodes2: NodeMap, branch: Slot, depth: nat)
    requires depth < DEPTH && existing in nodes && nodes[existing].Leaf?
    requires DigitAt(nodes[existing].key, depth) == DigitAt(key, depth)
    requires Updated(nodes, Some(existing), nodes1, Some(inner), depth + 1, key, value)
    requires forall k: Key :: Lookup(nodes2, branch, k, depth)
               == if DigitAt(k, depth) == DigitAt(key, depth) then Lookup(nodes1, inner, k, depth + 1) else None
    ensures Updated(nodes, Some(existing), nodes2, Some(branch), depth, key, value)
  {
    var oldKey := nodes[existing].key;
    forall k: Key
      ensures FindAt(nodes2, Some(branch), k, depth)
           == if k == key then value else FindAt(nodes, Some(existing), k, depth)
    {
      assert FindAt(nodes1, Some(inner), k, depth + 1)
          == if k == key then value else FindAt(nodes, Some(existing), k, depth + 1);
    }
  }

  /** The diverging step of `Split`: a two-child branch over the shared existing
      leaf and a fresh one. */
  method Part(st: Stores, existing: Slot, ed: Digit, key: Key, nd: Digit, record: Slot,
              ghost refs: Refs, ghost recordRefs: Refs)
    returns (st': Stores, r: Result<Slot, PoolError>)
    requires Balanced(st, refs, recordRefs) && record in recordRefs
    requires existing in st.nodes && Counted(st.nodeCounts, existing) && ed != nd
    ensures Delivers(st, st', refs, recordRefs, 2, r)
    ensures r.Success? ==>
              exists leaf :: && leaf in st'.nodes && st'.nodes[leaf] == Leaf(key, record)
                             && st'.nodes[r.value] == Branch(map[nd := leaf][ed := existing])
    ensures st'.next <= st.next + 2
  {
    st', r := MakeLeaf(st, key, record, refs, recordRefs);
    if r.Failure? {
      return;
    }
    var leaf := r.value;
    st', r := Wrap(st', None, nd, leaf, refs, recordRefs);
    if r.Failure? {
      return;
    }
    var branch := r.value;
    ghost var held := refs + multiset{branch};
    assert st'.nodes[branch] == Branch(map[nd := leaf]);
    HeldMeansCounted(st', held, recordRefs, branch);
    StillCounted(st, st', refs, held, recordRefs, existing);
    assert existing < branch by { Open(st, refs, recordRefs); }
    var before := st';
    var ok;
    st', ok := LinkChild(before, branch, ed, existing, held, recordRefs);
    if !ok {
      assert held - multiset{branch} == refs;
      ReleaseNodeExact(st', held, recordRefs, branch);
      return ReleaseNode(st', branch), Failure(CapacityExhausted);
    }
    assert st'.nodes[leaf] == before.nodes[leaf];
  }

  lemma WrappedSplitReads(nodes: NodeMap, existing: Slot, key: Key, record: Slot, nodes1: NodeMap, inner: Slot,
                          nodes2: NodeMap, n: Slot, path: seq<Digit>)
    requires |path| < DEPTH && existing in nodes && nodes[existing].Leaf?
    requires var d := DigitAt(key, |path|);
             && DigitAt(nodes[existing].key, |path|) == d && Trie(nodes1, inner, path + [d])
             && n in nodes2 && nodes2[n] == Branch(map[d := inner])
    requires Updated(nodes, Some(existing), nodes1, Some(inner), |path| + 1, key, Some(record)) && Extends(nodes1, nodes2)
    ensures Trie(nodes2, n, path)
    ensures Updated(nodes, Some(existing), nodes2, Some(n), |path|, key, Some(record))
  {
    hide Updated, Extends, Lookup, Trie, DigitAt;
    var d := DigitAt(key, |path|);
    ExtendedTrieReadsAlike(nodes1, nodes2, inner, path + [d]);
    SingleChildReads(nodes2, n, d, inner, path);
    CollidingKeysReadOn(nodes, existing, key, Some(record), nodes1, inner, nodes2, n, |path|);
  }

  /** Two distinct keys share the digits of `path`. Descend while their digits
      collide, then part them in a two-child branch that shares the existing leaf. */
  method Split(st: Stores, existing: Slot, key: Key, record: Slot, ghost path: seq<Digit>, depth: nat,
               ghost refs: Refs, ghost recordRefs: Refs)
    returns (st': Stores, r: Result<Slot, PoolError>)
    requires Balanced(st, refs, recordRefs) && record in recordRefs
    requires existing in st.nodes && Counted(st.nodeCounts, existing)
    requires st.nodes[existing].Leaf? && st.nodes[existing].key != key
    requires depth == |path| <= DEPTH && Agrees(key, path) && Agrees(st.nodes[existing].key, path)
    ensures Delivers(st, st', refs, recordRefs, 2, r)
    ensures r.Success? ==> Trie(st'.nodes, r.value, path)
    ensures r.Success? ==> Updated(st.nodes, Some(existing), st'.nodes, Some(r.value), depth, key, Some(record))
    ensures st'.next <= st.next + (DEPTH + 1 - depth)
    decreases DEPTH - depth
  {
    hide Balanced, DigitAt, Agrees;
    var oldKey := st.nodes[existing].key;
    DistinctKeysDiffer(oldKey, key);
    var ed, nd := DigitAt(oldKey, depth), DigitAt(key, depth);
    AgreesLonger(key, path);
    AgreesLonger(oldKey, path);
    if ed != nd {
      st', r := Part(st, existing, ed, key, nd, record, refs, recordRefs);
      if r.Success? {
        ghost var leaf :| leaf in st'.nodes && st'.nodes[leaf] == Leaf(key, record)
                          && st'.nodes[r.value] == Branch(map[nd := leaf][ed := existing]);
        TwoLeavesRead(st'.nodes, r.value, ed, existing, nd, leaf, path);
      }
      return;
    }
    var st1;
    st1, r := Split(st, existing, key, record, path + [ed], depth + 1, refs, recordRefs);
    st' := st1;
    if r.Success? {
      var inner := r.value;
      st', r := Wrap(st1, None, ed, inner, refs, recordRefs);
      if r.Success? {
        WrappedSplitReads(st.nodes, existing, key, record, st1.nodes, inner, st'.nodes, r.value, path);
      }
    }
  }

  ghost function ChildAt(nodes: NodeMap, slot: Slot, digit: Digit): Root
  {
    if slot in nodes && nodes[slot].Branch? && digit in nodes[slot].kids then Some(nodes[slot].kids[digit]) else None
  }

  lemma SiblingsKept(nodes: NodeMap, slot: Slot, nodes2: NodeMap, path: seq<Digit>)
    requires Trie(nodes, slot, path) && nodes[slot].Branch? && Extends(nodes, nodes2)
    ensures forall d | d in nodes[slot].kids :: Trie(nodes2, nodes[slot].kids[d], path + [d])
  {
    var kids := nodes[slot].kids;
    forall d | d in kids ensures Trie(nodes2, kids[d], path + [d]) {
      ExtendedTrieReadsAlike(nodes, nodes2, kids[d], path + [d]);
    }
  }

  /** `n` is the branch at `slot` with the child that holds `key` replaced (or
      added): `child`, a subtrie of `nodes1`. */
  ghost predicate ChildReplaced(nodes: NodeMap, slot: Slot, nodes1: NodeMap, child: Slot, nodes2: NodeMap, n: Slot,
                                path: seq<Digit>, key: Key)
  {
    && Trie(nodes, slot, path) && nodes[slot].Branch?
    && Extends(nodes, nodes2) && Extends(nodes1, nodes2)
    && Trie(nodes1, child, path + [DigitAt(key, |path|)])
    && n in nodes2 && nodes2[n] == Branch(nodes[slot].kids[DigitAt(key, |path|) := child])
  }

  lemma ReplacedChildReadsAt(nodes: NodeMap, slot: Slot, nodes1: NodeMap, child: Slot, nodes2: NodeMap, n: Slot,
                             path: seq<Digit>, key: Key, k: Key)
    requires ChildReplaced(nodes, slot, nodes1, child, nodes2, n, path, key)
    ensures Lookup(nodes2, n, k, |path|)
         == if DigitAt(k, |path|) == DigitAt(key, |path|) then Lookup(nodes1, child, k, |path| + 1)
            else Lookup(nodes, slot, k, |path|)
  {
    var d, kids := DigitAt(k, |path|), nodes[slot].kids;
    if d == DigitAt(key, |path|) {
      ExtendedTrieReadsAlike(nodes1, nodes2, child, path + [d]);
    } else if d in kids {
      ExtendedTrieReadsAlike(nodes, nodes2, kids[d], path + [d]);
    }
  }

  lemma ReplacedChildIsTrie(nodes: NodeMap, slot: Slot, nodes1: NodeMap, child: Slot, nodes2: NodeMap, n: Slot,
                            path: seq<Digit>, key: Key)
    requires ChildReplaced(nodes, slot, nodes1, child, nodes2, n, path, key)
    ensures Trie(nodes2, n, path)
  {
    var digit := DigitAt(key, |path|);
    SiblingsKept(nodes, slot, nodes2, path);
    ExtendedTrieReadsAlike(nodes1, nodes2, child, path + [digit]);
    BranchWithChildReads(nodes2, n, nodes[slot].kids, digit, child, path);
  }

  /** Replacing (or adding) the child that holds `key` updates the branch as the
      child was updated. */
  lemma ReplacedChildReads(nodes: NodeMap, slot: Slot, nodes1: NodeMap, child: Slot, nodes2: NodeMap, n: Slot,
                           path: seq<Digit>, key: Key, value: Option<Slot>)
    requires ChildReplaced(nodes, slot, nodes1, child, nodes2, n, path, key)
    requires Updated(nodes, ChildAt(nodes, slot, DigitAt(key, |path|)), nodes1, Some(child), |path| + 1, key, value)
    ensures Trie(nodes2, n, path)
    ensures Updated(nodes, Some(slot), nodes2, Some(n), |path|, key, value)
  {
    var digit, below := DigitAt(key, |path|), |path| + 1;
    ReplacedChildIsTrie(nodes, slot, nodes1, child, nodes2, n, path, key);
    forall k: Key
      ensures FindAt(nodes2, Some(n), k, |path|) == if k == key then value else FindAt(nodes, Some(slot), k, |path|)
    {
      ReplacedChildReadsAt(nodes, slot, nodes1, child, nodes2, n, path, key, k);
      assert FindAt(nodes1, Some(child), k, below)
          == if k == key then value else FindAt(nodes, ChildAt(nodes, slot, digit), k, below);
    }
  }

  /** The new subtrie binds `key` to `record`; everything else reads as before. */
  method InsertRec(st: Stores, slot: Slot, key: Key, record: Slot, ghost path: seq<Digit>, depth: nat,
                   ghost refs: Refs, ghost recordRefs: Refs)
    returns (st': Stores, r: Result<Slot, PoolError>)
    requires Balanced(st, refs, recordRefs) && record in recordRefs
    requires Trie(st.nodes, slot, path) && Counted(st.nodeCounts, slot)
    requires depth == |path| && Agrees(key, path)
    ensures Delivers(st, st', refs, recordRefs, 2, r)
    ensures r.Success? ==> Trie(st'.nodes, r.value, path)
    ensures r.Success? ==> Updated(st.nodes, Some(slot), st'.nodes, Some(r.value), depth, key, Some(record))
    ensures st'.next <= st.next + (DEPTH + 1 - depth)
    decreases DEPTH + 1 - depth
  {
    match st.nodes[slot] {
      case Leaf(oldKey, _) =>
        if oldKey == key {
          st', r := MakeLeaf(st, key, record, refs, recordRefs);
        } else {
          st', r := Split(st, slot, key, record, path, depth, refs, recordRefs);
        }
      case Branch(kids) =>
        var digit := DigitAt(key, depth);
        AgreesLonger(key, path);
        var st1;
        if digit in kids {
          LinkedMeansCounted(st, refs, recordRefs, slot, digit);
          st1, r := InsertRec(st, kids[digit], key, record, path + [digit], depth + 1, refs, recordRefs);
        } else {
          st1, r := MakeLeaf(st, key, record, refs, recordRefs);
        }
        st' := st1;
        if r.Success? {
          var child := r.value;
          st', r := Wrap(st1, Some(slot), digit, child, refs, recordRefs);
          if r.Success? {
            ReplacedChildReads(st.nodes, slot, st1.nodes, child, st'.nodes, r.value, path, key, Some(record));
          }
        }
    }
  }

  // ---- Erase ------------------------------------------------------------------------

  ghost predicate DeliversRoot(st: Stores, st': Stores, refs: Refs, recordRefs: Refs, r: Result<Root, PoolError>)
  {
    && Extends(st.nodes, st'.nodes)
    && st'.recordCounts.Keys == st.recordCounts.Keys
    && st.next <= st'.next && st'.limit == st.limit
    && (r.Failure? ==> Refused(st', refs, recordRefs, 2, r.error))
    && Balanced(st', if r.Success? && r.value.Some? then refs + multiset{r.value.value} else refs, recordRefs)
    && (r.Success? && r.value.Some? ==> r.value.value in st'.nodes)
  }

  /** An owning handle on an existing node. */
  method ShareNode(st: Stores, slot: Slot, ghost refs: Refs, ghost recordRefs: Refs)
    returns (st': Stores, r: Result<Root, PoolError>)
    requires Balanced(st, refs, recordRefs) && slot in st.nodes && Counted(st.nodeCounts, slot)
    ensures DeliversRoot(st, st', refs, recordRefs, r)
    ensures st'.nodes == st.nodes && st'.next == st.next
    ensures r.Success? ==> r.value == Some(slot)
  {
    if st.nodeCounts[slot] == MAX_COUNT {
      SaturatedMeansCrowded(st, refs, recordRefs, slot);
      return st, Failure(CapacityExhausted);
    }
    RetainNodeExact(st, refs, recordRefs, slot);
    return RetainNode(st, slot), Success(Some(slot));
  }

  /** Nothing but `key` is bound below `slot`. */
  ghost predicate BindsOnly(nodes: NodeMap, slot: Slot, depth: nat, key: Key)
  {
    forall k: Key | k != key :: Lookup(nodes, slot, k, depth) == None
  }

  /** `n` is the branch at `slot` without the child that held only `key`. */
  ghost predicate ChildDropped(nodes: NodeMap, slot: Slot, nodes2: NodeMap, n: Slot, path: seq<Digit>, key: Key)
  {
    && Trie(nodes, slot, path) && nodes[slot].Branch? && Extends(nodes, nodes2)
    && DigitAt(key, |path|) in nodes[slot].kids
    && BindsOnly(nodes, nodes[slot].kids[DigitAt(key, |path|)], |path| + 1, key)
    && nodes[slot].kids - {DigitAt(key, |path|)} != map[]
    && n in nodes2 && nodes2[n] == Branch(nodes[slot].kids - {DigitAt(key, |path|)})
  }

  /** Reading a branch whose children are a subset of the old ones. */
  lemma FewerChildrenReadAt(nodes: NodeMap, slot: Slot, nodes2: NodeMap, n: Slot, depth: nat, gone: Digit, k: Key)
    requires depth < DEPTH && slot in nodes && nodes[slot].Branch?
    requires n in nodes2 && nodes2[n] == Branch(nodes[slot].kids - {gone})
    requires var d := DigitAt(k, depth); d in nodes[slot].kids && d != gone ==>
               Lookup(nodes2, nodes[slot].kids[d], k, depth + 1) == Lookup(nodes, nodes[slot].kids[d], k, depth + 1)
    ensures Lookup(nodes2, n, k, depth) == if DigitAt(k, depth) == gone then None else Lookup(nodes, slot, k, depth)
  {
    var d, kids, rest := DigitAt(k, depth), nodes[slot].kids, nodes2[n].kids;
    assert d in rest <==> d in kids && d != gone;
    assert d in rest ==> rest[d] == kids[d];
  }

  lemma DroppedChildReadsAt(nodes: NodeMap, slot: Slot, nodes2: NodeMap, n: Slot, path: seq<Digit>, key: Key, k: Key)
    requires ChildDropped(nodes, slot, nodes2, n, path, key)
    ensures Lookup(nodes2, n, k, |path|) == if k == key then None else Lookup(nodes, slot, k, |path|)
  {
    hide DigitAt, Extends;
    var d, gone, kids, below := DigitAt(k, |path|), DigitAt(key, |path|), nodes[slot].kids, |path| + 1;
    if d in kids && d != gone {
      assert Trie(nodes, kids[d], path + [d]);
      ExtendedTrieReadsAlike(nodes, nodes2, kids[d], path + [d]);
      assert |path + [d]| == below;
    }
    FewerChildrenReadAt(nodes, slot, nodes2, n, |path|, gone, k);
    if k != key {
      assert Lookup(nodes, kids[gone], k, below) == None;
    }
  }

  /** Dropping the emptied child leaves the branch without that key. */
  lemma DroppedChildReads(nodes: NodeMap, slot: Slot, nodes2: NodeMap, n: Slot, path: seq<Digit>, key: Key)
    requires ChildDropped(nodes, slot, nodes2, n, path, key)
    ensures Trie(nodes2, n, path)
    ensures Updated(nodes, Some(slot), nodes2, Some(n), |path|, key, None)
  {
    SiblingsKept(nodes, slot, nodes2, path);
    var kids, rest := nodes[slot].kids, nodes[slot].kids - {DigitAt(key, |path|)};
    assert forall d | d in rest :: d in kids && rest[d] == kids[d];
    forall k: Key
      ensures FindAt(nodes2, Some(n), k, |path|) == if k == key then None else FindAt(nodes, Some(slot), k, |path|)
    {
      DroppedChildReadsAt(nodes, slot, nodes2, n, path, key, k);
    }
  }

  lemma LeafMovesUp(nodes: NodeMap, o: Slot, path: seq<Digit>, d: Digit)
    requires |path| < DEPTH && Trie(nodes, o, path + [d]) && nodes[o].Leaf?
    ensures Trie(nodes, o, path) && DigitAt(nodes[o].key, |path|) == d
  {
    var leafKey := nodes[o].key;
    assert DigitAt(leafKey, |path|) == (path + [d])[|path|];
    forall j | 0 <= j < |path| ensures DigitAt(leafKey, j) == path[j] {
      assert (path + [d])[j] == path[j];
    }
  }

  /** The child that holds `key` binds nothing else, and there is at most one
      more child, at `only`. */
  ghost predicate AtMostOneMore(nodes: NodeMap, slot: Slot, only: Digit, path: seq<Digit>, key: Key)
  {
    && Trie(nodes, slot, path) && nodes[slot].Branch?
    && DigitAt(key, |path|) in nodes[slot].kids
    && BindsOnly(nodes, nodes[slot].kids[DigitAt(key, |path|)], |path| + 1, key)
    && forall d | d in nodes[slot].kids :: d == DigitAt(key, |path|) || d == only
  }

  lemma AtMostOneMoreReadsAt(nodes: NodeMap, slot: Slot, only: Digit, path: seq<Digit>, key: Key, k: Key)
    requires AtMostOneMore(nodes, slot, only, path, key) && k != key
    ensures Lookup(nodes, slot, k, |path|)
         == if DigitAt(k, |path|) == only && only in nodes[slot].kids && only != DigitAt(key, |path|)
            then Lookup(nodes, nodes[slot].kids[only], k, |path| + 1) else None
  {
  }

  /** A branch whose only other child is a leaf reads, without the erased key, as
      that leaf. */
  lemma CollapsedBranchReads(nodes: NodeMap, slot: Slot, only: Digit, path: seq<Digit>, key: Key)
    requires AtMostOneMore(nodes, slot, only, path, key)
    requires only != DigitAt(key, |path|) && only in nodes[slot].kids
    requires nodes[slot].kids[only] in nodes && nodes[nodes[slot].kids[only]].Leaf?
    ensures Trie(nodes, nodes[slot].kids[only], path)
    ensures Updated(nodes, Some(slot), nodes, Some(nodes[slot].kids[only]), |path|, key, None)
  {
    var o := nodes[slot].kids[only];
    assert Trie(nodes, o, path + [only]);
    LeafMovesUp(nodes, o, path, only);
    forall k: Key
      ensures FindAt(nodes, Some(o), k, |path|) == if k == key then None else FindAt(nodes, Some(slot), k, |path|)
    {
      if k != key {
        AtMostOneMoreReadsAt(nodes, slot, only, path, key, k);
      }
    }
  }

  lemma EmptiedBranchReads(nodes: NodeMap, nodes': NodeMap, slot: Slot, path: seq<Digit>, key: Key)
    requires AtMostOneMore(nodes, slot, DigitAt(key, |path|), path, key)
    ensures Updated(nodes, Some(slot), nodes', None, |path|, key, None)
  {
    forall k: Key
      ensures FindAt(nodes', None, k, |path|) == if k == key then None else FindAt(nodes, Some(slot), k, |path|)
    {
      if k != key {
        AtMostOneMoreReadsAt(nodes, slot, DigitAt(key, |path|), path, key, k);
      }
    }
  }

  /** The subtrie without `key`; `None` when nothing is left of it. A key that is
      not there shares the subtrie unchanged. */
  method EraseRec(st: Stores, slot: Slot, key: Key, ghost path: seq<Digit>, depth: nat,
                  ghost refs: Refs, ghost recordRefs: Refs)
    returns (st': Stores, r: Result<Root, PoolError>)
    requires Balanced(st, refs, recordRefs)
    requires Trie(st.nodes, slot, path) && Counted(st.nodeCounts, slot) && depth == |path|
    ensures DeliversRoot(st, st', refs, recordRefs, r)
    ensures r.Success? && r.value.Some? ==> Trie(st'.nodes, r.value.value, path)
    ensures r.Success? ==> Updated(st.nodes, Some(slot), st'.nodes, r.value, depth, key, None)
    ensures st'.next <= st.next + (DEPTH - depth)
    decreases DEPTH + 1 - depth
  {
    match st.nodes[slot] {
      case Leaf(oldKey, _) =>
        if oldKey == key {
          return st, Success(None);
        }
        st', r := ShareNode(st, slot, refs, recordRefs);
      case Branch(kids) =>
        var digit := DigitAt(key, depth);
        if digit !in kids {
          st', r := ShareNode(st, slot, refs, recordRefs);
          return;
        }
        LinkedMeansCounted(st, refs, recordRefs, slot, digit);
        var st1;
        st1, r := EraseRec(st, kids[digit], key, path + [digit], depth + 1, refs, recordRefs);
        if r.Failure? {
          return st1, r;
        }
        if r.value.Some? {
          var child, w := r.value.value, Failure(OutOfMemory);
          st', w := Wrap(st1, Some(slot), digit, child, refs, recordRefs);
          if w.Failure? {
            return st', Failure(w.error);
          }
          ReplacedChildReads(st.nodes, slot, st1.nodes, child, st'.nodes, w.value, path, key, None);
          return st', Success(Some(w.value));
        }
        st', r := DropChild(st, st1, slot, key, path, depth, refs, recordRefs);
    }
  }

  /** A branch left with one leaf gives way to that leaf. */
  method Collapse(ghost st: Stores, st1: Stores, slot: Slot, only: Digit, key: Key, ghost path: seq<Digit>,
                  ghost refs: Refs, ghost recordRefs: Refs)
    returns (st': Stores, r: Result<Root, PoolError>)
    requires Balanced(st1, refs, recordRefs) && Extends(st.nodes, st1.nodes)
    requires Trie(st.nodes, slot, path) && st.nodes[slot].Branch?
    requires var kids, gone := st.nodes[slot].kids, DigitAt(key, |path|);
             && gone in kids && only in kids && only != gone && (forall d | d in kids :: d == gone || d == only)
             && BindsOnly(st.nodes, kids[gone], |path| + 1, key)
    requires var kid := st.nodes[slot].kids[only]; kid in st1.nodes && st1.nodes[kid].Leaf?
    ensures DeliversRoot(st1, st', refs, recordRefs, r) && st'.next == st1.next
    ensures r.Success? ==> r.value.Some? && Trie(st'.nodes, r.value.value, path)
    ensures r.Success? ==> Updated(st.nodes, Some(slot), st'.nodes, r.value, |path|, key, None)
  {
    var leaf := st1.nodes[slot].kids[only];
    ExtendsAgrees(st.nodes, st1.nodes, slot, path);
    CollapsedBranchReads(st.nodes, slot, only, path, key);
    ExtendedTrieReadsAlike(st.nodes, st1.nodes, leaf, path);
    LinkedMeansCounted(st1, refs, recordRefs, slot, only);
    st', r := ShareNode(st1, leaf, refs, recordRefs);
  }

  /** The child that held `key` emptied: drop its edge, collapsing where possible. */
  method DropChild(ghost st: Stores, st1: Stores, slot: Slot, key: Key, ghost path: seq<Digit>, depth: nat,
                   ghost refs: Refs, ghost recordRefs: Refs)
    returns (st': Stores, r: Result<Root, PoolError>)
    requires Balanced(st1, refs, recordRefs) && Extends(st.nodes, st1.nodes)
    requires Trie(st.nodes, slot, path) && st.nodes[slot].Branch? && depth == |path|
    requires DigitAt(key, depth) in st.nodes[slot].kids
    requires Updated(st.nodes, ChildAt(st.nodes, slot, DigitAt(key, depth)), st1.nodes, None, depth + 1, key, None)
    ensures DeliversRoot(st1, st', refs, recordRefs, r)
    ensures r.Success? && r.value.Some? ==> Trie(st'.nodes, r.value.value, path)
    ensures r.Success? ==> Updated(st.nodes, Some(slot), st'.nodes, r.value, depth, key, None)
    ensures st'.next <= st1.next + 1
  {
    var digit := DigitAt(key, depth);
    var kids := st1.nodes[slot].kids;
    assert BindsOnly(st.nodes, kids[digit], depth + 1, key) by {
      ghost var below := depth + 1;
      forall k: Key | k != key ensures Lookup(st.nodes, kids[digit], k, below) == None {
        assert FindAt(st1.nodes, None, k, below)
            == if k == key then None else FindAt(st.nodes, ChildAt(st.nodes, slot, digit), k, below);
      }
    }
    var rest := kids - {digit};
    if rest == map[] {
      assert forall d | d in kids :: d == digit by {
        assert forall d | d in kids && d != digit :: d in rest;
      }
      EmptiedBranchReads(st.nodes, st1.nodes, slot, path, key);
      return st1, Success(None);
    }
    if |rest| == 1 {
      var only :| only in rest;
      SingletonKeys(rest, only);
      assert rest.Keys == kids.Keys - {digit};
      assert forall d | d in kids :: d == digit || d in rest.Keys;
      if st1.nodes[kids[only]].Leaf? {
        st', r := Collapse(st, st1, slot, only, key, path, refs, recordRefs);
        return;
      }
    }
    var w;
    st', w := BranchWithoutChild(st1, slot, digit, refs, recordRefs);
    if w.Failure? {
      return st', Failure(w.error);
    }
    DroppedChildReads(st.nodes, slot, st'.nodes, w.value, path, key);
    return st', Success(Some(w.value));
  }

  lemma SingletonKeys(m: map<Digit, Slot>, only: Digit)
    requires |m| == 1 && only in m
    ensures m.Keys == {only}
  {
    assert |m.Keys - {only}| == 0;
  }
}
