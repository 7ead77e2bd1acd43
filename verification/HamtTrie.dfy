/** The persistent map at the value level: trie nodes by slot index, key digits,
    the well-formed trie, and what a lookup finds in it. The stores
    and their counts are in HamtStore, the operations that build new tries in HamtOps. */
module HamtTrie {
  import opened Numbers
  import opened Wrappers

  const ARITY: nat := 32
  /** 64 key bits at 5 bits a level, rounded up. */
  const DEPTH: nat := 13

  /** One use of a slot: an index together with its generation, so a recycled
      slot counts as a new one. Numbered in the order of creation. */
  type Slot = nat
  type Key = k: nat | k < 0x1_0000_0000_0000_0000
  type Digit = d: nat | d < 32

  /** A leaf binds one key to a record slot; a branch holds the children its
      bitmap marks, indexed by digit. A freshly created node is the branch
      without children. */
  datatype Node = Leaf(key: Key, record: Slot) | Branch(kids: map<Digit, Slot>)

  type NodeMap = map<Slot, Node>

  function Pow32(d: nat): (p: nat)
    ensures p > 0
  {
    if d == 0 then 1 else 32 * Pow32(d - 1)
  }

  /** `(key >> 5 * depth) & 31`: low bits first. */
  function DigitAt(key: Key, depth: nat): Digit
  {
    (key / Pow32(depth)) % 32
  }

  // ---- Digits determine the key ----------------------------------------------

  lemma Regroup(hi: nat, lo: nat, p: nat)
    ensures (32 * hi + lo) * p == hi * (32 * p) + lo * p
  {
  }

  lemma ScaleBound(lo: nat, p: nat)
    requires lo <= 31
    ensures 0 <= lo * p <= 31 * p
  {
    assert (31 - lo) * p >= 0;
  }

  lemma ModStep(k: nat, p: nat)
    requires p > 0
    ensures k % (32 * p) == k % p + ((k / p) % 32) * p
  {
    var q, r := k / p, k % p;
    var hi, lo := q / 32, q % 32;
    assert k == q * p + r;
    Regroup(hi, lo, p);
    ScaleBound(lo, p);
    DivUnique(k, 32 * p, hi, lo * p + r);
  }

  /** The digits are the key's in base 32, the lowest first. */
  lemma DigitsAreBase32(key: Key, depth: nat)
    ensures key % Pow32(depth + 1) == key % Pow32(depth) + DigitAt(key, depth) * Pow32(depth)
    ensures key % Pow32(0) == 0
  {
    ModStep(key, Pow32(depth));
  }

  lemma {:induction false} SharedDigitsShareRemainder(k1: Key, k2: Key, d: nat)
    requires forall j | 0 <= j < d :: DigitAt(k1, j) == DigitAt(k2, j)
    ensures k1 % Pow32(d) == k2 % Pow32(d)
  {
    if d > 0 {
      SharedDigitsShareRemainder(k1, k2, d - 1);
      ModStep(k1, Pow32(d - 1));
      ModStep(k2, Pow32(d - 1));
      assert DigitAt(k1, d - 1) == DigitAt(k2, d - 1);
    }
  }

  lemma Pow32At13()
    ensures Pow32(13) == 0x2_0000_0000_0000_0000
  {
    assert Pow32(3) == 32768;
    assert Pow32(6) == 32768 * 32768;
    assert Pow32(9) == 32768 * 32768 * 32768;
    assert Pow32(12) == 32768 * 32768 * 32768 * 32768;
  }

  /** Two distinct 64-bit keys differ in one of the thirteen digits, so `split`
      diverges while the shift is at most 60. */
  lemma DistinctKeysDiffer(k1: Key, k2: Key)
    requires k1 != k2
    ensures exists j | 0 <= j < DEPTH :: DigitAt(k1, j) != DigitAt(k2, j)
  {
    if forall j | 0 <= j < DEPTH :: DigitAt(k1, j) == DigitAt(k2, j) {
      SharedDigitsShareRemainder(k1, k2, DEPTH);
      Pow32At13();
      assert false;
    }
  }

  // ---- The well-formed trie and its lookup -------------------------------------

  predicate Agrees(key: Key, path: seq<Digit>)
  {
    forall j | 0 <= j < |path| :: DigitAt(key, j) == path[j]
  }

  /** `slot` heads a trie hanging at `path`: every leaf below agrees with the
      digits that lead to it, no branch is empty, and no branch lies deeper than
      a shift of 60. */
  ghost predicate Trie(nodes: NodeMap, slot: Slot, path: seq<Digit>)
    decreases DEPTH + 1 - |path|
  {
    && |path| <= DEPTH
    && slot in nodes
    && match nodes[slot]
       case Leaf(key, _) => Agrees(key, path)
       case Branch(kids) =>
         && |path| < DEPTH
         && kids != map[]
         && forall d | d in kids :: Trie(nodes, kids[d], path + [d])
  }

  /** What following the digits of `key` from `slot` arrives at. */
  ghost function Lookup(nodes: NodeMap, slot: Slot, key: Key, depth: nat): Option<Slot>
    decreases DEPTH + 1 - depth
  {
    if depth > DEPTH || slot !in nodes then None
    else
      match nodes[slot]
      case Leaf(k, record) => if k == key then Some(record) else None
      case Branch(kids) =>
        var d := DigitAt(key, depth);
        if d in kids then Lookup(nodes, kids[d], key, depth + 1) else None
  }

  /** The keys bound below `slot`. */
  ghost function Keys(nodes: NodeMap, slot: Slot, depth: nat): set<Key>
    decreases DEPTH + 1 - depth
  {
    if depth > DEPTH || slot !in nodes then {}
    else
      match nodes[slot]
      case Leaf(k, _) => {k}
      case Branch(kids) =>
        var below := map d | d in kids :: Keys(nodes, kids[d], depth + 1);
        set d, k | d in below && k in below[d] :: k
  }

  /** A root handle: absent for the empty map. */
  type Root = Option<Slot>

  ghost predicate ValidRoot(nodes: NodeMap, root: Root)
  {
    root.Some? ==> Trie(nodes, root.value, [])
  }

  ghost function Find(nodes: NodeMap, root: Root, key: Key): Option<Slot>
  {
    if root.None? then None else Lookup(nodes, root.value, key, 0)
  }

  /** The finite map a root stands for. */
  ghost function Bindings(nodes: NodeMap, root: Root): map<Key, Slot>
  {
    if root.None? then map[]
    else map k | k in Keys(nodes, root.value, 0) && Lookup(nodes, root.value, k, 0).Some?
           :: Lookup(nodes, root.value, k, 0).value
  }

  lemma {:induction false} KeysAreFound(nodes: NodeMap, slot: Slot, path: seq<Digit>, key: Key)
    requires Trie(nodes, slot, path)
    ensures key in Keys(nodes, slot, |path|) <==> Lookup(nodes, slot, key, |path|).Some?
    ensures key in Keys(nodes, slot, |path|) ==> Agrees(key, path)
    decreases DEPTH + 1 - |path|
  {
    match nodes[slot]
    case Leaf(_, _) =>
    case Branch(kids) =>
      var dk := DigitAt(key, |path|);
      forall d | d in kids
        ensures key in Keys(nodes, kids[d], |path| + 1) <==> Lookup(nodes, kids[d], key, |path| + 1).Some?
        ensures key in Keys(nodes, kids[d], |path| + 1) ==> d == dk && Agrees(key, path)
      {
        KeysAreFound(nodes, kids[d], path + [d], key);
        if key in Keys(nodes, kids[d], |path| + 1) {
          assert (path + [d])[|path|] == d;
          forall j | 0 <= j < |path| ensures DigitAt(key, j) == path[j] {
            assert (path + [d])[j] == path[j];
          }
        }
      }
      var below := map d | d in kids :: Keys(nodes, kids[d], |path| + 1);
      assert Keys(nodes, slot, |path|) == set d, k | d in below && k in below[d] :: k;
      if dk in kids && key in Keys(nodes, kids[dk], |path| + 1) {
        assert key in below[dk];
      }
  }

  /** `Bindings` holds exactly what a lookup finds. */
  lemma BindingsAreFinds(nodes: NodeMap, root: Root)
    requires ValidRoot(nodes, root)
    ensures forall k: Key :: k in Bindings(nodes, root) <==> Find(nodes, root, k).Some?
    ensures forall k | k in Bindings(nodes, root) :: Find(nodes, root, k) == Some(Bindings(nodes, root)[k])
  {
    if root.Some? {
      forall k: Key
        ensures k in Keys(nodes, root.value, 0) <==> Lookup(nodes, root.value, k, 0).Some?
      {
        KeysAreFound(nodes, root.value, [], k);
      }
    }
  }

  /** Pointwise agreement with a map is equality with it. */
  lemma FindsDetermineBindings(nodes: NodeMap, root: Root, m: map<Key, Slot>)
    requires ValidRoot(nodes, root)
    requires forall k: Key :: Find(nodes, root, k) == if k in m then Some(m[k]) else None
    ensures Bindings(nodes, root) == m
  {
    BindingsAreFinds(nodes, root);
    var b := Bindings(nodes, root);
    assert forall k: Key :: k in b <==> k in m;
    assert b.Keys == m.Keys;
    forall k | k in b ensures b[k] == m[k] {
      assert Find(nodes, root, k) == Some(b[k]);
    }
  }

  /** A trie always binds some key: only the absent root is the empty map. */
  lemma {:induction false} TrieBindsAKey(nodes: NodeMap, slot: Slot, path: seq<Digit>) returns (key: Key)
    requires Trie(nodes, slot, path)
    ensures Lookup(nodes, slot, key, |path|).Some?
    ensures Agrees(key, path)
    decreases DEPTH + 1 - |path|
  {
    match nodes[slot]
    case Leaf(k, _) => key := k;
    case Branch(kids) =>
      var d :| d in kids;
      key := TrieBindsAKey(nodes, kids[d], path + [d]);
      assert (path + [d])[|path|] == d;
      forall j | 0 <= j < |path| ensures DigitAt(key, j) == path[j] {
        assert (path + [d])[j] == path[j];
      }
  }

  // ---- Published nodes are immutable --------------------------------------------

  /** Every node of `old` is still there, unchanged. */
  ghost predicate Extends(before: NodeMap, after: NodeMap)
  {
    forall s | s in before :: s in after && after[s] == before[s]
  }

  /** The slots of the trie at `slot`. */
  ghost predicate Agree(before: NodeMap, after: NodeMap, slot: Slot, depth: nat)
    decreases DEPTH + 1 - depth
  {
    depth <= DEPTH ==>
      && slot in before && slot in after && after[slot] == before[slot]
      && (before[slot].Branch? ==>
            forall d | d in before[slot].kids :: Agree(before, after, before[slot].kids[d], depth + 1))
  }

  lemma {:induction false} AgreeingTriesReadAlike(before: NodeMap, after: NodeMap, slot: Slot, path: seq<Digit>)
    requires Trie(before, slot, path)
    requires Agree(before, after, slot, |path|)
    ensures Trie(after, slot, path)
    ensures forall k: Key :: Lookup(after, slot, k, |path|) == Lookup(before, slot, k, |path|)
    decreases DEPTH + 1 - |path|
  {
    match before[slot]
    case Leaf(_, _) =>
    case Branch(kids) =>
      var below := |path| + 1;
      forall d | d in kids
        ensures Trie(after, kids[d], path + [d])
        ensures forall k: Key :: Lookup(after, kids[d], k, below) == Lookup(before, kids[d], k, below)
      {
        AgreeingTriesReadAlike(before, after, kids[d], path + [d]);
      }
  }

  lemma {:induction false} ExtendsAgrees(before: NodeMap, after: NodeMap, slot: Slot, path: seq<Digit>)
    requires Trie(before, slot, path) && Extends(before, after)
    ensures Agree(before, after, slot, |path|)
    decreases DEPTH + 1 - |path|
  {
    match before[slot]
    case Leaf(_, _) =>
    case Branch(kids) =>
      forall d | d in kids ensures Agree(before, after, kids[d], |path| + 1) {
        ExtendsAgrees(before, after, kids[d], path + [d]);
      }
  }

  /** An older trie keeps reading its old map while nodes are only added. */
  lemma ExtendedTrieReadsAlike(before: NodeMap, after: NodeMap, slot: Slot, path: seq<Digit>)
    requires Trie(before, slot, path) && Extends(before, after)
    ensures Trie(after, slot, path)
    ensures forall k: Key :: Lookup(after, slot, k, |path|) == Lookup(before, slot, k, |path|)
  {
    ExtendsAgrees(before, after, slot, path);
    AgreeingTriesReadAlike(before, after, slot, path);
  }

  // ---- Building one branch ------------------------------------------------------

  /** A branch that replaces (or adds) one child reads as the old branch with
      that child's keys taken from the new one. */
  lemma BranchWithChildReads(nodes: NodeMap, slot: Slot, kids: map<Digit, Slot>, digit: Digit, child: Slot,
                             path: seq<Digit>)
    requires |path| < DEPTH
    requires slot in nodes && nodes[slot] == Branch(kids[digit := child])
    requires Trie(nodes, child, path + [digit])
    requires forall d | d in kids && d != digit :: Trie(nodes, kids[d], path + [d])
    ensures Trie(nodes, slot, path)
    ensures forall k: Key :: Lookup(nodes, slot, k, |path|) ==
              (var d := DigitAt(k, |path|);
               if d == digit then Lookup(nodes, child, k, |path| + 1)
               else if d in kids then Lookup(nodes, kids[d], k, |path| + 1)
               else None)
  {
    var all := kids[digit := child];
    assert digit in all;
    assert all != map[];
    forall d | d in all ensures Trie(nodes, all[d], path + [d]) {}
  }
}
