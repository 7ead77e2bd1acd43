/** The slot allocator: a free pool per thread in front of a shared one, growth at a
    high-water mark, quarantine behind a durability fence, and the free list rebuilt
    when a workspace is opened. */
module SlotPool {
  import opened Numbers
  import opened Sequences
  import opened Wrappers

  type Slot = nat

  const BATCH: nat := 32

  /** Where a slot below the high-water mark is. */
  datatype Owner = Live | Global | Local(thread: nat) | Quarantined

  ghost predicate OwnedBy(owner: map<Slot, Owner>, s: seq<Slot>, o: Owner)
  {
    Distinct(s) && forall x: Slot :: x in s <==> x in owner && owner[x] == o
  }

  ghost predicate BelowMark(owner: map<Slot, Owner>, highWater: nat)
  {
    forall x: Slot :: x in owner <==> x < highWater
  }

  ghost function LiveSet(owner: map<Slot, Owner>): set<Slot>
  {
    set x | x in owner && owner[x] == Live
  }

  ghost predicate LocalsExact(owner: map<Slot, Owner>, pools: seq<seq<Slot>>)
  {
    && (forall t | 0 <= t < |pools| :: OwnedBy(owner, pools[t], Local(t)) && |pools[t]| < BATCH)
    && (forall x | x in owner && owner[x].Local? :: owner[x].thread < |pools|)
  }

  // ---- Moving slots between owners ---------------------------------------------------------

  /** Popping the top of a pool. */
  lemma Popped(owner: map<Slot, Owner>, s: seq<Slot>, o: Owner, o': Owner)
    requires OwnedBy(owner, s, o) && s != [] && o' != o
    ensures var x := s[|s| - 1];
            x in owner && owner[x] == o && OwnedBy(owner[x := o'], s[..|s| - 1], o)
  {
    var last := |s| - 1;
    var x, rest := s[last], s[..last];
    assert x in s;
    forall y: Slot ensures y in rest <==> y in s && y != x {
      if y in rest {
        var i :| 0 <= i < last && rest[i] == y;
        assert s[i] == y;
      }
      if y in s && y != x {
        var i :| 0 <= i <= last && s[i] == y;
        assert rest[i] == y;
      }
    }
  }

  lemma Pushed(owner: map<Slot, Owner>, s: seq<Slot>, o: Owner, x: Slot)
    requires OwnedBy(owner, s, o) && (x in owner ==> owner[x] != o)
    ensures OwnedBy(owner[x := o], s + [x], o)
  {
  }

  /** A pool neither side of a move belongs to. */
  lemma Elsewhere(owner: map<Slot, Owner>, s: seq<Slot>, o: Owner, x: Slot, o': Owner)
    requires OwnedBy(owner, s, o) && o' != o && (x in owner ==> owner[x] != o)
    ensures OwnedBy(owner[x := o'], s, o)
  {
  }

  lemma OtherLocals(owner: map<Slot, Owner>, pools: seq<seq<Slot>>, t: nat, pool: seq<Slot>, x: Slot, o: Owner)
    requires LocalsExact(owner, pools) && t < |pools|
    requires OwnedBy(owner[x := o], pool, Local(t)) && |pool| < BATCH
    requires (x in owner && owner[x].Local? ==> owner[x].thread == t) && (o.Local? ==> o.thread == t)
    ensures LocalsExact(owner[x := o], pools[t := pool])
  {
    var pools' := pools[t := pool];
    forall u | 0 <= u < |pools'| ensures OwnedBy(owner[x := o], pools'[u], Local(u)) && |pools'[u]| < BATCH {
      if u != t {
        Elsewhere(owner, pools[u], Local(u), x, o);
      }
    }
  }

  lemma LiveAfter(owner: map<Slot, Owner>, x: Slot, o: Owner)
    ensures LiveSet(owner[x := o]) == if o == Live then LiveSet(owner) + {x} else LiveSet(owner) - {x}
  {
  }

  // ---- Free lists after a restore ------------------------------------------------------------

  /** The complement of the live slots, highest first, so the lowest hole is on top. */
  ghost function FreeList(highWater: nat, live: set<Slot>): seq<Slot>
  {
    if highWater == 0 then []
    else if highWater - 1 in live then FreeList(highWater - 1, live)
    else [highWater - 1] + FreeList(highWater - 1, live)
  }

  lemma {:induction false} FreeListIsComplement(highWater: nat, live: set<Slot>)
    ensures Distinct(FreeList(highWater, live))
    ensures forall x: Slot :: x in FreeList(highWater, live) <==> x < highWater && x !in live
    ensures forall i, j | 0 <= i < j < |FreeList(highWater, live)| :: FreeList(highWater, live)[i] > FreeList(highWater, live)[j]
  {
    if highWater > 0 {
      FreeListIsComplement(highWater - 1, live);
      var rest := FreeList(highWater - 1, live);
      forall i | 0 <= i < |rest| ensures rest[i] < highWater - 1 {
        assert rest[i] in rest;
      }
    }
  }

  // ---- Chunks --------------------------------------------------------------------------------

  /** How many chunks the slots below the mark span. */
  function ChunksFor(highWater: nat, chunkSlots: nat): nat
    requires chunkSlots > 0
  {
    if highWater == 0 then 0 else
    DivMod(highWater - 1, chunkSlots);
    (highWater - 1) / chunkSlots + 1
  }

  lemma PreviousQuotient(n: nat, d: nat, q: nat, r: nat)
    requires n > 0 && d > 0 && n == q * d + r && r < d
    ensures (n - 1) / d == if r == 0 then q - 1 else q
  {
    if r == 0 {
      SignedProduct(q, d);
      assert (q - 1) * d == q * d - d;
      DivUnique(n - 1, d, q - 1, d - 1);
    } else {
      DivUnique(n - 1, d, q, r - 1);
    }
  }

  /** The mark crosses into a new chunk exactly at a multiple of the chunk size. */
  lemma ChunkStep(highWater: nat, chunkSlots: nat)
    requires chunkSlots > 0
    ensures highWater / chunkSlots >= 0
    ensures ChunksFor(highWater + 1, chunkSlots) == highWater / chunkSlots + 1
    ensures highWater % chunkSlots == 0 ==> ChunksFor(highWater, chunkSlots) == highWater / chunkSlots
    ensures highWater % chunkSlots != 0 ==> ChunksFor(highWater, chunkSlots) == highWater / chunkSlots + 1
  {
    DivMod(highWater, chunkSlots);
    if highWater > 0 {
      var q, r := highWater / chunkSlots, highWater % chunkSlots;
      PreviousQuotient(highWater, chunkSlots, q, r);
    }
  }

  // ---- Moves between the pools ---------------------------------------------------------------

  /** The shared pool and the thread pools hold exactly what `owner` says. */
  ghost predicate Placed(owner: map<Slot, Owner>, free: seq<Slot>, pools: seq<seq<Slot>>)
  {
    OwnedBy(owner, free, Global) && LocalsExact(owner, pools)
  }

  ghost function MoveAll(owner: map<Slot, Owner>, s: seq<Slot>, o: Owner): map<Slot, Owner>
  {
    map x | x in owner :: if x in s then o else owner[x]
  }

  lemma Spill(owner: map<Slot, Owner>, free: seq<Slot>, local: seq<Slot>, t: nat)
    requires OwnedBy(owner, free, Global) && OwnedBy(owner, local, Local(t))
    ensures OwnedBy(MoveAll(owner, local, Global), free + local, Global)
    ensures OwnedBy(MoveAll(owner, local, Global), [], Local(t))
  {
    var all := free + local;
    forall i, j | 0 <= i < j < |all| ensures all[i] != all[j] {
      if i < |free| && j >= |free| {
        assert all[i] in free && all[j] in local;
      }
    }
  }

  lemma SpillLocals(owner: map<Slot, Owner>, pools: seq<seq<Slot>>, t: nat, local: seq<Slot>, index: Slot)
    requires LocalsExact(owner, pools) && t < |pools| && index in owner && !owner[index].Local?
    requires OwnedBy(owner[index := Local(t)], local, Local(t))
    ensures LocalsExact(MoveAll(owner[index := Local(t)], local, Global), pools[t := []])
  {
    var moved, pools' := MoveAll(owner[index := Local(t)], local, Global), pools[t := []];
    forall u | 0 <= u < |pools'| ensures OwnedBy(moved, pools'[u], Local(u)) && |pools'[u]| < BATCH {
      if u != t {
        assert OwnedBy(owner, pools[u], Local(u));
      }
    }
  }

  lemma QuarantineLocals(owner: map<Slot, Owner>, pools: seq<seq<Slot>>, index: Slot)
    requires LocalsExact(owner, pools) && index in owner && !owner[index].Local?
    ensures LocalsExact(owner[index := Quarantined], pools)
  {
    forall u | 0 <= u < |pools| ensures OwnedBy(owner[index := Quarantined], pools[u], Local(u)) && |pools[u]| < BATCH {
      Elsewhere(owner, pools[u], Local(u), index, Quarantined);
    }
  }

  ghost predicate OthersKept(pools: seq<seq<Slot>>, pools': seq<seq<Slot>>, t: nat)
  {
    |pools'| == |pools| && forall u | 0 <= u < |pools| && u != t :: pools'[u] == pools[u]
  }

  method AppendAll(free: seq<Slot>, local: seq<Slot>) returns (free': seq<Slot>)
    ensures free' == free + local
  {
    free' := free;
    for i := 0 to |local|
      invariant free' == free + local[..i]
    {
      free' := free' + [local[i]];
    }
    assert local[..|local|] == local;
  }

  /** `push_free`: onto the thread's pool; a full batch spills to the shared pool in
      the same order. */
  method PushInto(free: seq<Slot>, pools: seq<seq<Slot>>, t: nat, index: Slot, ghost owner: map<Slot, Owner>)
    returns (free': seq<Slot>, pools': seq<seq<Slot>>, ghost owner': map<Slot, Owner>)
    requires Placed(owner, free, pools) && t < |pools|
    requires index in owner && (owner[index] == Live || owner[index] == Quarantined)
    ensures Placed(owner', free', pools') && owner'.Keys == owner.Keys && OthersKept(pools, pools', t)
    ensures LiveSet(owner') == LiveSet(owner) - {index} && owner'[index] != Live
    ensures free' + pools'[t] == free + pools[t] + [index]
  {
    var local := pools[t] + [index];
    Pushed(owner, pools[t], Local(t), index);
    LiveAfter(owner, index, Local(t));
    Elsewhere(owner, free, Global, index, Local(t));
    owner' := owner[index := Local(t)];
    if |local| < BATCH {
      OtherLocals(owner, pools, t, local, index, Local(t));
      return free, pools[t := local], owner';
    }
    free' := AppendAll(free, local);
    Spill(owner', free, local, t);
    SpillLocals(owner, pools, t, local, index);
    assert LiveSet(MoveAll(owner', local, Global)) == LiveSet(owner');
    return free', pools[t := []], MoveAll(owner', local, Global);
  }

  method CopyFrom(free: seq<Slot>, first: nat) returns (local: seq<Slot>)
    requires first <= |free|
    ensures local == free[first..]
  {
    local := [];
    for i := first to |free|
      invariant local == free[first..i]
    {
      local := local + [free[i]];
    }
  }

  /** `refill_from_global`: the top of the shared pool, at most a batch, in order. */
  method Refill(free: seq<Slot>, pools: seq<seq<Slot>>, t: nat, ghost owner: map<Slot, Owner>)
    returns (free': seq<Slot>, local: seq<Slot>, ghost owner': map<Slot, Owner>)
    requires Placed(owner, free, pools) && t < |pools| && pools[t] == []
    ensures free' + local == free && |local| <= BATCH && (local == [] <==> free == [])
    ensures OwnedBy(owner', free', Global) && OwnedBy(owner', local, Local(t)) && owner'.Keys == owner.Keys
    ensures LiveSet(owner') == LiveSet(owner)
    ensures forall u | 0 <= u < |pools| && u != t :: OwnedBy(owner', pools[u], Local(u))
    ensures forall x | x in owner' && owner'[x].Local? :: owner'[x].thread < |pools|
  {
    if free == [] {
      return free, [], owner;
    }
    hide *;
    var take := if |free| < BATCH then |free| else BATCH;
    var first := |free| - take;
    local := CopyFrom(free, first);
    free' := free[..first];
    assert free' + local == free;
    owner' := MoveAll(owner, local, Local(t));
    Refilled(owner, free, pools, t, first);
  }

  lemma Refilled(owner: map<Slot, Owner>, free: seq<Slot>, pools: seq<seq<Slot>>, t: nat, first: nat)
    requires Placed(owner, free, pools) && t < |pools| && pools[t] == [] && first <= |free|
    ensures var owner' := MoveAll(owner, free[first..], Local(t));
            && OwnedBy(owner', free[..first], Global) && OwnedBy(owner', free[first..], Local(t))
            && LiveSet(owner') == LiveSet(owner)
            && (forall u | 0 <= u < |pools| && u != t :: OwnedBy(owner', pools[u], Local(u)))
  {
    var local, rest := free[first..], free[..first];
    var owner' := MoveAll(owner, local, Local(t));
    assert free == rest + local;
    forall x | x in local ensures x in free && x !in rest {
      var j :| 0 <= j < |local| && local[j] == x;
      assert free[first + j] == x;
      assert forall i | 0 <= i < first :: rest[i] == free[i] != x;
    }
    forall x: Slot ensures x in rest <==> x in owner' && owner'[x] == Global {
      assert x in free <==> x in rest || x in local;
    }
    forall u | 0 <= u < |pools| && u != t ensures OwnedBy(owner', pools[u], Local(u)) {
      assert OwnedBy(owner, pools[u], Local(u));
    }
    assert OwnedBy(owner, pools[t], Local(t));
  }

  lemma PoppedLocals(owner: map<Slot, Owner>, pools: seq<seq<Slot>>, t: nat, rest: seq<Slot>, index: Slot)
    requires t < |pools| && index in owner && owner[index] == Local(t)
    requires forall u | 0 <= u < |pools| && u != t :: OwnedBy(owner, pools[u], Local(u)) && |pools[u]| < BATCH
    requires OwnedBy(owner[index := Live], rest, Local(t)) && |rest| < BATCH
    requires forall x | x in owner && owner[x].Local? :: owner[x].thread < |pools|
    ensures LocalsExact(owner[index := Live], pools[t := rest])
  {
    hide OwnedBy;
    var pools' := pools[t := rest];
    forall u | 0 <= u < |pools'| ensures OwnedBy(owner[index := Live], pools'[u], Local(u)) && |pools'[u]| < BATCH {
      if u != t {
        Elsewhere(owner, pools[u], Local(u), index, Live);
      }
    }
  }

  lemma HandOut(owner: map<Slot, Owner>, free: seq<Slot>, pools: seq<seq<Slot>>, t: nat, local: seq<Slot>)
    requires OwnedBy(owner, free, Global) && OwnedBy(owner, local, Local(t)) && 0 < |local| <= BATCH && t < |pools|
    requires forall u | 0 <= u < |pools| && u != t :: OwnedBy(owner, pools[u], Local(u)) && |pools[u]| < BATCH
    requires forall x | x in owner && owner[x].Local? :: owner[x].thread < |pools|
    ensures var index := local[|local| - 1];
            && index in owner && index !in LiveSet(owner) && LiveSet(owner[index := Live]) == LiveSet(owner) + {index}
            && Placed(owner[index := Live], free, pools[t := local[..|local| - 1]])
  {
    var index, rest := local[|local| - 1], local[..|local| - 1];
    Popped(owner, local, Local(t), Live);
    LiveAfter(owner, index, Live);
    Elsewhere(owner, free, Global, index, Live);
    PoppedLocals(owner, pools, t, rest, index);
  }

  /** Hand out the thread's most recently freed slot, refilling first when dry. */
  method PopFrom(free: seq<Slot>, pools: seq<seq<Slot>>, t: nat, ghost owner: map<Slot, Owner>)
    returns (slot: Option<Slot>, free': seq<Slot>, pools': seq<seq<Slot>>, ghost owner': map<Slot, Owner>)
    requires Placed(owner, free, pools) && t < |pools|
    ensures Placed(owner', free', pools') && owner'.Keys == owner.Keys && OthersKept(pools, pools', t)
    ensures slot.None? ==> free == [] && pools[t] == [] && free' == [] && pools'[t] == [] && LiveSet(owner') == LiveSet(owner)
    ensures slot.Some? ==>
              && slot.value in owner && slot.value !in LiveSet(owner)
              && free' + pools'[t] + [slot.value] == free + pools[t]
              && LiveSet(owner') == LiveSet(owner) + {slot.value}
  {
    hide OwnedBy, LiveSet;
    var local := pools[t];
    free', owner' := free, owner;
    if local == [] {
      free', local, owner' := Refill(free, pools, t, owner);
    }
    if local == [] {
      return None, free', pools, owner';
    }
    var index := local[|local| - 1];
    HandOut(owner', free', pools, t, local);
    pools' := pools[t := local[..|local| - 1]];
    assert pools'[t] + [index] == local;
    return Some(index), free', pools', owner'[index := Live];
  }

  /** The recycling half of `allocate`: touch the thread's pool and pop it. */
  method Take(free: seq<Slot>, pools: seq<seq<Slot>>, t: nat, ghost highWater: nat, ghost owner: map<Slot, Owner>)
    returns (slot: Option<Slot>, free': seq<Slot>, pools': seq<seq<Slot>>, ghost owner': map<Slot, Owner>)
    requires Placed(owner, free, pools) && t <= |pools| && BelowMark(owner, highWater)
    ensures Placed(owner', free', pools') && BelowMark(owner', highWater)
    ensures slot.Some? ==>
              && slot.value !in LiveSet(owner) && LiveSet(owner') == LiveSet(owner) + {slot.value}
              && free' + PoolOf(pools', t) + [slot.value] == free + PoolOf(pools, t)
    ensures slot.None? ==> owner' == owner && free' == free && free + PoolOf(pools, t) == [] && free + PoolOf(pools', t) == []
  {
    var touched := Touch(free, pools, t, owner);
    assert PoolOf(touched, t) == PoolOf(pools, t);
    slot, free', pools', owner' := PopFrom(free, touched, t, owner);
    SameMark(owner, owner', highWater);
    if slot.None? {
      return None, free, touched, owner;
    }
  }

  /** A brand-new slot at the mark. */
  lemma Grown(owner: map<Slot, Owner>, free: seq<Slot>, pools: seq<seq<Slot>>, highWater: nat)
    requires Placed(owner, free, pools) && BelowMark(owner, highWater)
    ensures Placed(owner[highWater := Live], free, pools) && BelowMark(owner[highWater := Live], highWater + 1)
    ensures LiveSet(owner[highWater := Live]) == LiveSet(owner) + {highWater} && highWater !in LiveSet(owner)
  {
    Elsewhere(owner, free, Global, highWater, Live);
    LiveAfter(owner, highWater, Live);
    forall u | 0 <= u < |pools| ensures OwnedBy(owner[highWater := Live], pools[u], Local(u)) && |pools[u]| < BATCH {
      Elsewhere(owner, pools[u], Local(u), highWater, Live);
    }
  }

  /** First touch by a thread registers its pool. */
  method Touch(free: seq<Slot>, pools: seq<seq<Slot>>, t: nat, ghost owner: map<Slot, Owner>) returns (pools': seq<seq<Slot>>)
    requires Placed(owner, free, pools) && t <= |pools|
    ensures Placed(owner, free, pools') && t < |pools'|
    ensures pools' == if t < |pools| then pools else pools + [[]]
  {
    pools' := if t < |pools| then pools else pools + [[]];
    forall u | 0 <= u < |pools'| ensures OwnedBy(owner, pools'[u], Local(u)) && |pools'[u]| < BATCH {
      if u == |pools| {
        forall x | x in owner ensures owner[x] != Local(u) {}
      }
    }
  }

  /** What growth answers: the mark, unless a new chunk is needed and there is none. */
  ghost function Growth(mark: nat, chunkSlots: nat, maxChunks: nat, chunkGranted: bool): Result<Slot, PoolError>
    requires chunkSlots > 0
  {
    if mark % chunkSlots != 0 then Success(mark)
    else if mark / chunkSlots >= maxChunks then Failure(CapacityExhausted)
    else if !chunkGranted then Failure(OutOfMemory)
    else Success(mark)
  }

  lemma SameMark(owner: map<Slot, Owner>, owner': map<Slot, Owner>, highWater: nat)
    requires BelowMark(owner, highWater) && owner'.Keys == owner.Keys
    ensures BelowMark(owner', highWater)
  {
    assert forall x: Slot :: x in owner' <==> x in owner'.Keys;
  }

  /** The chunk loop of `reserve_restored`. */
  method BindChunks(needed: nat, maxChunks: nat, granted: nat) returns (r: Result<(), PoolError>)
    ensures r == if needed <= maxChunks && needed <= granted then Success(())
                 else if maxChunks <= granted then Failure(CapacityExhausted) else Failure(OutOfMemory)
  {
    for chunk := 0 to needed
      invariant chunk <= maxChunks && chunk <= granted
    {
      if chunk >= maxChunks {
        return Failure(CapacityExhausted);
      }
      if chunk >= granted {
        return Failure(OutOfMemory);
      }
    }
    return Success(());
  }

  ghost function PoolOf(pools: seq<seq<Slot>>, t: nat): seq<Slot>
  {
    if t < |pools| then pools[t] else []
  }

  // ---- The store ---------------------------------------------------------------------------

  class SlotStore {
    const chunkSlots: nat
    const maxChunks: nat
    var free: seq<Slot>
    /** One pool per thread that ever touched the store, in registration order. */
    var pools: seq<seq<Slot>>
    var highWater: nat
    var liveCount: nat
    var chunks: nat
    /** Whether a release goes to quarantine. */
    var fenced: bool
    ghost var owner: map<Slot, Owner>

    /** Every slot below the mark is in exactly one place, and every one is backed. */
    ghost predicate Valid()
      reads this
    {
      && chunkSlots > 0 && chunks == ChunksFor(highWater, chunkSlots)
      && BelowMark(owner, highWater) && Placed(owner, free, pools)
      && liveCount == |LiveSet(owner)|
    }

    /** What thread `t` can reuse, most recently freed last. */
    ghost function Stack(t: nat): seq<Slot>
      reads this
    {
      free + PoolOf(pools, t)
    }

    constructor (chunkSlots: nat, maxChunks: nat, fenced: bool)
      requires chunkSlots > 0
      ensures Valid() && highWater == 0 && pools == [] && free == [] && this.fenced == fenced
      ensures this.chunkSlots == chunkSlots && this.maxChunks == maxChunks
    {
      this.chunkSlots, this.maxChunks, this.fenced := chunkSlots, maxChunks, fenced;
      free, pools, highWater, liveCount, chunks, owner := [], [], 0, 0, 0, map[];
    }

    /** `allocate`: the last slot freed to this thread's stack, else the next at the
        mark. Never a slot in use; refused only when a chunk is needed and cannot be
        had. */
    method Allocate(t: nat, chunkGranted: bool) returns (r: Result<Slot, PoolError>)
      requires Valid() && t <= |pools|
      modifies this
      ensures Valid() && fenced == old(fenced)
      ensures if r.Success? then r.value !in LiveSet(old(owner)) && LiveSet(owner) == LiveSet(old(owner)) + {r.value}
              else LiveSet(owner) == LiveSet(old(owner))
      ensures old(Stack(t)) != [] ==> r.Success? && Stack(t) + [r.value] == old(Stack(t)) && highWater == old(highWater)
      ensures old(Stack(t)) == [] ==>
                && Stack(t) == [] && r == Growth(old(highWater), chunkSlots, maxChunks, chunkGranted)
                && highWater == if r.Success? then old(highWater) + 1 else old(highWater)
    {
      hide Placed, LiveSet, BelowMark, ChunksFor, Growth;
      var slot, free', pools';
      ghost var owner';
      slot, free', pools', owner' := Take(free, pools, t, highWater, owner);
      if slot.Some? {
        free, pools, owner, liveCount := free', pools', owner', liveCount + 1;
        return Success(slot.value);
      }
      pools := pools';
      r := Grow(t, chunkGranted);
    }

    /** A new slot at the mark, in a new chunk when the mark stands at one's start. */
    method Grow(t: nat, chunkGranted: bool) returns (r: Result<Slot, PoolError>)
      requires Valid()
      modifies this`highWater, this`liveCount, this`chunks, this`owner
      ensures Valid() && r == Growth(old(highWater), chunkSlots, maxChunks, chunkGranted)
      ensures if r.Success? then r.value !in LiveSet(old(owner)) && LiveSet(owner) == LiveSet(old(owner)) + {r.value}
              else LiveSet(owner) == LiveSet(old(owner))
      ensures highWater == if r.Success? then old(highWater) + 1 else old(highWater)
    {
      ChunkStep(highWater, chunkSlots);
      if highWater % chunkSlots == 0 {
        if highWater / chunkSlots >= maxChunks {
          return Failure(CapacityExhausted);
        }
        if !chunkGranted {
          return Failure(OutOfMemory);
        }
        chunks := chunks + 1;
      }
      Grown(owner, free, pools, highWater);
      owner := owner[highWater := Live];
      r := Success(highWater);
      highWater, liveCount := highWater + 1, liveCount + 1;
    }

    /** `release`: count it out, then quarantine or free. */
    method Release(t: nat, index: Slot)
      requires Valid() && t <= |pools| && index in LiveSet(owner)
      modifies this
      ensures Valid() && LiveSet(owner) == LiveSet(old(owner)) - {index} && highWater == old(highWater) && fenced == old(fenced)
      ensures if old(fenced) then owner[index] == Quarantined && free == old(free) && pools == old(pools)
              else Stack(t) == old(Stack(t)) + [index]
    {
      if fenced {
        LiveAfter(owner, index, Quarantined);
        QuarantineLocals(owner, pools, index);
        Elsewhere(owner, free, Global, index, Quarantined);
        owner := owner[index := Quarantined];
      } else {
        Give(t, index);
      }
      liveCount := liveCount - 1;
    }

    /** `free_now`: the fence lets a durable slot go. */
    method FreeNow(t: nat, index: Slot)
      requires Valid() && t <= |pools| && index in owner && owner[index] == Quarantined
      modifies this
      ensures Valid() && LiveSet(owner) == LiveSet(old(owner)) && highWater == old(highWater) && fenced == old(fenced)
      ensures Stack(t) == old(Stack(t)) + [index]
    {
      assert index !in LiveSet(owner);
      Give(t, index);
      assert LiveSet(owner) == LiveSet(old(owner));
    }

    /** The calling thread's pool takes the slot. */
    method Give(t: nat, index: Slot)
      requires Valid() && t <= |pools| && index in owner && (owner[index] == Live || owner[index] == Quarantined)
      modifies this`free, this`pools, this`owner
      ensures BelowMark(owner, highWater) && Placed(owner, free, pools)
      ensures LiveSet(owner) == LiveSet(old(owner)) - {index}
      ensures Stack(t) == old(Stack(t)) + [index]
    {
      var touched := Touch(free, pools, t, owner);
      assert PoolOf(touched, t) == PoolOf(pools, t);
      assert free + touched[t] + [index] == free + (touched[t] + [index]);
      ghost var keys := owner.Keys;
      var free', pools';
      ghost var owner';
      free', pools', owner' := PushInto(free, touched, t, index, owner);
      assert forall x: Slot :: x in owner' <==> x in keys;
      free, pools, owner := free', pools', owner';
    }

    /** `reserve_restored` and `finalize_restore` on a fresh store: bind the chunks,
        then the free list is the complement of the live set, lowest hole on top. A
        walk that lists each live slot once leaves the store valid. */
    method Restore(restored: nat, live: seq<Slot>, chunksGranted: nat) returns (r: Result<(), PoolError>)
      requires Valid() && highWater == 0 && pools == []
      modifies this
      ensures r.Success? <==> ChunksFor(restored, chunkSlots) <= maxChunks && ChunksFor(restored, chunkSlots) <= chunksGranted
      ensures r.Success? ==>
                && highWater == restored && liveCount == |live|
                && free == FreeList(restored, Elements(live)) && pools == []
      ensures r.Success? && Distinct(live) && (forall x | x in live :: x < restored) ==> Valid() && LiveSet(owner) == Elements(live)
    {
      r := BindChunks(ChunksFor(restored, chunkSlots), maxChunks, chunksGranted);
      if r.Failure? {
        return;
      }
      chunks := ChunksFor(restored, chunkSlots);
      highWater := restored;
      free := Complement(restored, live);
      liveCount := |live|;
      ghost var alive := Elements(live);
      owner := map x: Slot | x < restored :: if x in alive then Live else Global;
      FreeListIsComplement(restored, alive);
      assert BelowMark(owner, highWater) && OwnedBy(owner, free, Global);
      if Distinct(live) && forall x | x in live :: x < restored {
        assert LiveSet(owner) == alive;
        MembersSize(live);
      }
    }
  }

  lemma {:induction false} MembersSize(s: seq<Slot>)
    requires Distinct(s)
    ensures |Elements(s)| == |s|
  {
    if s != [] {
      var init, last := s[..|s| - 1], s[|s| - 1];
      MembersSize(init);
      assert s == init + [last];
      assert last !in init;
      assert Elements(s) == Elements(init) + {last};
    }
  }

  /** Below-mark complement, pushed high index first. */
  method Complement(highWater: nat, live: seq<Slot>) returns (free: seq<Slot>)
    ensures free == FreeList(highWater, Elements(live))
  {
    free := [];
    var index: nat := highWater;
    while index > 0
      invariant 0 <= index <= highWater
      invariant free + FreeList(index, Elements(live)) == FreeList(highWater, Elements(live))
    {
      index := index - 1;
      if index !in live {
        free := free + [index];
      }
    }
  }

  // ---- Two typed views over one store --------------------------------------------------------

  /** `open`: group the walk's live sets by store, then finalize each store once. When
      the two views share a store its list is the complement of the union. */
  method FinalizeByStore(shared: bool, nodeMark: nat, recordMark: nat, nodes: seq<Slot>, records: seq<Slot>)
    returns (nodeFree: seq<Slot>, recordFree: seq<Slot>)
    requires shared ==> nodeMark == recordMark
    ensures forall x: Slot :: x in nodeFree <==> x < nodeMark && x !in nodes && (shared ==> x !in records)
    ensures forall x: Slot :: x in recordFree <==> x < recordMark && x !in records && (shared ==> x !in nodes)
    ensures Distinct(nodeFree) && Distinct(recordFree) && (shared ==> nodeFree == recordFree)
  {
    if shared {
      var all := nodes + records;
      nodeFree := Complement(nodeMark, all);
      recordFree := nodeFree;
      FreeListIsComplement(nodeMark, Elements(all));
    } else {
      nodeFree := Complement(nodeMark, nodes);
      recordFree := Complement(recordMark, records);
      FreeListIsComplement(nodeMark, Elements(nodes));
      FreeListIsComplement(recordMark, Elements(records));
    }
  }

  /** Why once per store: a second finalize with one view's set alone would put every
      live slot of the other view on the free list. */
  lemma FinalizingTwiceFreesLiveNodes(mark: nat, nodes: set<Slot>, records: set<Slot>, n: Slot)
    requires n in nodes && n !in records && n < mark
    ensures n in FreeList(mark, records)
  {
    FreeListIsComplement(mark, records);
  }
}
