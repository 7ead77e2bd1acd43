/** The prepared-block ring between one mixing producer and lock-free readers. Every
    shared access is one step; producer and readers interleave in any order. A slot's
    generation is odd while it is being written and even while it is stable. */
module Lookahead {
  import opened Numbers

  type Sample = int

  const SILENCE: Sample := 0
  const EMPTY: int := -0x8000_0000_0000_0000
  const ATTEMPTS: nat := 4

  // ---- Which slot, which block -------------------------------------------------------

  /** `slot_at`. */
  function SlotAt(index: int, capacity: nat): int
    requires capacity > 0
  {
    TruncMod(TruncMod(index, capacity) + capacity, capacity)
  }

  lemma TruncModRange(a: int, b: nat)
    requires b > 0
    ensures TruncMod(a, b) + b > 0 && TruncMod(a, b) < b
    ensures a >= 0 ==> TruncMod(a, b) >= 0
    ensures exists q :: a == q * b + TruncMod(a, b)
  {
    if a >= 0 {
      DivMod(a, b);
    } else {
      DivMod(-a, b);
      assert TruncDiv(a, b) * b == -(-a / b * b);
    }
    assert a == TruncDiv(a, b) * b + TruncMod(a, b);
  }

  /** Always a slot of the ring, reverse playheads included, and blocks a whole
      capacity apart share it. */
  lemma SlotAtIsResidue(index: int, capacity: nat)
    requires capacity > 0
    ensures 0 <= SlotAt(index, capacity) < capacity
    ensures exists q :: index == q * capacity + SlotAt(index, capacity)
  {
    var r := TruncMod(index, capacity);
    TruncModRange(index, capacity);
    TruncModRange(r + capacity, capacity);
    var q :| index == q * capacity + r;
    var p :| r + capacity == p * capacity + SlotAt(index, capacity);
    assert (q + p - 1) * capacity == q * capacity + p * capacity - capacity;
    assert index == (q + p - 1) * capacity + SlotAt(index, capacity);
  }

  /** `block_index_at`: toward minus infinity. */
  function BlockIndexAt(flicks: int, span: int): int
  {
    if span <= 0 then 0
    else
      var q := TruncDiv(flicks, span);
      if TruncMod(flicks, span) != 0 && flicks < 0 then q - 1 else q
  }

  /** The block found is the one whose half-open window holds the instant. */
  lemma BlockContainsInstant(flicks: int, span: nat)
    requires span > 0
    ensures BlockIndexAt(flicks, span) * span <= flicks < (BlockIndexAt(flicks, span) + 1) * span
  {
    var q, r := TruncDiv(flicks, span), TruncMod(flicks, span);
    assert flicks == q * span + r;
    TruncDivIs(flicks, span);
    assert BlockIndexAt(flicks, span) == if r != 0 && flicks < 0 then q - 1 else q;
    hide BlockIndexAt, TruncDiv, TruncMod;
    assert (q + 1) * span == q * span + span && (q - 1) * span == q * span - span;
  }

  // ---- The state -------------------------------------------------------------------------

  datatype Payload = Payload(samples: seq<Sample>, rate: nat, exact: bool, index: int)

  datatype Slot = Slot(gen: nat, data: Payload)

  /** A publish or retire in progress on `slot`, from generation `base`: `at` counts
      the stores already made, in the order samples, rate, exactness, index. A retire
      starts at the index store. */
  datatype Producer = Idle | Writing(slot: nat, base: nat, goal: Payload, at: nat)

  datatype Pc = ReadGen | ReadIndex | ReadRate | ReadExact | Copy(at: nat) | Recheck | Silence(at: nat) | Count | Returned(ok: bool)

  /** One `drain` call: its arguments, its locals and the caller's buffer. */
  datatype Reader = Reader(
    index: int, hasBuffer: bool, askedRate: nat, attempt: nat, pc: Pc,
    s1: nat, have: int, rate: nat, exact: bool, out: seq<Sample>)

  /** `stable[i]` lists what slot i held at each even generation, `published` every
      block a completed publish left there, `misses` the drains that returned false. */
  datatype State = State(
    frame: nat, slots: seq<Slot>, producer: Producer, readers: map<nat, Reader>, underruns: nat,
    stable: seq<seq<Payload>>, published: seq<Payload>, misses: nat)

  function Blank(frame: nat): Payload
  {
    Payload(seq(frame, _ => SILENCE), 0, false, EMPTY)
  }

  ghost predicate Init(st: State)
  {
    && |st.slots| > 0 && |st.stable| == |st.slots|
    && (forall i | 0 <= i < |st.slots| :: st.slots[i] == Slot(0, Blank(st.frame)) && st.stable[i] == [Blank(st.frame)])
    && st.producer == Idle && st.readers == map[] && st.underruns == 0 && st.published == [] && st.misses == 0
  }

  // ---- Producer steps --------------------------------------------------------------------

  /** The slot's contents after the first `at` stores toward `goal`. */
  function Mixed(before: Payload, goal: Payload, at: nat): Payload
    requires |before.samples| == |goal.samples|
  {
    var n := |goal.samples|;
    Payload(if at <= n then goal.samples[..at] + before.samples[at..] else goal.samples,
            if at > n then goal.rate else before.rate,
            if at > n + 1 then goal.exact else before.exact,
            if at > n + 2 then goal.index else before.index)
  }

  /** One store of a publish or retire. */
  function Store(data: Payload, goal: Payload, at: nat): Payload
    requires |data.samples| == |goal.samples|
  {
    var n := |goal.samples|;
    if at < n then data.(samples := data.samples[at := goal.samples[at]])
    else if at == n then data.(rate := goal.rate)
    else if at == n + 1 then data.(exact := goal.exact)
    else data.(index := goal.index)
  }

  lemma StoreAdvances(before: Payload, goal: Payload, at: nat)
    requires |before.samples| == |goal.samples| && at <= |goal.samples| + 2
    ensures Store(Mixed(before, goal, at), goal, at) == Mixed(before, goal, at + 1)
  {
    var n := |goal.samples|;
    assert goal.samples[..n] + before.samples[n..] == goal.samples;
    if at < n {
      assert (goal.samples[..at] + before.samples[at..])[at := goal.samples[at]]
          == goal.samples[..at + 1] + before.samples[at + 1..];
    }
  }

  ghost predicate BeginPublish(st: State, st': State, i: nat, goal: Payload)
  {
    && st.producer == Idle && i < |st.slots| && |goal.samples| == st.frame && goal.index != EMPTY
    && i == SlotAt(goal.index, |st.slots|)
    && st' == st.(producer := Writing(i, st.slots[i].gen, goal, 0), slots := st.slots[i := st.slots[i].(gen := st.slots[i].gen + 1)])
  }

  ghost predicate BeginRetire(st: State, st': State, i: nat)
  {
    && st.producer == Idle && i < |st.slots| && |st.slots[i].data.samples| == st.frame
    && st' == st.(producer := Writing(i, st.slots[i].gen, st.slots[i].data.(index := EMPTY), st.frame + 2),
                  slots := st.slots[i := st.slots[i].(gen := st.slots[i].gen + 1)])
  }

  ghost predicate StoreStep(st: State, st': State)
  {
    && st.producer.Writing? && st.producer.slot < |st.slots| && st.producer.at < st.frame + 3
    && |st.slots[st.producer.slot].data.samples| == |st.producer.goal.samples| == st.frame
    && var i, p := st.producer.slot, st.producer;
       st' == st.(producer := p.(at := p.at + 1),
                  slots := st.slots[i := st.slots[i].(data := Store(st.slots[i].data, p.goal, p.at))])
  }

  ghost predicate FinishStep(st: State, st': State)
  {
    && st.producer.Writing? && st.producer.slot < |st.slots| == |st.stable| && st.producer.at == st.frame + 3
    && var i, p := st.producer.slot, st.producer;
       st' == st.(producer := Idle, slots := st.slots[i := st.slots[i].(gen := p.base + 2)],
                  stable := st.stable[i := st.stable[i] + [p.goal]],
                  published := if p.goal.index != EMPTY then st.published + [p.goal] else st.published)
  }

  // ---- Reader steps ----------------------------------------------------------------------

  ghost predicate StartDrain(st: State, st': State, r: nat, rd: Reader)
  {
    && (r in st.readers ==> st.readers[r].pc.Returned?)
    && rd.attempt == 0 && rd.pc == ReadGen
    && st' == st.(readers := st.readers[r := rd])
  }

  /** Whether this attempt copies the samples. */
  predicate Copies(rd: Reader, frame: nat)
  {
    rd.have == rd.index && rd.hasBuffer && |rd.out| == frame
  }

  /** The next attempt, or the underrun path after the last. */
  function Retry(rd: Reader): Reader
  {
    if rd.attempt + 1 < ATTEMPTS then rd.(attempt := rd.attempt + 1, pc := ReadGen)
    else rd.(attempt := rd.attempt + 1, pc := Underrun(rd))
  }

  function Underrun(rd: Reader): Pc
  {
    if rd.hasBuffer && |rd.out| > 0 then Silence(0) else Count
  }

  /** One access of `drain` to its slot, or one store to the caller's buffer. */
  function ReaderNext(rd: Reader, slot: Slot, frame: nat): Reader
  {
    match rd.pc
    case ReadGen =>
      if slot.gen % 2 == 1 then Retry(rd) else rd.(s1 := slot.gen, pc := ReadIndex)
    case ReadIndex => rd.(have := slot.data.index, pc := ReadRate)
    case ReadRate => rd.(rate := slot.data.rate, pc := ReadExact)
    case ReadExact =>
      var rd' := rd.(exact := slot.data.exact);
      rd'.(pc := if Copies(rd', frame) && frame > 0 then Copy(0) else Recheck)
    case Copy(at) =>
      if at < |rd.out| && at < |slot.data.samples| then
        rd.(out := rd.out[at := slot.data.samples[at]], pc := if at + 1 < frame then Copy(at + 1) else Recheck)
      else rd.(pc := Recheck)
    case Recheck =>
      if slot.gen != rd.s1 then Retry(rd)
      else if rd.have == rd.index then rd.(pc := Returned(true))
      else rd.(pc := Underrun(rd))
    case Silence(at) =>
      if at < |rd.out| then rd.(out := rd.out[at := SILENCE], pc := if at + 1 < |rd.out| then Silence(at + 1) else Count)
      else rd.(pc := Count)
    case Count => rd.(rate := rd.askedRate, exact := true, pc := Returned(false))
    case Returned(_) => rd
  }

  ghost predicate ReaderStep(st: State, st': State, r: nat)
  {
    && r in st.readers && |st.slots| > 0 && 0 <= SlotAt(st.readers[r].index, |st.slots|) < |st.slots|
    && !st.readers[r].pc.Returned?
    && var rd := st.readers[r];
       var missed := if rd.pc == Count then 1 else 0;
       st' == st.(readers := st.readers[r := ReaderNext(rd, st.slots[SlotAt(rd.index, |st.slots|)], st.frame)],
                  underruns := st.underruns + missed, misses := st.misses + missed)
  }

  ghost predicate Next(st: State, st': State)
  {
    || (exists i, goal :: BeginPublish(st, st', i, goal))
    || (exists i :: BeginRetire(st, st', i))
    || StoreStep(st, st') || FinishStep(st, st')
    || (exists r, rd :: StartDrain(st, st', r, rd))
    || (exists r :: ReaderStep(st, st', r))
  }

  // ---- The invariant ---------------------------------------------------------------------

  /** A slot nobody writes holds its last stable payload; the one being written lies
      between that and the goal. */
  ghost predicate SlotOk(st: State, i: nat)
    requires i < |st.slots| == |st.stable|
  {
    var slot, past := st.slots[i], st.stable[i];
    && past != [] && |slot.data.samples| == st.frame && (forall k | 0 <= k < |past| :: |past[k].samples| == st.frame)
    && (forall k | 0 <= k < |past| && past[k].index != EMPTY :: past[k] in st.published)
    && var last := past[|past| - 1];
       if st.producer.Writing? && st.producer.slot == i then
         && st.producer.base == 2 * (|past| - 1) && slot.gen == st.producer.base + 1
         && |st.producer.goal.samples| == st.frame && st.producer.at <= st.frame + 3
         && slot.data == Mixed(last, st.producer.goal, st.producer.at)
       else
         slot.gen == 2 * (|past| - 1) && slot.data == last
  }

  /** What a reader has read so far is what its generation held, as long as that
      generation still stands. */
  ghost predicate ReadsFrom(rd: Reader, p: Payload, frame: nat)
  {
    match rd.pc
    case ReadRate => rd.have == p.index
    case ReadExact => rd.have == p.index && rd.rate == p.rate
    case Copy(at) =>
      && rd.have == p.index && rd.rate == p.rate && rd.exact == p.exact && Copies(rd, frame)
      && at < frame && |p.samples| == frame && rd.out[..at] == p.samples[..at]
    case Recheck =>
      && rd.have == p.index && rd.rate == p.rate && rd.exact == p.exact
      && (Copies(rd, frame) ==> rd.out == p.samples)
    case _ => true
  }

  predicate MidAttempt(pc: Pc)
  {
    pc.ReadIndex? || pc.ReadRate? || pc.ReadExact? || pc.Copy? || pc.Recheck?
  }

  /** A delivered block: one completed publish of the asked index, all of it. */
  ghost predicate Delivered(rd: Reader, published: seq<Payload>, frame: nat)
  {
    exists p :: p in published && p.index == rd.index && p.rate == rd.rate && p.exact == rd.exact &&
      (rd.hasBuffer && |rd.out| == frame ==> rd.out == p.samples)
  }

  ghost predicate Silent(out: seq<Sample>, upTo: nat)
  {
    forall k | 0 <= k < upTo && k < |out| :: out[k] == SILENCE
  }

  ghost predicate ReaderOk(st: State, rd: Reader)
    requires |st.slots| == |st.stable|
  {
    var i := SlotAt(rd.index, if |st.slots| > 0 then |st.slots| else 1);
    && 0 <= i < |st.slots|
    && rd.attempt <= ATTEMPTS && (rd.pc == ReadGen || MidAttempt(rd.pc) ==> rd.attempt < ATTEMPTS)
    && (MidAttempt(rd.pc) ==>
          && rd.s1 % 2 == 0 && rd.s1 <= st.slots[i].gen && rd.s1 / 2 < |st.stable[i]|
          && (st.slots[i].gen == rd.s1 ==> ReadsFrom(rd, st.stable[i][rd.s1 / 2], st.frame)))
    && (rd.pc.Copy? ==> rd.pc.at < st.frame == |rd.out|)
    && (rd.pc.Silence? ==> rd.hasBuffer && rd.pc.at < |rd.out| && Silent(rd.out, rd.pc.at))
    && (rd.pc == Count || rd.pc == Returned(false) ==> (rd.hasBuffer ==> Silent(rd.out, |rd.out|)))
    && (rd.pc.Silence? || rd.pc == Count || rd.pc == Returned(false) ==> rd.attempt == ATTEMPTS || rd.have != rd.index)
    && (rd.pc == Returned(false) ==> rd.rate == rd.askedRate && rd.exact)
    && (rd.pc == Returned(true) && rd.index != EMPTY ==> Delivered(rd, st.published, st.frame))
  }

  ghost predicate Inv(st: State)
  {
    && |st.slots| == |st.stable| > 0
    && (st.producer.Writing? ==> st.producer.slot < |st.slots|)
    && (forall i: nat | i < |st.slots| :: SlotOk(st, i))
    && (forall r | r in st.readers :: ReaderOk(st, st.readers[r]))
    && (forall p | p in st.published :: p.index != EMPTY)
    && st.underruns == st.misses
  }

  lemma InitInv(st: State)
    requires Init(st)
    ensures Inv(st)
  {
    forall i: nat | i < |st.slots| ensures SlotOk(st, i) {
      assert st.stable[i] == [Blank(st.frame)];
    }
  }

  // ---- Producer steps keep it -----------------------------------------------------------

  /** A producer step leaves a slot alone, leaves its generation odd, or raises it. */
  predicate Moves(slot: Slot, slot': Slot)
  {
    slot'.gen >= slot.gen && (slot' == slot || slot'.gen % 2 == 1 || slot'.gen > slot.gen)
  }

  /** Then no reader's generation still stands on a slot that changed. */
  lemma ReaderSurvives(st: State, st': State, rd: Reader)
    requires |st.slots| == |st.stable| == |st'.slots| == |st'.stable| > 0 && st'.frame == st.frame && ReaderOk(st, rd)
    requires forall i | 0 <= i < |st.slots| :: Moves(st.slots[i], st'.slots[i]) && st.stable[i] <= st'.stable[i]
    requires forall p | p in st.published :: p in st'.published
    ensures ReaderOk(st', rd)
  {
    var i := SlotAt(rd.index, |st.slots|);
    assert Moves(st.slots[i], st'.slots[i]) && st.stable[i] <= st'.stable[i];
  }

  /** A step that only the slot `i` takes part in keeps every other slot. */
  lemma OtherSlots(st: State, st': State, i: nat, j: nat)
    requires |st.slots| == |st.stable| == |st'.slots| == |st'.stable| && j < |st.slots| && j != i
    requires SlotOk(st, j) && st'.slots[j] == st.slots[j] && st'.stable[j] == st.stable[j] && st'.frame == st.frame
    requires forall p | p in st.published :: p in st'.published
    requires st.producer.Writing? ==> st.producer.slot == i
    requires st'.producer.Writing? ==> st'.producer.slot == i
    ensures SlotOk(st', j)
  {
  }

  lemma BeginKeeps(st: State, st': State, i: nat)
    requires Inv(st) && st.producer == Idle && i < |st.slots|
    requires st'.producer.Writing? && st'.producer.slot == i && st'.producer.base == st.slots[i].gen
    requires |st'.producer.goal.samples| == |st.slots[i].data.samples| == st.frame && st'.producer.at <= st.frame + 3
    requires st.slots[i].data == Mixed(st.slots[i].data, st'.producer.goal, st'.producer.at)
    requires st' == st.(producer := st'.producer, slots := st.slots[i := st.slots[i].(gen := st.slots[i].gen + 1)])
    ensures Inv(st')
  {
    assert SlotOk(st, i);
    forall j: nat | j < |st'.slots| ensures SlotOk(st', j) {
      if j != i {
        OtherSlots(st, st', i, j);
      }
    }
    forall r | r in st'.readers ensures ReaderOk(st', st'.readers[r]) {
      ReaderSurvives(st, st', st.readers[r]);
    }
  }

  lemma StoredSlotOk(st: State, st': State)
    requires Inv(st) && StoreStep(st, st')
    ensures SlotOk(st', st.producer.slot)
  {
    hide ReaderOk;
    var i, p := st.producer.slot, st.producer;
    assert SlotOk(st, i);
    var past := st.stable[i];
    StoreAdvances(past[|past| - 1], p.goal, p.at);
    assert |st'.slots[i].data.samples| == st.frame;
    hide Store, Mixed;
  }

  lemma StoreKeeps(st: State, st': State)
    requires Inv(st) && StoreStep(st, st')
    ensures Inv(st')
  {
    var i := st.producer.slot;
    StoredSlotOk(st, st');
    hide Store, Mixed, ReaderOk, SlotOk;
    forall j: nat | j < |st'.slots| ensures SlotOk(st', j) {
      assert SlotOk(st, j);
      if j != i {
        OtherSlots(st, st', i, j);
      }
    }
    forall r | r in st'.readers ensures ReaderOk(st', st'.readers[r]) {
      ReaderSurvives(st, st', st.readers[r]);
    }
  }

  lemma FinishKeeps(st: State, st': State)
    requires Inv(st) && FinishStep(st, st')
    ensures Inv(st')
  {
    var i, p := st.producer.slot, st.producer;
    assert SlotOk(st, i);
    var past := st.stable[i];
    assert Mixed(past[|past| - 1], p.goal, p.at) == p.goal;
    forall q | q in st.published ensures q in st'.published {}
    forall j: nat | j < |st'.slots| ensures SlotOk(st', j) {
      if j != i {
        OtherSlots(st, st', i, j);
      }
    }
    forall r | r in st'.readers ensures ReaderOk(st', st'.readers[r]) {
      ReaderSurvives(st, st', st.readers[r]);
    }
  }

  // ---- Reader steps keep it -------------------------------------------------------------

  /** An even generation is a stable one: the slot holds its last payload. */
  lemma EvenIsStable(st: State, i: nat)
    requires |st.slots| == |st.stable| && i < |st.slots| && SlotOk(st, i) && st.slots[i].gen % 2 == 0
    ensures var past := st.stable[i];
            past != [] && st.slots[i].gen / 2 == |past| - 1 && st.slots[i].data == past[|past| - 1]
  {
  }

  lemma RetryOk(st: State, rd: Reader)
    requires |st.slots| == |st.stable| > 0 && 0 <= SlotAt(rd.index, |st.slots|) < |st.slots| && rd.attempt < ATTEMPTS
    ensures ReaderOk(st, Retry(rd))
  {
  }

  /** The copy loop: one sample more of the generation read, while it stands. */
  lemma CopyStepOk(st: State, rd: Reader)
    requires |st.slots| == |st.stable| > 0 && ReaderOk(st, rd) && rd.pc.Copy?
    requires SlotOk(st, SlotAt(rd.index, |st.slots|))
    ensures ReaderOk(st, ReaderNext(rd, st.slots[SlotAt(rd.index, |st.slots|)], st.frame))
  {
    var i := SlotAt(rd.index, |st.slots|);
    var slot := st.slots[i];
    hide SlotAt, Delivered, Silent;
    if slot.gen == rd.s1 {
      EvenIsStable(st, i);
      var p, at := st.stable[i][rd.s1 / 2], rd.pc.at;
      assert rd.out[at := p.samples[at]][..at + 1] == p.samples[..at + 1];
      assert p.samples[..|p.samples|] == p.samples;
    }
  }

  /** The first load of an attempt. */
  lemma GenStepOk(st: State, rd: Reader)
    requires |st.slots| == |st.stable| > 0 && ReaderOk(st, rd) && rd.pc == ReadGen
    requires SlotOk(st, SlotAt(rd.index, |st.slots|))
    ensures ReaderOk(st, ReaderNext(rd, st.slots[SlotAt(rd.index, |st.slots|)], st.frame))
  {
    var i := SlotAt(rd.index, |st.slots|);
    if st.slots[i].gen % 2 == 0 {
      EvenIsStable(st, i);
      hide SlotOk, SlotAt, Delivered, Silent;
    } else {
      RetryOk(st, rd);
      hide ReaderOk, SlotOk, SlotAt, Retry;
    }
  }

  /** The other single loads of an attempt. */
  lemma LoadStepOk(st: State, rd: Reader)
    requires |st.slots| == |st.stable| > 0 && ReaderOk(st, rd)
    requires rd.pc == ReadIndex || rd.pc == ReadRate || rd.pc == ReadExact
    requires SlotOk(st, SlotAt(rd.index, |st.slots|))
    ensures ReaderOk(st, ReaderNext(rd, st.slots[SlotAt(rd.index, |st.slots|)], st.frame))
  {
    var i := SlotAt(rd.index, |st.slots|);
    hide SlotAt, Delivered, Silent;
    if st.slots[i].gen % 2 == 0 {
      EvenIsStable(st, i);
    }
    hide SlotOk;
  }

  /** The re-check: unchanged, so everything read was one stable payload. */
  lemma RecheckOk(st: State, rd: Reader)
    requires |st.slots| == |st.stable| > 0 && ReaderOk(st, rd) && rd.pc == Recheck
    requires SlotOk(st, SlotAt(rd.index, |st.slots|))
    ensures ReaderOk(st, ReaderNext(rd, st.slots[SlotAt(rd.index, |st.slots|)], st.frame))
  {
    var i := SlotAt(rd.index, |st.slots|);
    hide SlotAt;
    if st.slots[i].gen != rd.s1 {
      RetryOk(st, rd);
      hide ReaderOk, SlotOk, Retry;
    } else {
      EvenIsStable(st, i);
      hide SlotOk, Retry;
    }
  }

  lemma ReadStepOk(st: State, rd: Reader)
    requires |st.slots| == |st.stable| > 0 && ReaderOk(st, rd) && (rd.pc == ReadGen || MidAttempt(rd.pc))
    requires SlotOk(st, SlotAt(rd.index, |st.slots|))
    ensures ReaderOk(st, ReaderNext(rd, st.slots[SlotAt(rd.index, |st.slots|)], st.frame))
  {
    hide ReaderOk, SlotOk, ReaderNext, SlotAt;
    match rd.pc
    case Copy(_) => CopyStepOk(st, rd);
    case Recheck => RecheckOk(st, rd);
    case ReadGen => GenStepOk(st, rd);
    case _ => LoadStepOk(st, rd);
  }

  lemma SilenceStepOk(st: State, rd: Reader, slot: Slot)
    requires |st.slots| == |st.stable| > 0 && ReaderOk(st, rd) && !(rd.pc == ReadGen || MidAttempt(rd.pc))
    ensures ReaderOk(st, ReaderNext(rd, slot, st.frame))
  {
  }

  lemma ReaderKeeps(st: State, st': State, r: nat)
    requires Inv(st) && ReaderStep(st, st', r)
    ensures Inv(st')
  {
    hide SlotOk, ReaderOk, ReaderNext, SlotAt, MidAttempt;
    var rd := st.readers[r];
    var i := SlotAt(rd.index, |st.slots|);
    assert SlotOk(st, i) && ReaderOk(st, rd);
    var rd' := ReaderNext(rd, st.slots[i], st.frame);
    assert ReaderOk(st, rd') by {
      if rd.pc == ReadGen || MidAttempt(rd.pc) {
        ReadStepOk(st, rd);
      } else {
        SilenceStepOk(st, rd, st.slots[i]);
      }
    }
    SharedUntouched(st, st', rd');
    SlotsUntouched(st, st');
    forall q | q in st'.readers ensures ReaderOk(st', st'.readers[q]) {
      if q != r {
        SharedUntouched(st, st', st.readers[q]);
      }
    }
  }

  lemma SlotsUntouched(st: State, st': State)
    requires |st.slots| == |st.stable| && forall i: nat | i < |st.slots| :: SlotOk(st, i)
    requires st'.slots == st.slots && st'.stable == st.stable && st'.published == st.published && st'.frame == st.frame
    requires st'.producer == st.producer
    ensures forall i: nat | i < |st'.slots| :: SlotOk(st', i)
  {
    forall i: nat | i < |st'.slots| ensures SlotOk(st', i) {
      assert SlotOk(st, i);
    }
  }

  lemma SharedUntouched(st: State, st': State, rd: Reader)
    requires |st.slots| == |st.stable| && ReaderOk(st, rd)
    requires st'.slots == st.slots && st'.stable == st.stable && st'.published == st.published && st'.frame == st.frame
    ensures ReaderOk(st', rd)
  {
  }

  lemma StartKeeps(st: State, st': State, r: nat, rd: Reader)
    requires Inv(st) && StartDrain(st, st', r, rd)
    ensures Inv(st')
  {
    SlotAtIsResidue(rd.index, |st.slots|);
    SlotsUntouched(st, st');
    hide SlotOk;
    forall q | q in st'.readers ensures ReaderOk(st', st'.readers[q]) {
      if q != r {
        SharedUntouched(st, st', st.readers[q]);
      }
    }
  }

  lemma PublishKeeps(st: State, st': State, i: nat, goal: Payload)
    requires Inv(st) && BeginPublish(st, st', i, goal)
    ensures Inv(st')
  {
    assert SlotOk(st, i);
    assert Mixed(st.slots[i].data, goal, 0) == st.slots[i].data;
    BeginKeeps(st, st', i);
  }

  lemma RetireKeeps(st: State, st': State, i: nat)
    requires Inv(st) && BeginRetire(st, st', i)
    ensures Inv(st')
  {
    assert Mixed(st.slots[i].data, st.slots[i].data.(index := EMPTY), st.frame + 2) == st.slots[i].data;
    BeginKeeps(st, st', i);
  }

  /** Every interleaved step keeps the invariant. */
  lemma NextKeeps(st: State, st': State)
    requires Inv(st) && Next(st, st')
    ensures Inv(st')
  {
    hide Inv, BeginPublish, BeginRetire, StoreStep, FinishStep, StartDrain, ReaderStep;
    if i: nat, goal :| BeginPublish(st, st', i, goal) {
      PublishKeeps(st, st', i, goal);
    } else if i: nat :| BeginRetire(st, st', i) {
      RetireKeeps(st, st', i);
    } else if StoreStep(st, st') {
      StoreKeeps(st, st');
    } else if FinishStep(st, st') {
      FinishKeeps(st, st');
    } else if r: nat, rd :| StartDrain(st, st', r, rd) {
      StartKeeps(st, st', r, rd);
    } else {
      var r: nat :| ReaderStep(st, st', r);
      ReaderKeeps(st, st', r);
    }
  }

  // ---- Over whole runs --------------------------------------------------------------------

  ghost predicate IsRun(run: seq<State>)
  {
    && run != [] && Init(run[0])
    && forall i, j | 0 <= i && j == i + 1 < |run| :: Next(run[i], run[j])
  }

  lemma {:induction false} RunInv(run: seq<State>, i: nat)
    requires IsRun(run) && i < |run|
    ensures Inv(run[i])
  {
    if i == 0 {
      InitInv(run[0]);
    } else {
      RunInv(run, i - 1);
      assert Next(run[i - 1], run[i]);
      NextKeeps(run[i - 1], run[i]);
    }
  }

  /** A drain that returned true has delivered one completed publish of the block asked
      for, all samples and both metadata, exactly when it was not asked for the reserved
      index; one that returned false delivers silence at the asked rate, after it read another
      block or after four attempts met the producer. Neither took more than four attempts, and
      the counter is the number of drains that returned false. */
  lemma DrainIsAllOrSilence(run: seq<State>, i: nat, r: nat)
    requires IsRun(run) && i < |run| && r in run[i].readers
    ensures var st := run[i]; var rd := st.readers[r];
            && rd.attempt <= 4 && st.underruns == st.misses
            && (rd.pc == Returned(true) ==> (Delivered(rd, st.published, st.frame) <==> rd.index != EMPTY))
            && (rd.pc == Returned(false) ==>
                  && rd.rate == rd.askedRate && rd.exact && (rd.attempt == 4 || rd.have != rd.index)
                  && (rd.hasBuffer ==> forall k | 0 <= k < |rd.out| :: rd.out[k] == SILENCE))
  {
    RunInv(run, i);
    assert ReaderOk(run[i], run[i].readers[r]);
  }

  /** The counter moves exactly when a drain returns false, by one. */
  lemma UnderrunsCountMisses(st: State, st': State)
    requires Next(st, st')
    ensures st'.underruns == st.underruns || st'.underruns == st.underruns + 1
    ensures st'.underruns == st.underruns + 1 <==>
              exists r :: r in st.readers && r in st'.readers && !st.readers[r].pc.Returned? && st'.readers[r].pc == Returned(false)
  {
    hide ReaderStep, SlotAt, ReaderNext, Store;
    if r: nat :| ReaderStep(st, st', r) {
      ReaderStepCounts(st, st', r);
      if q :| q in st.readers && q in st'.readers && !st.readers[q].pc.Returned? && st'.readers[q].pc == Returned(false) {
        assert q == r;
      }
    } else {
      NoStepNoCount(st, st');
    }
  }

  lemma ReaderStepCounts(st: State, st': State, r: nat)
    requires ReaderStep(st, st', r)
    ensures r in st.readers && r in st'.readers && forall q | q in st'.readers && q != r :: q in st.readers && st'.readers[q] == st.readers[q]
    ensures !st.readers[r].pc.Returned?
    ensures st'.underruns == st.underruns + if st'.readers[r].pc == Returned(false) then 1 else 0
  {
    hide SlotAt;
  }

  lemma NoStepNoCount(st: State, st': State)
    requires Next(st, st') && !exists r: nat :: ReaderStep(st, st', r)
    ensures st'.underruns == st.underruns
    ensures forall q | q in st.readers && q in st'.readers && !st.readers[q].pc.Returned? :: st'.readers[q] == st.readers[q]
  {
    hide ReaderStep, Store, SlotAt;
  }

  // ---- Bounded work --------------------------------------------------------------------------

  function StepsLeft(pc: Pc, frame: nat, out: nat): int
  {
    match pc
    case ReadGen => frame + 5
    case ReadIndex => frame + 4
    case ReadRate => frame + 3
    case ReadExact => frame + 2
    case Copy(at) => frame - at + 1
    case Recheck => 1
    case Silence(at) => out - at + 1
    case Count => 1
    case Returned(_) => 0
  }

  /** The steps `n` more attempts can take. */
  function Rounds(n: int, frame: nat): nat
  {
    if n <= 0 then 0 else frame + 6 + Rounds(n - 1, frame)
  }

  /** An upper bound on the steps a drain has left. */
  function Work(rd: Reader, frame: nat): int
  {
    if rd.pc == ReadGen || MidAttempt(rd.pc)
    then Rounds(ATTEMPTS - rd.attempt, frame) + StepsLeft(rd.pc, frame, |rd.out|) + |rd.out| + 2
    else StepsLeft(rd.pc, frame, |rd.out|)
  }

  /** Every step of a drain uses some of it up, whatever the producer does. */
  lemma ReaderProgresses(st: State, rd: Reader, slot: Slot)
    requires |st.slots| == |st.stable| > 0 && ReaderOk(st, rd) && !rd.pc.Returned?
    ensures 0 <= Work(ReaderNext(rd, slot, st.frame), st.frame) < Work(rd, st.frame)
  {
    InBoundsMidDrain(st, rd);
    WorkDrops(rd, slot, st.frame);
  }

  predicate InBounds(rd: Reader, frame: nat)
  {
    && (rd.pc == ReadGen || MidAttempt(rd.pc) ==> rd.attempt < ATTEMPTS)
    && (rd.pc.Copy? ==> rd.pc.at < frame) && (rd.pc.Silence? ==> rd.pc.at < |rd.out|)
  }

  lemma InBoundsMidDrain(st: State, rd: Reader)
    requires |st.slots| == |st.stable| > 0 && ReaderOk(st, rd)
    ensures InBounds(rd, st.frame)
  {
    hide ReadsFrom, Delivered, Silent, SlotAt;
  }

  lemma WorkDrops(rd: Reader, slot: Slot, frame: nat)
    requires InBounds(rd, frame) && !rd.pc.Returned?
    ensures 0 <= Work(ReaderNext(rd, slot, frame), frame) < Work(rd, frame)
  {
    if (rd.pc == ReadGen && slot.gen % 2 == 1) || (rd.pc == Recheck && slot.gen != rd.s1) {
      RetryDrops(rd, frame);
    } else if rd.pc == ReadGen || MidAttempt(rd.pc) {
      hide Copies;
      assert Rounds(ATTEMPTS - rd.attempt, frame) >= 0;
      hide Rounds;
    } else {
      hide Rounds, Copies, Retry;
    }
  }

  lemma RetryDrops(rd: Reader, frame: nat)
    requires InBounds(rd, frame) && (rd.pc == ReadGen || MidAttempt(rd.pc))
    ensures 0 <= Work(Retry(rd), frame) < Work(rd, frame)
  {
    assert Rounds(ATTEMPTS - rd.attempt, frame) == frame + 6 + Rounds(ATTEMPTS - rd.attempt - 1, frame);
    hide Rounds;
  }

  // ---- Left alone ----------------------------------------------------------------------------

  /** From state `n` on, only reader `r` steps. */
  ghost predicate OnlyReads(run: seq<State>, n: nat, r: nat)
  {
    n < |run| && forall i, j | n <= i && j == i + 1 < |run| :: ReaderStep(run[i], run[j], r)
  }

  /** The reader was handed this payload, all of it. */
  ghost predicate Answers(rd: Reader, p: Payload, frame: nat)
  {
    rd.rate == p.rate && rd.exact == p.exact && (rd.hasBuffer && |rd.out| == frame ==> rd.out == p.samples)
  }

  /** Stable, and holding that block. */
  predicate Ready(slot: Slot, index: int)
  {
    slot.gen % 2 == 0 && slot.data.index == index
  }

  /** Where a drain of a slot that nobody changes can stand. */
  ghost predicate OnTrack(rd: Reader, slot: Slot, frame: nat)
  {
    match rd.pc
    case ReadGen => true
    case Silence(_) => !Ready(slot, rd.index)
    case Count => !Ready(slot, rd.index)
    case Returned(ok) => (ok <==> Ready(slot, rd.index)) && (ok ==> Answers(rd, slot.data, frame))
    case _ => slot.gen % 2 == 0 && rd.s1 == slot.gen && ReadsFrom(rd, slot.data, frame)
  }

  lemma OnTrackNext(rd: Reader, slot: Slot, frame: nat)
    requires OnTrack(rd, slot, frame) && |slot.data.samples| == frame && !rd.pc.Returned?
    ensures var rd' := ReaderNext(rd, slot, frame);
            OnTrack(rd', slot, frame) && rd'.index == rd.index && rd'.hasBuffer == rd.hasBuffer && |rd'.out| == |rd.out|
  {
    if rd.pc.Copy? {
      var at := rd.pc.at;
      assert rd.out[at := slot.data.samples[at]][..at + 1] == slot.data.samples[..at + 1];
      assert slot.data.samples[..frame] == slot.data.samples;
    }
  }

  /** What a drain left alone has reached after any number of its steps. */
  ghost predicate AloneFrom(st: State, now: State, r: nat)
    requires r in st.readers && |st.slots| > 0 && 0 <= SlotAt(st.readers[r].index, |st.slots|) < |st.slots|
  {
    && r in now.readers
    && now == st.(readers := st.readers[r := now.readers[r]], underruns := now.underruns, misses := now.misses)
    && OnTrack(now.readers[r], st.slots[SlotAt(st.readers[r].index, |st.slots|)], st.frame)
    && now.readers[r].index == st.readers[r].index && now.readers[r].hasBuffer == st.readers[r].hasBuffer
    && |now.readers[r].out| == |st.readers[r].out|
    && now.underruns == st.underruns + if now.readers[r].pc == Returned(false) then 1 else 0
  }

  lemma AloneNext(st: State, now: State, next: State, r: nat)
    requires r in st.readers && |st.slots| > 0 && 0 <= SlotAt(st.readers[r].index, |st.slots|) < |st.slots|
    requires |st.slots[SlotAt(st.readers[r].index, |st.slots|)].data.samples| == st.frame
    requires AloneFrom(st, now, r) && ReaderStep(now, next, r)
    ensures AloneFrom(st, next, r)
  {
    hide OnTrack, ReaderNext;
    OnTrackNext(now.readers[r], st.slots[SlotAt(st.readers[r].index, |st.slots|)], st.frame);
    ReaderStepCounts(now, next, r);
  }

  lemma {:induction false} AloneSoFar(run: seq<State>, n: nat, r: nat, m: nat)
    requires IsRun(run) && OnlyReads(run, n, r) && n <= m < |run|
    requires r in run[n].readers && run[n].readers[r].pc == ReadGen
    ensures var st := run[n];
            |st.slots| > 0 && 0 <= SlotAt(st.readers[r].index, |st.slots|) < |st.slots| && AloneFrom(st, run[m], r)
    decreases m
  {
    hide SlotAt, ReaderStep, Init;
    var st := run[n];
    RunInv(run, n);
    SlotAtIsResidue(st.readers[r].index, |st.slots|);
    assert SlotOk(st, SlotAt(st.readers[r].index, |st.slots|));
    if m > n {
      AloneSoFar(run, n, r, m - 1);
      assert ReaderStep(run[m - 1], run[m], r);
      AloneNext(st, run[m - 1], run[m], r);
    }
  }

  /** In any run, a drain that is left alone from its first load on returns true exactly when
      the slot is stable and holds the block asked for. It is then handed that very publish
      and misses nothing; otherwise it is one underrun. */
  lemma DrainAloneAnswers(run: seq<State>, n: nat, r: nat)
    requires IsRun(run) && OnlyReads(run, n, r)
    requires r in run[n].readers && run[n].readers[r].pc == ReadGen
    requires r in run[|run| - 1].readers && run[|run| - 1].readers[r].pc.Returned?
    ensures var st, end := run[n], run[|run| - 1]; var index := st.readers[r].index;
            && |st.slots| > 0 && 0 <= SlotAt(index, |st.slots|) < |st.slots|
            && var slot := st.slots[SlotAt(index, |st.slots|)];
               && (end.readers[r].pc == Returned(true) <==> slot.gen % 2 == 0 && slot.data.index == index)
               && (end.readers[r].pc == Returned(true) ==>
                     && (index != EMPTY ==> slot.data in st.published) && Answers(end.readers[r], slot.data, st.frame)
                     && end.underruns == st.underruns)
               && (end.readers[r].pc == Returned(false) ==> end.underruns == st.underruns + 1)
               && end == st.(readers := st.readers[r := end.readers[r]], underruns := end.underruns, misses := end.misses)
  {
    hide SlotAt, Init, ReaderStep, Answers;
    AloneSoFar(run, n, r, |run| - 1);
    RunInv(run, n);
    var st := run[n];
    var i := SlotAt(st.readers[r].index, |st.slots|);
    assert SlotOk(st, i);
    if st.slots[i].gen % 2 == 0 {
      EvenIsStable(st, i);
    }
  }

  lemma RunExtends(run: seq<State>, st': State)
    requires IsRun(run) && Next(run[|run| - 1], st')
    ensures IsRun(run + [st']) && run <= run + [st'] && (run + [st'])[|run|] == st'
  {
    hide Init, Next;
  }

  /** And it does return. */
  lemma {:induction false} DrainAloneReturns(run: seq<State>, r: nat) returns (run': seq<State>)
    requires IsRun(run) && r in run[|run| - 1].readers
    ensures IsRun(run') && run <= run' && OnlyReads(run', |run| - 1, r)
    ensures r in run'[|run'| - 1].readers && run'[|run'| - 1].readers[r].pc.Returned?
    decreases Work(run[|run| - 1].readers[r], run[|run| - 1].frame)
  {
    hide Init, SlotAt, ReaderNext, Work, Next, SlotOk, ReaderOk;
    var st := run[|run| - 1];
    var rd := st.readers[r];
    run' := run;
    if !rd.pc.Returned? {
      RunInv(run, |run| - 1);
      SlotAtIsResidue(rd.index, |st.slots|);
      var slot, missed := st.slots[SlotAt(rd.index, |st.slots|)], if rd.pc == Count then 1 else 0;
      var st' := st.(readers := st.readers[r := ReaderNext(rd, slot, st.frame)],
                     underruns := st.underruns + missed, misses := st.misses + missed);
      assert ReaderStep(st, st', r);
      StepIsNext(st, st', r);
      RunExtends(run, st');
      ReaderProgresses(st, rd, slot);
      run' := DrainAloneReturns(run + [st'], r);
      FromEarlier(run, st', run', r);
    }
  }

  lemma StepIsNext(st: State, st': State, r: nat)
    requires ReaderStep(st, st', r)
    ensures Next(st, st')
  {
    hide ReaderStep;
  }

  lemma FromEarlier(run: seq<State>, st': State, run': seq<State>, r: nat)
    requires run != [] && ReaderStep(run[|run| - 1], st', r) && run + [st'] <= run' && OnlyReads(run', |run|, r)
    ensures run <= run' && OnlyReads(run', |run| - 1, r)
  {
    hide ReaderStep;
    assert run'[|run|] == (run + [st'])[|run|] && run'[|run| - 1] == (run + [st'])[|run| - 1];
  }

  /** A publish or retire left alone ends, and leaves its whole goal in its slot. */
  lemma {:induction false} WriteAloneEnds(run: seq<State>) returns (run': seq<State>)
    requires IsRun(run) && run[|run| - 1].producer.Writing?
    ensures IsRun(run') && run <= run'
    ensures var st, end, p := run[|run| - 1], run'[|run'| - 1], run[|run| - 1].producer;
            && p.slot < |st.slots| == |st.stable|
            && end == st.(producer := Idle, slots := st.slots[p.slot := Slot(p.base + 2, p.goal)],
                          stable := st.stable[p.slot := st.stable[p.slot] + [p.goal]],
                          published := if p.goal.index != EMPTY then st.published + [p.goal] else st.published)
    decreases run[|run| - 1].frame + 3 - run[|run| - 1].producer.at
  {
    hide Init, Store, Next;
    var st := run[|run| - 1];
    var p := st.producer;
    RunInv(run, |run| - 1);
    assert SlotOk(st, p.slot);
    if p.at < st.frame + 3 {
      var st' := st.(producer := p.(at := p.at + 1),
                     slots := st.slots[p.slot := st.slots[p.slot].(data := Store(st.slots[p.slot].data, p.goal, p.at))]);
      WriteIsNext(st, st');
      RunExtends(run, st');
      run' := WriteAloneEnds(run + [st']);
    } else {
      assert st.slots[p.slot].data == p.goal;
      var st' := st.(producer := Idle, slots := st.slots[p.slot := st.slots[p.slot].(gen := p.base + 2)],
                     stable := st.stable[p.slot := st.stable[p.slot] + [p.goal]],
                     published := if p.goal.index != EMPTY then st.published + [p.goal] else st.published);
      WriteIsNext(st, st');
      RunExtends(run, st');
      run' := run + [st'];
    }
  }

  lemma WriteIsNext(st: State, st': State)
    requires StoreStep(st, st') || FinishStep(st, st')
    ensures Next(st, st')
  {
    hide StoreStep, FinishStep;
  }

  lemma BeginIsNext(st: State, st': State, i: nat, goal: Payload)
    requires BeginPublish(st, st', i, goal) || BeginRetire(st, st', i)
    ensures Next(st, st')
  {
    hide BeginPublish, BeginRetire;
  }

  lemma StartIsNext(st: State, st': State, r: nat, rd: Reader)
    requires StartDrain(st, st', r, rd)
    ensures Next(st, st')
  {
    hide StartDrain;
  }

  /** A drain of a slot as it stands, up to its answer. */
  lemma DrainNow(run: seq<State>, r: nat, asked: Reader) returns (run': seq<State>)
    requires IsRun(run) && asked.attempt == 0 && asked.pc == ReadGen
    requires r in run[|run| - 1].readers ==> run[|run| - 1].readers[r].pc.Returned?
    ensures IsRun(run') && run <= run' && r in run'[|run'| - 1].readers
    ensures var st, end := run[|run| - 1], run'[|run'| - 1]; var rd := end.readers[r];
            && |st.slots| > 0 && 0 <= SlotAt(asked.index, |st.slots|) < |st.slots|
            && var slot := st.slots[SlotAt(asked.index, |st.slots|)];
               && rd.pc == Returned(Ready(slot, asked.index)) && (Ready(slot, asked.index) ==> Answers(rd, slot.data, st.frame))
               && end.underruns == st.underruns + (if Ready(slot, asked.index) then 0 else 1)
               && end.published == st.published && end.frame == st.frame
  {
    hide Init, SlotAt, Next, Answers;
    var st := run[|run| - 1];
    var st' := st.(readers := st.readers[r := asked]);
    assert StartDrain(st, st', r, asked);
    StartIsNext(st, st', r, asked);
    RunExtends(run, st');
    run' := DrainAloneReturns(run + [st'], r);
    assert run'[|run|] == st';
    DrainAloneAnswers(run', |run|, r);
  }

  /** A publish, up to its end. */
  lemma PublishNow(run: seq<State>, goal: Payload) returns (run': seq<State>)
    requires IsRun(run) && run[|run| - 1].producer == Idle && |goal.samples| == run[|run| - 1].frame && goal.index != EMPTY
    ensures IsRun(run') && run <= run'
    ensures var st, end := run[|run| - 1], run'[|run'| - 1];
            && |st.slots| > 0 && 0 <= SlotAt(goal.index, |st.slots|) < |st.slots| == |st.stable|
            && var i := SlotAt(goal.index, |st.slots|);
               && st.slots[i].gen % 2 == 0
               && end == st.(slots := st.slots[i := Slot(st.slots[i].gen + 2, goal)],
                             stable := st.stable[i := st.stable[i] + [goal]], published := st.published + [goal])
  {
    hide Init, SlotAt, Next;
    var st := run[|run| - 1];
    RunInv(run, |run| - 1);
    SlotAtIsResidue(goal.index, |st.slots|);
    var i := SlotAt(goal.index, |st.slots|);
    var st' := st.(producer := Writing(i, st.slots[i].gen, goal, 0), slots := st.slots[i := st.slots[i].(gen := st.slots[i].gen + 1)]);
    assert SlotOk(st, i) && BeginPublish(st, st', i, goal);
    BeginIsNext(st, st', i, goal);
    RunExtends(run, st');
    run' := WriteAloneEnds(run + [st']);
  }

  /** From any state of any run with the producer idle: publish a block, then drain it. The
      drain returns true with the publish's samples, rate and exactness, and no underrun. */
  lemma PublishThenDrain(run: seq<State>, goal: Payload, r: nat, asked: Reader) returns (run': seq<State>)
    requires IsRun(run) && run[|run| - 1].producer == Idle && |goal.samples| == run[|run| - 1].frame && goal.index != EMPTY
    requires asked.index == goal.index && asked.attempt == 0 && asked.pc == ReadGen
    requires r in run[|run| - 1].readers ==> run[|run| - 1].readers[r].pc.Returned?
    ensures IsRun(run') && run <= run' && r in run'[|run'| - 1].readers
    ensures var end := run'[|run'| - 1];
            && end.readers[r].pc == Returned(true) && Answers(end.readers[r], goal, end.frame)
            && end.underruns == run[|run| - 1].underruns && end.published == run[|run| - 1].published + [goal]
  {
    hide IsRun, SlotAt, Answers;
    var written := PublishNow(run, goal);
    run' := DrainNow(written, r, asked);
  }

  /** ... and retire its slot, then drain it: the drain returns false, one underrun more. */
  lemma RetireThenDrain(run: seq<State>, r: nat, asked: Reader) returns (run': seq<State>)
    requires IsRun(run) && run[|run| - 1].producer == Idle
    requires asked.index != EMPTY && asked.attempt == 0 && asked.pc == ReadGen
    requires r in run[|run| - 1].readers ==> run[|run| - 1].readers[r].pc.Returned?
    ensures IsRun(run') && run <= run' && r in run'[|run'| - 1].readers
    ensures var end := run'[|run'| - 1];
            end.readers[r].pc == Returned(false) && end.underruns == run[|run| - 1].underruns + 1
  {
    hide Init, SlotAt, Next, Answers;
    var st := run[|run| - 1];
    RunInv(run, |run| - 1);
    SlotAtIsResidue(asked.index, |st.slots|);
    var i := SlotAt(asked.index, |st.slots|);
    var st' := st.(producer := Writing(i, st.slots[i].gen, st.slots[i].data.(index := EMPTY), st.frame + 2),
                   slots := st.slots[i := st.slots[i].(gen := st.slots[i].gen + 1)]);
    assert SlotOk(st, i) && BeginRetire(st, st', i);
    BeginIsNext(st, st', i, st.slots[i].data);
    RunExtends(run, st');
    var written := WriteAloneEnds(run + [st']);
    run' := DrainNow(written, r, asked);
  }

  // ---- The reserved index ------------------------------------------------------------------------

  /** Reader `r`, asking for the reserved index, has found its slot empty so far. */
  ghost predicate FindsEmpty(st: State, r: nat)
  {
    && r in st.readers && |st.slots| > 0
    && 0 <= SlotAt(EMPTY, |st.slots|) < |st.slots| && st.slots[SlotAt(EMPTY, |st.slots|)] == Slot(0, Blank(st.frame))
    && var rd := st.readers[r];
       && rd.index == EMPTY
       && (rd.pc == ReadGen || rd.pc == Returned(true) || (MidAttempt(rd.pc) && rd.s1 == 0 && (rd.pc == ReadIndex || rd.have == EMPTY)))
       && (rd.pc.Copy? ==> rd.pc.at < st.frame)
  }

  lemma FindsEmptyNext(st: State, st': State, r: nat)
    requires FindsEmpty(st, r) && st.readers[r].pc != Returned(true)
    requires st' == st.(readers := st.readers[r := ReaderNext(st.readers[r], Slot(0, Blank(st.frame)), st.frame)])
    ensures FindsEmpty(st', r)
    ensures 0 <= StepsLeft(st'.readers[r].pc, st.frame, 0) < StepsLeft(st.readers[r].pc, st.frame, 0)
  {
    hide SlotAt;
  }

  /** Left alone it returns true. */
  lemma {:induction false} EmptySlotAnswersTrue(run: seq<State>, r: nat) returns (run': seq<State>)
    requires IsRun(run) && FindsEmpty(run[|run| - 1], r)
    ensures IsRun(run') && run' != [] && run <= run' && FindsEmpty(run'[|run'| - 1], r)
    ensures run'[|run'| - 1].readers[r].pc == Returned(true)
    decreases StepsLeft(run[|run| - 1].readers[r].pc, run[|run| - 1].frame, 0)
  {
    hide Init, SlotAt, StepsLeft;
    var st := run[|run| - 1];
    if st.readers[r].pc == Returned(true) {
      run' := run;
    } else {
      var st' := st.(readers := st.readers[r := ReaderNext(st.readers[r], Slot(0, Blank(st.frame)), st.frame)]);
      FindsEmptyNext(st, st', r);
      RunGoesOn(run, st', r);
      run' := EmptySlotAnswersTrue(run + [st'], r);
    }
  }

  lemma RunGoesOn(run: seq<State>, st': State, r: nat)
    requires IsRun(run) && FindsEmpty(run[|run| - 1], r) && run[|run| - 1].readers[r].pc != Returned(true)
    requires var st := run[|run| - 1];
             st' == st.(readers := st.readers[r := ReaderNext(st.readers[r], Slot(0, Blank(st.frame)), st.frame)])
    ensures IsRun(run + [st'])
  {
    hide Init, SlotAt, ReaderNext, Blank;
    assert ReaderStep(run[|run| - 1], st', r);
  }

  /** So whatever the ring's capacity, the block length and the caller's buffer, a drain of
      the reserved index from a fresh ring can return true, and has then delivered nothing
      that was ever published: callers must ask for real blocks. */
  lemma DrainingTheSentinelLies(st: State, r: nat, asked: Reader) returns (run: seq<State>)
    requires Init(st) && asked.index == EMPTY && asked.attempt == 0 && asked.pc == ReadGen
    ensures IsRun(run) && run[0] == st && r in run[|run| - 1].readers
    ensures var last := run[|run| - 1]; var rd := last.readers[r];
            rd.index == EMPTY && rd.pc == Returned(true) && !Delivered(rd, last.published, last.frame)
  {
    SlotAtIsResidue(EMPTY, |st.slots|);
    var st' := st.(readers := st.readers[r := asked]);
    assert StartDrain(st, st', r, asked);
    run := EmptySlotAnswersTrue([st, st'], r);
    DrainIsAllOrSilence(run, |run| - 1, r);
  }
}
