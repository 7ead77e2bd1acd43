/** Polyphase rate conversion: the whole-stream function, and a streaming front end
    that keeps a bounded window of the input and produces the same frames. Samples
    and coefficients are opaque; what is proved is which taps meet which samples,
    in which order. */
module Resampler {
  import opened Numbers

  type Sample = int
  type Frame = seq<Sample>

  const PHASES: nat := 32
  const BASE_TAPS: nat := 16
  const SILENCE: Sample := 0

  /** One multiply-accumulate, and the coefficients of the two banks: the frozen one
      for upsampling, the generated one for a given decimation ratio. */
  datatype Arithmetic = Arithmetic(
    mac: (Sample, Sample, Sample) -> Sample,
    frozen: (nat, nat) -> Sample,
    generated: (nat, nat, nat, nat) -> Sample)

  /** The configured conversion. */
  datatype Ratio = Ratio(src: nat, dst: nat, channels: nat, arith: Arithmetic)

  // ---- Positions ---------------------------------------------------------------------

  datatype FramePos = FramePos(center: int, phase: nat)

  /** The native position of output frame `n`, rounded once to a phase. */
  function PosOf(n: nat, src: nat, dst: nat): FramePos
    requires dst > 0
  {
    var pos := n * src;
    var center, rem := pos / dst, pos % dst;
    DivMod(rem * PHASES + dst / 2, dst);
    var phase: nat := (rem * PHASES + dst / 2) / dst;
    if phase >= PHASES then FramePos(center + 1, phase - PHASES) else FramePos(center, phase)
  }

  lemma DivShift(a: nat, b: nat, d: nat)
    requires d > 0
    ensures (a * d + b) / d == a + b / d
  {
    var q, r := b / d, b % d;
    assert b == q * d + r;
    assert a * d + b == (a + q) * d + r by {
      assert (a + q) * d == a * d + q * d;
    }
    DivUnique(a * d + b, d, a + q, r);
  }

  /** No drift: centre and phase together are one rounding, to the nearest
      thirty-second (halves up), of the exact position `n * src / dst`. */
  lemma PositionIsOneRounding(n: nat, src: nat, dst: nat)
    requires dst > 0
    ensures var fp := PosOf(n, src, dst);
            fp.center >= 0 && fp.phase < PHASES
            && fp.center * PHASES + fp.phase == (n * src * PHASES + dst / 2) / dst
  {
    var pos := n * src;
    var center, rem := pos / dst, pos % dst;
    DivMod(pos, dst);
    assert pos == center * dst + rem;
    assert pos * PHASES + dst / 2 == center * PHASES * dst + (rem * PHASES + dst / 2) by {
      Regroup(center, dst, rem);
    }
    DivShift(center * PHASES, rem * PHASES + dst / 2, dst);
    PhaseBound(rem, dst);
  }

  lemma Regroup(center: nat, dst: nat, rem: nat)
    ensures (center * dst + rem) * PHASES == center * PHASES * dst + rem * PHASES
  {
  }

  lemma PhaseBound(rem: nat, dst: nat)
    requires rem < dst
    ensures (rem * PHASES + dst / 2) / dst <= PHASES
  {
    var b := rem * PHASES + dst / 2;
    assert b < PHASES * dst + dst;
    var q := b / dst;
    assert b == q * dst + b % dst;
    assert (q - PHASES) * dst == q * dst - PHASES * dst;
    SignedProduct(q - PHASES, dst);
  }

  /** Later outputs look no further back. */
  lemma CenterMonotone(m: nat, n: nat, src: nat, dst: nat)
    requires dst > 0 && m <= n
    ensures PosOf(m, src, dst).center <= PosOf(n, src, dst).center
  {
    PositionIsOneRounding(m, src, dst);
    PositionIsOneRounding(n, src, dst);
    MulMonotone(m, n, src);
    DivMonotone(m * src * PHASES + dst / 2, n * src * PHASES + dst / 2, dst);
  }

  /** `center - half` and `center + half + 1`: the filter support. */
  function Oldest(fp: FramePos, taps: nat): int
  {
    fp.center - (taps / 2 - 1)
  }

  function Newest(fp: FramePos, taps: nat): int
  {
    fp.center + (taps - 1) - (taps / 2 - 1)
  }

  // ---- The filter ----------------------------------------------------------------------

  /** Twice the eight lobes widened by the decimation ratio, rounded up. */
  function Taps(src: nat, dst: nat): (taps: nat)
    requires dst > 0
  {
    if src > dst then
      DivMod(BASE_TAPS / 2 * src + dst - 1, dst);
      2 * ((BASE_TAPS / 2 * src + dst - 1) / dst)
    else BASE_TAPS
  }

  /** The half width is the least that spans eight lobes of the slower rate; without decimation
      it is eight. */
  lemma TapsAreLeast(src: nat, dst: nat)
    requires dst > 0
    ensures var half := Taps(src, dst) / 2;
            && Taps(src, dst) == 2 * half
            && (src <= dst ==> half == 8)
            && (src > dst ==> half * dst >= 8 * src && (half - 1) * dst < 8 * src)
  {
    if src > dst {
      var n := 8 * src + dst - 1;
      DivMod(n, dst);
      var half := n / dst;
      assert Taps(src, dst) == 2 * half;
      assert (half - 1) * dst == half * dst - dst;
    }
  }

  function Coefficient(r: Ratio, phase: nat, k: nat): Sample
  {
    if r.src > r.dst then r.arith.generated(r.src, r.dst, phase, k) else r.arith.frozen(phase, k)
  }

  predicate FramesOk(s: seq<Frame>, channels: nat)
  {
    forall i | 0 <= i < |s| :: |s[i]| == channels
  }

  /** Taps outside the stream read as silence. */
  function SampleAt(s: seq<Frame>, idx: int, c: nat): Sample
  {
    if 0 <= idx < |s| && c < |s[idx]| then s[idx][c] else SILENCE
  }

  /** The ordered reduction of the first `k` taps of output frame `n`. */
  ghost function MacSum(r: Ratio, s: seq<Frame>, n: nat, c: nat, k: nat): Sample
    requires r.dst > 0
  {
    if k == 0 then SILENCE
    else
      var fp := PosOf(n, r.src, r.dst);
      r.arith.mac(MacSum(r, s, n, c, k - 1), Coefficient(r, fp.phase, k - 1),
                  SampleAt(s, Oldest(fp, Taps(r.src, r.dst)) + (k - 1), c))
  }

  /** Output frame `n` of the whole-stream conversion of `s`. */
  ghost function OutFrame(r: Ratio, s: seq<Frame>, n: nat): Frame
    requires r.dst > 0
  {
    seq(r.channels, c requires 0 <= c < r.channels => MacSum(r, s, n, c, Taps(r.src, r.dst)))
  }

  /** The reduction spelled out for one channel: `half` samples on either side of the centre,
      oldest first, zero outside the stream, against the coefficients of one phase, of the
      bank generated for the ratio when it decimates and of the frozen one otherwise. */
  ghost function Reduced(r: Ratio, s: seq<Frame>, center: int, phase: nat, half: nat, c: nat, k: nat): Sample
    requires forall i | 0 <= i < |s| :: |s[i]| == r.channels
    requires c < r.channels
  {
    if k == 0 then 0
    else
      var at := center + k - half;
      r.arith.mac(Reduced(r, s, center, phase, half, c, k - 1),
                  if r.dst < r.src then r.arith.generated(r.src, r.dst, phase, k - 1) else r.arith.frozen(phase, k - 1),
                  if at < 0 || at >= |s| then 0 else s[at][c])
  }

  /** What a frame is, in terms of the exact position alone: centre and phase are its one
      rounding to thirty-seconds, and `half` the least that spans eight lobes. */
  lemma OutFrameIs(r: Ratio, s: seq<Frame>, n: nat, center: int, phase: nat, half: nat)
    requires r.dst > 0 && FramesOk(s, r.channels)
    requires phase < 32 && center * 32 + phase == (n * r.src * 32 + r.dst / 2) / r.dst
    requires half >= 8 && half * r.dst >= 8 * r.src && (half == 8 || (half - 1) * r.dst < 8 * r.src)
    ensures |OutFrame(r, s, n)| == r.channels
    ensures forall c: nat | c < r.channels :: OutFrame(r, s, n)[c] == Reduced(r, s, center, phase, half, c, 2 * half)
  {
    PositionIsOneRounding(n, r.src, r.dst);
    LeastHalf(r.src, r.dst, half);
    assert PosOf(n, r.src, r.dst) == FramePos(center, phase);
    forall c: nat | c < r.channels
      ensures MacSum(r, s, n, c, 2 * half) == Reduced(r, s, center, phase, half, c, 2 * half)
    {
      MacSumIs(r, s, n, center, phase, half, c, 2 * half);
    }
  }

  lemma {:induction false} MacSumIs(r: Ratio, s: seq<Frame>, n: nat, center: int, phase: nat, half: nat, c: nat, k: nat)
    requires r.dst > 0 && FramesOk(s, r.channels) && c < r.channels
    requires PosOf(n, r.src, r.dst) == FramePos(center, phase) && Taps(r.src, r.dst) == 2 * half
    ensures MacSum(r, s, n, c, k) == Reduced(r, s, center, phase, half, c, k)
  {
    hide PosOf, Taps;
    if k > 0 {
      MacSumIs(r, s, n, center, phase, half, c, k - 1);
    }
  }

  lemma LeastHalf(src: nat, dst: nat, half: nat)
    requires dst > 0 && half >= 8 && half * dst >= 8 * src && (half == 8 || (half - 1) * dst < 8 * src)
    ensures Taps(src, dst) == 2 * half
  {
    TapsAreLeast(src, dst);
    hide Taps;
    var h := Taps(src, dst) / 2;
    if src <= dst {
      if half > 8 {
        MulMonotone(8, half - 1, dst);
        assert false;
      }
    } else if half > h {
      MulMonotone(h, half - 1, dst);
      assert false;
    } else if half < h {
      MulMonotone(half, h - 1, dst);
      assert false;
    }
  }

  /** The sample that tap `k` of frame `n` meets has arrived. */
  ghost predicate TapArrived(r: Ratio, pushed: nat, n: nat, k: nat)
    requires r.dst > 0
  {
    PosOf(n, r.src, r.dst).center + k + 1 - Taps(r.src, r.dst) / 2 < pushed
  }

  /** A frame is ready exactly when the sample of each of its taps has arrived. */
  lemma ReadyMeansArrived(r: Ratio, pushed: nat, n: nat)
    requires r.dst > 0
    ensures Ready(r, pushed, n) <==> forall k: nat | k < Taps(r.src, r.dst) :: TapArrived(r, pushed, n, k)
  {
    var taps := Taps(r.src, r.dst);
    TapsAreLeast(r.src, r.dst);
    hide Taps, PosOf;
    assert taps / 2 != 0;
    assert Ready(r, pushed, n) <==> TapArrived(r, pushed, n, taps - 1);
  }

  /** The output frame reaches only samples inside its support, so a longer stream
      with the same support gives the same frame. */
  lemma {:induction false} MacSumLocal(r: Ratio, s: seq<Frame>, t: seq<Frame>, n: nat, c: nat, k: nat)
    requires r.dst > 0 && k <= Taps(r.src, r.dst)
    requires var fp, taps := PosOf(n, r.src, r.dst), Taps(r.src, r.dst);
             forall idx | Oldest(fp, taps) <= idx <= Newest(fp, taps) :: SampleAt(s, idx, c) == SampleAt(t, idx, c)
    ensures MacSum(r, s, n, c, k) == MacSum(r, t, n, c, k)
  {
    if k > 0 {
      MacSumLocal(r, s, t, n, c, k - 1);
      var fp, taps := PosOf(n, r.src, r.dst), Taps(r.src, r.dst);
      var idx := Oldest(fp, taps) + (k - 1);
      assert SampleAt(s, idx, c) == SampleAt(t, idx, c);
    }
  }

  ghost predicate Ready(r: Ratio, pushed: nat, n: nat)
    requires r.dst > 0
  {
    pushed > Newest(PosOf(n, r.src, r.dst), Taps(r.src, r.dst))
  }

  lemma OutFrameStable(r: Ratio, s: seq<Frame>, t: seq<Frame>, n: nat)
    requires r.dst > 0 && s <= t && Ready(r, |s|, n)
    ensures OutFrame(r, s, n) == OutFrame(r, t, n) && Ready(r, |t|, n)
  {
    forall c: nat | c < r.channels
      ensures MacSum(r, s, n, c, Taps(r.src, r.dst)) == MacSum(r, t, n, c, Taps(r.src, r.dst))
    {
      MacSumLocal(r, s, t, n, c, Taps(r.src, r.dst));
    }
  }

  /** `mac_frame`: channel by channel, tap by tap. The window holds the frames of
      `s` from `base` on; whatever it lacks of the support must be silence in `s`. */
  method MacFrame(r: Ratio, window: seq<Frame>, base: int, n: nat, ghost s: seq<Frame>) returns (out: Frame)
    requires r.dst > 0
    requires var fp, taps := PosOf(n, r.src, r.dst), Taps(r.src, r.dst);
             forall idx, c: nat | Oldest(fp, taps) <= idx <= Newest(fp, taps) && c < r.channels ::
               SampleAt(window, idx - base, c) == SampleAt(s, idx, c)
    ensures out == OutFrame(r, s, n)
  {
    var fp, taps := PosOf(n, r.src, r.dst), Taps(r.src, r.dst);
    out := [];
    for c := 0 to r.channels
      invariant |out| == c && forall i | 0 <= i < c :: out[i] == MacSum(r, s, n, i, taps)
    {
      var acc := SILENCE;
      for k := 0 to taps
        invariant acc == MacSum(r, s, n, c, k)
      {
        var idx := Oldest(fp, taps) + k;
        assert SampleAt(window, idx - base, c) == SampleAt(s, idx, c);
        acc := r.arith.mac(acc, Coefficient(r, fp.phase, k), SampleAt(window, idx - base, c));
      }
      out := out + [acc];
    }
  }

  /** `resample_audio`: the whole stream at once, when there is anything to convert. */
  method ResampleAudio(r: Ratio, input: seq<Frame>, output: seq<Frame>) returns (out: seq<Frame>)
    ensures |out| == |output|
    ensures if r.src == 0 || r.dst == 0 || r.src == r.dst then out == output
            else forall n | 0 <= n < |out| :: out[n] == OutFrame(r, input, n)
  {
    if r.src == 0 || r.dst == 0 || r.src == r.dst {
      return output;
    }
    out := output;
    for n := 0 to |output|
      invariant |out| == |output| && forall i | 0 <= i < n :: out[i] == OutFrame(r, input, i)
    {
      var frame := MacFrame(r, input, 0, n, input);
      out := out[n := frame];
    }
  }

  // ---- The sliding window ---------------------------------------------------------------------

  /** The window is the tail of the stream from `base` on, nothing a coming output
      needs is missing from it, and what was produced is the whole-stream output. */
  ghost predicate Streamed(r: Ratio, window: seq<Frame>, base: nat, pushed: seq<Frame>, outIndex: nat, produced: seq<Frame>)
    requires r.dst > 0
  {
    && FramesOk(pushed, r.channels) && base + |window| == |pushed| && window == pushed[base..]
    && (base == 0 || base <= Oldest(PosOf(outIndex, r.src, r.dst), Taps(r.src, r.dst)))
    && |produced| == outIndex
    && forall n | 0 <= n < outIndex :: Ready(r, |pushed|, n) && produced[n] == OutFrame(r, pushed, n)
  }

  lemma StreamedProduce(r: Ratio, window: seq<Frame>, base: nat, pushed: seq<Frame>, outIndex: nat, produced: seq<Frame>)
    requires r.dst > 0 && Streamed(r, window, base, pushed, outIndex, produced) && Ready(r, |pushed|, outIndex)
    ensures Streamed(r, window, base, pushed, outIndex + 1, produced + [OutFrame(r, pushed, outIndex)])
  {
    CenterMonotone(outIndex, outIndex + 1, r.src, r.dst);
  }

  lemma StreamedDrop(r: Ratio, window: seq<Frame>, base: nat, pushed: seq<Frame>, outIndex: nat, produced: seq<Frame>,
                     drop: nat)
    requires r.dst > 0 && Streamed(r, window, base, pushed, outIndex, produced) && drop <= |window|
    requires base + drop <= Oldest(PosOf(outIndex, r.src, r.dst), Taps(r.src, r.dst))
    ensures Streamed(r, window[drop..], base + drop, pushed, outIndex, produced)
  {
  }

  lemma StreamedPush(r: Ratio, window: seq<Frame>, base: nat, pushed: seq<Frame>, outIndex: nat, produced: seq<Frame>,
                     samples: seq<Frame>)
    requires r.dst > 0 && Streamed(r, window, base, pushed, outIndex, produced) && FramesOk(samples, r.channels)
    ensures Streamed(r, window + samples, base, pushed + samples, outIndex, produced)
  {
    StillProduced(r, pushed, pushed + samples, produced);
  }

  method ShiftDown(a: array<Frame>, len: nat, drop: nat)
    requires drop <= len <= a.Length
    modifies a
    ensures a[..len - drop] == old(a[drop..len])
  {
    for i := 0 to len - drop
      invariant forall j | 0 <= j < i :: a[j] == old(a[drop + j])
      invariant forall j | i <= j < a.Length :: a[j] == old(a[j])
    {
      a[i] := a[drop + i];
    }
  }

  method CopyIn(a: array<Frame>, at: nat, samples: seq<Frame>)
    requires at + |samples| <= a.Length
    modifies a
    ensures a[..at + |samples|] == old(a[..at]) + samples
  {
    for i := 0 to |samples|
      invariant a[..at] == old(a[..at]) && forall j | 0 <= j < i :: a[at + j] == samples[j]
    {
      a[at + i] := samples[i];
    }
    assert a[..at + |samples|] == a[..at] + a[at..at + |samples|];
    assert a[at..at + |samples|] == samples;
  }

  // ---- Streaming -----------------------------------------------------------------------------

  class StreamingResampler {
    const ratio: Ratio
    const blockFrames: nat
    const history: array<Frame>
    var histLen: nat
    var histBase: nat
    var outIndex: nat
    /** Every frame ever pushed, and every frame produced, since the last reset. */
    ghost var pushed: seq<Frame>
    ghost var produced: seq<Frame>

    /** With a device rate of zero, which only a source rate of zero may come with, there
        is nothing to convert to. */
    ghost predicate Valid()
      reads this, history
    {
      && histLen <= history.Length
      && if ratio.dst == 0 then
           ratio.src == 0 && pushed == [] && produced == [] && histLen == histBase == outIndex == 0
         else
           && history.Length == blockFrames + 2 * Taps(ratio.src, ratio.dst)
           && Streamed(ratio, history[..histLen], histBase, pushed, outIndex, produced)
    }

    /** `configure`: all storage is allocated here. */
    constructor (ratio: Ratio, blockFrames: nat)
      requires ratio.dst > 0 || ratio.src == 0
      ensures Valid() && fresh(history) && pushed == [] && produced == []
      ensures this.ratio == ratio && this.blockFrames == blockFrames
    {
      this.ratio, this.blockFrames := ratio, blockFrames;
      var taps := if ratio.dst > 0 then Taps(ratio.src, ratio.dst) else BASE_TAPS;
      history := new Frame[blockFrames + 2 * taps](_ => []);
      histLen, histBase, outIndex, pushed, produced := 0, 0, 0, [], [];
    }

    /** A transport change: restart from the next pushed frame. */
    method Reset()
      requires Valid()
      modifies this
      ensures Valid() && pushed == [] && produced == []
    {
      histLen, histBase, outIndex, pushed, produced := 0, 0, 0, [], [];
    }

    predicate CanProduce()
      requires Valid()
      reads this, history
      ensures CanProduce() <==> ratio.dst > 0 && Ready(ratio, |pushed|, outIndex)
    {
      ratio.dst > 0 &&
      histBase + histLen > Newest(PosOf(outIndex, ratio.src, ratio.dst), Taps(ratio.src, ratio.dst))
    }

    /** One output frame: the whole-stream frame of everything pushed so far, and of
        every stream that begins with it. */
    method Produce() returns (out: Frame)
      requires Valid() && CanProduce()
      modifies this
      ensures Valid() && pushed == old(pushed) && produced == old(produced) + [out]
      ensures out == OutFrame(ratio, pushed, old(outIndex)) && outIndex == old(outIndex) + 1
    {
      ghost var window := history[..histLen];
      WindowHoldsSupport(ratio, window, histBase, pushed, outIndex, produced);
      StreamedProduce(ratio, window, histBase, pushed, outIndex, produced);
      hide Streamed, Ready, OutFrame;
      out := MacFrame(ratio, history[..histLen], histBase, outIndex, pushed);
      outIndex := outIndex + 1;
      produced := produced + [out];
    }

    /** How many frames of the history no future output can reach: all of them, when a
        decimating stride skips past the window. */
    function Stale(): (drop: nat)
      requires Valid() && ratio.dst > 0
      reads this, history
      ensures drop <= histLen
    {
      var retain := Oldest(PosOf(outIndex, ratio.src, ratio.dst), Taps(ratio.src, ratio.dst));
      if retain - histBase < 0 then 0 else if retain - histBase > histLen then histLen else retain - histBase
    }

    /** Append a block after dropping what no future output can reach. The caller answers
        for its fitting the storage; what `configure` was told to expect always does. */
    method PushInput(samples: seq<Frame>)
      requires Valid() && FramesOk(samples, ratio.channels)
      requires samples != [] ==> ratio.dst > 0 && histLen - Stale() + |samples| <= history.Length
      modifies this, history
      ensures Valid() && pushed == old(pushed) + samples
      ensures produced == old(produced) && outIndex == old(outIndex)
    {
      if |samples| == 0 {
        assert pushed + samples == pushed;
        return;
      }
      DropStale();
      hide Streamed;
      StreamedPush(ratio, history[..histLen], histBase, pushed, outIndex, produced, samples);
      CopyIn(history, histLen, samples);
      histLen, pushed := histLen + |samples|, pushed + samples;
    }

    method DropStale()
      requires Valid() && ratio.dst > 0
      modifies this`histLen, this`histBase, history
      ensures Valid() && histLen == old(histLen - Stale())
    {
      var drop := Stale();
      hide Streamed, PosOf, Taps;
      if drop > 0 {
        StreamedDrop(ratio, history[..histLen], histBase, pushed, outIndex, produced, drop);
        assert history[..histLen][drop..] == history[drop..histLen];
        ShiftDown(history, histLen, drop);
        histLen, histBase := histLen - drop, histBase + drop;
      }
    }

    /** Once drained, less than the filter's width is kept, and one block more fits: the
        storage allocated once is enough for ever. */
    lemma DrainedBlockFits(n: nat)
      requires Valid() && !CanProduce() && ratio.dst > 0 && n <= blockFrames
      ensures histLen - Stale() <= Taps(ratio.src, ratio.dst) && histLen - Stale() + n <= history.Length
    {
      var fp, taps := PosOf(outIndex, ratio.src, ratio.dst), Taps(ratio.src, ratio.dst);
      PositionIsOneRounding(outIndex, ratio.src, ratio.dst);
      hide Streamed, PosOf, Taps;
      ResidualIsSmall(histLen - Stale(), histBase + Stale(), Oldest(fp, taps), fp, taps);
    }

    /** Produce while a frame's support is resident. */
    method Drain()
      requires Valid() && (ratio.src > 0 || !CanProduce())
      modifies this
      ensures Valid() && !CanProduce() && pushed == old(pushed) && old(produced) <= produced
    {
      hide Streamed, Taps, Ready, OutFrame, DrainBound;
      ghost var bound := DrainBound(|pushed|, ratio.dst);
      while CanProduce()
        invariant Valid() && pushed == old(pushed) && old(produced) <= produced
        invariant (ratio.src > 0 || !CanProduce()) && bound == DrainBound(|pushed|, ratio.dst)
        decreases bound - outIndex
      {
        ReadyBound(ratio, |pushed|, outIndex);
        var frame := Produce();
      }
    }

    /** Feed a stream in blocks of any sizes, draining after each: what comes out is
        the whole-stream conversion of the concatenation, as far as its supports
        reach. */
    method Convert(blocks: seq<seq<Frame>>)
      requires Valid() && ratio.src > 0 && ratio.dst > 0 && !CanProduce()
      requires forall i | 0 <= i < |blocks| :: |blocks[i]| <= blockFrames && FramesOk(blocks[i], ratio.channels)
      modifies this, history
      ensures Valid() && pushed == old(pushed) + Concat(blocks)
      ensures IsDrainedOutput(ratio, pushed, produced)
    {
      assert blocks[..0] == [] && old(pushed) + Concat([]) == old(pushed);
      hide Concat;
      for i := 0 to |blocks|
        invariant Valid() && !CanProduce() && pushed == old(pushed) + Concat(blocks[..i])
      {
        DrainedBlockFits(|blocks[i]|);
        PushInput(blocks[i]);
        Drain();
        OneMoreBlock(old(pushed), blocks, i);
      }
      assert blocks[..|blocks|] == blocks;
    }
  }

  ghost function Concat(blocks: seq<seq<Frame>>): seq<Frame>
  {
    if blocks == [] then [] else Concat(blocks[..|blocks| - 1]) + blocks[|blocks| - 1]
  }

  lemma OneMoreBlock(before: seq<Frame>, blocks: seq<seq<Frame>>, i: nat)
    requires i < |blocks|
    ensures before + Concat(blocks[..i]) + blocks[i] == before + Concat(blocks[..i + 1])
  {
    assert blocks[..i + 1][..i] == blocks[..i];
  }

  /** All the frames of the whole-stream conversion whose support has arrived, and
      no more. */
  ghost predicate IsDrainedOutput(r: Ratio, pushed: seq<Frame>, produced: seq<Frame>)
  {
    && r.dst > 0 && !Ready(r, |pushed|, |produced|)
    && forall n | 0 <= n < |produced| :: Ready(r, |pushed|, n) && produced[n] == OutFrame(r, pushed, n)
  }

  /** The drained output depends on the stream alone, not on how it was cut. */
  lemma DrainedOutputUnique(r: Ratio, pushed: seq<Frame>, a: seq<Frame>, b: seq<Frame>)
    requires IsDrainedOutput(r, pushed, a) && IsDrainedOutput(r, pushed, b)
    ensures a == b
  {
    assert forall n | 0 <= n < |b| :: Ready(r, |pushed|, n);
    assert forall n | 0 <= n < |a| :: Ready(r, |pushed|, n);
    assert |a| >= |b| && |b| >= |a|;
  }

  /** Wherever the next frame's support reaches, the window reads as the stream. */
  lemma WindowHoldsSupport(r: Ratio, window: seq<Frame>, base: nat, pushed: seq<Frame>, outIndex: nat, produced: seq<Frame>)
    requires r.dst > 0 && Streamed(r, window, base, pushed, outIndex, produced)
    ensures var fp, taps := PosOf(outIndex, r.src, r.dst), Taps(r.src, r.dst);
            forall idx, c: nat | Oldest(fp, taps) <= idx <= Newest(fp, taps) && c < r.channels ::
              SampleAt(window, idx - base, c) == SampleAt(pushed, idx, c)
  {
  }

  /** What a drained resampler keeps is shorter than the filter. */
  lemma ResidualIsSmall(len: nat, base: nat, retain: int, fp: FramePos, taps: nat)
    requires retain == Oldest(fp, taps) && base + len <= Newest(fp, taps)
    requires len == 0 || base >= retain
    ensures len <= taps
  {
  }

  lemma StillProduced(r: Ratio, s: seq<Frame>, t: seq<Frame>, produced: seq<Frame>)
    requires r.dst > 0 && s <= t
    requires forall n | 0 <= n < |produced| :: Ready(r, |s|, n) && produced[n] == OutFrame(r, s, n)
    ensures forall n | 0 <= n < |produced| :: Ready(r, |t|, n) && produced[n] == OutFrame(r, t, n)
  {
    forall n | 0 <= n < |produced| ensures Ready(r, |t|, n) && produced[n] == OutFrame(r, t, n) {
      OutFrameStable(r, s, t, n);
    }
  }

  /** No frame from this one on is ready. */
  ghost function DrainBound(pushed: nat, dst: nat): nat
  {
    (pushed + 1) * dst
  }

  lemma ReadyBound(r: Ratio, pushed: nat, n: nat)
    requires r.dst > 0 && r.src > 0 && Ready(r, pushed, n)
    ensures n < DrainBound(pushed, r.dst)
  {
    assert pushed > n * r.src / r.dst;
    hide Ready;
    QuotientBound(n, r.src, r.dst, pushed);
  }

  /** At a source rate of zero the position never moves: a frame that is ready stays ready
      however many are produced, so a caller that drains then ends exactly when it starts
      drained. */
  lemma ZeroRateStaysReady(r: Ratio, pushed: nat, n: nat)
    requires r.dst > 0 && r.src == 0
    ensures Ready(r, pushed, n) <==> Ready(r, pushed, 0)
  {
    assert n * r.src == 0 && 0 * r.src == 0;
  }

  lemma QuotientBound(n: nat, src: nat, dst: nat, q: nat)
    requires dst > 0 && src > 0 && q > n * src / dst
    ensures n < (q + 1) * dst
  {
    if n >= (q + 1) * dst {
      MulMonotone(1, src, n);
      DivShift(q + 1, 0, dst);
      DivMonotone((q + 1) * dst, n * src, dst);
    }
  }
}
