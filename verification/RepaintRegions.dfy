/** The banded sweep itself, as the frame path runs it, proved equal to the
    row-by-row reference of DamagePlanning. */
module RepaintRegions {
  import opened Numbers
  import opened Wrappers
  import opened DamagePlanning

  // ---- Clipping and rounding ------------------------------------------------------------

  datatype RealBox = RealBox(x0: real, y0: real, x1: real, y1: real)

  /** `max(c, 0)`, when that is finite. */
  function LowEdge(c: Coord): Option<real>
  {
    match c
    case NegInf => Some(0.0)
    case Fin(v) => Some(MaxReal(v, 0.0))
    case PosInf => None
  }

  /** `min(c, extent)`, when that is finite. */
  function HighEdge(c: Coord, extent: nat): Option<real>
  {
    match c
    case NegInf => None
    case Fin(v) => Some(MinReal(v, extent as real))
    case PosInf => Some(extent as real)
  }

  /** The intersection with the viewport, unless it is empty. */
  function Clip(r: Rect, w: nat, h: nat): Option<RealBox>
  {
    var x0, y0, x1, y1 := LowEdge(r.x0), LowEdge(r.y0), HighEdge(r.x1, w), HighEdge(r.y1, h);
    if x0.Some? && y0.Some? && x1.Some? && y1.Some? && x0.value < x1.value && y0.value < y1.value
    then Some(RealBox(x0.value, y0.value, x1.value, y1.value)) else None
  }

  /** Round out to whole pixels, then bound by the viewport again. */
  function RoundOut(b: RealBox, w: nat, h: nat): Box
  {
    Box(Max(b.x0.Floor, 0), Max(b.y0.Floor, 0), Min(Ceil(b.x1), w), Min(Ceil(b.y1), h))
  }

  predicate Empty(b: Box)
  {
    !(b.x0 < b.x1 && b.y0 < b.y1)
  }

  lemma Rounding(v: real, x: int)
    ensures v.Floor <= x <==> v < (x + 1) as real
    ensures x < Ceil(v) <==> x as real < v
  {
  }

  /** The rounded-out clip holds exactly the viewport pixels the rectangle meets. */
  lemma RoundOutMeets(r: Rect, w: nat, h: nat, x: int, y: int)
    requires 0 <= x < w && 0 <= y < h
    ensures Meets(r, x, y) <==> Clip(r, w, h).Some? && InBox(RoundOut(Clip(r, w, h).value, w, h), x, y)
  {
    var c := Clip(r, w, h);
    if c.Some? {
      Rounding(c.value.x0, x);
      Rounding(c.value.y0, y);
      Rounding(c.value.x1, x);
      Rounding(c.value.y1, y);
    }
  }

  lemma RoundOutNotEmpty(r: Rect, w: nat, h: nat)
    requires Clip(r, w, h).Some?
    ensures var b := RoundOut(Clip(r, w, h).value, w, h);
            !Empty(b) && 0 <= b.x0 && b.x1 <= w && 0 <= b.y0 && b.y1 <= h
  {
    var c := Clip(r, w, h).value;
    Rounding(c.x1, c.x0.Floor);
    Rounding(c.y1, c.y0.Floor);
  }

  ghost predicate InViewport(boxes: seq<Box>, w: nat, h: nat)
  {
    forall k | 0 <= k < |boxes| ::
      0 <= boxes[k].x0 < boxes[k].x1 <= w && 0 <= boxes[k].y0 < boxes[k].y1 <= h
  }

  /** `integer_inputs`: clip first, then round out, drop what is empty. */
  method IntegerInputs(dirty: seq<Rect>, w: nat, h: nat) returns (inputs: seq<Box>)
    ensures InViewport(inputs, w, h)
    ensures forall x, y :: InSomeBox(inputs, x, y) <==> (x, y) in DirtyPixels(dirty, w, h)
  {
    inputs := [];
    for i := 0 to |dirty|
      invariant InViewport(inputs, w, h)
      invariant forall x, y :: InSomeBox(inputs, x, y) <==> 0 <= x < w && 0 <= y < h && MeetsSome(dirty[..i], x, y)
    {
      var before := inputs;
      var clipped := Clip(dirty[i], w, h);
      if clipped.Some? {
        RoundOutNotEmpty(dirty[i], w, h);
        var bounded := RoundOut(clipped.value, w, h);
        if !Empty(bounded) {
          inputs := inputs + [bounded];
        }
      }
      forall x, y
        ensures InSomeBox(inputs, x, y) <==> 0 <= x < w && 0 <= y < h && MeetsSome(dirty[..i + 1], x, y)
      {
        OneMoreRect(dirty, i, x, y);
        if 0 <= x < w && 0 <= y < h {
          RoundOutMeets(dirty[i], w, h, x, y);
        }
        if clipped.Some? {
          OneMoreBox(before, RoundOut(clipped.value, w, h), x, y);
        }
      }
    }
    assert dirty[..|dirty|] == dirty;
  }

  lemma OneMoreRect(dirty: seq<Rect>, i: nat, x: int, y: int)
    requires i < |dirty|
    ensures MeetsSome(dirty[..i + 1], x, y) <==> MeetsSome(dirty[..i], x, y) || Meets(dirty[i], x, y)
  {
    var fewer, more := dirty[..i], dirty[..i + 1];
    if MeetsSome(fewer, x, y) {
      var k :| 0 <= k < |fewer| && Meets(fewer[k], x, y);
      assert Meets(more[k], x, y);
    }
    if Meets(dirty[i], x, y) {
      assert Meets(more[i], x, y);
    }
    if MeetsSome(more, x, y) && !Meets(dirty[i], x, y) {
      var k :| 0 <= k < |more| && Meets(more[k], x, y);
      assert Meets(fewer[k], x, y);
    }
  }

  lemma OneMoreBox(boxes: seq<Box>, b: Box, x: int, y: int)
    ensures InSomeBox(boxes + [b], x, y) <==> InSomeBox(boxes, x, y) || InBox(b, x, y)
  {
    var more := boxes + [b];
    if InSomeBox(boxes, x, y) {
      var k :| 0 <= k < |boxes| && InBox(boxes[k], x, y);
      assert InBox(more[k], x, y);
    }
    if InBox(b, x, y) {
      assert InBox(more[|boxes|], x, y);
    }
    if InSomeBox(more, x, y) && !InBox(b, x, y) {
      var k :| 0 <= k < |more| && InBox(more[k], x, y);
      assert InBox(boxes[k], x, y);
    }
  }

  // ---- Sorting ---------------------------------------------------------------------------

  ghost predicate TotalOrder<T(!new)>(leq: (T, T) -> bool)
  {
    && (forall a, b :: leq(a, b) || leq(b, a))
    && (forall a, b, c :: leq(a, b) && leq(b, c) ==> leq(a, c))
  }

  ghost predicate SortedBy<T>(s: seq<T>, leq: (T, T) -> bool)
  {
    forall i, j | 0 <= i < j < |s| :: leq(s[i], s[j])
  }

  /** `std::sort`, as far as anyone may rely on it. */
  method Sort<T(!new)>(s: seq<T>, leq: (T, T) -> bool) returns (r: seq<T>)
    requires TotalOrder(leq)
    ensures SortedBy(r, leq)
    ensures forall x :: x in r <==> x in s
    ensures |r| == |s|
  {
    r := [];
    for i := 0 to |s|
      invariant SortedBy(r, leq) && |r| == i
      invariant forall x :: x in r <==> x in s[..i]
    {
      var at: nat := |r|;
      while at > 0 && !leq(r[at - 1], s[i])
        invariant 0 <= at <= |r|
        invariant forall k | at <= k < |r| :: leq(s[i], r[k])
      {
        at := at - 1;
      }
      var before := r;
      r := before[..at] + [s[i]] + before[at..];
      InsertedSorted(before, at, s[i], leq);
      assert before == before[..at] + before[at..];
      assert s[..i + 1] == s[..i] + [s[i]];
    }
    assert s[..|s|] == s;
  }

  lemma InsertedSorted<T(!new)>(s: seq<T>, at: nat, x: T, leq: (T, T) -> bool)
    requires TotalOrder(leq) && SortedBy(s, leq) && at <= |s|
    requires at > 0 ==> leq(s[at - 1], x)
    requires forall k | at <= k < |s| :: leq(x, s[k])
    ensures SortedBy(s[..at] + [x] + s[at..], leq)
  {
    var r := s[..at] + [x] + s[at..];
    forall i, j | 0 <= i < j < |r| ensures leq(r[i], r[j]) {
      var si := if i < at then i else i - 1;
      var sj := if j < at then j else j - 1;
      if i == at {
        assert r[j] == s[j - 1];
      } else if j == at {
        assert r[i] == s[i];
        if i < at - 1 {
          assert leq(s[i], s[at - 1]);
        }
      } else {
        assert r[i] == s[si] && r[j] == s[sj] && si < sj;
      }
    }
  }

  ghost predicate Increasing(s: seq<int>)
  {
    forall i, j | 0 <= i < j < |s| :: s[i] < s[j]
  }

  /** `std::unique` and the erase after it. */
  method Unique(s: seq<int>) returns (r: seq<int>)
    requires SortedBy(s, (a: int, b: int) => a <= b)
    ensures Increasing(r) && forall x :: x in r <==> x in s
  {
    r := [];
    for i := 0 to |s|
      invariant Increasing(r) && (if i == 0 then r == [] else r != [] && r[|r| - 1] == s[i - 1])
      invariant forall x :: x in r <==> x in s[..i]
    {
      assert s[..i + 1] == s[..i] + [s[i]];
      if i == 0 || s[i] != s[i - 1] {
        assert i > 0 ==> s[i - 1] <= s[i];
        r := r + [s[i]];
      }
    }
    assert s[..|s|] == s;
  }

  ghost predicate IsEdge(inputs: seq<Box>, y: int)
  {
    exists i :: 0 <= i < |inputs| && (inputs[i].y0 == y || inputs[i].y1 == y)
  }

  /** The distinct y-edges of the inputs, in order. */
  method YEdges(inputs: seq<Box>) returns (edges: seq<int>)
    ensures Increasing(edges) && forall y :: y in edges <==> IsEdge(inputs, y)
  {
    edges := [];
    for i := 0 to |inputs|
      invariant forall y :: y in edges <==> IsEdge(inputs[..i], y)
    {
      var before := edges;
      edges := edges + [inputs[i].y0];
      edges := edges + [inputs[i].y1];
      forall y ensures y in edges <==> IsEdge(inputs[..i + 1], y) {
        assert y in edges <==> y in before || y == inputs[i].y0 || y == inputs[i].y1;
        OneMoreEdge(inputs, i, y);
      }
    }
    assert inputs[..|inputs|] == inputs;
    edges := Sort(edges, (a: int, b: int) => a <= b);
    edges := Unique(edges);
  }

  lemma OneMoreEdge(inputs: seq<Box>, i: nat, y: int)
    requires i < |inputs|
    ensures IsEdge(inputs[..i + 1], y) <==> IsEdge(inputs[..i], y) || y == inputs[i].y0 || y == inputs[i].y1
  {
    var fewer, more := inputs[..i], inputs[..i + 1];
    if IsEdge(fewer, y) {
      var k :| 0 <= k < |fewer| && (fewer[k].y0 == y || fewer[k].y1 == y);
      assert more[k] == fewer[k];
    }
    assert more[i] == inputs[i];
    if IsEdge(more, y) {
      var k :| 0 <= k < |more| && (more[k].y0 == y || more[k].y1 == y);
      assert k < i ==> fewer[k] == more[k];
    }
  }

  // ---- One band ---------------------------------------------------------------------------

  ghost predicate SpanCovers(inputs: seq<Box>, y0: int, y1: int, x: int)
  {
    exists i :: 0 <= i < |inputs| && Spans(inputs[i], y0, y1, x)
  }

  ghost predicate Spans(b: Box, y0: int, y1: int, x: int)
  {
    b.y0 <= y0 && b.y1 >= y1 && b.x0 <= x < b.x1
  }

  predicate RunLeq(a: Run, b: Run)
  {
    a.x0 < b.x0 || (a.x0 == b.x0 && a.x1 <= b.x1)
  }

  /** What one step of the in-place compaction makes of the runs kept so far. */
  ghost function Absorb(kept: seq<Run>, r: Run): seq<Run>
    requires kept != []
  {
    var last := |kept| - 1;
    if r.x0 <= kept[last].x1 then kept[last := Run(kept[last].x0, Max(kept[last].x1, r.x1))] else kept + [r]
  }

  lemma AbsorbNormal(kept: seq<Run>, r: Run)
    requires kept != [] && NormalRuns(kept) && r.x0 < r.x1
    requires kept[|kept| - 1].x0 <= r.x0
    ensures NormalRuns(Absorb(kept, r))
  {
  }

  lemma AbsorbCovers(kept: seq<Run>, r: Run, x: int)
    requires kept != [] && NormalRuns(kept) && r.x0 < r.x1
    requires kept[|kept| - 1].x0 <= r.x0
    ensures InRuns(Absorb(kept, r), x) <==> InRuns(kept, x) || r.x0 <= x < r.x1
  {
    var more, last := Absorb(kept, r), |kept| - 1;
    if InRuns(kept, x) {
      var i :| 0 <= i < |kept| && kept[i].x0 <= x < kept[i].x1;
      assert more[i].x0 <= x < more[i].x1;
    }
    if r.x0 <= x < r.x1 {
      var n := |more| - 1;
      assert more[n].x0 <= x < more[n].x1;
    }
    if InRuns(more, x) {
      var i :| 0 <= i < |more| && more[i].x0 <= x < more[i].x1;
      if i < |kept| && x < kept[i].x1 {
        assert kept[i].x0 <= x < kept[i].x1;
      }
    }
  }

  lemma OneMoreRun(runs: seq<Run>, r: Run, x: int)
    ensures InRuns(runs + [r], x) <==> InRuns(runs, x) || r.x0 <= x < r.x1
  {
    var more := runs + [r];
    if InRuns(runs, x) {
      var i :| 0 <= i < |runs| && runs[i].x0 <= x < runs[i].x1;
      assert more[i].x0 <= x < more[i].x1;
    }
    if r.x0 <= x < r.x1 {
      assert more[|runs|].x0 <= x < more[|runs|].x1;
    }
    if InRuns(more, x) && !(r.x0 <= x < r.x1) {
      var i :| 0 <= i < |more| && more[i].x0 <= x < more[i].x1;
      assert runs[i].x0 <= x < runs[i].x1;
    }
  }

  ghost predicate NonEmptyRuns(runs: seq<Run>)
  {
    forall i | 0 <= i < |runs| :: runs[i].x0 < runs[i].x1
  }

  /** Compact sorted runs in place: `kept` is the last slot in use. */
  method Compact(sorted: seq<Run>) returns (runs: seq<Run>)
    requires sorted != [] && SortedBy(sorted, RunLeq) && NonEmptyRuns(sorted)
    ensures NormalRuns(runs) && runs != []
    ensures forall x :: InRuns(runs, x) <==> InRuns(sorted, x)
  {
    runs := sorted;
    var kept := 0;
    assert runs[..1] == sorted[..1];
    for at := 1 to |sorted|
      invariant 0 <= kept < at && |runs| == |sorted| && runs[at..] == sorted[at..]
      invariant NormalRuns(runs[..kept + 1])
      invariant forall j | at <= j < |sorted| :: runs[kept].x0 <= sorted[j].x0
      invariant forall x :: InRuns(runs[..kept + 1], x) <==> InRuns(sorted[..at], x)
    {
      var r := runs[at];
      assert r == sorted[at];
      ghost var before := runs[..kept + 1];
      if r.x0 <= runs[kept].x1 {
        runs := runs[kept := Run(runs[kept].x0, Max(runs[kept].x1, r.x1))];
      } else {
        kept := kept + 1;
        runs := runs[kept := r];
      }
      assert runs[..kept + 1] == Absorb(before, r);
      AbsorbNormal(before, r);
      assert sorted[..at + 1] == sorted[..at] + [r];
      ghost var now, upTo := runs[..kept + 1], sorted[..at + 1];
      forall x ensures InRuns(now, x) <==> InRuns(upTo, x) {
        AbsorbCovers(before, r, x);
        OneMoreRun(sorted[..at], r, x);
      }
      forall j | at + 1 <= j < |sorted| ensures runs[kept].x0 <= sorted[j].x0 {
        assert RunLeq(sorted[at], sorted[j]);
      }
    }
    assert sorted[..|sorted|] == sorted;
    runs := runs[..kept + 1];
  }

  /** `band_runs`: the x-intervals of every input that spans the band, merged. */
  method BandRuns(inputs: seq<Box>, y0: int, y1: int) returns (runs: seq<Run>)
    requires forall i | 0 <= i < |inputs| :: inputs[i].x0 < inputs[i].x1
    ensures NormalRuns(runs)
    ensures forall x :: InRuns(runs, x) <==> SpanCovers(inputs, y0, y1, x)
  {
    runs := [];
    for i := 0 to |inputs|
      invariant NonEmptyRuns(runs)
      invariant forall x :: InRuns(runs, x) <==> SpanCovers(inputs[..i], y0, y1, x)
    {
      ghost var before := runs;
      if inputs[i].y0 <= y0 && inputs[i].y1 >= y1 {
        runs := runs + [Run(inputs[i].x0, inputs[i].x1)];
      }
      forall x ensures InRuns(runs, x) <==> SpanCovers(inputs[..i + 1], y0, y1, x) {
        OneMoreSpan(inputs, i, y0, y1, x);
        OneMoreRun(before, Run(inputs[i].x0, inputs[i].x1), x);
      }
    }
    assert inputs[..|inputs|] == inputs;
    if runs == [] {
      return;
    }
    var sorted := Sort(runs, RunLeq);
    SameRuns(runs, sorted);
    runs := Compact(sorted);
  }

  lemma SameRuns(a: seq<Run>, b: seq<Run>)
    requires (forall r :: r in a <==> r in b) && NonEmptyRuns(a)
    ensures NonEmptyRuns(b) && forall x :: InRuns(a, x) <==> InRuns(b, x)
  {
    assert forall i | 0 <= i < |b| :: b[i] in a;
    forall x ensures InRuns(a, x) <==> InRuns(b, x) {
      if InRuns(a, x) {
        var i :| 0 <= i < |a| && a[i].x0 <= x < a[i].x1;
        assert a[i] in b;
      }
      if InRuns(b, x) {
        var i :| 0 <= i < |b| && b[i].x0 <= x < b[i].x1;
        assert b[i] in a;
      }
    }
  }

  lemma OneMoreSpan(inputs: seq<Box>, i: nat, y0: int, y1: int, x: int)
    requires i < |inputs|
    ensures SpanCovers(inputs[..i + 1], y0, y1, x) <==> SpanCovers(inputs[..i], y0, y1, x) || Spans(inputs[i], y0, y1, x)
  {
    var fewer, more := inputs[..i], inputs[..i + 1];
    assert more[i] == inputs[i];
    if SpanCovers(fewer, y0, y1, x) {
      var k :| 0 <= k < |fewer| && Spans(fewer[k], y0, y1, x);
      assert more[k] == fewer[k];
    }
    if SpanCovers(more, y0, y1, x) {
      var k :| 0 <= k < |more| && Spans(more[k], y0, y1, x);
      assert k < i ==> fewer[k] == more[k];
    }
  }

  /** Between two neighbouring edges an input spans the band or misses it. */
  lemma BandRowsAre(inputs: seq<Box>, s: Pixels, edges: seq<int>, k: nat, runs: seq<Run>)
    requires forall x, y :: InSomeBox(inputs, x, y) <==> (x, y) in s
    requires Increasing(edges) && k + 1 < |edges| && forall y :: y in edges <==> IsEdge(inputs, y)
    requires forall x :: InRuns(runs, x) <==> SpanCovers(inputs, edges[k], edges[k + 1], x)
    ensures RowsAre(s, edges[k], edges[k + 1], runs)
  {
    var y0, y1 := edges[k], edges[k + 1];
    forall x, y | y0 <= y < y1 ensures (x, y) in s <==> InRuns(runs, x) {
      if InSomeBox(inputs, x, y) {
        var i :| 0 <= i < |inputs| && InBox(inputs[i], x, y);
        assert IsEdge(inputs, inputs[i].y0) && IsEdge(inputs, inputs[i].y1);
        NoEdgeBetween(edges, k, inputs[i].y0);
        NoEdgeBetween(edges, k, inputs[i].y1);
      }
      if SpanCovers(inputs, y0, y1, x) {
        var i :| 0 <= i < |inputs| && Spans(inputs[i], y0, y1, x);
        assert InBox(inputs[i], x, y);
      }
    }
  }

  lemma NoEdgeBetween(edges: seq<int>, k: nat, y: int)
    requires Increasing(edges) && k + 1 < |edges| && y in edges
    ensures y <= edges[k] || y >= edges[k + 1]
  {
    var i :| 0 <= i < |edges| && edges[i] == y;
  }

  // ---- The covering box ------------------------------------------------------------------

  /** The non-empty clips, in order. */
  ghost function Clips(dirty: seq<Rect>, w: nat, h: nat): seq<RealBox>
  {
    if dirty == [] then []
    else
      var front, last := Clips(dirty[..|dirty| - 1], w, h), Clip(dirty[|dirty| - 1], w, h);
      if last.Some? then front + [last.value] else front
  }

  lemma {:induction false} ClipsAre(dirty: seq<Rect>, w: nat, h: nat, c: RealBox)
    ensures c in Clips(dirty, w, h) <==> exists i :: 0 <= i < |dirty| && Clip(dirty[i], w, h) == Some(c)
  {
    if dirty != [] {
      var init, last := dirty[..|dirty| - 1], dirty[|dirty| - 1];
      ClipsAre(init, w, h, c);
      assert forall i | 0 <= i < |init| :: init[i] == dirty[i];
    }
  }

  ghost predicate Holds(b: RealBox, c: RealBox)
  {
    b.x0 <= c.x0 && b.y0 <= c.y0 && c.x1 <= b.x1 && c.y1 <= b.y1
  }

  /** `b` is the least box around the clips. */
  ghost predicate IsUnion(clips: seq<RealBox>, b: RealBox)
  {
    && (forall c | c in clips :: Holds(b, c))
    && (exists c :: c in clips && c.x0 == b.x0) && (exists c :: c in clips && c.x1 == b.x1)
    && (exists c :: c in clips && c.y0 == b.y0) && (exists c :: c in clips && c.y1 == b.y1)
  }

  function Union(a: RealBox, b: RealBox): RealBox
  {
    RealBox(MinReal(a.x0, b.x0), MinReal(a.y0, b.y0), MaxReal(a.x1, b.x1), MaxReal(a.y1, b.y1))
  }

  lemma UnionOneMore(clips: seq<RealBox>, b: RealBox, c: RealBox)
    requires IsUnion(clips, b)
    ensures IsUnion(clips + [c], Union(b, c))
  {
    var more := clips + [c];
    assert c in more && forall d | d in clips :: d in more;
  }

  lemma ViewportBounds(r: Rect, w: nat, h: nat)
    requires Clip(r, w, h).Some?
    ensures var c := Clip(r, w, h).value;
            && 0 <= c.x0.Floor < Ceil(c.x1) <= w && 0 <= c.y0.Floor < Ceil(c.y1) <= h
            && InBox(RoundOut(c, w, h), c.x0.Floor, c.y0.Floor)
            && InBox(RoundOut(c, w, h), Ceil(c.x1) - 1, Ceil(c.y1) - 1)
  {
    var c := Clip(r, w, h).value;
    Rounding(c.x1, c.x0.Floor);
    Rounding(c.y1, c.y0.Floor);
    Rounding(c.x1, w);
    Rounding(c.y1, h);
    Rounding(c.x0, -1);
    Rounding(c.y0, -1);
  }

  lemma ClippedFrom(dirty: seq<Rect>, w: nat, h: nat, c: RealBox) returns (i: nat)
    requires c in Clips(dirty, w, h)
    ensures i < |dirty| && Clip(dirty[i], w, h) == Some(c)
  {
    hide Clip;
    ClipsAre(dirty, w, h, c);
    i :| 0 <= i < |dirty| && Clip(dirty[i], w, h) == Some(c);
  }

  /** The extreme pixels of each clip are dirty. */
  lemma ClipCornersDirty(dirty: seq<Rect>, w: nat, h: nat, c: RealBox)
    requires c in Clips(dirty, w, h)
    ensures (c.x0.Floor, c.y0.Floor) in DirtyPixels(dirty, w, h)
    ensures (Ceil(c.x1) - 1, Ceil(c.y1) - 1) in DirtyPixels(dirty, w, h)
    ensures c.x0.Floor >= 0 && c.y0.Floor >= 0 && Ceil(c.x1) <= w && Ceil(c.y1) <= h
  {
    hide Clip, Clips, DirtyPixels, RoundOut, InBox, Ceil;
    var i := ClippedFrom(dirty, w, h, c);
    ViewportBounds(dirty[i], w, h);
    ClipPixelDirty(dirty, w, h, i, c.x0.Floor, c.y0.Floor);
    ClipPixelDirty(dirty, w, h, i, Ceil(c.x1) - 1, Ceil(c.y1) - 1);
  }

  lemma ClipPixelDirty(dirty: seq<Rect>, w: nat, h: nat, i: nat, x: int, y: int)
    requires i < |dirty| && Clip(dirty[i], w, h).Some? && 0 <= x < w && 0 <= y < h
    requires InBox(RoundOut(Clip(dirty[i], w, h).value, w, h), x, y)
    ensures (x, y) in DirtyPixels(dirty, w, h)
  {
    RoundOutMeets(dirty[i], w, h, x, y);
    assert MeetsSome(dirty, x, y);
  }

  lemma UnionCoversDirty(dirty: seq<Rect>, w: nat, h: nat, b: RealBox, x: int, y: int)
    requires IsUnion(Clips(dirty, w, h), b) && (x, y) in DirtyPixels(dirty, w, h)
    ensures InBox(RoundOut(b, w, h), x, y)
  {
    hide Clip, RoundOut, Meets, InBox;
    var i :| 0 <= i < |dirty| && Meets(dirty[i], x, y);
    RoundOutMeets(dirty[i], w, h, x, y);
    var c := Clip(dirty[i], w, h).value;
    ClipsAre(dirty, w, h, c);
    UnionHolds(c, b, w, h, x, y);
  }

  lemma UnionIsHull(dirty: seq<Rect>, w: nat, h: nat, b: RealBox)
    requires IsUnion(Clips(dirty, w, h), b)
    ensures IsHull(RoundOut(b, w, h), DirtyPixels(dirty, w, h))
  {
    var s, box, clips := DirtyPixels(dirty, w, h), RoundOut(b, w, h), Clips(dirty, w, h);
    forall p | p in s ensures InBox(box, p.0, p.1) {
      UnionCoversDirty(dirty, w, h, b, p.0, p.1);
    }
    hide Clips, DirtyPixels, Ceil, InBox, IsHull;
    var left :| left in clips && left.x0 == b.x0;
    ClipCornersDirty(dirty, w, h, left);
    var right :| right in clips && right.x1 == b.x1;
    ClipCornersDirty(dirty, w, h, right);
    var top :| top in clips && top.y0 == b.y0;
    ClipCornersDirty(dirty, w, h, top);
    var bottom :| bottom in clips && bottom.y1 == b.y1;
    ClipCornersDirty(dirty, w, h, bottom);
    HullFromCorners(box, s, (left.x0.Floor, left.y0.Floor), (Ceil(right.x1) - 1, Ceil(right.y1) - 1),
                    (top.x0.Floor, top.y0.Floor), (Ceil(bottom.x1) - 1, Ceil(bottom.y1) - 1));
  }

  lemma HullFromCorners(box: Box, s: Pixels, left: (int, int), right: (int, int), top: (int, int), bottom: (int, int))
    requires forall p | p in s :: InBox(box, p.0, p.1)
    requires left in s && right in s && top in s && bottom in s
    requires left.0 == box.x0 && right.0 == box.x1 - 1 && top.1 == box.y0 && bottom.1 == box.y1 - 1
    ensures IsHull(box, s)
  {
  }

  lemma UnionHolds(c: RealBox, b: RealBox, w: nat, h: nat, x: int, y: int)
    requires Holds(b, c)
    requires InBox(RoundOut(c, w, h), x, y)
    ensures InBox(RoundOut(b, w, h), x, y)
  {
    Rounding(c.x0, x);
    Rounding(c.y0, y);
    Rounding(c.x1, x);
    Rounding(c.y1, y);
    Rounding(b.x0, x);
    Rounding(b.y0, y);
    Rounding(b.x1, x);
    Rounding(b.y1, y);
  }

  lemma NoClipsNothingDirty(dirty: seq<Rect>, w: nat, h: nat)
    requires Clips(dirty, w, h) == []
    ensures DirtyPixels(dirty, w, h) == {}
  {
    forall p ensures p !in DirtyPixels(dirty, w, h) {
      if p in DirtyPixels(dirty, w, h) {
        var i :| 0 <= i < |dirty| && Meets(dirty[i], p.0, p.1);
        RoundOutMeets(dirty[i], w, h, p.0, p.1);
        ClipsAre(dirty, w, h, Clip(dirty[i], w, h).value);
      }
    }
  }

  /** `repaint_region`: the box around every clipped rectangle, rounded out. */
  method RepaintRegion(dirty: seq<Rect>, w: nat, h: nat) returns (r: Option<Box>)
    ensures r.None? <==> DirtyPixels(dirty, w, h) == {}
    ensures r.Some? ==> IsHull(r.value, DirtyPixels(dirty, w, h))
  {
    var box: Option<RealBox> := None;
    for i := 0 to |dirty|
      invariant if box.None? then Clips(dirty[..i], w, h) == [] else IsUnion(Clips(dirty[..i], w, h), box.value)
    {
      var clipped := Clip(dirty[i], w, h);
      assert dirty[..i + 1][..i] == dirty[..i];
      if clipped.Some? {
        if box.Some? {
          UnionOneMore(Clips(dirty[..i], w, h), box.value, clipped.value);
          box := Some(Union(box.value, clipped.value));
        } else {
          box := clipped;
          assert clipped.value in [clipped.value];
        }
      }
    }
    assert dirty[..|dirty|] == dirty;
    if box.None? {
      NoClipsNothingDirty(dirty, w, h);
      return None;
    }
    UnionIsHull(dirty, w, h, box.value);
    return Some(RoundOut(box.value, w, h));
  }

  // ---- The sweep ---------------------------------------------------------------------------

  lemma GrowExtends(bands: seq<Band>, y0: int, y1: int, runs: seq<Run>)
    requires runs != [] && runs == Touching(bands, y0)
    ensures var n := |Boxes(bands[..|bands| - 1])|; var prior := Boxes(bands);
            && |prior| == n + |runs|
            && |Boxes(Grow(bands, y0, y1, runs))| == |prior|
            && Grow(bands, y0, y1, runs)[..|bands| - 1] == bands[..|bands| - 1]
            && |Grow(bands, y0, y1, runs)| == |bands| && Touching(Grow(bands, y0, y1, runs), y1) == runs
            && forall k | 0 <= k < |prior| ::
                 Boxes(Grow(bands, y0, y1, runs))[k] == if k < n then prior[k] else prior[k].(y1 := y1)
  {
    var grown, last := Grow(bands, y0, y1, runs), |bands| - 1;
    assert grown[..last] == bands[..last];
  }

  lemma GrowAppends(bands: seq<Band>, y0: int, y1: int, runs: seq<Run>)
    requires runs != [] && runs != Touching(bands, y0)
    ensures Boxes(Grow(bands, y0, y1, runs)) == Boxes(bands) + BandBoxes(Band(y0, y1, runs))
    ensures |Grow(bands, y0, y1, runs)| == |bands| + 1 && Grow(bands, y0, y1, runs)[..|bands|] == bands
    ensures Touching(Grow(bands, y0, y1, runs), y1) == runs
  {
    assert Grow(bands, y0, y1, runs)[..|bands|] == bands;
  }

  /** Where the sweep stands at edge `y`: the bands so far are the reference's, and
      the fields are those of its boxes. */
  ghost predicate Sweeping(s: Pixels, w: nat, h: nat, bands: seq<Band>, y: int, regions: seq<Box>,
                           prevRuns: seq<Run>, prevAt: nat)
  {
    && NormalBands(bands) && CoversAbove(bands, s, y)
    && regions == Boxes(bands) && prevRuns == Touching(bands, y)
    && (prevRuns != [] ==> prevAt == |Boxes(bands[..|bands| - 1])|)
  }

  /** `repaint_regions`. The result depends on the set of dirty pixels alone: the
      reference decomposition, or its covering box when that has too many parts. */
  method RepaintRegions(dirty: seq<Rect>, w: nat, h: nat) returns (regions: seq<Box>)
    ensures IsPlan(DirtyPixels(dirty, w, h), w, h, regions)
  {
    hide DirtyPixels, Boxes, BandBoxes, RowSweep, Grow, RowsAre;
    ghost var s := DirtyPixels(dirty, w, h);
    var inputs := IntegerInputs(dirty, w, h);
    if inputs == [] {
      NoInputs(s, w, h, inputs);
      return [];
    }
    var edges := YEdges(inputs);
    regions := [];
    var prevRuns: seq<Run> := [];
    var prevAt: nat := 0;
    ghost var bands: seq<Band> := [];
    SweepStarts(inputs, s, w, h, edges);
    for band := 0 to |edges| - 1
      invariant Sweeping(s, w, h, bands, edges[band], regions, prevRuns, prevAt)
      invariant |regions| <= CAP
    {
      var y0, y1 := edges[band], edges[band + 1];
      var runs := BandRuns(inputs, y0, y1);
      BandRowsAre(inputs, s, edges, band, runs);
      GrowCovers(bands, s, y0, y1, runs);
      ghost var grown := Grow(bands, y0, y1, runs);
      if runs == [] {
        prevRuns := [];
        GapForgets(bands, y0, y1);
      } else if runs == prevRuns {
        GrowExtends(bands, y0, y1, runs);
        regions := ExtendBoxes(regions, prevAt, |runs|, y1);
      } else {
        GrowAppends(bands, y0, y1, runs);
        prevAt := |regions|;
        regions := regions + BandBoxes(Band(y0, y1, runs));
        prevRuns := runs;
        if |regions| > CAP {
          PrefixIsReference(inputs, s, w, h, edges, band + 1, grown);
          var box := RepaintRegion(dirty, w, h);
          assert s != {} by { if s == {} { EmptySweep(s, w, h); } }
          return [box.value];
        }
      }
      bands := grown;
    }
    PrefixIsReference(inputs, s, w, h, edges, |edges| - 1, bands);
    WholeIsReference(inputs, s, w, h, edges, bands);
  }

  /** What a frame may be told to repaint. */
  ghost predicate IsPlan(s: Pixels, w: nat, h: nat, regions: seq<Box>)
  {
    var reference := Boxes(RowSweep(s, w, h));
    if |reference| <= CAP then regions == reference
    else |regions| == 1 && IsHull(regions[0], s)
  }

  /** The inner coalescing loop: push the lower edge of the last band's boxes down. */
  method ExtendBoxes(regions: seq<Box>, prevAt: nat, count: nat, y1: int) returns (r: seq<Box>)
    requires prevAt + count == |regions|
    ensures |r| == |regions|
    ensures forall k | 0 <= k < |r| :: r[k] == if k < prevAt then regions[k] else regions[k].(y1 := y1)
  {
    r := regions;
    for at := 0 to count
      invariant |r| == |regions|
      invariant forall k | 0 <= k < |r| :: r[k] == if prevAt <= k < prevAt + at then regions[k].(y1 := y1) else regions[k]
    {
      r := r[prevAt + at := r[prevAt + at].(y1 := y1)];
    }
  }

  lemma GapForgets(bands: seq<Band>, y0: int, y1: int)
    requires y0 < y1 && forall i | 0 <= i < |bands| :: bands[i].y1 <= y0
    ensures Grow(bands, y0, y1, []) == bands && Touching(bands, y1) == []
  {
  }

  lemma EmptySweep(s: Pixels, w: nat, h: nat)
    requires s == {}
    ensures RowSweep(s, w, h) == []
  {
    RowSweepExact(s, w, h, h);
    var bands := RowSweep(s, w, h);
    if bands != [] {
      var x := BandHasPoint(bands[0]);
      RowOfBand(bands, 0, x, bands[0].y0);
    }
  }

  lemma NoInputs(s: Pixels, w: nat, h: nat, inputs: seq<Box>)
    requires inputs == [] && forall x, y :: InSomeBox(inputs, x, y) <==> (x, y) in s
    ensures IsPlan(s, w, h, [])
  {
    assert s == {} by {
      forall p ensures p !in s {
        assert InSomeBox(inputs, p.0, p.1) <==> (p.0, p.1) in s;
      }
    }
    EmptySweep(s, w, h);
  }

  ghost predicate EdgesOf(inputs: seq<Box>, s: Pixels, w: nat, h: nat, edges: seq<int>)
  {
    && (forall x, y :: InSomeBox(inputs, x, y) <==> (x, y) in s)
    && InViewport(inputs, w, h) && inputs != []
    && Increasing(edges) && (forall y :: y in edges <==> IsEdge(inputs, y))
  }

  lemma EdgesInViewport(inputs: seq<Box>, s: Pixels, w: nat, h: nat, edges: seq<int>, k: nat)
    requires EdgesOf(inputs, s, w, h, edges) && k < |edges|
    ensures 0 <= edges[k] <= h
  {
    assert edges[k] in edges;
    var i :| 0 <= i < |inputs| && (inputs[i].y0 == edges[k] || inputs[i].y1 == edges[k]);
  }

  lemma SweepStarts(inputs: seq<Box>, s: Pixels, w: nat, h: nat, edges: seq<int>)
    requires EdgesOf(inputs, s, w, h, edges)
    ensures |edges| > 0 && Sweeping(s, w, h, [], edges[0], [], [], 0)
  {
    assert IsEdge(inputs, inputs[0].y0) && inputs[0].y0 in edges;
    forall px, py ensures InBands([], px, py) <==> py < edges[0] && (px, py) in s {
      if (px, py) in s {
        assert InSomeBox(inputs, px, py);
        var i :| 0 <= i < |inputs| && InBox(inputs[i], px, py);
        assert IsEdge(inputs, inputs[i].y0) && inputs[i].y0 in edges;
        var k :| 0 <= k < |edges| && edges[k] == inputs[i].y0;
        assert edges[0] <= edges[k];
      }
    }
  }

  lemma InsideViewport(inputs: seq<Box>, s: Pixels, w: nat, h: nat)
    requires (forall x, y :: InSomeBox(inputs, x, y) <==> (x, y) in s) && InViewport(inputs, w, h)
    ensures Inside(s, w, h)
  {
    forall p | p in s ensures 0 <= p.0 < w && 0 <= p.1 < h {
      assert InSomeBox(inputs, p.0, p.1) <==> (p.0, p.1) in s;
    }
  }

  /** Bands that cover exactly the rows above an edge are the reference's. */
  lemma PrefixIsReference(inputs: seq<Box>, s: Pixels, w: nat, h: nat, edges: seq<int>, k: nat, bands: seq<Band>)
    requires EdgesOf(inputs, s, w, h, edges) && k < |edges|
    requires NormalBands(bands) && CoversAbove(bands, s, edges[k])
    ensures 0 <= edges[k] <= h && bands == RowSweep(s, w, edges[k])
    ensures |Boxes(bands)| <= |Boxes(RowSweep(s, w, h))|
  {
    EdgesInViewport(inputs, s, w, h, edges, k);
    InsideViewport(inputs, s, w, h);
    RowSweepExact(s, w, h, edges[k]);
    BandsUnique(bands, RowSweep(s, w, edges[k]));
    MoreRowsMoreBoxes(s, w, edges[k], h);
  }

  lemma NothingBelowTheLastEdge(inputs: seq<Box>, s: Pixels, w: nat, h: nat, edges: seq<int>, x: int, y: int)
    requires EdgesOf(inputs, s, w, h, edges) && edges != [] && (x, y) in s
    ensures y < edges[|edges| - 1]
  {
    assert InSomeBox(inputs, x, y);
    var i :| 0 <= i < |inputs| && InBox(inputs[i], x, y);
    assert IsEdge(inputs, inputs[i].y1) && inputs[i].y1 in edges;
    var k :| 0 <= k < |edges| && edges[k] == inputs[i].y1;
    assert edges[k] <= edges[|edges| - 1];
  }

  /** Below the last edge there is nothing left. */
  lemma WholeIsReference(inputs: seq<Box>, s: Pixels, w: nat, h: nat, edges: seq<int>, bands: seq<Band>)
    requires EdgesOf(inputs, s, w, h, edges) && edges != []
    requires NormalBands(bands) && CoversAbove(bands, s, edges[|edges| - 1])
    ensures bands == RowSweep(s, w, h)
  {
    InsideViewport(inputs, s, w, h);
    RowSweepExact(s, w, h, h);
    forall px, py ensures InBands(bands, px, py) <==> InBands(RowSweep(s, w, h), px, py) {
      if (px, py) in s {
        NothingBelowTheLastEdge(inputs, s, w, h, edges, px, py);
        assert 0 <= (px, py).1 < h;
      }
    }
    BandsUnique(bands, RowSweep(s, w, h));
  }

  // ---- What the plan promises ------------------------------------------------------------------

  /** Under the cap: pairwise disjoint, inside the viewport, and together exactly
      the dirty pixels. */
  lemma PlanIsExactPartition(dirty: seq<Rect>, w: nat, h: nat, regions: seq<Box>)
    requires IsPlan(DirtyPixels(dirty, w, h), w, h, regions)
    requires |Boxes(RowSweep(DirtyPixels(dirty, w, h), w, h))| <= CAP
    ensures forall k, m | 0 <= k < m < |regions| :: Disjoint(regions[k], regions[m])
    ensures forall x, y :: InSomeBox(regions, x, y) <==> 0 <= x < w && 0 <= y < h && MeetsSome(dirty, x, y)
  {
    var s := DirtyPixels(dirty, w, h);
    var bands := RowSweep(s, w, h);
    RowSweepExact(s, w, h, h);
    forall k, m | 0 <= k < m < |regions| ensures Disjoint(regions[k], regions[m]) {
      BoxesDisjoint(bands, k, m);
    }
    forall x, y ensures InSomeBox(regions, x, y) <==> 0 <= x < w && 0 <= y < h && MeetsSome(dirty, x, y) {
      BoxesCover(bands, x, y);
    }
  }

  /** Over the cap: one box that misses no dirty pixel. */
  lemma PlanMissesNothing(dirty: seq<Rect>, w: nat, h: nat, regions: seq<Box>, x: int, y: int)
    requires IsPlan(DirtyPixels(dirty, w, h), w, h, regions)
    requires 0 <= x < w && 0 <= y < h && MeetsSome(dirty, x, y)
    ensures InSomeBox(regions, x, y)
  {
    var s := DirtyPixels(dirty, w, h);
    if |Boxes(RowSweep(s, w, h))| <= CAP {
      PlanIsExactPartition(dirty, w, h, regions);
    } else {
      assert (x, y) in s;
      assert InBox(regions[0], (x, y).0, (x, y).1);
    }
  }

  lemma SamePixels(a: seq<Rect>, b: seq<Rect>, w: nat, h: nat)
    requires forall x, y | 0 <= x < w && 0 <= y < h :: MeetsSome(a, x, y) <==> MeetsSome(b, x, y)
    ensures DirtyPixels(a, w, h) == DirtyPixels(b, w, h)
  {
    hide MeetsSome;
  }

  lemma PlanUnique(s: Pixels, w: nat, h: nat, ra: seq<Box>, rb: seq<Box>)
    requires IsPlan(s, w, h, ra) && IsPlan(s, w, h, rb)
    ensures ra == rb
  {
    hide IsHull, RowSweep, Boxes;
    if |Boxes(RowSweep(s, w, h))| > CAP {
      HullUnique(ra[0], rb[0], s);
    }
  }

  /** The list depends only on the covered pixels, not on the order, overlap or
      splitting of the rectangles that cover them. */
  lemma PlanDependsOnPixelsOnly(a: seq<Rect>, b: seq<Rect>, w: nat, h: nat, ra: seq<Box>, rb: seq<Box>)
    requires IsPlan(DirtyPixels(a, w, h), w, h, ra) && IsPlan(DirtyPixels(b, w, h), w, h, rb)
    requires forall x, y | 0 <= x < w && 0 <= y < h :: MeetsSome(a, x, y) <==> MeetsSome(b, x, y)
    ensures ra == rb
  {
    hide IsPlan;
    SamePixels(a, b, w, h);
    PlanUnique(DirtyPixels(a, w, h), w, h, ra, rb);
  }
}
