/** The dirty-region sweep: raw device rectangles become disjoint integer
    rectangles, or one covering box when there would be too many. The reference is
    a pixel-by-pixel, row-by-row decomposition that knows only the set of dirty
    pixels; the banded sweep is proved equal to it. */
module DamagePlanning {

  /** A device coordinate; structural damage has infinite ones. */
  datatype Coord = NegInf | Fin(value: real) | PosInf

  datatype Rect = Rect(x0: Coord, y0: Coord, x1: Coord, y1: Coord)

  /** A rectangle of whole device pixels, half open. */
  datatype Box = Box(x0: int, y0: int, x1: int, y1: int)

  type Pixels = set<(int, int)>

  const CAP: nat := 64

  predicate Less(a: Coord, b: Coord)
  {
    match (a, b)
    case (Fin(x), Fin(y)) => x < y
    case (NegInf, _) => b != NegInf
    case (_, PosInf) => a != PosInf
    case _ => false
  }

  // ---- What is dirty ----------------------------------------------------------------

  /** The pixel's square overlaps the rectangle in more than an edge. */
  ghost predicate Meets(r: Rect, x: int, y: int)
  {
    && Less(r.x0, r.x1) && Less(r.y0, r.y1)
    && Less(r.x0, Fin((x + 1) as real)) && Less(Fin(x as real), r.x1)
    && Less(r.y0, Fin((y + 1) as real)) && Less(Fin(y as real), r.y1)
  }

  ghost predicate MeetsSome(dirty: seq<Rect>, x: int, y: int)
  {
    exists i :: 0 <= i < |dirty| && Meets(dirty[i], x, y)
  }

  /** The viewport pixels some dirty rectangle meets. */
  ghost function DirtyPixels(dirty: seq<Rect>, w: nat, h: nat): Pixels
  {
    set x, y | 0 <= x < w && 0 <= y < h && MeetsSome(dirty, x, y) :: (x, y)
  }

  // ---- Runs ---------------------------------------------------------------------------

  datatype Run = Run(x0: int, x1: int)

  ghost predicate InRuns(runs: seq<Run>, x: int)
  {
    exists i :: 0 <= i < |runs| && runs[i].x0 <= x < runs[i].x1
  }

  /** Non-empty runs, left to right, with a gap between any two. */
  ghost predicate NormalRuns(runs: seq<Run>)
  {
    && (forall i | 0 <= i < |runs| :: runs[i].x0 < runs[i].x1)
    && (forall i, j | 0 <= i < j < |runs| :: runs[i].x1 < runs[j].x0)
  }

  lemma TailRuns(runs: seq<Run>, x: int)
    requires NormalRuns(runs) && runs != []
    ensures NormalRuns(runs[1..])
    ensures InRuns(runs[1..], x) <==> InRuns(runs, x) && x >= runs[0].x1
  {
    var rest := runs[1..];
    if InRuns(rest, x) {
      var i :| 0 <= i < |rest| && rest[i].x0 <= x < rest[i].x1;
      assert runs[i + 1] == rest[i];
    }
    if InRuns(runs, x) && x >= runs[0].x1 {
      var i :| 0 <= i < |runs| && runs[i].x0 <= x < runs[i].x1;
      assert rest[i - 1] == runs[i];
    }
  }

  lemma FirstRun(runs: seq<Run>)
    requires NormalRuns(runs) && runs != []
    ensures InRuns(runs, runs[0].x0) && !InRuns(runs, runs[0].x1)
    ensures forall x | x < runs[0].x0 :: !InRuns(runs, x)
    ensures forall x | runs[0].x0 <= x < runs[0].x1 :: InRuns(runs, x)
  {
    assert runs[0].x0 <= runs[0].x0 < runs[0].x1;
  }

  /** Normal runs are determined by the points they cover. */
  lemma {:induction false} RunsUnique(a: seq<Run>, b: seq<Run>)
    requires NormalRuns(a) && NormalRuns(b)
    requires forall x :: InRuns(a, x) <==> InRuns(b, x)
    ensures a == b
  {
    if a != [] { FirstRun(a); }
    if b != [] { FirstRun(b); }
    if a != [] && b != [] {
      assert a[0].x0 == b[0].x0;
      assert a[0].x1 == b[0].x1;
      forall x ensures InRuns(a[1..], x) <==> InRuns(b[1..], x) {
        TailRuns(a, x);
        TailRuns(b, x);
      }
      TailRuns(a, 0);
      TailRuns(b, 0);
      RunsUnique(a[1..], b[1..]);
    }
  }

  /** The maximal runs of row `y`, found pixel by pixel. */
  ghost function RowRuns(s: Pixels, y: int, w: nat): seq<Run>
  {
    if w == 0 then []
    else if (w - 1, y) in s then AddPixel(RowRuns(s, y, w - 1), w - 1)
    else RowRuns(s, y, w - 1)
  }

  /** One more pixel to the right: it lengthens the last run or starts a new one. */
  ghost function AddPixel(runs: seq<Run>, x: int): seq<Run>
  {
    var last := |runs| - 1;
    if runs != [] && runs[last].x1 == x then runs[last := Run(runs[last].x0, x + 1)] else runs + [Run(x, x + 1)]
  }

  ghost predicate RunsWithin(runs: seq<Run>, lo: int, hi: int)
  {
    forall i | 0 <= i < |runs| :: lo <= runs[i].x0 && runs[i].x1 <= hi
  }

  lemma AddPixelNormal(runs: seq<Run>, x: int)
    requires NormalRuns(runs) && RunsWithin(runs, 0, x) && x >= 0
    ensures NormalRuns(AddPixel(runs, x)) && RunsWithin(AddPixel(runs, x), 0, x + 1)
  {
    var last := |runs| - 1;
    if runs != [] && runs[last].x1 == x {
      LengthenRuns(runs, x);
    } else {
      AppendRun(runs, x);
    }
  }

  lemma LengthenRuns(runs: seq<Run>, x: int)
    requires NormalRuns(runs) && RunsWithin(runs, 0, x) && runs != [] && runs[|runs| - 1].x1 == x
    ensures var more := runs[|runs| - 1 := Run(runs[|runs| - 1].x0, x + 1)]; NormalRuns(more) && RunsWithin(more, 0, x + 1)
  {
  }

  lemma AppendRun(runs: seq<Run>, x: int)
    requires NormalRuns(runs) && RunsWithin(runs, 0, x) && x >= 0 && (runs != [] ==> runs[|runs| - 1].x1 < x)
    ensures NormalRuns(runs + [Run(x, x + 1)]) && RunsWithin(runs + [Run(x, x + 1)], 0, x + 1)
  {
    forall i | 0 <= i < |runs| ensures runs[i].x1 < x {
      assert i < |runs| - 1 ==> runs[i].x1 < runs[|runs| - 1].x0;
    }
  }

  lemma AddPixelCovers(runs: seq<Run>, x: int, p: int)
    requires NormalRuns(runs) && RunsWithin(runs, 0, x)
    ensures InRuns(AddPixel(runs, x), p) <==> InRuns(runs, p) || p == x
  {
    var more := AddPixel(runs, x);
    if InRuns(runs, p) {
      var i :| 0 <= i < |runs| && runs[i].x0 <= p < runs[i].x1;
      assert more[i].x0 <= p < more[i].x1;
    }
    if p == x {
      assert more[|more| - 1].x0 <= p < more[|more| - 1].x1;
    }
    if InRuns(more, p) && p != x {
      var i :| 0 <= i < |more| && more[i].x0 <= p < more[i].x1;
      assert runs[i].x0 <= p < runs[i].x1;
    }
  }

  lemma {:induction false} RowRunsNormal(s: Pixels, y: int, w: nat)
    ensures NormalRuns(RowRuns(s, y, w)) && RunsWithin(RowRuns(s, y, w), 0, w)
  {
    if w > 0 {
      RowRunsNormal(s, y, w - 1);
      var before := RowRuns(s, y, w - 1);
      assert RowRuns(s, y, w) == if (w - 1, y) in s then AddPixel(before, w - 1) else before;
      hide RowRuns, AddPixel, NormalRuns;
      AddPixelNormal(before, w - 1);
    }
  }

  lemma {:induction false} RowRunsCover(s: Pixels, y: int, w: nat, x: int)
    ensures InRuns(RowRuns(s, y, w), x) <==> 0 <= x < w && (x, y) in s
  {
    if w > 0 {
      RowRunsNormal(s, y, w - 1);
      RowRunsCover(s, y, w - 1, x);
      AddPixelCovers(RowRuns(s, y, w - 1), w - 1, x);
    }
  }

  // ---- Bands --------------------------------------------------------------------------

  /** Consecutive rows with the same runs. */
  datatype Band = Band(y0: int, y1: int, runs: seq<Run>)

  ghost predicate InBands(bands: seq<Band>, x: int, y: int)
  {
    exists i :: 0 <= i < |bands| && bands[i].y0 <= y < bands[i].y1 && InRuns(bands[i].runs, x)
  }

  /** Top to bottom, none empty, and bands that touch differ. */
  ghost predicate NormalBands(bands: seq<Band>)
  {
    && (forall i | 0 <= i < |bands| :: bands[i].y0 < bands[i].y1 && bands[i].runs != [] && NormalRuns(bands[i].runs))
    && (forall i, j | 0 <= i < j < |bands| :: bands[i].y1 <= bands[j].y0)
    && (forall i, j | 0 <= i < |bands| && j == i + 1 < |bands| && bands[i].y1 == bands[j].y0 ::
          bands[i].runs != bands[j].runs)
  }

  /** A row inside band `i` is covered by that band's runs alone. */
  lemma RowOfBand(bands: seq<Band>, i: nat, x: int, y: int)
    requires NormalBands(bands) && i < |bands| && bands[i].y0 <= y < bands[i].y1
    ensures InBands(bands, x, y) <==> InRuns(bands[i].runs, x)
  {
  }

  lemma TailBands(bands: seq<Band>, x: int, y: int)
    requires NormalBands(bands) && bands != []
    ensures NormalBands(bands[1..])
    ensures InBands(bands[1..], x, y) <==> InBands(bands, x, y) && y >= bands[0].y1
  {
    var rest := bands[1..];
    assert forall i | 0 <= i < |rest| :: rest[i] == bands[i + 1];
    if InBands(bands, x, y) && y >= bands[0].y1 {
      var i :| 0 <= i < |bands| && bands[i].y0 <= y < bands[i].y1 && InRuns(bands[i].runs, x);
      assert rest[i - 1] == bands[i];
    }
  }

  lemma NotAboveFirst(bands: seq<Band>, x: int, y: int)
    requires NormalBands(bands) && bands != [] && y < bands[0].y0
    ensures !InBands(bands, x, y)
  {
  }

  lemma BandHasPoint(band: Band) returns (x: int)
    requires band.runs != [] && NormalRuns(band.runs)
    ensures InRuns(band.runs, x)
  {
    FirstRun(band.runs);
    x := band.runs[0].x0;
  }

  ghost predicate SameCover(a: seq<Band>, b: seq<Band>)
  {
    forall x, y :: InBands(a, x, y) <==> InBands(b, x, y)
  }

  /** If `a` starts no later than `b`, it starts where `b` does, with the same runs. */
  lemma FirstBandsMeet(a: seq<Band>, b: seq<Band>)
    requires NormalBands(a) && NormalBands(b) && a != [] && SameCover(a, b)
    ensures b != [] && b[0].y0 <= a[0].y0
    ensures a[0].y0 <= b[0].y0 ==> a[0].runs == b[0].runs
  {
    var x := BandHasPoint(a[0]);
    var y := a[0].y0;
    RowOfBand(a, 0, x, y);
    assert InBands(b, x, y);
    if y < b[0].y0 {
      NotAboveFirst(b, x, y);
    }
    if y == b[0].y0 {
      forall x ensures InRuns(a[0].runs, x) <==> InRuns(b[0].runs, x) {
        RowOfBand(a, 0, x, y);
        RowOfBand(b, 0, x, y);
        assert InBands(a, x, y) <==> InBands(b, x, y);
      }
      RunsUnique(a[0].runs, b[0].runs);
    }
  }

  /** ... and it does not end before `b` does. */
  lemma FirstBandNoShorter(a: seq<Band>, b: seq<Band>)
    requires NormalBands(a) && NormalBands(b) && a != [] && b != [] && SameCover(a, b)
    requires a[0].y0 == b[0].y0 && a[0].runs == b[0].runs
    ensures a[0].y1 >= b[0].y1
  {
    if a[0].y1 < b[0].y1 {
      var y := a[0].y1;
      var p := BandHasPoint(b[0]);
      RowOfBand(b, 0, p, y);
      assert InBands(a, p, y);
      assert |a| > 1 && a[1].y0 == y;
      forall x ensures InRuns(a[1].runs, x) <==> InRuns(b[0].runs, x) {
        RowOfBand(a, 1, x, y);
        RowOfBand(b, 0, x, y);
        assert InBands(a, x, y) <==> InBands(b, x, y);
      }
      RunsUnique(a[1].runs, b[0].runs);
      assert false;
    }
  }

  /** Normal bands are determined by the pixels they cover. */
  lemma {:induction false} BandsUnique(a: seq<Band>, b: seq<Band>)
    requires NormalBands(a) && NormalBands(b) && SameCover(a, b)
    ensures a == b
    decreases |a|
  {
    if a == [] {
      if b != [] {
        FirstBandsMeet(b, a);
      }
    } else {
      FirstBandsMeet(a, b);
      FirstBandsMeet(b, a);
      FirstBandNoShorter(a, b);
      FirstBandNoShorter(b, a);
      forall x, y ensures InBands(a[1..], x, y) <==> InBands(b[1..], x, y) {
        TailBands(a, x, y);
        TailBands(b, x, y);
        assert InBands(a, x, y) <==> InBands(b, x, y);
      }
      TailBands(a, 0, 0);
      TailBands(b, 0, 0);
      BandsUnique(a[1..], b[1..]);
    }
  }

  /** Extend the last band when the new rows continue it, else start a new one. */
  ghost function Grow(bands: seq<Band>, y0: int, y1: int, runs: seq<Run>): seq<Band>
  {
    if runs == [] then bands
    else if runs == Touching(bands, y0) then
      bands[|bands| - 1 := Band(bands[|bands| - 1].y0, y1, runs)]
    else bands + [Band(y0, y1, runs)]
  }

  /** The runs of the band that ends at `y`, none when no band does. */
  ghost function Touching(bands: seq<Band>, y: int): (runs: seq<Run>)
    ensures runs != [] ==> bands != [] && bands[|bands| - 1].y1 == y
  {
    if bands != [] && bands[|bands| - 1].y1 == y then bands[|bands| - 1].runs else []
  }

  ghost predicate EndBy(bands: seq<Band>, y: int)
  {
    forall i | 0 <= i < |bands| :: bands[i].y1 <= y
  }

  /** The bands cover exactly the pixels of the rows above `y`. */
  ghost predicate CoversAbove(bands: seq<Band>, s: Pixels, y: int)
  {
    && EndBy(bands, y)
    && forall px, py :: InBands(bands, px, py) <==> py < y && (px, py) in s
  }

  ghost predicate RowsAre(s: Pixels, y0: int, y1: int, runs: seq<Run>)
  {
    forall x, y | y0 <= y < y1 :: (x, y) in s <==> InRuns(runs, x)
  }

  lemma AppendedPoint(bands: seq<Band>, b: Band, x: int, y: int)
    ensures InBands(bands + [b], x, y) <==> InBands(bands, x, y) || (b.y0 <= y < b.y1 && InRuns(b.runs, x))
  {
    hide InRuns;
    var grown := bands + [b];
    assert grown[|bands|] == b && forall i | 0 <= i < |bands| :: grown[i] == bands[i];
  }

  lemma LengthenedPoint(bands: seq<Band>, y1: int, x: int, y: int)
    requires bands != [] && bands[|bands| - 1].y0 < bands[|bands| - 1].y1 < y1
    ensures var last := bands[|bands| - 1];
            var longer := bands[|bands| - 1 := Band(last.y0, y1, last.runs)];
            InBands(longer, x, y) <==> InBands(bands, x, y) || (last.y1 <= y < y1 && InRuns(last.runs, x))
  {
    hide InRuns;
    var n, last := |bands| - 1, bands[|bands| - 1];
    var grown := bands[n := Band(last.y0, y1, last.runs)];
    assert grown == bands[..n] + [grown[n]] && bands == bands[..n] + [last];
    AppendedPoint(bands[..n], grown[n], x, y);
    AppendedPoint(bands[..n], last, x, y);
  }

  lemma GrowPoint(bands: seq<Band>, y0: int, y1: int, runs: seq<Run>, x: int, y: int)
    requires (forall i | 0 <= i < |bands| :: bands[i].y0 < bands[i].y1) && EndBy(bands, y0) && y0 < y1
    ensures InBands(Grow(bands, y0, y1, runs), x, y)
       <==> InBands(bands, x, y) || (y0 <= y < y1 && InRuns(runs, x))
  {
    hide InBands;
    if runs == [] {
    } else if runs == Touching(bands, y0) {
      LengthenedPoint(bands, y1, x, y);
    } else {
      AppendedPoint(bands, Band(y0, y1, runs), x, y);
    }
  }

  lemma GrowNormal(bands: seq<Band>, y0: int, y1: int, runs: seq<Run>)
    requires NormalBands(bands) && NormalRuns(runs) && EndBy(bands, y0) && y0 < y1
    ensures NormalBands(Grow(bands, y0, y1, runs)) && EndBy(Grow(bands, y0, y1, runs), y1)
  {
    if runs == [] {
      assert EndBy(bands, y1);
    } else if runs == Touching(bands, y0) {
      LengthenNormal(bands, y0, y1);
      hide NormalBands, EndBy, NormalRuns;
    } else {
      AppendNormal(bands, Band(y0, y1, runs));
      hide NormalBands, EndBy, NormalRuns;
    }
  }

  lemma LengthenNormal(bands: seq<Band>, y0: int, y1: int)
    requires NormalBands(bands) && EndBy(bands, y0) && y0 < y1 && bands != []
    ensures var last := bands[|bands| - 1];
            var longer := bands[|bands| - 1 := Band(last.y0, y1, last.runs)]; NormalBands(longer) && EndBy(longer, y1)
  {
    hide NormalRuns;
  }

  lemma AppendNormal(bands: seq<Band>, b: Band)
    requires NormalBands(bands) && b.y0 < b.y1 && b.runs != [] && NormalRuns(b.runs) && EndBy(bands, b.y0)
    requires bands != [] && bands[|bands| - 1].y1 == b.y0 ==> bands[|bands| - 1].runs != b.runs
    ensures NormalBands(bands + [b]) && EndBy(bands + [b], b.y1)
  {
    hide NormalRuns;
  }

  lemma GrowCovers(bands: seq<Band>, s: Pixels, y0: int, y1: int, runs: seq<Run>)
    requires NormalBands(bands) && CoversAbove(bands, s, y0) && NormalRuns(runs) && y0 < y1
    requires RowsAre(s, y0, y1, runs)
    ensures NormalBands(Grow(bands, y0, y1, runs)) && CoversAbove(Grow(bands, y0, y1, runs), s, y1)
  {
    GrowNormal(bands, y0, y1, runs);
    var grown := Grow(bands, y0, y1, runs);
    hide Grow, NormalRuns;
    forall px, py ensures InBands(grown, px, py) <==> py < y1 && (px, py) in s {
      GrowPoint(bands, y0, y1, runs, px, py);
      assert InBands(bands, px, py) <==> py < y0 && (px, py) in s;
      if y0 <= py < y1 {
        assert (px, py) in s <==> InRuns(runs, px);
      }
    }
  }

  /** The reference decomposition of the rows below `h`, row by row. */
  ghost function RowSweep(s: Pixels, w: nat, h: nat): seq<Band>
  {
    if h == 0 then [] else Grow(RowSweep(s, w, h - 1), h - 1, h, RowRuns(s, h - 1, w))
  }

  lemma EmptySweep(s: Pixels, w: nat)
    ensures RowSweep(s, w, 0) == []
  {
  }

  lemma OneRowMore(s: Pixels, w: nat, h: nat)
    ensures RowSweep(s, w, h + 1) == Grow(RowSweep(s, w, h), h, h + 1, RowRuns(s, h, w))
  {
    hide RowRuns, Grow;
  }

  ghost predicate Inside(s: Pixels, w: nat, h: nat)
  {
    forall p | p in s :: 0 <= p.0 < w && 0 <= p.1 < h
  }

  lemma RowRunsAre(s: Pixels, w: nat, h: nat, y: int)
    requires Inside(s, w, h)
    ensures RowsAre(s, y, y + 1, RowRuns(s, y, w))
  {
    forall x, py | y <= py < y + 1 ensures (x, py) in s <==> InRuns(RowRuns(s, y, w), x) {
      RowRunsCover(s, y, w, x);
      assert (x, py) in s ==> 0 <= (x, py).0 < w;
    }
  }

  lemma {:induction false} RowSweepExact(s: Pixels, w: nat, h: nat, rows: nat)
    requires Inside(s, w, h)
    ensures NormalBands(RowSweep(s, w, rows)) && CoversAbove(RowSweep(s, w, rows), s, rows)
  {
    hide RowSweep, RowRuns, Grow, NormalBands, CoversAbove, RowsAre, NormalRuns, Inside;
    EmptySweep(s, w);
    if rows == 0 {
      NothingAboveTheTop(s, w, h);
    } else {
      var before, runs := RowSweep(s, w, rows - 1), RowRuns(s, rows - 1, w);
      OneRowMore(s, w, rows - 1);
      RowSweepExact(s, w, h, rows - 1);
      RowRunsNormal(s, rows - 1, w);
      RowRunsAre(s, w, h, rows - 1);
      GrowCovers(before, s, rows - 1, rows, runs);
    }
  }

  lemma NothingAboveTheTop(s: Pixels, w: nat, h: nat)
    requires Inside(s, w, h)
    ensures NormalBands([]) && CoversAbove([], s, 0)
  {
    forall px, py ensures InBands([], px, py) <==> py < 0 && (px, py) in s {
      assert (px, py) in s ==> 0 <= (px, py).1;
    }
  }

  // ---- The rectangles of a band list -----------------------------------------------------

  function BandBoxes(b: Band): (boxes: seq<Box>)
    ensures |boxes| == |b.runs|
  {
    seq(|b.runs|, i requires 0 <= i < |b.runs| => Box(b.runs[i].x0, b.y0, b.runs[i].x1, b.y1))
  }

  ghost function Boxes(bands: seq<Band>): seq<Box>
  {
    if bands == [] then [] else Boxes(bands[..|bands| - 1]) + BandBoxes(bands[|bands| - 1])
  }

  ghost predicate InBox(b: Box, x: int, y: int)
  {
    b.x0 <= x < b.x1 && b.y0 <= y < b.y1
  }

  ghost predicate Within(b: Box, bands: seq<Band>)
  {
    exists i, j :: 0 <= i < |bands| && 0 <= j < |bands[i].runs| &&
      b == Box(bands[i].runs[j].x0, bands[i].y0, bands[i].runs[j].x1, bands[i].y1)
  }

  lemma {:induction false} BoxesAreWithin(bands: seq<Band>, k: nat)
    requires k < |Boxes(bands)|
    ensures Within(Boxes(bands)[k], bands)
  {
    var last := |bands| - 1;
    var front := Boxes(bands[..last]);
    if k < |front| {
      BoxesAreWithin(bands[..last], k);
      var b := front[k];
      var i, j :| 0 <= i < last && 0 <= j < |bands[..last][i].runs| &&
        b == Box(bands[..last][i].runs[j].x0, bands[..last][i].y0, bands[..last][i].runs[j].x1, bands[..last][i].y1);
      assert bands[..last][i] == bands[i];
    } else {
      var j := k - |front|;
      assert 0 <= last < |bands| && 0 <= j < |bands[last].runs|;
    }
  }

  lemma {:induction false} EveryRunIsABox(bands: seq<Band>, i: nat, j: nat) returns (k: nat)
    requires i < |bands| && j < |bands[i].runs|
    ensures k < |Boxes(bands)|
    ensures Boxes(bands)[k] == Box(bands[i].runs[j].x0, bands[i].y0, bands[i].runs[j].x1, bands[i].y1)
  {
    var last := |bands| - 1;
    if i == last {
      k := |Boxes(bands[..last])| + j;
    } else {
      assert bands[..last][i] == bands[i];
      k := EveryRunIsABox(bands[..last], i, j);
    }
  }

  ghost predicate Disjoint(a: Box, b: Box)
  {
    forall x, y :: !(InBox(a, x, y) && InBox(b, x, y))
  }

  /** Boxes of the same normal band list do not overlap. */
  lemma {:induction false} BoxesDisjoint(bands: seq<Band>, k: nat, m: nat)
    requires NormalBands(bands) && k < m < |Boxes(bands)|
    ensures Disjoint(Boxes(bands)[k], Boxes(bands)[m])
  {
    var init, last := bands[..|bands| - 1], bands[|bands| - 1];
    var front := Boxes(init);
    assert Boxes(bands) == front + BandBoxes(last);
    hide Boxes, Disjoint, NormalRuns;
    FrontNormal(bands);
    if m < |front| {
      BoxesDisjoint(init, k, m);
    } else if k < |front| {
      BoxesAreWithin(init, k);
      BandsApart(bands, front[k], m - |front|);
    } else {
      RunsApart(last, k - |front|, m - |front|);
    }
  }

  lemma FrontNormal(bands: seq<Band>)
    requires NormalBands(bands) && bands != []
    ensures NormalBands(bands[..|bands| - 1]) && NormalRuns(bands[|bands| - 1].runs)
  {
    hide NormalRuns;
  }

  /** A box of an earlier band ends above the last band. */
  lemma BandsApart(bands: seq<Band>, b: Box, m: nat)
    requires NormalBands(bands) && bands != [] && Within(b, bands[..|bands| - 1]) && m < |bands[|bands| - 1].runs|
    ensures Disjoint(b, BandBoxes(bands[|bands| - 1])[m])
  {
    hide NormalRuns;
    var init := bands[..|bands| - 1];
    var i, j :| 0 <= i < |init| && 0 <= j < |init[i].runs| &&
      b == Box(init[i].runs[j].x0, init[i].y0, init[i].runs[j].x1, init[i].y1);
    assert init[i] == bands[i] && bands[i].y1 <= bands[|bands| - 1].y0;
  }

  lemma RunsApart(b: Band, k: nat, m: nat)
    requires NormalRuns(b.runs) && k < m < |b.runs|
    ensures Disjoint(BandBoxes(b)[k], BandBoxes(b)[m])
  {
    assert b.runs[k].x1 < b.runs[m].x0;
  }

  ghost predicate InSomeBox(boxes: seq<Box>, x: int, y: int)
  {
    exists k :: 0 <= k < |boxes| && InBox(boxes[k], x, y)
  }

  lemma BoxesCover(bands: seq<Band>, x: int, y: int)
    ensures InSomeBox(Boxes(bands), x, y) <==> InBands(bands, x, y)
  {
    var boxes := Boxes(bands);
    if InSomeBox(boxes, x, y) {
      var k :| 0 <= k < |boxes| && InBox(boxes[k], x, y);
      BoxesAreWithin(bands, k);
      var i, j :| 0 <= i < |bands| && 0 <= j < |bands[i].runs| &&
        boxes[k] == Box(bands[i].runs[j].x0, bands[i].y0, bands[i].runs[j].x1, bands[i].y1);
      assert InRuns(bands[i].runs, x);
    }
    if InBands(bands, x, y) {
      var i :| 0 <= i < |bands| && bands[i].y0 <= y < bands[i].y1 && InRuns(bands[i].runs, x);
      var j :| 0 <= j < |bands[i].runs| && bands[i].runs[j].x0 <= x < bands[i].runs[j].x1;
      var k := EveryRunIsABox(bands, i, j);
      assert InBox(boxes[k], x, y);
    }
  }

  lemma GrowBoxes(bands: seq<Band>, y0: int, y1: int, runs: seq<Run>)
    ensures |Boxes(Grow(bands, y0, y1, runs))| >= |Boxes(bands)|
  {
    var grown, last := Grow(bands, y0, y1, runs), |bands| - 1;
    if runs != [] {
      if runs == Touching(bands, y0) {
        assert grown[..last] == bands[..last];
      } else {
        assert grown[..|bands|] == bands;
      }
    }
  }

  lemma {:induction false} MoreRowsMoreBoxes(s: Pixels, w: nat, rows: nat, h: nat)
    requires rows <= h
    ensures |Boxes(RowSweep(s, w, rows))| <= |Boxes(RowSweep(s, w, h))|
  {
    hide RowSweep, RowRuns, Grow, Boxes;
    if rows < h {
      MoreRowsMoreBoxes(s, w, rows, h - 1);
      OneRowMore(s, w, h - 1);
      GrowBoxes(RowSweep(s, w, h - 1), h - 1, h, RowRuns(s, h - 1, w));
    }
  }

  // ---- The covering box --------------------------------------------------------------------

  /** The least box that contains every pixel of a non-empty set. */
  ghost predicate IsHull(b: Box, s: Pixels)
  {
    && (forall p | p in s :: InBox(b, p.0, p.1))
    && (exists p :: p in s && p.0 == b.x0) && (exists p :: p in s && p.0 == b.x1 - 1)
    && (exists p :: p in s && p.1 == b.y0) && (exists p :: p in s && p.1 == b.y1 - 1)
  }

  lemma HullUnique(a: Box, b: Box, s: Pixels)
    requires IsHull(a, s) && IsHull(b, s)
    ensures a == b
  {
    var p :| p in s && p.0 == a.x0;
    p :| p in s && p.0 == b.x0;
    p :| p in s && p.0 == a.x1 - 1;
    p :| p in s && p.0 == b.x1 - 1;
    p :| p in s && p.1 == a.y0;
    p :| p in s && p.1 == b.y0;
    p :| p in s && p.1 == a.y1 - 1;
    p :| p in s && p.1 == b.y1 - 1;
  }
}
