/** Building a raster pyramid, painting on it, and repairing the levels above. */
module RasterPaint {
  import opened Wrappers
  import opened DamagePlanning
  import opened Numbers
  import opened RasterPyramid

  // ---- Chains in a growing pool ------------------------------------------------------

  lemma DecimatedStill(pool: Pool, pool': Pool, child: Level, up: Level, edge: nat, k: Arithmetic)
    requires LevelOk(pool, child, edge) && LevelOk(pool, up, edge) && Halved(child, up)
    requires Decimated(pool, child, up, edge, k) && Extends(pool, pool')
    ensures Decimated(pool', child, up, edge, k)
  {
    ExtendedReads(pool, pool', child, edge);
    ExtendedReads(pool, pool', up, edge);
    forall x, y | InLevel(up, x, y) ensures Texel(pool', up, edge, x, y) == Decimate(pool', child, edge, k, x, y) {
      ParentsAreInside(child, up, x, y);
      DecimateIsLocal(pool, child, pool', child, edge, k, x, y);
    }
  }

  lemma ChainStill(pool: Pool, pool': Pool, levels: seq<Level>, edge: nat, k: Arithmetic)
    requires Chain(pool, levels, edge, k) && Extends(pool, pool')
    ensures Chain(pool', levels, edge, k)
  {
    forall i | 0 <= i < |levels| ensures LevelOk(pool', levels[i], edge) {
      ExtendedReads(pool, pool', levels[i], edge);
    }
    forall i, j | 0 <= i && j == i + 1 < |levels|
      ensures Halved(levels[i], levels[j]) && Decimated(pool', levels[i], levels[j], edge, k)
    {
      DecimatedStill(pool, pool', levels[i], levels[j], edge, k);
    }
  }

  lemma ChainAppend(pool: Pool, levels: seq<Level>, up: Level, edge: nat, k: Arithmetic)
    requires Chain(pool, levels, edge, k) && LevelOk(pool, up, edge)
    requires levels != [] ==> Halved(levels[|levels| - 1], up) && Decimated(pool, levels[|levels| - 1], up, edge, k)
    ensures Chain(pool, levels + [up], edge, k)
  {
    var more := levels + [up];
    forall i, j | 0 <= i && j == i + 1 < |more|
      ensures Halved(more[i], more[j]) && Decimated(pool, more[i], more[j], edge, k)
    {
      if j < |levels| {
        assert more[i] == levels[i] && more[j] == levels[j];
      }
    }
  }

  // ---- Build ---------------------------------------------------------------------------

  function BlankLevel(w: nat, h: nat, edge: nat): (lvl: Level)
    requires edge > 0 && w > 0 && h > 0
    ensures Shape(lvl, edge) && lvl.width == w && lvl.height == h
  {
    var tx, ty := TilesAcross(w, edge), TilesAcross(h, edge);
    Level(w, h, tx, ty, seq(ty, _ => seq(tx, _ => 0)))
  }

  /** The texel of a decimated level's tile: the kernel inside the level, padding
      outside. */
  function Decimating(pool: Pool, child: Level, up: Level, edge: nat, k: Arithmetic): (nat, nat, nat, nat) -> Pixel
    requires edge > 0
  {
    (tx: nat, ty: nat, ix: nat, iy: nat) =>
      if tx * edge + ix < up.width && ty * edge + iy < up.height
      then Decimate(pool, child, edge, k, tx * edge + ix, ty * edge + iy) else TRANSPARENT
  }

  lemma DecimatingAt(pool: Pool, child: Level, up: Level, edge: nat, k: Arithmetic, x: int, y: int)
    requires edge > 0 && InLevel(up, x, y)
    ensures Decimating(pool, child, up, edge, k)(TileOf(x, edge), TileOf(y, edge), x % edge, y % edge)
         == Decimate(pool, child, edge, k, x, y)
  {
    DivMod(x, edge);
    DivMod(y, edge);
  }

  lemma RetiledPixel(pool: Pool, child: Level, up: Level, pool': Pool, up': Level, edge: nat, k: Arithmetic,
                     select: (nat, nat) -> bool, x: int, y: int)
    requires LevelOk(pool, child, edge) && Shape(up, edge) && Halved(child, up) && InLevel(up, x, y)
    requires Retiled(pool, up, pool', up', edge, select, Decimating(pool, child, up, edge, k))
    requires select(TileOf(x, edge), TileOf(y, edge)) ||
             (LevelOk(pool, up, edge) && Texel(pool, up, edge, x, y) == Decimate(pool, child, edge, k, x, y))
    ensures Texel(pool', up', edge, x, y) == Decimate(pool, child, edge, k, x, y) == Decimate(pool', child, edge, k, x, y)
  {
    RetiledReads(pool, up, pool', up', edge, select, Decimating(pool, child, up, edge, k), x, y);
    DecimatingAt(pool, child, up, edge, k, x, y);
    hide Texel, Decimate, Decimating, TileDone;
    ExtendedReads(pool, pool', child, edge);
    ParentsAreInside(child, up, x, y);
    DecimateIsLocal(pool, child, pool', child, edge, k, x, y);
  }

  /** A level whose tiles were all decimated from `child`. */
  lemma RetiledIsDecimated(pool: Pool, child: Level, up: Level, pool': Pool, up': Level, edge: nat, k: Arithmetic,
                           select: (nat, nat) -> bool)
    requires LevelOk(pool, child, edge) && Shape(up, edge) && Halved(child, up)
    requires Retiled(pool, up, pool', up', edge, select, Decimating(pool, child, up, edge, k))
    requires forall tx: nat, ty: nat :: select(tx, ty)
    ensures LevelOk(pool', up', edge) && Decimated(pool', child, up', edge, k)
  {
    RetiledOk(pool, up, pool', up', edge, select, Decimating(pool, child, up, edge, k));
    hide Texel, Decimate, Decimating, TileDone, LevelOk;
    forall x, y | InLevel(up', x, y) ensures Texel(pool', up', edge, x, y) == Decimate(pool', child, edge, k, x, y) {
      DivMod(x, edge);
      DivMod(y, edge);
      assert select(TileOf(x, edge), TileOf(y, edge));
      RetiledPixel(pool, child, up, pool', up', edge, k, select, x, y);
    }
  }

  lemma DecimatingPads(pool: Pool, child: Level, up: Level, edge: nat, k: Arithmetic)
    requires edge > 0
    ensures Pads(up, edge, Decimating(pool, child, up, edge, k))
  {
    hide Decimate;
  }

  /** `append_higher_levels`: decimate until one pixel is left. */
  method AppendHigherLevels(pool: Pool, base: seq<Level>, edge: nat, k: Arithmetic) returns (pool': Pool, levels: seq<Level>)
    requires PoolOk(pool) && base != [] && Chain(pool, base, edge, k) && edge > 0
    ensures PoolOk(pool') && Extends(pool, pool')
    ensures IsPyramid(pool', levels, edge, k) && base <= levels
    ensures AllPadded(pool, base, edge) ==> AllPadded(pool', levels, edge)
  {
    hide Padded, AllPadded, Pads, Decimating;
    pool', levels := pool, base;
    while levels[|levels| - 1].width > 1 || levels[|levels| - 1].height > 1
      invariant levels != [] && base <= levels && Chain(pool', levels, edge, k)
      invariant PoolOk(pool') && Extends(pool, pool')
      invariant AllPadded(pool, base, edge) ==> AllPadded(pool', levels, edge)
      decreases levels[|levels| - 1].width + levels[|levels| - 1].height
    {
      var child := levels[|levels| - 1];
      assert LevelOk(pool', child, edge);
      var up := BlankLevel(HalfUp(child.width), HalfUp(child.height), edge);
      var select := (tx: nat, ty: nat) => true;
      var pool2, up2 := Retile(pool', up, edge, select, Decimating(pool', child, up, edge, k));
      RetiledIsDecimated(pool', child, up, pool2, up2, edge, k, select);
      ChainStill(pool', pool2, levels, edge, k);
      ChainAppend(pool2, levels, up2, edge, k);
      DecimatingPads(pool', child, up, edge, k);
      RetiledPads(pool', up, pool2, up2, edge, select, Decimating(pool', child, up, edge, k));
      StillPadded(pool', pool2, levels, edge);
      if AllPadded(pool2, levels, edge) {
        OneMorePadded(pool2, levels, up2, edge);
      }
      pool', levels := pool2, levels + [up2];
    }
  }

  /** The texel of a level-0 tile: the decoded grid, padded beyond its extent. */
  function FromGrid(grid: (nat, nat) -> Pixel, w: nat, h: nat, edge: nat): (nat, nat, nat, nat) -> Pixel
  {
    (tx: nat, ty: nat, ix: nat, iy: nat) =>
      if tx * edge + ix < w && ty * edge + iy < h then grid(tx * edge + ix, ty * edge + iy) else TRANSPARENT
  }

  lemma FromGridAt(grid: (nat, nat) -> Pixel, w: nat, h: nat, edge: nat, x: nat, y: nat)
    requires edge > 0 && x < w && y < h
    ensures FromGrid(grid, w, h, edge)(TileOf(x, edge), TileOf(y, edge), x % edge, y % edge) == grid(x, y)
  {
    DivMod(x, edge);
    DivMod(y, edge);
  }

  /** Level 0 from a dense grid: its pixels, and transparent padding. */
  method BuildLevel0(pool: Pool, grid: (nat, nat) -> Pixel, w: nat, h: nat, edge: nat) returns (pool': Pool, level0: Level)
    requires PoolOk(pool) && edge > 0 && w > 0 && h > 0
    ensures PoolOk(pool') && Extends(pool, pool') && LevelOk(pool', level0, edge) && Padded(pool', level0, edge)
    ensures level0.width == w && level0.height == h
    ensures forall x: nat, y: nat | x < w && y < h :: Texel(pool', level0, edge, x, y) == grid(x, y)
  {
    var blank := BlankLevel(w, h, edge);
    var select := (tx: nat, ty: nat) => true;
    var texel := FromGrid(grid, w, h, edge);
    pool', level0 := Retile(pool, blank, edge, select, texel);
    RetiledOk(pool, blank, pool', level0, edge, select, texel);
    RetiledPads(pool, blank, pool', level0, edge, select, texel);
    hide Texel, FromGrid, Padded;
    forall x: nat, y: nat | x < w && y < h ensures Texel(pool', level0, edge, x, y) == grid(x, y) {
      RetiledReads(pool, blank, pool', level0, edge, select, texel, x, y);
      FromGridAt(grid, w, h, edge, x, y);
    }
  }

  /** A full build from a dense grid. */
  method Build(pool: Pool, grid: (nat, nat) -> Pixel, w: nat, h: nat, edge: nat, k: Arithmetic)
    returns (pool': Pool, levels: seq<Level>)
    requires PoolOk(pool) && edge > 0 && w > 0 && h > 0
    ensures PoolOk(pool') && Extends(pool, pool')
    ensures IsPyramid(pool', levels, edge, k) && levels != []
    ensures levels[0].width == w && levels[0].height == h && AllPadded(pool', levels, edge)
    ensures forall x: nat, y: nat | x < w && y < h :: Texel(pool', levels[0], edge, x, y) == grid(x, y)
  {
    var pool1, level0 := BuildLevel0(pool, grid, w, h, edge);
    ChainAppend(pool1, [], level0, edge, k);
    assert [] + [level0] == [level0];
    assert AllPadded(pool1, [level0], edge);
    hide Texel, Padded, AllPadded, Chain;
    pool', levels := AppendHigherLevels(pool1, [level0], edge, k);
    ExtendedReads(pool1, pool', level0, edge);
    forall x: nat, y: nat | x < w && y < h ensures Texel(pool', levels[0], edge, x, y) == grid(x, y) {
      assert InLevel(level0, x, y);
    }
  }

  // ---- What a paint touches ----------------------------------------------------------------

  /** The pixel's centre lies in the region. */
  predicate CenterInside(r: Rect, x: int, y: int)
  {
    var cx, cy := Fin(x as real + 0.5), Fin(y as real + 0.5);
    !Less(cx, r.x0) && Less(cx, r.x1) && !Less(cy, r.y0) && Less(cy, r.y1)
  }

  /** The tile and the region overlap in more than an edge. */
  predicate TileOverlaps(tx: nat, ty: nat, edge: nat, r: Rect)
  {
    && Less(r.x0, r.x1) && Less(r.y0, r.y1)
    && Less(r.x0, Fin(((tx + 1) * edge) as real)) && Less(Fin((tx * edge) as real), r.x1)
    && Less(r.y0, Fin(((ty + 1) * edge) as real)) && Less(Fin((ty * edge) as real), r.y1)
  }

  /** The half-open span from `lo` to `hi` holds the real `v`. */
  ghost predicate Spans(lo: Coord, hi: Coord, v: real)
  {
    (lo == NegInf || (lo.Fin? && lo.value <= v)) && (hi == PosInf || (hi.Fin? && v < hi.value))
  }

  lemma CenterIsSpanned(r: Rect, x: int, y: int)
    ensures CenterInside(r, x, y) <==> Spans(r.x0, r.x1, x as real + 0.5) && Spans(r.y0, r.y1, y as real + 0.5)
  {
  }

  /** A real strictly between two coordinates. */
  lemma Between(lo: Coord, hi: Coord) returns (v: real)
    requires Less(lo, hi)
    ensures Less(lo, Fin(v)) && Less(Fin(v), hi)
  {
    match (lo, hi)
    case (Fin(a), Fin(b)) => v := (a + b) / 2.0;
    case (Fin(a), _) => v := a + 1.0;
    case (_, Fin(b)) => v := b - 1.0;
    case _ => v := 0.0;
  }

  /** The point lies inside the region, off its border. */
  ghost predicate Within(r: Rect, x: real, y: real)
  {
    Less(r.x0, Fin(x)) && Less(Fin(x), r.x1) && Less(r.y0, Fin(y)) && Less(Fin(y), r.y1)
  }

  /** A tile overlaps a region exactly when they share a point off both their borders. */
  lemma OverlapIsShared(tx: nat, ty: nat, edge: nat, r: Rect)
    requires edge > 0
    ensures var x0, y0 := (tx * edge) as real, (ty * edge) as real;
            TileOverlaps(tx, ty, edge, r) <==>
              exists x, y :: Within(r, x, y) && x0 < x < x0 + edge as real && y0 < y < y0 + edge as real
  {
    var x0, y0 := (tx * edge) as real, (ty * edge) as real;
    assert ((tx + 1) * edge) as real == x0 + edge as real && ((ty + 1) * edge) as real == y0 + edge as real;
    if TileOverlaps(tx, ty, edge, r) {
      var x := Between(if Less(r.x0, Fin(x0)) then Fin(x0) else r.x0, if Less(r.x1, Fin(x0 + edge as real)) then r.x1 else Fin(x0 + edge as real));
      var y := Between(if Less(r.y0, Fin(y0)) then Fin(y0) else r.y0, if Less(r.y1, Fin(y0 + edge as real)) then r.y1 else Fin(y0 + edge as real));
      assert Within(r, x, y);
    }
  }

  lemma CenterInSpan(c0: Coord, c1: Coord, x: int, lo: int, hi: int)
    requires lo <= x < hi
    requires !Less(Fin(x as real + 0.5), c0) && Less(Fin(x as real + 0.5), c1)
    ensures Less(c0, c1) && Less(c0, Fin(hi as real)) && Less(Fin(lo as real), c1)
  {
  }

  lemma CenterMeansOverlap(r: Rect, x: nat, y: nat, edge: nat)
    requires edge > 0 && CenterInside(r, x, y)
    ensures TileOverlaps(TileOf(x, edge), TileOf(y, edge), edge, r)
  {
    DivMod(x, edge);
    DivMod(y, edge);
    CenterInSpan(r.x0, r.x1, x, TileOf(x, edge) * edge, (TileOf(x, edge) + 1) * edge);
    CenterInSpan(r.y0, r.y1, y, TileOf(y, edge) * edge, (TileOf(y, edge) + 1) * edge);
  }

  predicate TileMeets(tx: nat, ty: nat, edge: nat, b: Box)
  {
    && Max(tx * edge, b.x0) < Min((tx + 1) * edge, b.x1)
    && Max(ty * edge, b.y0) < Min((ty + 1) * edge, b.y1)
  }

  /** A tile meets a rectangle of pixels exactly when a pixel of the tile lies in it. */
  lemma MeetIsShared(tx: nat, ty: nat, edge: nat, b: Box)
    requires edge > 0
    ensures TileMeets(tx, ty, edge, b) <==>
              exists x: nat, y: nat :: InBox(b, x, y) && TileOf(x, edge) == tx && TileOf(y, edge) == ty
  {
    assert (tx + 1) * edge == tx * edge + edge && (ty + 1) * edge == ty * edge + edge;
    if TileMeets(tx, ty, edge, b) {
      var x, y := Max(tx * edge, b.x0), Max(ty * edge, b.y0);
      DivUnique(x, edge, tx, x - tx * edge);
      DivUnique(y, edge, ty, y - ty * edge);
      assert InBox(b, x, y);
    }
    if x: nat, y: nat :| InBox(b, x, y) && TileOf(x, edge) == tx && TileOf(y, edge) == ty {
      PixelMeansMeets(b, x, y, edge);
    }
  }

  lemma PixelMeansMeets(b: Box, x: nat, y: nat, edge: nat)
    requires edge > 0 && InBox(b, x, y)
    ensures TileMeets(TileOf(x, edge), TileOf(y, edge), edge, b)
  {
    DivMod(x, edge);
    DivMod(y, edge);
  }

  /** The tile's rectangle, cut off at the level's extent. */
  function TileBox(tx: nat, ty: nat, edge: nat, lvl: Level): Box
  {
    Box(tx * edge, ty * edge, Min((tx + 1) * edge, lvl.width), Min((ty + 1) * edge, lvl.height))
  }

  /** ... which holds exactly the level's pixels that lie in the tile. */
  lemma TileBoxHolds(tx: nat, ty: nat, edge: nat, lvl: Level, x: nat, y: nat)
    requires edge > 0
    ensures InBox(TileBox(tx, ty, edge, lvl), x, y) <==> InLevel(lvl, x, y) && TileOf(x, edge) == tx && TileOf(y, edge) == ty
  {
    InTile(tx, edge, x);
    InTile(ty, edge, y);
  }

  lemma InTile(t: nat, edge: nat, x: nat)
    requires edge > 0
    ensures TileOf(x, edge) == t <==> t * edge <= x < (t + 1) * edge
  {
    DivMod(x, edge);
    assert (t + 1) * edge == t * edge + edge;
    if t * edge <= x < (t + 1) * edge {
      DivUnique(x, edge, t, x - t * edge);
    }
  }

  function Union(a: Box, b: Box): Box
  {
    Box(Min(a.x0, b.x0), Min(a.y0, b.y0), Max(a.x1, b.x1), Max(a.y1, b.y1))
  }

  ghost predicate Holds(a: Box, b: Box)
  {
    a.x0 <= b.x0 && a.y0 <= b.y0 && b.x1 <= a.x1 && b.y1 <= a.y1
  }

  /** The rectangles of the tiles a paint touches. */
  ghost function TouchedTiles(lvl: Level, edge: nat, r: Rect): set<Box>
  {
    set tx: nat, ty: nat | tx < lvl.tilesX && ty < lvl.tilesY && TileOverlaps(tx, ty, edge, r) :: TileBox(tx, ty, edge, lvl)
  }

  /** The rectangle of everything a paint may have changed on level 0: the union of
      the touched tiles, absent when there are none. */
  method TouchedBox(lvl: Level, edge: nat, r: Rect) returns (touched: Option<Box>)
    ensures LeastAround(touched, TouchedTiles(lvl, edge, r))
  {
    touched := None;
    ghost var boxes: set<Box> := {};
    for ty := 0 to lvl.tilesY
      invariant LeastAround(touched, boxes) && boxes <= TouchedTiles(lvl, edge, r)
      invariant forall i: nat, j: nat | j < ty && i < lvl.tilesX && TileOverlaps(i, j, edge, r) ::
                  TileBox(i, j, edge, lvl) in boxes
    {
      for tx := 0 to lvl.tilesX
        invariant LeastAround(touched, boxes) && boxes <= TouchedTiles(lvl, edge, r)
        invariant forall i: nat, j: nat | j < ty && i < lvl.tilesX && TileOverlaps(i, j, edge, r) ::
                    TileBox(i, j, edge, lvl) in boxes
        invariant forall i: nat | i < tx && TileOverlaps(i, ty, edge, r) :: TileBox(i, ty, edge, lvl) in boxes
      {
        hide TileOverlaps, LeastAround;
        if TileOverlaps(tx, ty, edge, r) {
          var tile := TileBox(tx, ty, edge, lvl);
          LeastAroundMore(touched, boxes, tile);
          touched := Some(if touched.Some? then Union(touched.value, tile) else tile);
          boxes := boxes + {tile};
        }
      }
    }
    assert boxes == TouchedTiles(lvl, edge, r);
  }

  lemma LeastAroundMore(b: Option<Box>, boxes: set<Box>, c: Box)
    requires LeastAround(b, boxes)
    ensures LeastAround(Some(if b.Some? then Union(b.value, c) else c), boxes + {c})
  {
    var more, u := boxes + {c}, if b.Some? then Union(b.value, c) else c;
    forall d: Box | forall e | e in more :: Holds(d, e) ensures Holds(d, u) {
      assert c in more && forall e | e in boxes :: e in more;
      assert Holds(d, c);
      if b.Some? {
        assert forall e | e in boxes :: Holds(d, e);
        assert Holds(d, b.value);
      }
    }
  }

  /** The least box around a set of boxes, absent for the empty set. */
  ghost predicate LeastAround(b: Option<Box>, boxes: set<Box>)
  {
    && (b.None? ==> boxes == {})
    && (b.Some? ==>
          && (forall c | c in boxes :: Holds(b.value, c))
          && (forall d: Box | (forall c | c in boxes :: Holds(d, c)) :: Holds(d, b.value)))
  }

  // ---- The repair of the levels above ----------------------------------------------------------

  function CeilHalf(v: int): int
  {
    (v + 1) / 2
  }

  /** The parents whose support may reach the dirty child rectangle. */
  function ParentBox(b: Box): Box
  {
    Box((b.x0 - RADIUS) / 2, (b.y0 - RADIUS) / 2, CeilHalf(b.x1 + RADIUS), CeilHalf(b.y1 + RADIUS))
  }

  /** A parent is among them exactly when its two by two pixels, three pixels further out on
      every side, reach the rectangle. */
  lemma ParentBoxExactly(b: Box, x: int, y: int)
    ensures InBox(ParentBox(b), x, y) <==>
              2 * x - 3 < b.x1 && b.x0 <= 2 * x + 1 + 3 && 2 * y - 3 < b.y1 && b.y0 <= 2 * y + 1 + 3
  {
  }

  function Propagated(touched: Box, l: nat): Box
  {
    if l == 0 then touched else ParentBox(Propagated(touched, l - 1))
  }

  /** The dilation is wide enough: a parent outside the parent box reads no dirty
      child pixel. */
  lemma SupportMisses(b: Box, x: int, y: int, cx: int, cy: int)
    requires !InBox(ParentBox(b), x, y)
    requires 2 * x - 2 <= cx <= 2 * x + 3 && 2 * y - 2 <= cy <= 2 * y + 3
    ensures !InBox(b, cx, cy)
  {
  }

  ghost predicate SameOutside(pool: Pool, lvl: Level, pool': Pool, lvl': Level, edge: nat, b: Box)
    requires edge > 0
  {
    && lvl.width == lvl'.width && lvl.height == lvl'.height
    && forall x, y | InLevel(lvl, x, y) && !InBox(b, x, y) ::
         Texel(pool, lvl, edge, x, y) == Texel(pool', lvl', edge, x, y)
  }

  lemma DecimateOutside(pool: Pool, child: Level, pool': Pool, child': Level, edge: nat, k: Arithmetic, b: Box, x: int, y: int)
    requires edge > 0 && child.width > 0 && child.height > 0
    requires SameOutside(pool, child, pool', child', edge, b) && !InBox(ParentBox(b), x, y)
    requires 0 <= x && 2 * x <= child.width - 1 && 0 <= y && 2 * y <= child.height - 1
    ensures Decimate(pool, child, edge, k, x, y) == Decimate(pool', child', edge, k, x, y)
  {
    forall cx, cy | 2 * x - 2 <= cx <= 2 * x + 3 && 2 * y - 2 <= cy <= 2 * y + 3 && InLevel(child, cx, cy)
      ensures Texel(pool, child, edge, cx, cy) == Texel(pool', child', edge, cx, cy)
    {
      SupportMisses(b, x, y, cx, cy);
    }
    DecimateIsLocal(pool, child, pool', child', edge, k, x, y);
  }

  ghost predicate MeetingTiles(select: (nat, nat) -> bool, edge: nat, b: Box)
  {
    forall tx: nat, ty: nat :: select(tx, ty) == TileMeets(tx, ty, edge, b)
  }

  lemma RungPixel(pool0: Pool, child0: Level, up: Level, pool1: Pool, child1: Level, b: Box, pool': Pool, up': Level,
                  edge: nat, k: Arithmetic, select: (nat, nat) -> bool, x: int, y: int)
    requires LevelOk(pool0, child0, edge) && LevelOk(pool0, up, edge) && Halved(child0, up) && Extends(pool0, pool1)
    requires LevelOk(pool1, child1, edge) && SameOutside(pool0, child0, pool1, child1, edge, b)
    requires MeetingTiles(select, edge, ParentBox(b)) && InLevel(up, x, y)
    requires Texel(pool0, up, edge, x, y) == Decimate(pool0, child0, edge, k, x, y)
    requires Retiled(pool1, up, pool', up', edge, select, Decimating(pool1, child1, up, edge, k))
    ensures Texel(pool', up', edge, x, y) == Decimate(pool', child1, edge, k, x, y)
    ensures !InBox(ParentBox(b), x, y) ==> Texel(pool', up', edge, x, y) == Texel(pool0, up, edge, x, y)
  {
    hide Texel, Decimate, Decimating, TileDone, TileMeets;
    ExtendedReads(pool0, pool1, up, edge);
    ParentsAreInside(child0, up, x, y);
    if !InBox(ParentBox(b), x, y) {
      DecimateOutside(pool0, child0, pool1, child1, edge, k, b, x, y);
    } else {
      PixelMeansMeets(ParentBox(b), x, y, edge);
      assert select(TileOf(x, edge), TileOf(y, edge));
    }
    RetiledPixel(pool1, child1, up, pool', up', edge, k, select, x, y);
  }

  /** One rung of the repair: recomputing only the tiles over the parent box leaves
      the whole level the decimation of the new child. */
  lemma RepairRung(pool0: Pool, child0: Level, up: Level, pool1: Pool, child1: Level, b: Box, pool': Pool, up': Level,
                   edge: nat, k: Arithmetic, select: (nat, nat) -> bool)
    requires LevelOk(pool0, child0, edge) && LevelOk(pool0, up, edge) && Halved(child0, up)
    requires Decimated(pool0, child0, up, edge, k) && Extends(pool0, pool1)
    requires LevelOk(pool1, child1, edge) && SameOutside(pool0, child0, pool1, child1, edge, b)
    requires MeetingTiles(select, edge, ParentBox(b))
    requires Retiled(pool1, up, pool', up', edge, select, Decimating(pool1, child1, up, edge, k))
    ensures LevelOk(pool', up', edge) && Halved(child1, up') && Decimated(pool', child1, up', edge, k)
    ensures SameOutside(pool0, up, pool', up', edge, ParentBox(b))
  {
    ExtendedReads(pool0, pool1, up, edge);
    RetiledOk(pool1, up, pool', up', edge, select, Decimating(pool1, child1, up, edge, k));
    hide Texel, Decimate, Decimating, TileDone, MeetingTiles, LevelOk;
    forall x, y | InLevel(up, x, y)
      ensures Texel(pool', up', edge, x, y) == Decimate(pool', child1, edge, k, x, y)
      ensures !InBox(ParentBox(b), x, y) ==> Texel(pool0, up, edge, x, y) == Texel(pool', up', edge, x, y)
    {
      RungPixel(pool0, child0, up, pool1, child1, b, pool', up', edge, k, select, x, y);
    }
  }

  // ---- Paint ---------------------------------------------------------------------------------------

  function TileRef(lvl: Level, tx: nat, ty: nat): Ref
  {
    if ty < |lvl.tiles| && tx < |lvl.tiles[ty]| then lvl.tiles[ty][tx] else 0
  }

  /** The predecessor's blob with the covered pixels blended, padding included. */
  function Painting(pool: Pool, lvl: Level, edge: nat, k: Arithmetic, r: Rect, color: Pixel,
                    coverage: (nat, nat) -> Coverage): (nat, nat, nat, nat) -> Pixel
  {
    (tx: nat, ty: nat, ix: nat, iy: nat) =>
      var x, y, dst := tx * edge + ix, ty * edge + iy, BlobAt(pool, TileRef(lvl, tx, ty), ix, iy);
      if x < lvl.width && y < lvl.height && CenterInside(r, x, y) then k.over(dst, color, coverage(x, y)) else dst
  }

  /** Level 0 after the paint: source-over at every covered centre, nothing else. */
  ghost predicate Painted(pool: Pool, lvl: Level, pool': Pool, lvl': Level, edge: nat, k: Arithmetic, r: Rect,
                          color: Pixel, coverage: (nat, nat) -> Coverage)
    requires edge > 0
  {
    && lvl'.width == lvl.width && lvl'.height == lvl.height
    && forall x: nat, y: nat | InLevel(lvl, x, y) ::
         Texel(pool', lvl', edge, x, y) ==
         if CenterInside(r, x, y) then k.over(Texel(pool, lvl, edge, x, y), color, coverage(x, y))
         else Texel(pool, lvl, edge, x, y)
  }

  lemma PaintedPixel(pool: Pool, lvl: Level, pool': Pool, lvl': Level, edge: nat, k: Arithmetic, r: Rect, color: Pixel,
                     coverage: (nat, nat) -> Coverage, select: (nat, nat) -> bool, x: nat, y: nat)
    requires LevelOk(pool, lvl, edge) && InLevel(lvl, x, y)
    requires forall tx: nat, ty: nat :: select(tx, ty) == TileOverlaps(tx, ty, edge, r)
    requires Retiled(pool, lvl, pool', lvl', edge, select, Painting(pool, lvl, edge, k, r, color, coverage))
    ensures Texel(pool', lvl', edge, x, y) ==
            if CenterInside(r, x, y) then k.over(Texel(pool, lvl, edge, x, y), color, coverage(x, y))
            else Texel(pool, lvl, edge, x, y)
  {
    PixelsTileExists(x, lvl.width, edge);
    PixelsTileExists(y, lvl.height, edge);
    DivMod(x, edge);
    DivMod(y, edge);
    RetiledReads(pool, lvl, pool', lvl', edge, select, Painting(pool, lvl, edge, k, r, color, coverage), x, y);
    PaintingAt(pool, lvl, edge, k, r, color, coverage, x, y);
    if CenterInside(r, x, y) {
      CenterMeansOverlap(r, x, y, edge);
    }
    assert select(TileOf(x, edge), TileOf(y, edge)) == TileOverlaps(TileOf(x, edge), TileOf(y, edge), edge, r);
  }

  lemma PaintingAt(pool: Pool, lvl: Level, edge: nat, k: Arithmetic, r: Rect, color: Pixel,
                   coverage: (nat, nat) -> Coverage, x: nat, y: nat)
    requires Shape(lvl, edge) && InLevel(lvl, x, y)
    ensures Painting(pool, lvl, edge, k, r, color, coverage)(TileOf(x, edge), TileOf(y, edge), x % edge, y % edge) ==
            if CenterInside(r, x, y) then k.over(Texel(pool, lvl, edge, x, y), color, coverage(x, y))
            else Texel(pool, lvl, edge, x, y)
  {
    var tx, ty, ix, iy := TileOf(x, edge), TileOf(y, edge), x % edge, y % edge;
    DivMod(x, edge);
    DivMod(y, edge);
    assert tx * edge + ix == x && ty * edge + iy == y;
    TexelInTile(pool, lvl, edge, x, y);
    hide Texel, BlobAt, TileRef, CenterInside, Shape, TileOf;
    var dst := BlobAt(pool, TileRef(lvl, tx, ty), ix, iy);
    assert Painting(pool, lvl, edge, k, r, color, coverage)(tx, ty, ix, iy) ==
           if x < lvl.width && y < lvl.height && CenterInside(r, x, y) then k.over(dst, color, coverage(x, y)) else dst;
  }

  lemma TexelInTile(pool: Pool, lvl: Level, edge: nat, x: nat, y: nat)
    requires Shape(lvl, edge) && InLevel(lvl, x, y)
    ensures Texel(pool, lvl, edge, x, y) == BlobAt(pool, TileRef(lvl, TileOf(x, edge), TileOf(y, edge)), x % edge, y % edge)
  {
    PixelsTileExists(x, lvl.width, edge);
    PixelsTileExists(y, lvl.height, edge);
    DivMod(x, edge);
    DivMod(y, edge);
  }

  /** Pixels outside the touched rectangle keep their value. */
  lemma UntouchedPixel(pool: Pool, lvl: Level, pool': Pool, lvl': Level, edge: nat, r: Rect, b: Box,
                       select: (nat, nat) -> bool, texel: (nat, nat, nat, nat) -> Pixel, x: nat, y: nat)
    requires LevelOk(pool, lvl, edge) && InLevel(lvl, x, y) && !InBox(b, x, y)
    requires forall tx: nat, ty: nat :: select(tx, ty) == TileOverlaps(tx, ty, edge, r)
    requires forall c | c in TouchedTiles(lvl, edge, r) :: Holds(b, c)
    requires Retiled(pool, lvl, pool', lvl', edge, select, texel)
    ensures Texel(pool', lvl', edge, x, y) == Texel(pool, lvl, edge, x, y)
  {
    PixelsTileExists(x, lvl.width, edge);
    PixelsTileExists(y, lvl.height, edge);
    DivMod(x, edge);
    DivMod(y, edge);
    var tx, ty := TileOf(x, edge), TileOf(y, edge);
    assert select(tx, ty) == TileOverlaps(tx, ty, edge, r);
    assert !TileOverlaps(tx, ty, edge, r) by {
      assert InBox(TileBox(tx, ty, edge, lvl), x, y);
      assert !Holds(b, TileBox(tx, ty, edge, lvl));
      assert TileOverlaps(tx, ty, edge, r) ==> TileBox(tx, ty, edge, lvl) in TouchedTiles(lvl, edge, r);
    }
    RetiledReads(pool, lvl, pool', lvl', edge, select, texel, x, y);
  }

  /** Level `l` shares every tile the paint's propagated rectangle does not reach. */
  ghost predicate SharesFarTiles(lvl: Level, lvl': Level, edge: nat, reached: Box)
  {
    forall tx: nat, ty: nat | tx < lvl.tilesX && ty < lvl.tilesY && !TileMeets(tx, ty, edge, reached) ::
      TileRef(lvl', tx, ty) == TileRef(lvl, tx, ty)
  }

  lemma RetiledShares(pool: Pool, lvl: Level, pool': Pool, lvl': Level, edge: nat, b: Box,
                      select: (nat, nat) -> bool, texel: (nat, nat, nat, nat) -> Pixel)
    requires Shape(lvl, edge) && MeetingTiles(select, edge, b)
    requires Retiled(pool, lvl, pool', lvl', edge, select, texel)
    ensures SharesFarTiles(lvl, lvl', edge, b)
  {
    forall tx: nat, ty: nat | tx < lvl.tilesX && ty < lvl.tilesY && !TileMeets(tx, ty, edge, b)
      ensures TileRef(lvl', tx, ty) == TileRef(lvl, tx, ty)
    {
      assert TileDone(pool, lvl, pool', lvl', edge, tx, ty, select, texel);
      assert select(tx, ty) == TileMeets(tx, ty, edge, b);
    }
  }

  ghost function ReachedTiles(lvl: Level, edge: nat, b: Box): set<(nat, nat)>
  {
    set tx: nat, ty: nat | tx < lvl.tilesX && ty < lvl.tilesY && TileMeets(tx, ty, edge, b) :: (tx, ty)
  }

  /** How many tiles of the levels above level 0, below `n`, the propagated rectangle reaches. */
  ghost function Rebuilt(base: seq<Level>, edge: nat, touched: Box, n: nat): nat
    requires n <= |base|
  {
    if n <= 1 then 0
    else Rebuilt(base, edge, touched, n - 1) + |ReachedTiles(base[n - 1], edge, Propagated(touched, n - 1))|
  }

  lemma RebuiltStep(base: seq<Level>, edge: nat, touched: Box, l: nat)
    requires 0 < l < |base|
    ensures Rebuilt(base, edge, touched, l + 1)
         == Rebuilt(base, edge, touched, l) + |ReachedTiles(base[l], edge, Propagated(touched, l))|
  {
  }

  lemma GrownOn(pool0: Pool, pool1: Pool, pool2: Pool, m: nat, n: nat)
    requires Grown(pool0, pool1, m) && Grown(pool1, pool2, n)
    ensures Grown(pool0, pool2, m + n)
  {
  }

  /** The repaired table: still a pyramid, and above level 0 only tiles over the
      dilated rectangle are new. */
  method RepairAbove(pool0: Pool, base: seq<Level>, pool1: Pool, level0: Level, edge: nat, k: Arithmetic, touched: Box)
    returns (pool': Pool, levels: seq<Level>)
    requires PoolOk(pool1) && Extends(pool0, pool1) && IsPyramid(pool0, base, edge, k) && edge > 0
    requires LevelOk(pool1, level0, edge) && SameOutside(pool0, base[0], pool1, level0, edge, touched)
    ensures PoolOk(pool') && Extends(pool1, pool') && IsPyramid(pool', levels, edge, k)
    ensures |levels| == |base| && levels[0] == level0
    ensures forall l: nat | 0 < l < |base| :: SharesFarTiles(base[l], levels[l], edge, Propagated(touched, l))
    ensures Grown(pool1, pool', Rebuilt(base, edge, touched, |base|))
    ensures AllPadded(pool0, base, edge) && Padded(pool1, level0, edge) ==> AllPadded(pool', levels, edge)
  {
    pool', levels := pool1, [level0];
    var propagate := touched;
    assert RepairedTo(pool0, base, pool1, level0, edge, k, touched, pool', levels, propagate) by {
      ChainAppend(pool1, [], level0, edge, k);
      assert [] + [level0] == [level0];
    }
    while |levels| < |base|
      invariant RepairedTo(pool0, base, pool1, level0, edge, k, touched, pool', levels, propagate)
      decreases |base| - |levels|
    {
      hide *;
      pool', levels := RepairNext(pool0, base, pool1, level0, edge, k, touched, pool', levels, propagate);
      propagate := ParentBox(propagate);
    }
    hide Chain, SameOutside, Decimated, Halved, FarTilesShared, Propagated, LevelOk, Extends, PoolOk, Grown, Rebuilt;
    LastIsOnePixel(pool0, base, pool', levels, edge, k, propagate);
    FarTilesAt(base, levels, edge, touched);
  }

  /** The repair between two levels: `levels` are done, and `propagate` is what the next
      one has to follow. */
  ghost predicate RepairedTo(pool0: Pool, base: seq<Level>, pool1: Pool, level0: Level, edge: nat, k: Arithmetic, touched: Box,
                             pool': Pool, levels: seq<Level>, propagate: Box)
  {
    && PoolOk(pool') && Extends(pool1, pool') && Extends(pool0, pool') && edge > 0
    && 0 < |levels| <= |base| && levels[0] == level0 && Chain(pool', levels, edge, k)
    && propagate == Propagated(touched, |levels| - 1)
    && SameOutside(pool0, base[|levels| - 1], pool', levels[|levels| - 1], edge, propagate)
    && FarTilesShared(base, levels, edge, touched) && Grown(pool1, pool', Rebuilt(base, edge, touched, |levels|))
    && (AllPadded(pool0, base, edge) && Padded(pool1, level0, edge) ==> AllPadded(pool', levels, edge))
  }

  method RepairNext(ghost pool0: Pool, base: seq<Level>, ghost pool1: Pool, ghost level0: Level, edge: nat, k: Arithmetic,
                    ghost touched: Box, pool2: Pool, levels: seq<Level>, propagate: Box)
    returns (pool': Pool, levels': seq<Level>)
    requires IsPyramid(pool0, base, edge, k)
    requires RepairedTo(pool0, base, pool1, level0, edge, k, touched, pool2, levels, propagate) && |levels| < |base|
    ensures RepairedTo(pool0, base, pool1, level0, edge, k, touched, pool', levels', ParentBox(propagate))
    ensures |levels'| == |levels| + 1
  {
    hide Chain, SameOutside, Decimated, Halved, FarTilesShared, Propagated, LevelOk, Extends, PoolOk, Grown, ReachedTiles,
         Rebuilt, ParentBox, Padded, AllPadded;
    var l := |levels|;
    var child, up := levels[l - 1], base[l];
    ChainAt(pool0, base, edge, k, l);
    ChainAt(pool2, levels, edge, k, l - 1);
    var up';
    pool', up' := RepairLevel(pool0, base[l - 1], up, pool2, child, edge, k, propagate);
    levels' := levels + [up'];
    ChainStill(pool2, pool', levels, edge, k);
    ChainAppend(pool', levels, up', edge, k);
    PropagatedStep(touched, l);
    FarTilesStep(base, levels, up', edge, touched);
    GrownOn(pool1, pool2, pool', Rebuilt(base, edge, touched, l), |ReachedTiles(up, edge, ParentBox(propagate))|);
    RebuiltStep(base, edge, touched, l);
    ExtendsOn(pool1, pool2, pool');
    ChainLevels(pool2, levels, edge, k);
    StillPadded(pool2, pool', levels, edge);
    if AllPadded(pool0, base, edge) && Padded(pool1, level0, edge) {
      PaddedAt(pool0, base, edge, l);
      OneMorePadded(pool', levels, up', edge);
    }
  }

  lemma ChainLevels(pool: Pool, levels: seq<Level>, edge: nat, k: Arithmetic)
    requires Chain(pool, levels, edge, k)
    ensures forall i | 0 <= i < |levels| :: LevelOk(pool, levels[i], edge)
  {
  }

  lemma PaddedAt(pool: Pool, levels: seq<Level>, edge: nat, i: nat)
    requires AllPadded(pool, levels, edge) && i < |levels|
    ensures Padded(pool, levels[i], edge)
  {
  }

  lemma ExtendsOn(pool: Pool, pool1: Pool, pool2: Pool)
    requires Extends(pool, pool1) && Extends(pool1, pool2)
    ensures Extends(pool, pool2)
  {
  }

  /** The levels repaired so far share the tiles the propagated rectangle does not reach. */
  ghost predicate FarTilesShared(base: seq<Level>, levels: seq<Level>, edge: nat, touched: Box)
  {
    |levels| <= |base| && forall l: nat | 0 < l < |levels| :: SharesFarTiles(base[l], levels[l], edge, Propagated(touched, l))
  }

  lemma FarTilesStep(base: seq<Level>, levels: seq<Level>, up: Level, edge: nat, touched: Box)
    requires FarTilesShared(base, levels, edge, touched) && |levels| < |base|
    requires SharesFarTiles(base[|levels|], up, edge, Propagated(touched, |levels|))
    ensures FarTilesShared(base, levels + [up], edge, touched)
  {
  }

  lemma FarTilesAt(base: seq<Level>, levels: seq<Level>, edge: nat, touched: Box)
    requires FarTilesShared(base, levels, edge, touched) && |levels| == |base|
    ensures forall l: nat | 0 < l < |base| :: SharesFarTiles(base[l], levels[l], edge, Propagated(touched, l))
  {
  }

  lemma ChainAt(pool: Pool, levels: seq<Level>, edge: nat, k: Arithmetic, i: nat)
    requires Chain(pool, levels, edge, k) && i < |levels| && edge > 0
    ensures LevelOk(pool, levels[i], edge)
    ensures i > 0 ==>
              && LevelOk(pool, levels[i - 1], edge) && Halved(levels[i - 1], levels[i])
              && Decimated(pool, levels[i - 1], levels[i], edge, k)
  {
  }

  lemma RepairPads(pool0: Pool, up: Level, pool1: Pool, child1: Level, pool': Pool, up': Level, edge: nat, k: Arithmetic,
                   select: (nat, nat) -> bool)
    requires LevelOk(pool0, up, edge) && Extends(pool0, pool1)
    requires Retiled(pool1, up, pool', up', edge, select, Decimating(pool1, child1, up, edge, k))
    ensures Padded(pool0, up, edge) ==> Padded(pool', up', edge)
  {
    if Padded(pool0, up, edge) {
      ExtendedReads(pool0, pool1, up, edge);
      StillPadded(pool0, pool1, [up], edge);
      assert [up][0] == up;
      DecimatingPads(pool1, child1, up, edge, k);
      hide Padded, Retiled, LevelOk;
      RetiledPads(pool1, up, pool', up', edge, select, Decimating(pool1, child1, up, edge, k));
    }
  }

  /** Recompute the tiles of one level that the dilated rectangle reaches. */
  method RepairLevel(ghost pool0: Pool, ghost child0: Level, up: Level, pool1: Pool, child1: Level, edge: nat,
                     k: Arithmetic, b: Box)
    returns (pool': Pool, up': Level)
    requires PoolOk(pool1) && Extends(pool0, pool1)
    requires LevelOk(pool0, child0, edge) && LevelOk(pool0, up, edge) && Halved(child0, up)
    requires Decimated(pool0, child0, up, edge, k)
    requires LevelOk(pool1, child1, edge) && SameOutside(pool0, child0, pool1, child1, edge, b)
    ensures PoolOk(pool') && Extends(pool1, pool') && Extends(pool0, pool')
    ensures LevelOk(pool', up', edge) && Halved(child1, up') && Decimated(pool', child1, up', edge, k)
    ensures SameOutside(pool0, up, pool', up', edge, ParentBox(b))
    ensures SharesFarTiles(up, up', edge, ParentBox(b))
    ensures Grown(pool1, pool', |ReachedTiles(up, edge, ParentBox(b))|)
    ensures Padded(pool0, up, edge) ==> Padded(pool', up', edge)
  {
    var parent := ParentBox(b);
    var select := (tx: nat, ty: nat) => TileMeets(tx, ty, edge, parent);
    assert Chosen(up.tilesX, up.tilesY, select) == ReachedTiles(up, edge, parent);
    pool', up' := Retile(pool1, up, edge, select, Decimating(pool1, child1, up, edge, k));
    RepairRung(pool0, child0, up, pool1, child1, b, pool', up', edge, k, select);
    RetiledShares(pool1, up, pool', up', edge, parent, select, Decimating(pool1, child1, up, edge, k));
    RepairPads(pool0, up, pool1, child1, pool', up', edge, k, select);
  }

  lemma PropagatedStep(touched: Box, l: nat)
    requires l > 0
    ensures Propagated(touched, l) == ParentBox(Propagated(touched, l - 1))
  {
  }

  lemma LastIsOnePixel(pool0: Pool, base: seq<Level>, pool: Pool, levels: seq<Level>, edge: nat, k: Arithmetic, b: Box)
    requires edge > 0 && IsPyramid(pool0, base, edge, k) && Chain(pool, levels, edge, k) && |levels| == |base|
    requires SameOutside(pool0, base[|base| - 1], pool, levels[|base| - 1], edge, b)
    ensures IsPyramid(pool, levels, edge, k)
  {
  }

  ghost function OverlappedTiles(lvl: Level, edge: nat, r: Rect): set<(nat, nat)>
  {
    set tx: nat, ty: nat | tx < lvl.tilesX && ty < lvl.tilesY && TileOverlaps(tx, ty, edge, r) :: (tx, ty)
  }

  /** The blobs a paint allocates: one for each tile it touches, and one for each tile
      above that the propagated rectangle reaches. */
  ghost function PaintCost(base: seq<Level>, edge: nat, r: Rect, touched: Option<Box>): nat
    requires base != []
  {
    |OverlappedTiles(base[0], edge, r)| + if touched.Some? then Rebuilt(base, edge, touched.value, |base|) else 0
  }

  /** `RasterStore::paint` on tables. */
  method Paint(pool: Pool, base: seq<Level>, edge: nat, k: Arithmetic, r: Rect, color: Pixel,
               coverage: (nat, nat) -> Coverage)
    returns (pool': Pool, levels: seq<Level>, touched: Option<Box>)
    requires PoolOk(pool) && IsPyramid(pool, base, edge, k) && edge > 0
    ensures PoolOk(pool') && Extends(pool, pool')
    ensures IsPyramid(pool', levels, edge, k) && |levels| == |base|
    ensures Painted(pool, base[0], pool', levels[0], edge, k, r, color, coverage)
    ensures LeastAround(touched, TouchedTiles(base[0], edge, r))
    ensures touched.None? ==> levels[1..] == base[1..]
    ensures touched.Some? ==>
              forall l: nat | 0 < l < |base| :: SharesFarTiles(base[l], levels[l], edge, Propagated(touched.value, l))
    ensures forall tx: nat, ty: nat | tx < base[0].tilesX && ty < base[0].tilesY && !TileOverlaps(tx, ty, edge, r) ::
              TileRef(levels[0], tx, ty) == TileRef(base[0], tx, ty)
    ensures Grown(pool, pool', PaintCost(base, edge, r, touched))
    ensures AllPadded(pool, base, edge) ==> AllPadded(pool', levels, edge)
  {
    assert LevelOk(pool, base[0], edge);
    hide TileOverlaps;
    var select := (tx: nat, ty: nat) => TileOverlaps(tx, ty, edge, r);
    assert Chosen(base[0].tilesX, base[0].tilesY, select) == OverlappedTiles(base[0], edge, r);
    var texel := Painting(pool, base[0], edge, k, r, color, coverage);
    var pool1, level0 := Retile(pool, base[0], edge, select, texel);
    RetiledOk(pool, base[0], pool1, level0, edge, select, texel);
    touched := TouchedBox(base[0], edge, r);
    PaintedLevel(pool, base[0], pool1, level0, edge, k, r, color, coverage, select);
    PaintPads(pool, base, pool1, level0, edge, k, r, color, coverage, select);
    hide Padded, AllPadded;
    forall tx: nat, ty: nat | tx < base[0].tilesX && ty < base[0].tilesY && !TileOverlaps(tx, ty, edge, r)
      ensures TileRef(level0, tx, ty) == TileRef(base[0], tx, ty)
    {
      assert TileDone(pool, base[0], pool1, level0, edge, tx, ty, select, texel);
    }
    if touched.None? {
      NothingTouched(pool, base[0], pool1, level0, edge, r, select, texel);
      ChainStill(pool, pool1, base, edge, k);
      StillPadded(pool, pool1, base, edge);
      return pool1, base, touched;
    }
    UntouchedLevel(pool, base[0], pool1, level0, edge, r, touched.value, select, texel);
    pool', levels := RepairAbove(pool, base, pool1, level0, edge, k, touched.value);
    ExtendedReads(pool1, pool', level0, edge);
    GrownOn(pool, pool1, pool', |OverlappedTiles(base[0], edge, r)|, Rebuilt(base, edge, touched.value, |base|));
  }

  lemma PaintPads(pool: Pool, base: seq<Level>, pool': Pool, lvl': Level, edge: nat, k: Arithmetic, r: Rect, color: Pixel,
                  coverage: (nat, nat) -> Coverage, select: (nat, nat) -> bool)
    requires base != [] && LevelOk(pool, base[0], edge)
    requires Retiled(pool, base[0], pool', lvl', edge, select, Painting(pool, base[0], edge, k, r, color, coverage))
    ensures AllPadded(pool, base, edge) ==> Padded(pool', lvl', edge)
  {
    if AllPadded(pool, base, edge) {
      PaddedAt(pool, base, edge, 0);
      hide Padded, AllPadded, Retiled, Painting, Pads;
      PaintingPads(pool, base[0], edge, k, r, color, coverage);
      RetiledPads(pool, base[0], pool', lvl', edge, select, Painting(pool, base[0], edge, k, r, color, coverage));
    }
  }

  /** Padding is never painted. */
  lemma PaintingPads(pool: Pool, lvl: Level, edge: nat, k: Arithmetic, r: Rect, color: Pixel, coverage: (nat, nat) -> Coverage)
    requires Padded(pool, lvl, edge)
    ensures Pads(lvl, edge, Painting(pool, lvl, edge, k, r, color, coverage))
  {
    hide CenterInside, BlobAt;
    forall tx: nat, ty: nat, ix: nat, iy: nat |
      ty < lvl.tilesY && tx < lvl.tilesX && ix < edge && iy < edge && (tx * edge + ix >= lvl.width || ty * edge + iy >= lvl.height)
      ensures Painting(pool, lvl, edge, k, r, color, coverage)(tx, ty, ix, iy) == 0
    {
      assert PadAt(pool, lvl, edge, tx, ty, ix, iy);
      PaintingOutside(pool, lvl, edge, k, r, color, coverage, tx, ty, ix, iy);
    }
  }

  lemma PaintingOutside(pool: Pool, lvl: Level, edge: nat, k: Arithmetic, r: Rect, color: Pixel, coverage: (nat, nat) -> Coverage,
                        tx: nat, ty: nat, ix: nat, iy: nat)
    requires tx * edge + ix >= lvl.width || ty * edge + iy >= lvl.height
    ensures Painting(pool, lvl, edge, k, r, color, coverage)(tx, ty, ix, iy) == BlobAt(pool, TileRef(lvl, tx, ty), ix, iy)
  {
    hide CenterInside, BlobAt, TileRef;
  }

  lemma PaintedLevel(pool: Pool, lvl: Level, pool': Pool, lvl': Level, edge: nat, k: Arithmetic, r: Rect, color: Pixel,
                     coverage: (nat, nat) -> Coverage, select: (nat, nat) -> bool)
    requires LevelOk(pool, lvl, edge)
    requires forall tx: nat, ty: nat :: select(tx, ty) == TileOverlaps(tx, ty, edge, r)
    requires Retiled(pool, lvl, pool', lvl', edge, select, Painting(pool, lvl, edge, k, r, color, coverage))
    ensures Painted(pool, lvl, pool', lvl', edge, k, r, color, coverage)
  {
    hide TileOverlaps, CenterInside, Texel, TileDone;
    forall x: nat, y: nat | InLevel(lvl, x, y)
      ensures Texel(pool', lvl', edge, x, y) ==
              if CenterInside(r, x, y) then k.over(Texel(pool, lvl, edge, x, y), color, coverage(x, y))
              else Texel(pool, lvl, edge, x, y)
    {
      PaintedPixel(pool, lvl, pool', lvl', edge, k, r, color, coverage, select, x, y);
    }
  }

  lemma UntouchedLevel(pool: Pool, lvl: Level, pool': Pool, lvl': Level, edge: nat, r: Rect, b: Box,
                       select: (nat, nat) -> bool, texel: (nat, nat, nat, nat) -> Pixel)
    requires LevelOk(pool, lvl, edge)
    requires forall tx: nat, ty: nat :: select(tx, ty) == TileOverlaps(tx, ty, edge, r)
    requires forall c | c in TouchedTiles(lvl, edge, r) :: Holds(b, c)
    requires Retiled(pool, lvl, pool', lvl', edge, select, texel)
    ensures SameOutside(pool, lvl, pool', lvl', edge, b)
  {
    hide TileOverlaps, Texel, TileDone, TouchedTiles;
    forall x, y | InLevel(lvl, x, y) && !InBox(b, x, y)
      ensures Texel(pool, lvl, edge, x, y) == Texel(pool', lvl', edge, x, y)
    {
      UntouchedPixel(pool, lvl, pool', lvl', edge, r, b, select, texel, x, y);
    }
  }

  /** With no tile overlapping, level 0 is the predecessor's, tile for tile. */
  lemma NothingTouched(pool: Pool, lvl: Level, pool': Pool, lvl': Level, edge: nat, r: Rect,
                       select: (nat, nat) -> bool, texel: (nat, nat, nat, nat) -> Pixel)
    requires Shape(lvl, edge) && TouchedTiles(lvl, edge, r) == {}
    requires forall tx: nat, ty: nat :: select(tx, ty) == TileOverlaps(tx, ty, edge, r)
    requires Retiled(pool, lvl, pool', lvl', edge, select, texel)
    ensures lvl' == lvl
  {
    forall ty: nat | ty < lvl.tilesY ensures lvl'.tiles[ty] == lvl.tiles[ty] {
      forall tx: nat | tx < lvl.tilesX ensures lvl'.tiles[ty][tx] == lvl.tiles[ty][tx] {
        assert TileDone(pool, lvl, pool', lvl', edge, tx, ty, select, texel);
        assert TileBox(tx, ty, edge, lvl) !in TouchedTiles(lvl, edge, r);
        assert select(tx, ty) == TileOverlaps(tx, ty, edge, r);
      }
    }
    assert lvl'.tiles == lvl.tiles;
  }

  /** The repair is indistinguishable from a rebuild: whatever pyramid is built from
      the painted level 0 has the painted table's pixels at every level. */
  lemma PaintEqualsRebuild(pool: Pool, painted: seq<Level>, pool': Pool, rebuilt: seq<Level>, edge: nat, k: Arithmetic, l: nat)
    requires edge > 0 && IsPyramid(pool, painted, edge, k) && IsPyramid(pool', rebuilt, edge, k)
    requires SamePixels(pool, painted[0], pool', rebuilt[0], edge)
    ensures |painted| == |rebuilt|
    ensures l < |painted| ==> SamePixels(pool, painted[l], pool', rebuilt[l], edge)
  {
    PyramidUnique(pool, painted, pool', rebuilt, edge, k, |painted| - 1);
    SamePixelsFlip(pool, painted[0], pool', rebuilt[0], edge);
    PyramidUnique(pool', rebuilt, pool, painted, edge, k, |rebuilt| - 1);
    if l < |painted| {
      PyramidUnique(pool, painted, pool', rebuilt, edge, k, l);
    }
  }

  lemma SamePixelsFlip(pool: Pool, a: Level, pool': Pool, b: Level, edge: nat)
    requires edge > 0 && SamePixels(pool, a, pool', b, edge)
    ensures SamePixels(pool', b, pool, a, edge)
  {
  }
}
