/** The raster kind's tile pyramid: level 0 in fixed-size tiles, and above it a
    chain of 2:1 decimations down to one pixel. A paint replaces the tiles it
    touches and repairs the levels above; the repair is proved indistinguishable
    from a full rebuild. Pixel arithmetic is opaque: any line filter, any clamp and
    any blend will do. */
module RasterPyramid {
  import opened Numbers

  type Pixel = int
  type Coverage = int
  type Ref = nat

  const TRANSPARENT: Pixel := 0
  const TAPS: nat := 6
  const FIRST_TAP: int := -2
  /** The conservative dilation, in child pixels, that covers the taps on both sides. */
  const RADIUS: int := 3

  /** The pixel arithmetic: one line of six taps, the clamp at the end, and
      source-over at a coverage. */
  datatype Arithmetic = Arithmetic(line: seq<Pixel> -> Pixel, clamp: Pixel -> Pixel,
                                   over: (Pixel, Pixel, Coverage) -> Pixel)

  /** One tile's pixels, row by row. */
  type Blob = seq<seq<Pixel>>

  datatype Pool = Pool(blobs: map<Ref, Blob>, next: Ref)

  datatype Level = Level(width: nat, height: nat, tilesX: nat, tilesY: nat, tiles: seq<seq<Ref>>)

  function TilesAcross(extent: nat, edge: nat): nat
    requires edge > 0
  {
    (extent + edge - 1) / edge
  }

  /** The least number of tiles that cover the extent. */
  lemma TilesCover(extent: nat, edge: nat)
    requires edge > 0
    ensures var n := TilesAcross(extent, edge); extent <= n * edge && (n == 0 || (n - 1) * edge < extent)
  {
    DivMod(extent + edge - 1, edge);
    var n := TilesAcross(extent, edge);
    assert (n - 1) * edge == n * edge - edge;
  }

  function Clamp(v: int, lo: int, hi: int): int
  {
    if v < lo then lo else if v > hi then hi else v
  }

  ghost predicate BlobOk(b: Blob, edge: nat)
  {
    |b| == edge && forall i | 0 <= i < edge :: |b[i]| == edge
  }

  ghost predicate TileOk(pool: Pool, lvl: Level, edge: nat, tx: nat, ty: nat)
    requires ty < |lvl.tiles| && tx < |lvl.tiles[ty]|
  {
    lvl.tiles[ty][tx] in pool.blobs && BlobOk(pool.blobs[lvl.tiles[ty][tx]], edge)
  }

  ghost predicate PoolOk(pool: Pool)
  {
    forall r | r in pool.blobs :: r < pool.next
  }

  ghost predicate Shape(lvl: Level, edge: nat)
  {
    && edge > 0 && lvl.width > 0 && lvl.height > 0
    && lvl.tilesX == TilesAcross(lvl.width, edge) && lvl.tilesY == TilesAcross(lvl.height, edge)
    && |lvl.tiles| == lvl.tilesY && (forall ty | 0 <= ty < lvl.tilesY :: |lvl.tiles[ty]| == lvl.tilesX)
  }

  ghost predicate LevelOk(pool: Pool, lvl: Level, edge: nat)
  {
    Shape(lvl, edge) && forall tx, ty | 0 <= ty < lvl.tilesY && 0 <= tx < lvl.tilesX :: TileOk(pool, lvl, edge, tx, ty)
  }

  /** The tile a pixel lies in, along one axis. */
  function TileOf(x: nat, edge: nat): nat
    requires edge > 0
  {
    DivMod(x, edge);
    x / edge
  }

  /** `level_pixel`, total: through the owning tile's blob. */
  function Texel(pool: Pool, lvl: Level, edge: nat, x: int, y: int): Pixel
    requires edge > 0
  {
    if x < 0 || y < 0 then TRANSPARENT
    else
      var tx, ty, ix, iy := TileOf(x, edge), TileOf(y, edge), x % edge, y % edge;
      if ty < |lvl.tiles| && tx < |lvl.tiles[ty]| then BlobAt(pool, lvl.tiles[ty][tx], ix, iy) else TRANSPARENT
  }

  function BlobAt(pool: Pool, r: Ref, ix: nat, iy: nat): Pixel
  {
    if r in pool.blobs && iy < |pool.blobs[r]| && ix < |pool.blobs[r][iy]| then pool.blobs[r][iy][ix] else TRANSPARENT
  }

  ghost predicate Extends(pool: Pool, pool': Pool)
  {
    forall r | r in pool.blobs :: r in pool'.blobs && pool'.blobs[r] == pool.blobs[r]
  }

  // ---- The decimation kernel ---------------------------------------------------------

  /** Tap `i` of parent `p` along one axis, clamped to the child level. */
  function Tap(p: int, i: int, extent: int): int
  {
    Clamp(2 * p + FIRST_TAP + i, 0, extent - 1)
  }

  function TapRow(pool: Pool, child: Level, edge: nat, x: int, cy: int): (row: seq<Pixel>)
    requires edge > 0
  {
    seq(TAPS, i => Texel(pool, child, edge, Tap(x, i, child.width), cy))
  }

  /** `decimate_parent`: six clamped rows of six clamped taps. */
  function Decimate(pool: Pool, child: Level, edge: nat, k: Arithmetic, x: int, y: int): Pixel
    requires edge > 0
  {
    k.clamp(k.line(seq(TAPS, j => k.line(TapRow(pool, child, edge, x, Tap(y, j, child.height))))))
  }

  predicate InLevel(lvl: Level, x: int, y: int)
  {
    0 <= x < lvl.width && 0 <= y < lvl.height
  }

  /** Clamping never leaves the unclamped support: the taps of a parent inside the
      level above land on `2p - 2 .. 2p + 3` and inside the child. */
  lemma TapInSupport(p: int, i: int, extent: int)
    requires 0 <= i < TAPS && extent > 0 && 0 <= p && 2 * p <= extent - 1
    ensures 0 <= Tap(p, i, extent) < extent
    ensures 2 * p - 2 <= Tap(p, i, extent) <= 2 * p + 3
  {
  }

  function Distance(a: int, b: int): nat
  {
    if a < b then b - a else a - b
  }

  /** `c` is the position of the child nearest to `v`, along one axis. */
  ghost predicate Nearest(c: int, v: int, extent: int)
  {
    0 <= c < extent && forall d | 0 <= d < extent :: Distance(c, v) <= Distance(d, v)
  }

  lemma TapIsNearest(p: int, i: nat, extent: nat, c: int)
    requires i < 6 && Nearest(c, 2 * p - 2 + i, extent)
    ensures Tap(p, i, extent) == c
  {
    var v := 2 * p - 2 + i;
    assert 0 <= Tap(p, i, extent) < extent;
    assert Distance(c, v) <= Distance(Tap(p, i, extent), v);
  }

  /** The six lines of a parent's pixel, in order: line `j` is the filter over the child's
      pixels `xs` of row `ys[j]`. */
  ghost predicate LinesOver(pool: Pool, child: Level, edge: nat, k: Arithmetic, xs: seq<int>, ys: seq<int>, rows: seq<seq<Pixel>>,
                            lines: seq<Pixel>)
    requires edge > 0
  {
    && |xs| == |ys| == |rows| == |lines| == 6
    && (forall j | 0 <= j < 6 :: lines[j] == k.line(rows[j]) && |rows[j]| == 6)
    && (forall i, j | 0 <= i < 6 && 0 <= j < 6 :: rows[j][i] == Texel(pool, child, edge, xs[i], ys[j]))
  }

  /** The parent's pixel is the filter over six lines: the columns they read are those nearest
      to `2x - 2 .. 2x + 3`, and the rows those nearest to `2y - 2 .. 2y + 3`. */
  lemma DecimateReads(pool: Pool, child: Level, edge: nat, k: Arithmetic, x: int, y: int, xs: seq<int>, ys: seq<int>,
                      rows: seq<seq<Pixel>>, lines: seq<Pixel>)
    requires edge > 0 && LinesOver(pool, child, edge, k, xs, ys, rows, lines)
    requires forall i: nat | i < 6 :: Nearest(xs[i], 2 * x - 2 + i, child.width) && Nearest(ys[i], 2 * y - 2 + i, child.height)
    ensures Decimate(pool, child, edge, k, x, y) == k.clamp(k.line(lines))
  {
    hide Nearest, Texel, Tap;
    var taken := seq(TAPS, j => k.line(TapRow(pool, child, edge, x, Tap(y, j, child.height))));
    forall j: nat | j < 6 ensures taken[j] == lines[j] {
      TapIsNearest(y, j, child.height, ys[j]);
      forall i: nat | i < 6 ensures Tap(x, i, child.width) == xs[i] {
        TapIsNearest(x, i, child.width, xs[i]);
      }
      assert TapRow(pool, child, edge, x, ys[j]) == rows[j];
    }
    assert taken == lines;
  }

  /** Away from the border those are the columns `2x - 2 .. 2x + 3` and the rows
      `2y - 2 .. 2y + 3` themselves. */
  lemma DecimateReadsSupport(pool: Pool, child: Level, edge: nat, k: Arithmetic, x: int, y: int, rows: seq<seq<Pixel>>,
                             lines: seq<Pixel>)
    requires edge > 0 && 2 <= 2 * x <= child.width - 4 && 2 <= 2 * y <= child.height - 4
    requires |rows| == |lines| == 6 && forall j | 0 <= j < 6 :: lines[j] == k.line(rows[j]) && |rows[j]| == 6
    requires forall i, j | 0 <= i < 6 && 0 <= j < 6 :: rows[j][i] == Texel(pool, child, edge, 2 * x - 2 + i, 2 * y - 2 + j)
    ensures Decimate(pool, child, edge, k, x, y) == k.clamp(k.line(lines))
  {
    hide Texel;
    var xs, ys := seq(6, i => 2 * x - 2 + i), seq(6, j => 2 * y - 2 + j);
    DecimateReads(pool, child, edge, k, x, y, xs, ys, rows, lines);
  }

  /** Two children that agree on a parent's support give it the same pixel. */
  lemma DecimateIsLocal(pool: Pool, child: Level, pool': Pool, child': Level, edge: nat, k: Arithmetic, x: int, y: int)
    requires edge > 0 && child.width == child'.width > 0 && child.height == child'.height > 0
    requires 0 <= x && 2 * x <= child.width - 1 && 0 <= y && 2 * y <= child.height - 1
    requires forall cx, cy | 2 * x - 2 <= cx <= 2 * x + 3 && 2 * y - 2 <= cy <= 2 * y + 3 && InLevel(child, cx, cy) ::
               Texel(pool, child, edge, cx, cy) == Texel(pool', child', edge, cx, cy)
    ensures Decimate(pool, child, edge, k, x, y) == Decimate(pool', child', edge, k, x, y)
  {
    var rows := seq(TAPS, j => k.line(TapRow(pool, child, edge, x, Tap(y, j, child.height))));
    var rows' := seq(TAPS, j => k.line(TapRow(pool', child', edge, x, Tap(y, j, child'.height))));
    forall j | 0 <= j < TAPS ensures rows[j] == rows'[j] {
      var cy := Tap(y, j, child.height);
      TapInSupport(y, j, child.height);
      var a, b := TapRow(pool, child, edge, x, cy), TapRow(pool', child', edge, x, cy);
      forall i | 0 <= i < TAPS ensures a[i] == b[i] {
        TapInSupport(x, i, child.width);
        assert InLevel(child, Tap(x, i, child.width), cy);
      }
      assert a == b;
    }
    assert rows == rows';
  }

  // ---- Pyramids ------------------------------------------------------------------------

  function HalfUp(n: nat): nat
  {
    if (n + 1) / 2 > 1 then (n + 1) / 2 else 1
  }

  /** Two child pixels to a parent pixel, the last one possibly alone. */
  lemma HalfUpPairs(n: nat)
    requires n > 0
    ensures 2 * HalfUp(n) - 1 <= n <= 2 * HalfUp(n)
  {
  }

  /** Every pixel of `up` is the decimation of `child`. */
  ghost predicate Decimated(pool: Pool, child: Level, up: Level, edge: nat, k: Arithmetic)
    requires edge > 0
  {
    forall x, y | InLevel(up, x, y) :: Texel(pool, up, edge, x, y) == Decimate(pool, child, edge, k, x, y)
  }

  ghost predicate Halved(child: Level, up: Level)
  {
    && (child.width > 1 || child.height > 1)
    && up.width == HalfUp(child.width) && up.height == HalfUp(child.height)
  }

  ghost predicate Chain(pool: Pool, levels: seq<Level>, edge: nat, k: Arithmetic)
  {
    && (forall i | 0 <= i < |levels| :: LevelOk(pool, levels[i], edge))
    && (forall i, j | 0 <= i && j == i + 1 < |levels| ::
          Halved(levels[i], levels[j]) && Decimated(pool, levels[i], levels[j], edge, k))
  }

  /** A finished table: the chain goes down to a single pixel. */
  ghost predicate IsPyramid(pool: Pool, levels: seq<Level>, edge: nat, k: Arithmetic)
  {
    && levels != [] && Chain(pool, levels, edge, k)
    && levels[|levels| - 1].width == 1 && levels[|levels| - 1].height == 1
  }

  ghost predicate SamePixels(pool: Pool, lvl: Level, pool': Pool, lvl': Level, edge: nat)
    requires edge > 0
  {
    && lvl.width == lvl'.width && lvl.height == lvl'.height
    && forall x, y | InLevel(lvl, x, y) :: Texel(pool, lvl, edge, x, y) == Texel(pool', lvl', edge, x, y)
  }

  lemma ParentsAreInside(child: Level, up: Level, x: int, y: int)
    requires Halved(child, up) && child.width > 0 && child.height > 0 && InLevel(up, x, y)
    ensures 2 * x <= child.width - 1 && 2 * y <= child.height - 1
  {
  }

  /** Level 0 determines the whole pyramid. */
  lemma {:induction false} PyramidUnique(pool: Pool, a: seq<Level>, pool': Pool, b: seq<Level>, edge: nat,
                                         k: Arithmetic, l: nat)
    requires IsPyramid(pool, a, edge, k) && IsPyramid(pool', b, edge, k)
    requires SamePixels(pool, a[0], pool', b[0], edge) && l < |a|
    ensures l < |b| && SamePixels(pool, a[l], pool', b[l], edge)
  {
    if l > 0 {
      PyramidUnique(pool, a, pool', b, edge, k, l - 1);
      assert Halved(a[l - 1], a[l]) && Decimated(pool, a[l - 1], a[l], edge, k);
      assert l < |b|;
      assert Halved(b[l - 1], b[l]) && Decimated(pool', b[l - 1], b[l], edge, k);
      forall x, y | InLevel(a[l], x, y) ensures Texel(pool, a[l], edge, x, y) == Texel(pool', b[l], edge, x, y) {
        ParentsAreInside(a[l - 1], a[l], x, y);
        DecimateIsLocal(pool, a[l - 1], pool', b[l - 1], edge, k, x, y);
      }
    }
  }

  // ---- Filling tiles ---------------------------------------------------------------------

  lemma PixelsTileExists(x: nat, extent: nat, edge: nat)
    requires edge > 0 && x < extent
    ensures TileOf(x, edge) < TilesAcross(extent, edge)
  {
    DivMod(x, edge);
    DivMod(extent + edge - 1, edge);
    var t, n := TileOf(x, edge), TilesAcross(extent, edge);
    assert (n + 1) * edge == n * edge + edge;
    if t >= n {
      MulMonotone(n, t, edge);
      assert false;
    }
  }

  /** The inner loops of every fill: one blob, row by row. */
  method FillBlob(edge: nat, texel: (nat, nat) -> Pixel) returns (blob: Blob)
    ensures BlobOk(blob, edge)
    ensures forall ix: nat, iy: nat | ix < edge && iy < edge :: blob[iy][ix] == texel(ix, iy)
  {
    blob := [];
    for iy := 0 to edge
      invariant |blob| == iy && forall i | 0 <= i < iy :: |blob[i]| == edge
      invariant forall ix: nat, i: nat | ix < edge && i < iy :: blob[i][ix] == texel(ix, i)
    {
      var row := [];
      for ix := 0 to edge
        invariant |row| == ix && forall i: nat | i < ix :: row[i] == texel(i, iy)
      {
        row := row + [texel(ix, iy)];
      }
      blob := blob + [row];
    }
  }

  /** How many of the first `n` tiles of a row are selected. */
  ghost function ChosenInRow(n: nat, ty: nat, select: (nat, nat) -> bool): nat
  {
    if n == 0 then 0 else ChosenInRow(n - 1, ty, select) + if select(n - 1, ty) then 1 else 0
  }

  ghost function ChosenInRows(width: nat, rows: nat, select: (nat, nat) -> bool): nat
  {
    if rows == 0 then 0 else ChosenInRows(width, rows - 1, select) + ChosenInRow(width, rows - 1, select)
  }

  /** The selected tiles of a grid. */
  ghost function Chosen(width: nat, rows: nat, select: (nat, nat) -> bool): set<(nat, nat)>
  {
    set tx: nat, ty: nat | tx < width && ty < rows && select(tx, ty) :: (tx, ty)
  }

  ghost function RowChosen(n: nat, ty: nat, select: (nat, nat) -> bool): set<(nat, nat)>
  {
    set tx: nat | tx < n && select(tx, ty) :: (tx, ty)
  }

  lemma {:induction false} RowChosenSize(n: nat, ty: nat, select: (nat, nat) -> bool)
    ensures |RowChosen(n, ty, select)| == ChosenInRow(n, ty, select)
  {
    if n > 0 {
      RowChosenSize(n - 1, ty, select);
      var fewer := RowChosen(n - 1, ty, select);
      assert RowChosen(n, ty, select) == if select(n - 1, ty) then fewer + {(n - 1, ty)} else fewer;
    }
  }

  lemma {:induction false} ChosenSize(width: nat, rows: nat, select: (nat, nat) -> bool)
    ensures |Chosen(width, rows, select)| == ChosenInRows(width, rows, select)
  {
    if rows == 0 {
      assert Chosen(width, 0, select) == {};
    } else {
      ChosenSize(width, rows - 1, select);
      RowChosenSize(width, rows - 1, select);
      OneMoreRowChosen(width, rows, select);
      hide Chosen, RowChosen;
    }
  }

  lemma OneMoreRowChosen(width: nat, rows: nat, select: (nat, nat) -> bool)
    requires rows > 0
    ensures Chosen(width, rows, select) == Chosen(width, rows - 1, select) + RowChosen(width, rows - 1, select)
    ensures Chosen(width, rows - 1, select) !! RowChosen(width, rows - 1, select)
  {
  }

  /** Exactly `n` blobs more, under the next `n` names. */
  ghost predicate Grown(pool: Pool, pool': Pool, n: nat)
  {
    pool'.next == pool.next + n && forall r :: r in pool'.blobs <==> r in pool.blobs || pool.next <= r < pool'.next
  }

  /** Tiles chosen by `select` hold fresh blobs filled by `texel`, the others are
      the tiles of `lvl`, shared. */
  ghost predicate Retiled(pool: Pool, lvl: Level, pool': Pool, lvl': Level, edge: nat,
                          select: (nat, nat) -> bool, texel: (nat, nat, nat, nat) -> Pixel)
  {
    && Extends(pool, pool') && PoolOk(pool') && Grown(pool, pool', |Chosen(lvl.tilesX, lvl.tilesY, select)|)
    && Shape(lvl', edge) && lvl' == lvl.(tiles := lvl'.tiles)
    && forall tx: nat, ty: nat | ty < lvl.tilesY && tx < lvl.tilesX ::
         TileDone(pool, lvl, pool', lvl', edge, tx, ty, select, texel)
  }

  ghost predicate TileDone(pool: Pool, lvl: Level, pool': Pool, lvl': Level, edge: nat, tx: nat, ty: nat,
                           select: (nat, nat) -> bool, texel: (nat, nat, nat, nat) -> Pixel)
  {
    && ty < |lvl.tiles| && tx < |lvl.tiles[ty]| && ty < |lvl'.tiles| && tx < |lvl'.tiles[ty]|
    && (select(tx, ty) ==>
          && lvl'.tiles[ty][tx] >= pool.next && TileOk(pool', lvl', edge, tx, ty)
          && forall ix: nat, iy: nat | ix < edge && iy < edge ::
               pool'.blobs[lvl'.tiles[ty][tx]][iy][ix] == texel(tx, ty, ix, iy))
    && (!select(tx, ty) ==> lvl'.tiles[ty][tx] == lvl.tiles[ty][tx])
  }

  /** The loop over a level's tiles, shared by the build, the paint and the repair:
      skip what is not selected, give the rest fresh blobs. Blobs are never written
      after this. */
  method Retile(pool: Pool, lvl: Level, edge: nat, select: (nat, nat) -> bool, texel: (nat, nat, nat, nat) -> Pixel)
    returns (pool': Pool, lvl': Level)
    requires PoolOk(pool) && Shape(lvl, edge)
    ensures Retiled(pool, lvl, pool', lvl', edge, select, texel)
  {
    pool', lvl' := pool, lvl;
    for ty := 0 to lvl.tilesY
      invariant Extends(pool, pool') && PoolOk(pool') && Grown(pool, pool', ChosenInRows(lvl.tilesX, ty, select))
      invariant Shape(lvl', edge) && lvl' == lvl.(tiles := lvl'.tiles)
      invariant forall j: nat | ty <= j < lvl.tilesY :: lvl'.tiles[j] == lvl.tiles[j]
      invariant forall i: nat, j: nat | j < ty && i < lvl.tilesX ::
                  TileDone(pool, lvl, pool', lvl', edge, i, j, select, texel)
    {
      pool', lvl' := RetileRow(pool, lvl, pool', lvl', edge, ty, select, texel);
    }
    ChosenSize(lvl.tilesX, lvl.tilesY, select);
  }

  method RetileTile(ghost pool: Pool, ghost lvl: Level, pool1: Pool, lvl1: Level, edge: nat, tx: nat, ty: nat,
                    select: (nat, nat) -> bool, texel: (nat, nat, nat, nat) -> Pixel)
    returns (pool': Pool, lvl': Level)
    requires PoolOk(pool1) && pool.next <= pool1.next && Shape(lvl, edge) && Shape(lvl1, edge)
    requires ty < lvl1.tilesY && tx < lvl1.tilesX && ty < lvl.tilesY && tx < lvl.tilesX
    requires lvl1.tiles[ty][tx] == lvl.tiles[ty][tx]
    ensures Extends(pool1, pool') && PoolOk(pool') && Grown(pool1, pool', if select(tx, ty) then 1 else 0)
    ensures Shape(lvl', edge) && lvl' == lvl1.(tiles := lvl'.tiles)
    ensures lvl'.tiles == lvl1.tiles[ty := lvl1.tiles[ty][tx := lvl'.tiles[ty][tx]]]
    ensures TileDone(pool, lvl, pool', lvl', edge, tx, ty, select, texel)
  {
    pool', lvl' := pool1, lvl1;
    if select(tx, ty) {
      var blob := FillBlob(edge, (ix: nat, iy: nat) => texel(tx, ty, ix, iy));
      var r := pool1.next;
      pool' := Pool(pool1.blobs[r := blob], r + 1);
      lvl' := lvl1.(tiles := lvl1.tiles[ty := lvl1.tiles[ty][tx := r]]);
    } else {
      assert lvl1.tiles[ty][tx := lvl1.tiles[ty][tx]] == lvl1.tiles[ty];
      assert lvl1.tiles[ty := lvl1.tiles[ty]] == lvl1.tiles;
    }
  }

  method RetileRow(ghost pool: Pool, ghost lvl: Level, pool1: Pool, lvl1: Level, edge: nat, ty: nat,
                   select: (nat, nat) -> bool, texel: (nat, nat, nat, nat) -> Pixel)
    returns (pool': Pool, lvl': Level)
    requires PoolOk(pool1) && Extends(pool, pool1) && pool.next <= pool1.next
    requires Shape(lvl, edge) && Shape(lvl1, edge) && lvl1 == lvl.(tiles := lvl1.tiles)
    requires ty < lvl.tilesY && lvl1.tiles[ty] == lvl.tiles[ty]
    requires forall i: nat, j: nat | j < ty && i < lvl.tilesX ::
               TileDone(pool, lvl, pool1, lvl1, edge, i, j, select, texel)
    ensures Extends(pool, pool') && PoolOk(pool') && Grown(pool1, pool', ChosenInRow(lvl.tilesX, ty, select))
    ensures Shape(lvl', edge) && lvl' == lvl.(tiles := lvl'.tiles)
    ensures forall j: nat | ty < j < lvl.tilesY :: lvl'.tiles[j] == lvl1.tiles[j]
    ensures forall i: nat, j: nat | j <= ty && i < lvl.tilesX ::
              TileDone(pool, lvl, pool', lvl', edge, i, j, select, texel)
  {
    pool', lvl' := pool1, lvl1;
    for tx := 0 to lvl1.tilesX
      invariant Extends(pool, pool') && Extends(pool1, pool') && PoolOk(pool')
      invariant Grown(pool1, pool', ChosenInRow(tx, ty, select))
      invariant Shape(lvl', edge) && lvl' == lvl.(tiles := lvl'.tiles)
      invariant forall j: nat | j < lvl.tilesY && j != ty :: lvl'.tiles[j] == lvl1.tiles[j]
      invariant forall i: nat | tx <= i < lvl.tilesX :: lvl'.tiles[ty][i] == lvl.tiles[ty][i]
      invariant forall i: nat | i < tx :: TileDone(pool, lvl, pool', lvl', edge, i, ty, select, texel)
    {
      ghost var before, was := pool', lvl';
      pool', lvl' := RetileTile(pool, lvl, pool', lvl', edge, tx, ty, select, texel);
      forall i: nat | i < tx ensures TileDone(pool, lvl, pool', lvl', edge, i, ty, select, texel) {
        TileStaysDone(pool, lvl, before, was, pool', lvl', edge, i, ty, select, texel);
      }
    }
    forall i: nat, j: nat | j <= ty && i < lvl.tilesX
      ensures TileDone(pool, lvl, pool', lvl', edge, i, j, select, texel)
    {
      if j < ty {
        TileStaysDone(pool, lvl, pool1, lvl1, pool', lvl', edge, i, j, select, texel);
      }
    }
  }

  lemma TileStaysDone(pool: Pool, lvl: Level, pool1: Pool, lvl1: Level, pool': Pool, lvl': Level, edge: nat, tx: nat, ty: nat,
                      select: (nat, nat) -> bool, texel: (nat, nat, nat, nat) -> Pixel)
    requires TileDone(pool, lvl, pool1, lvl1, edge, tx, ty, select, texel) && Extends(pool1, pool')
    requires ty < |lvl'.tiles| && tx < |lvl'.tiles[ty]| && lvl'.tiles[ty][tx] == lvl1.tiles[ty][tx]
    ensures TileDone(pool, lvl, pool', lvl', edge, tx, ty, select, texel)
  {
  }

  /** Reading a retiled level, pixel by pixel. */
  lemma RetiledReads(pool: Pool, lvl: Level, pool': Pool, lvl': Level, edge: nat,
                     select: (nat, nat) -> bool, texel: (nat, nat, nat, nat) -> Pixel, x: int, y: int)
    requires Shape(lvl, edge) && InLevel(lvl, x, y)
    requires Retiled(pool, lvl, pool', lvl', edge, select, texel)
    ensures select(TileOf(x, edge), TileOf(y, edge)) ==> Texel(pool', lvl', edge, x, y) == texel(TileOf(x, edge), TileOf(y, edge), x % edge, y % edge)
    ensures !select(TileOf(x, edge), TileOf(y, edge)) && LevelOk(pool, lvl, edge) ==>
              Texel(pool', lvl', edge, x, y) == Texel(pool, lvl, edge, x, y)
  {
    PixelsTileExists(x, lvl.width, edge);
    PixelsTileExists(y, lvl.height, edge);
    var tx: nat, ty: nat := TileOf(x, edge), TileOf(y, edge);
    assert TileDone(pool, lvl, pool', lvl', edge, tx, ty, select, texel);
    if !select(tx, ty) && LevelOk(pool, lvl, edge) {
      assert TileOk(pool, lvl, edge, tx, ty);
    }
  }

  lemma RetiledOk(pool: Pool, lvl: Level, pool': Pool, lvl': Level, edge: nat,
                  select: (nat, nat) -> bool, texel: (nat, nat, nat, nat) -> Pixel)
    requires Shape(lvl, edge) && Retiled(pool, lvl, pool', lvl', edge, select, texel)
    requires LevelOk(pool, lvl, edge) || forall tx: nat, ty: nat :: select(tx, ty)
    ensures LevelOk(pool', lvl', edge)
  {
    forall tx, ty | 0 <= ty < lvl'.tilesY && 0 <= tx < lvl'.tilesX ensures TileOk(pool', lvl', edge, tx, ty) {
      assert TileDone(pool, lvl, pool', lvl', edge, tx, ty, select, texel);
      if !select(tx, ty) {
        assert TileOk(pool, lvl, edge, tx, ty);
      }
    }
  }

  /** A level of an older table reads the same from a pool that only grew. */
  lemma ExtendedReads(pool: Pool, pool': Pool, lvl: Level, edge: nat)
    requires LevelOk(pool, lvl, edge) && Extends(pool, pool')
    ensures LevelOk(pool', lvl, edge) && SamePixels(pool, lvl, pool', lvl, edge)
  {
    forall tx, ty | 0 <= ty < lvl.tilesY && 0 <= tx < lvl.tilesX ensures TileOk(pool', lvl, edge, tx, ty) {
      assert TileOk(pool, lvl, edge, tx, ty);
    }
    forall x, y | InLevel(lvl, x, y) ensures Texel(pool, lvl, edge, x, y) == Texel(pool', lvl, edge, x, y) {
      PixelsTileExists(x, lvl.width, edge);
      PixelsTileExists(y, lvl.height, edge);
      assert TileOk(pool, lvl, edge, TileOf(x, edge), TileOf(y, edge));
    }
  }

  // ---- Padding -----------------------------------------------------------------------------

  /** A tile's pixel beyond the level's extent is transparent. */
  ghost predicate PadAt(pool: Pool, lvl: Level, edge: nat, tx: nat, ty: nat, ix: nat, iy: nat)
  {
    tx * edge + ix >= lvl.width || ty * edge + iy >= lvl.height ==>
      ty < |lvl.tiles| && tx < |lvl.tiles[ty]| && BlobAt(pool, lvl.tiles[ty][tx], ix, iy) == 0
  }

  ghost predicate Padded(pool: Pool, lvl: Level, edge: nat)
  {
    forall tx: nat, ty: nat, ix: nat, iy: nat | ty < lvl.tilesY && tx < lvl.tilesX && ix < edge && iy < edge ::
      PadAt(pool, lvl, edge, tx, ty, ix, iy)
  }

  ghost predicate AllPadded(pool: Pool, levels: seq<Level>, edge: nat)
  {
    forall i | 0 <= i < |levels| :: Padded(pool, levels[i], edge)
  }

  /** Fresh tiles are filled with transparent padding. */
  ghost predicate Pads(lvl: Level, edge: nat, texel: (nat, nat, nat, nat) -> Pixel)
  {
    forall tx: nat, ty: nat, ix: nat, iy: nat |
      ty < lvl.tilesY && tx < lvl.tilesX && ix < edge && iy < edge && (tx * edge + ix >= lvl.width || ty * edge + iy >= lvl.height) ::
      texel(tx, ty, ix, iy) == 0
  }

  lemma RetiledPads(pool: Pool, lvl: Level, pool': Pool, lvl': Level, edge: nat,
                    select: (nat, nat) -> bool, texel: (nat, nat, nat, nat) -> Pixel)
    requires Shape(lvl, edge) && Retiled(pool, lvl, pool', lvl', edge, select, texel) && Pads(lvl, edge, texel)
    requires (LevelOk(pool, lvl, edge) && Padded(pool, lvl, edge)) || forall tx: nat, ty: nat :: select(tx, ty)
    ensures Padded(pool', lvl', edge)
  {
    forall tx: nat, ty: nat, ix: nat, iy: nat | ty < lvl.tilesY && tx < lvl.tilesX && ix < edge && iy < edge
      ensures PadAt(pool', lvl', edge, tx, ty, ix, iy)
    {
      RetiledPadsAt(pool, lvl, pool', lvl', edge, select, texel, tx, ty, ix, iy);
    }
  }

  lemma RetiledPadsAt(pool: Pool, lvl: Level, pool': Pool, lvl': Level, edge: nat,
                      select: (nat, nat) -> bool, texel: (nat, nat, nat, nat) -> Pixel, tx: nat, ty: nat, ix: nat, iy: nat)
    requires Shape(lvl, edge) && Retiled(pool, lvl, pool', lvl', edge, select, texel) && Pads(lvl, edge, texel)
    requires ty < lvl.tilesY && tx < lvl.tilesX && ix < edge && iy < edge
    requires (LevelOk(pool, lvl, edge) && Padded(pool, lvl, edge)) || select(tx, ty)
    ensures PadAt(pool', lvl', edge, tx, ty, ix, iy)
  {
    assert TileDone(pool, lvl, pool', lvl', edge, tx, ty, select, texel);
    if !select(tx, ty) {
      assert PadAt(pool, lvl, edge, tx, ty, ix, iy);
      assert TileOk(pool, lvl, edge, tx, ty);
    }
  }

  /** An older level keeps its padding in a pool that only grew. */
  lemma StillPadded(pool: Pool, pool': Pool, levels: seq<Level>, edge: nat)
    requires Extends(pool, pool') && forall i | 0 <= i < |levels| :: LevelOk(pool, levels[i], edge)
    ensures AllPadded(pool, levels, edge) ==> AllPadded(pool', levels, edge)
  {
    if AllPadded(pool, levels, edge) {
      forall i, tx: nat, ty: nat, ix: nat, iy: nat |
        0 <= i < |levels| && ty < levels[i].tilesY && tx < levels[i].tilesX && ix < edge && iy < edge
        ensures PadAt(pool', levels[i], edge, tx, ty, ix, iy)
      {
        assert TileOk(pool, levels[i], edge, tx, ty) && PadAt(pool, levels[i], edge, tx, ty, ix, iy);
      }
    }
  }

  lemma OneMorePadded(pool: Pool, levels: seq<Level>, up: Level, edge: nat)
    requires AllPadded(pool, levels, edge) && Padded(pool, up, edge)
    ensures AllPadded(pool, levels + [up], edge)
  {
  }
}
