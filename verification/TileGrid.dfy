/** The tile grid of a scale rung, and the windows its tiles are delivered through.
    A rung shows 2^index device pixels per local unit; a tile's cell is 256 device
    pixels square and its surface carries a 4 pixel apron of its neighbours. Rung
    scales are powers of two, so the geometry is exact and is modelled over reals. */
module TileGrid {
  import opened Numbers

  const TILE := 256.0
  const APRON := 4.0
  const SURFACE := TILE + 2.0 * APRON

  /** Half-open: contains its low edges and not its high ones. */
  datatype Rect = Rect(x0: real, y0: real, x1: real, y1: real)

  datatype Coord = Coord(col: int, row: int)

  predicate Empty(r: Rect)
  {
    !(r.x0 < r.x1 && r.y0 < r.y1)
  }

  predicate Holds(r: Rect, x: real, y: real)
  {
    r.x0 <= x < r.x1 && r.y0 <= y < r.y1
  }

  ghost predicate Meets(a: Rect, b: Rect)
  {
    exists x, y :: Holds(a, x, y) && Holds(b, x, y)
  }

  /** Device pixels per local unit: two to the rung's index. */
  function Scale(rung: int): (s: real)
    ensures s > 0.0
    decreases if rung < 0 then -rung else rung
  {
    if rung == 0 then 1.0 else if rung > 0 then 2.0 * Scale(rung - 1) else Scale(rung + 1) / 2.0
  }

  /** A cell's edge in local units. */
  function Edge(rung: int): (e: real)
    ensures e > 0.0
  {
    TILE / Scale(rung)
  }

  function Margin(rung: int): (a: real)
    ensures a > 0.0 && Edge(rung) == 64.0 * a
  {
    APRON / Scale(rung)
  }

  /** Where the low edge of a column (or row) of cells lies. */
  function Line(c: int, edge: real): real
  {
    c as real * edge
  }

  /** `tile_local_rect`: the region a tile owns. */
  function CellRect(rung: int, c: Coord): Rect
  {
    var edge := Edge(rung);
    Rect(Line(c.col, edge), Line(c.row, edge), Line(c.col, edge) + edge, Line(c.row, edge) + edge)
  }

  /** `tile_render_rect`: the region a tile's surface shows. */
  function RenderRect(rung: int, c: Coord): Rect
  {
    var cell, apron := CellRect(rung, c), Margin(rung);
    Rect(cell.x0 - apron, cell.y0 - apron, cell.x1 + apron, cell.y1 + apron)
  }

  /** In device pixels, whatever the rung: a cell is 256 square and stands at 256 times its
      column and row, its surface reaches four further on every side, and each rung shows twice
      as many to a local unit as the one below. */
  lemma InDevicePixels(rung: int, c: Coord)
    ensures Scale(0) == 1.0 && Scale(rung + 1) == 2.0 * Scale(rung)
    ensures var s, cell, shown := Scale(rung), CellRect(rung, c), RenderRect(rung, c);
            && cell.x0 * s == 256.0 * c.col as real && cell.y0 * s == 256.0 * c.row as real
            && (cell.x1 - cell.x0) * s == 256.0 && (cell.y1 - cell.y0) * s == 256.0
            && (cell.x0 - shown.x0) * s == 4.0 && (cell.y0 - shown.y0) * s == 4.0
            && (shown.x1 - cell.x1) * s == 4.0 && (shown.y1 - cell.y1) * s == 4.0
  {
    var s := Scale(rung);
    hide Scale;
    Quotient(TILE, s);
    Quotient(APRON, s);
    OnLine(c.col, Edge(rung), s);
    OnLine(c.row, Edge(rung), s);
    ScaleDoubles(rung);
  }

  lemma ScaleDoubles(rung: int)
    ensures Scale(0) == 1.0 && Scale(rung + 1) == 2.0 * Scale(rung)
  {
  }

  lemma OnLine(c: int, edge: real, s: real)
    requires edge * s == TILE
    ensures Line(c, edge) * s == 256.0 * c as real
  {
    assert Line(c, edge) * s == c as real * (edge * s);
  }

  // ---- One axis -----------------------------------------------------------------------------

  /** The cell an instant of one axis falls in. */
  function CellOf(x: real, edge: real): int
    requires edge > 0.0
  {
    (x / edge).Floor
  }

  lemma Scaled(a: real, b: real, edge: real)
    requires edge > 0.0
    ensures a < b <==> a * edge < b * edge
    ensures a <= b <==> a * edge <= b * edge
  {
    if a < b {
      assert (b - a) * edge > 0.0;
    } else {
      assert (a - b) * edge >= 0.0;
    }
  }

  lemma Quotient(x: real, edge: real)
    requires edge > 0.0
    ensures (x / edge) * edge == x
  {
  }

  /** A point below a multiple of the edge has a smaller quotient. */
  lemma Beyond(c: int, x: real, edge: real)
    requires edge > 0.0
    ensures Line(c, edge) <= x <==> c as real <= x / edge
    ensures Line(c, edge) < x <==> (c as real) < x / edge
    ensures Line(c, edge) + edge == Line(c + 1, edge)
  {
    Quotient(x, edge);
    Scaled(c as real, x / edge, edge);
    Scaled(x / edge, c as real, edge);
    assert (c + 1) as real == c as real + 1.0;
  }

  /** A cell is determined by any of its points. */
  lemma CellOfIs(x: real, edge: real, c: int)
    requires edge > 0.0
    ensures Line(c, edge) <= x < Line(c, edge) + edge <==> c == CellOf(x, edge)
  {
    Beyond(c, x, edge);
    Beyond(c + 1, x, edge);
    hide Line;
  }

  /** Cell `c` overlaps [lo, hi) exactly when floor(lo/edge) <= c <= ceil(hi/edge) - 1. */
  lemma CoverageOfAxis(lo: real, hi: real, edge: real, c: int)
    requires edge > 0.0
    ensures CellOf(lo, edge) <= c <= Ceil(hi / edge) - 1 <==> Line(c, edge) < hi && lo < Line(c, edge) + edge
  {
    Beyond(c, hi, edge);
    Beyond(c + 1, lo, edge);
    Beyond(c, lo, edge);
    hide Line;
  }

  /** Two half-open boxes share a point exactly when each starts before the other ends. */
  lemma MeetsIs(a: Rect, b: Rect)
    requires !Empty(a) && !Empty(b)
    ensures Meets(a, b) <==> a.x0 < b.x1 && b.x0 < a.x1 && a.y0 < b.y1 && b.y0 < a.y1
  {
    if a.x0 < b.x1 && b.x0 < a.x1 && a.y0 < b.y1 && b.y0 < a.y1 {
      var x, y := MaxReal(a.x0, b.x0), MaxReal(a.y0, b.y0);
      assert Holds(a, x, y) && Holds(b, x, y);
    }
    if Meets(a, b) {
      var x, y :| Holds(a, x, y) && Holds(b, x, y);
    }
  }

  // ---- Covering a region with cells ------------------------------------------------------------

  /** A rectangular block of tiles in row-major order. */
  ghost predicate IsBlock(tiles: seq<Coord>, first: Coord, last: Coord)
  {
    && (forall c :: c in tiles <==> first.col <= c.col <= last.col && first.row <= c.row <= last.row)
    && (forall i, j | 0 <= i < j < |tiles| :: Before(tiles[i], tiles[j]))
  }

  predicate Before(c: Coord, d: Coord)
  {
    c.row < d.row || (c.row == d.row && c.col < d.col)
  }

  /** Row by row, and within a row from left to right. */
  lemma BeforeIsRowMajor(c: Coord, d: Coord, e: Coord)
    ensures c.row < d.row ==> Before(c, d)
    ensures c.row == d.row ==> (Before(c, d) <==> c.col < d.col)
    ensures !(Before(c, d) && Before(d, c)) && (c == d || Before(c, d) || Before(d, c))
    ensures Before(c, d) && Before(d, e) ==> Before(c, e)
  {
  }

  /** `tiles_covering`: exactly the cells that share a point with the region, once each. */
  method TilesCovering(rung: int, region: Rect) returns (tiles: seq<Coord>)
    ensures forall c :: c in tiles <==> !Empty(region) && Meets(CellRect(rung, c), region)
    ensures forall i, j | 0 <= i < j < |tiles| :: Before(tiles[i], tiles[j])
    ensures !Empty(region) ==> tiles != [] && IsBlock(tiles, tiles[0], tiles[|tiles| - 1])
  {
    hide Meets, CellRect, Edge, CellOf, Ceil;
    tiles := [];
    if Empty(region) {
      return;
    }
    var edge := Edge(rung);
    var colMin, colMax := CellOf(region.x0, edge), Ceil(region.x1 / edge) - 1;
    var rowMin, rowMax := CellOf(region.y0, edge), Ceil(region.y1 / edge) - 1;
    var first, last := Coord(colMin, rowMin), Coord(colMax, rowMax);
    CornersAreMet(region, edge);
    var row := rowMin;
    while row <= rowMax
      invariant rowMin <= row <= rowMax + 1
      invariant forall c :: c in tiles <==> colMin <= c.col <= colMax && rowMin <= c.row < row
      invariant forall i, j | 0 <= i < j < |tiles| :: Before(tiles[i], tiles[j])
      invariant row > rowMin ==> tiles != [] && tiles[0] == first && tiles[|tiles| - 1] == Coord(colMax, row - 1)
    {
      tiles := AppendRow(tiles, row, colMin, colMax);
      row := row + 1;
    }
    assert IsBlock(tiles, first, last);
    forall c ensures c in tiles <==> Meets(CellRect(rung, c), region) {
      CellMeets(rung, region, c);
    }
  }

  lemma CellMeets(rung: int, region: Rect, c: Coord)
    requires !Empty(region)
    ensures Meets(CellRect(rung, c), region) <==>
              && CellOf(region.x0, Edge(rung)) <= c.col <= Ceil(region.x1 / Edge(rung)) - 1
              && CellOf(region.y0, Edge(rung)) <= c.row <= Ceil(region.y1 / Edge(rung)) - 1
  {
    CoverageOfAxis(region.x0, region.x1, Edge(rung), c.col);
    CoverageOfAxis(region.y0, region.y1, Edge(rung), c.row);
    hide Line, Edge, CellOf, Ceil, Meets;
    MeetsIs(CellRect(rung, c), region);
  }

  method AppendRow(front: seq<Coord>, row: int, colMin: int, colMax: int) returns (tiles: seq<Coord>)
    requires colMin <= colMax
    requires forall c | c in front :: c.row < row
    requires forall i, j | 0 <= i < j < |front| :: Before(front[i], front[j])
    ensures forall c :: c in tiles <==> c in front || (colMin <= c.col <= colMax && c.row == row)
    ensures forall i, j | 0 <= i < j < |tiles| :: Before(tiles[i], tiles[j])
    ensures tiles != [] && tiles[|tiles| - 1] == Coord(colMax, row)
    ensures tiles[0] == if front == [] then Coord(colMin, row) else front[0]
  {
    tiles := front;
    var col := colMin;
    while col <= colMax
      invariant colMin <= col <= colMax + 1
      invariant forall c :: c in tiles <==> c in front || (colMin <= c.col < col && c.row == row)
      invariant forall i, j | 0 <= i < j < |tiles| :: Before(tiles[i], tiles[j])
      invariant col > colMin ==> tiles != [] && tiles[|tiles| - 1] == Coord(col - 1, row)
      invariant col > colMin ==> tiles[0] == if front == [] then Coord(colMin, row) else front[0]
      invariant col == colMin ==> tiles == front
    {
      var next := Coord(col, row);
      forall i | 0 <= i < |tiles| ensures Before(tiles[i], next) {
        assert tiles[i] in tiles;
      }
      tiles := tiles + [next];
      col := col + 1;
    }
  }

  /** A non-empty region meets at least the cell of its low corner. */
  lemma CornersAreMet(region: Rect, edge: real)
    requires !Empty(region) && edge > 0.0
    ensures CellOf(region.x0, edge) <= Ceil(region.x1 / edge) - 1
    ensures CellOf(region.y0, edge) <= Ceil(region.y1 / edge) - 1
  {
    CellOfIs(region.x0, edge, CellOf(region.x0, edge));
    CoverageOfAxis(region.x0, region.x1, edge, CellOf(region.x0, edge));
    CellOfIs(region.y0, edge, CellOf(region.y0, edge));
    CoverageOfAxis(region.y0, region.y1, edge, CellOf(region.y0, edge));
  }

  /** Every point has one cell. */
  lemma PointHasOneCell(rung: int, x: real, y: real, c: Coord)
    ensures Holds(CellRect(rung, c), x, y) <==> c == Coord(CellOf(x, Edge(rung)), CellOf(y, Edge(rung)))
  {
    CellOfIs(x, Edge(rung), c.col);
    CellOfIs(y, Edge(rung), c.row);
  }

  // ---- Covering a region with surfaces ----------------------------------------------------------

  predicate Contains(outer: Rect, inner: Rect)
  {
    outer.x0 <= inner.x0 && inner.x1 <= outer.x1 && outer.y0 <= inner.y0 && inner.y1 <= outer.y1
  }

  function Shrunk(r: Rect, inset: real): Rect
  {
    Rect(r.x0 + inset, r.y0 + inset, r.x1 - inset, r.y1 - inset)
  }

  /** The cell that contains a region's centre. */
  function CentreCell(rung: int, region: Rect): Coord
  {
    Coord(CellOf(0.5 * (region.x0 + region.x1), Edge(rung)), CellOf(0.5 * (region.y0 + region.y1), Edge(rung)))
  }

  /** Some tile's surface shows the point. */
  ghost predicate Shown(rung: int, tiles: seq<Coord>, x: real, y: real)
  {
    exists c :: c in tiles && Holds(RenderRect(rung, c), x, y)
  }

  ghost predicate Covers(rung: int, tiles: seq<Coord>, region: Rect)
  {
    forall x, y | Holds(region, x, y) :: Shown(rung, tiles, x, y)
  }

  /** `tiles_covering_render`. A region no wider than two aprons in some axis takes the
      one cell of its centre. */
  method TilesCoveringRender(rung: int, region: Rect) returns (tiles: seq<Coord>)
    ensures Empty(region) ==> tiles == []
    ensures !Empty(region) ==> tiles != [] && IsBlock(tiles, tiles[0], tiles[|tiles| - 1])
    ensures !Empty(region) && !Empty(Shrunk(region, Margin(rung))) ==>
              && (forall c :: c in tiles <==> Meets(CellRect(rung, c), Shrunk(region, Margin(rung))))
              && Covers(rung, tiles, region)
    ensures !Empty(region) && Empty(Shrunk(region, Margin(rung))) ==>
              && tiles == [CentreCell(rung, region)]
              && (Covers(rung, tiles, region) <==> Contains(RenderRect(rung, CentreCell(rung, region)), region))
  {
    if Empty(region) {
      return [];
    }
    var shrunk := Shrunk(region, Margin(rung));
    if !Empty(shrunk) {
      tiles := TilesCovering(rung, shrunk);
      forall x, y | Holds(region, x, y)
        ensures Shown(rung, tiles, x, y)
      {
        ShownThroughTheShrunk(rung, region, tiles, x, y);
      }
      return;
    }
    tiles := [CentreCell(rung, region)];
    CoversByOne(rung, tiles[0], region);
  }

  /** Within an apron of every instant of [lo, hi) lies a cell that meets the interval
      shrunk by the apron. */
  lemma NearestCell(lo: real, hi: real, edge: real, apron: real, x: real) returns (c: int)
    requires 0.0 < apron < edge && lo + apron < hi - apron && lo <= x < hi
    ensures Line(c, edge) < hi - apron && lo + apron < Line(c, edge) + edge
    ensures Line(c, edge) - apron <= x < Line(c, edge) + edge + apron
  {
    hide Line, CellOf, Ceil;
    if x < lo + apron {
      c := CellOf(lo + apron, edge);
      CellOfIs(lo + apron, edge, c);
    } else if x < hi - apron {
      c := CellOf(x, edge);
      CellOfIs(x, edge, c);
    } else {
      c := Ceil((hi - apron) / edge) - 1;
      CoverageOfAxis(lo + apron, hi - apron, edge, c);
      CornerIsMet(lo + apron, hi - apron, edge);
      LastCellReaches(hi - apron, edge);
    }
  }

  lemma CornerIsMet(lo: real, hi: real, edge: real)
    requires lo < hi && edge > 0.0
    ensures CellOf(lo, edge) <= Ceil(hi / edge) - 1
  {
    CellOfIs(lo, edge, CellOf(lo, edge));
    CoverageOfAxis(lo, hi, edge, CellOf(lo, edge));
  }

  lemma LastCellReaches(hi: real, edge: real)
    requires edge > 0.0
    ensures var c := Ceil(hi / edge) - 1; Line(c, edge) < hi <= Line(c, edge) + edge
  {
    Beyond(Ceil(hi / edge) - 1, hi, edge);
    Beyond(Ceil(hi / edge), hi, edge);
    hide Line;
  }

  lemma ShownThroughTheShrunk(rung: int, region: Rect, tiles: seq<Coord>, x: real, y: real)
    requires !Empty(Shrunk(region, Margin(rung))) && Holds(region, x, y)
    requires forall c :: c in tiles <==> Meets(CellRect(rung, c), Shrunk(region, Margin(rung)))
    ensures Shown(rung, tiles, x, y)
  {
    var col := NearestCell(region.x0, region.x1, Edge(rung), Margin(rung), x);
    var row := NearestCell(region.y0, region.y1, Edge(rung), Margin(rung), y);
    var c := Coord(col, row);
    MeetsIs(CellRect(rung, c), Shrunk(region, Margin(rung)));
    assert c in tiles && Holds(RenderRect(rung, c), x, y);
  }

  /** One tile shows a whole region exactly when its surface contains it. */
  lemma CoversByOne(rung: int, c: Coord, region: Rect)
    requires !Empty(region)
    ensures Covers(rung, [c], region) <==> Contains(RenderRect(rung, c), region)
  {
    var r := RenderRect(rung, c);
    if Contains(r, region) {
      forall x, y | Holds(region, x, y) ensures Shown(rung, [c], x, y) {
        assert c in [c] && Holds(r, x, y);
      }
    } else if r.x0 > region.x0 || r.y0 > region.y0 {
      OnlyOne(rung, c, region, region.x0, region.y0);
    } else if r.x1 < region.x1 {
      OnlyOne(rung, c, region, MaxReal(r.x1, region.x0), region.y0);
    } else {
      OnlyOne(rung, c, region, region.x0, MaxReal(r.y1, region.y0));
    }
  }

  lemma OnlyOne(rung: int, c: Coord, region: Rect, x: real, y: real)
    requires Holds(region, x, y) && !Holds(RenderRect(rung, c), x, y)
    ensures !Covers(rung, [c], region)
  {
    assert !Shown(rung, [c], x, y);
  }

  /** A region thin in both axes lies within an apron of the cell of its centre, which
      therefore shows all of it. */
  lemma ThinRegionIsShown(rung: int, region: Rect)
    requires !Empty(region)
    requires region.x1 - region.x0 <= 2.0 * Margin(rung) && region.y1 - region.y0 <= 2.0 * Margin(rung)
    ensures Contains(RenderRect(rung, CentreCell(rung, region)), region)
  {
    var edge, c := Edge(rung), CentreCell(rung, region);
    CellOfIs(0.5 * (region.x0 + region.x1), edge, c.col);
    CellOfIs(0.5 * (region.y0 + region.y1), edge, c.row);
  }

  /** A region thin in one axis only may not be: the centre's tile misses the far end of
      a strip 1000 long and 1 high. */
  lemma ThinStripIsNotShown()
    ensures var strip := Rect(0.0, 0.0, 1000.0, 1.0);
            !Empty(strip) && Empty(Shrunk(strip, Margin(0))) && !Contains(RenderRect(0, CentreCell(0, strip)), strip)
  {
    var strip := Rect(0.0, 0.0, 1000.0, 1.0);
    CellOfIs(500.0, 256.0, 1);
    assert CentreCell(0, strip).col == 1;
  }

  // ---- Delivering a block ------------------------------------------------------------------------

  /** `delivery_window`, in the tile surface's own pixels: the cell, opened to the whole
      surface on the sides where the block ends. */
  function DeliveryWindow(c: Coord, first: Coord, last: Coord): Rect
  {
    Rect(if c.col == first.col then 0.0 else APRON, if c.row == first.row then 0.0 else APRON,
         if c.col == last.col then SURFACE else APRON + TILE, if c.row == last.row then SURFACE else APRON + TILE)
  }

  /** `deliver_tile`'s placement: surface pixel (i, j) shows the local point
      render origin + (i, j) / scale. */
  function Placed(rung: int, c: Coord, window: Rect): Rect
  {
    var origin, s := RenderRect(rung, c), Scale(rung);
    Rect(origin.x0 + window.x0 / s, origin.y0 + window.y0 / s, origin.x0 + window.x1 / s, origin.y0 + window.y1 / s)
  }

  /** Tile `c` of the block paints the point. */
  predicate Paints(rung: int, first: Coord, last: Coord, c: Coord, x: real, y: real)
  {
    Holds(Placed(rung, c, DeliveryWindow(c, first, last)), x, y)
  }

  /** The block's cells, grown by the apron. */
  function Grown(rung: int, first: Coord, last: Coord): Rect
  {
    var a, z := RenderRect(rung, first), RenderRect(rung, last);
    Rect(a.x0, a.y0, z.x1, z.y1)
  }

  /** Where a window lands: the cell, opened by an apron at the block's outer sides. */
  lemma PlacedIs(rung: int, c: Coord, first: Coord, last: Coord)
    ensures var p, cell, a := Placed(rung, c, DeliveryWindow(c, first, last)), CellRect(rung, c), Margin(rung);
            && p.x0 == cell.x0 - (if c.col == first.col then a else 0.0)
            && p.y0 == cell.y0 - (if c.row == first.row then a else 0.0)
            && p.x1 == cell.x1 + (if c.col == last.col then a else 0.0)
            && p.y1 == cell.y1 + (if c.row == last.row then a else 0.0)
  {
    hide Line;
    WindowEdges(Scale(rung));
    hide Scale;
  }

  lemma QuotientIs(n: real, s: real, q: real)
    requires s > 0.0 && q * s == n
    ensures n / s == q
  {
  }

  lemma Commute(a: real, b: real)
    ensures a * b == b * a
  {
  }

  lemma QuotientAdds(m: real, n: real, s: real)
    requires s > 0.0
    ensures (m + n) / s == m / s + n / s
  {
    var a, b := m / s, n / s;
    Quotient(m, s);
    Quotient(n, s);
    Distribute(a, b, s);
    QuotientIs(m + n, s, a + b);
  }

  lemma Distribute(a: real, b: real, s: real)
    ensures (a + b) * s == a * s + b * s
  {
  }

  lemma WindowEdges(s: real)
    requires s > 0.0
    ensures 0.0 / s == 0.0
    ensures (APRON + TILE) / s == APRON / s + TILE / s
    ensures SURFACE / s == APRON / s + (APRON + TILE) / s
  {
    QuotientAdds(0.0, 0.0, s);
    QuotientAdds(APRON, TILE, s);
    QuotientAdds(APRON, APRON + TILE, s);
  }

  /** The column (or row) of a block that owns an instant of one axis. */
  function Owner(x: real, edge: real, first: int, last: int): (c: int)
    requires edge > 0.0 && first <= last
    ensures first <= c <= last
  {
    var c := CellOf(x, edge);
    if c < first then first else if c > last then last else c
  }

  /** Along one axis the opened cells partition the grown block. */
  lemma OwnerIs(x: real, edge: real, apron: real, first: int, last: int, c: int)
    requires 0.0 < apron < edge && first <= c <= last
    ensures Line(c, edge) - (if c == first then apron else 0.0) <= x
            < Line(c, edge) + edge + (if c == last then apron else 0.0)
            <==> Line(first, edge) - apron <= x < Line(last, edge) + edge + apron && c == Owner(x, edge, first, last)
  {
    hide Line, CellOf;
    var at := CellOf(x, edge);
    CellOfIs(x, edge, at);
    Ordered(c, first, last, edge);
    Ordered(at, first, last, edge);
    Ordered(at, c, c, edge);
  }

  /** Cells keep the order of their indices. */
  lemma Ordered(c: int, first: int, last: int, edge: real)
    requires edge > 0.0
    ensures first <= c ==> Line(first, edge) <= Line(c, edge)
    ensures first < c ==> Line(first, edge) + edge <= Line(c, edge)
    ensures c <= last ==> Line(c, edge) <= Line(last, edge)
    ensures c < last ==> Line(c, edge) + edge <= Line(last, edge)
    ensures c < first ==> Line(c, edge) + edge <= Line(first, edge)
    ensures last < c ==> Line(last, edge) + edge <= Line(c, edge)
  {
    Increasing(first, c, edge);
    Increasing(c, last, edge);
    Increasing(c, first, edge);
    Increasing(last, c, edge);
  }

  lemma InOrder(c: int, d: int, edge: real)
    requires edge > 0.0
    ensures c <= d ==> Line(c, edge) <= Line(d, edge)
  {
    Scaled(c as real, d as real, edge);
  }

  lemma Increasing(c: int, d: int, edge: real)
    requires edge > 0.0
    ensures c <= d ==> Line(c, edge) <= Line(d, edge)
    ensures c < d ==> Line(c, edge) + edge <= Line(d, edge)
  {
    InOrder(c, d, edge);
    InOrder(c + 1, d, edge);
    Beyond(c, 0.0, edge);
    hide Line;
  }

  function OwnerTile(rung: int, first: Coord, last: Coord, x: real, y: real): Coord
    requires first.col <= last.col && first.row <= last.row
  {
    Coord(Owner(x, Edge(rung), first.col, last.col), Owner(y, Edge(rung), first.row, last.row))
  }

  /** The windows of a delivered block partition its apron-grown rectangle: a point
      inside is painted by one tile, a point outside by none. */
  lemma BlockPaintsEachPointOnce(rung: int, tiles: seq<Coord>, first: Coord, last: Coord, c: Coord, x: real, y: real)
    requires IsBlock(tiles, first, last) && c in tiles
    ensures Paints(rung, first, last, c, x, y) <==> Holds(Grown(rung, first, last), x, y) && c == OwnerTile(rung, first, last, x, y)
    ensures OwnerTile(rung, first, last, x, y) in tiles
  {
    hide Line, Edge, Margin, Placed, Owner;
    PlacedIs(rung, c, first, last);
    OwnerIs(x, Edge(rung), Margin(rung), first.col, last.col, c.col);
    OwnerIs(y, Edge(rung), Margin(rung), first.row, last.row, c.row);
  }

  /** Nothing is painted outside the surface it is read from. */
  lemma PaintsWithinItsSurface(rung: int, first: Coord, last: Coord, c: Coord, x: real, y: real)
    requires Paints(rung, first, last, c, x, y)
    ensures Holds(RenderRect(rung, c), x, y)
  {
    PlacedIs(rung, c, first, last);
  }

  lemma ShownIsWithinTheBlock(rung: int, first: Coord, last: Coord, c: Coord, x: real, y: real)
    requires first.col <= c.col <= last.col && first.row <= c.row <= last.row && Holds(RenderRect(rung, c), x, y)
    ensures Holds(Grown(rung, first, last), x, y)
  {
    hide Line, Edge, Margin;
    Ordered(c.col, first.col, last.col, Edge(rung));
    Ordered(c.row, first.row, last.row, Edge(rung));
  }

  /** A pull over a covered region paints each of its points exactly once, and every
      painted point comes from pixels its tile really rendered. */
  lemma PullPaintsRegionOnce(rung: int, region: Rect, tiles: seq<Coord>, x: real, y: real)
    requires tiles != [] && IsBlock(tiles, tiles[0], tiles[|tiles| - 1])
    requires Covers(rung, tiles, region) && Holds(region, x, y)
    ensures exists c :: c in tiles && Paints(rung, tiles[0], tiles[|tiles| - 1], c, x, y)
              && forall d | d in tiles && Paints(rung, tiles[0], tiles[|tiles| - 1], d, x, y) :: d == c
  {
    var first, last := tiles[0], tiles[|tiles| - 1];
    assert first in tiles;
    var shows :| shows in tiles && Holds(RenderRect(rung, shows), x, y);
    ShownIsWithinTheBlock(rung, first, last, shows, x, y);
    var c := OwnerTile(rung, first, last, x, y);
    forall d | d in tiles ensures Paints(rung, first, last, d, x, y) <==> d == c {
      BlockPaintsEachPointOnce(rung, tiles, first, last, d, x, y);
    }
  }

  // ---- Falling back to a coarser rung ---------------------------------------------------------------

  function TwoTo(k: nat): (p: int)
    ensures p > k
  {
    if k == 0 then 1 else 2 * TwoTo(k - 1)
  }

  /** `floor_div`: truncation corrected for a negative numerator. */
  function FloorDiv(n: int, d: int): (q: int)
    requires d > 0
    ensures q * d <= n < q * d + d
  {
    var q := TruncDiv(n, d);
    if n - q * d != 0 && n < 0 then q - 1 else q
  }

  lemma ScaleStep(rung: int)
    ensures Scale(rung + 1) == 2.0 * Scale(rung)
  {
    if rung < -1 {
      assert Scale(rung + 1) / 2.0 == Scale(rung);
    }
  }

  function Doublings(s: real, k: nat): real
    decreases k
  {
    if k == 0 then s else Doublings(2.0 * s, k - 1)
  }

  lemma {:induction false} DoublingsAre(s: real, k: nat)
    ensures Doublings(s, k) == s * TwoTo(k) as real
    decreases k
  {
    if k > 0 {
      DoublingsAre(2.0 * s, k - 1);
      Doubled(s, TwoTo(k - 1));
    }
  }

  lemma Doubled(s: real, p: int)
    ensures (2.0 * s) * p as real == s * (2 * p) as real
  {
    assert (2 * p) as real == 2.0 * p as real;
  }

  /** `k` octaves coarser, a device pixel is 2^k times as large. */
  lemma {:induction false} ScaleUp(rung: int, k: nat)
    ensures Scale(rung) == Doublings(Scale(rung - k), k)
  {
    if k > 0 {
      ScaleUp(rung, k - 1);
      ScaleStep(rung - k);
      assert rung - (k - 1) == rung - k + 1;
    }
  }

  lemma CoarserGeometry(rung: int, k: nat)
    ensures Edge(rung - k) == Edge(rung) * TwoTo(k) as real
    ensures Margin(rung - k) == Margin(rung) * TwoTo(k) as real
  {
    hide Scale, TwoTo, Doublings;
    ScaleUp(rung, k);
    DoublingsAre(Scale(rung - k), k);
    Ratio(TILE, Scale(rung), Scale(rung - k), TwoTo(k) as real);
    Ratio(APRON, Scale(rung), Scale(rung - k), TwoTo(k) as real);
  }

  lemma Ratio(n: real, s: real, t: real, p: real)
    requires s > 0.0 && t > 0.0 && s == t * p
    ensures n / t == (n / s) * p
  {
    var u := n / s;
    assert u * s == n;
    assert (u * p) * t == u * (t * p);
    assert (n / t) * t == n;
  }

  /** The coarser tile a fallback reads has the fine tile's cell inside its own, and its
      surface extends two of its own pixels (the resampling tap's reach) past everything
      the fine surface shows, so the upscale never reads the coarser surface's border. */
  lemma CoarserTileReachesFarEnough(rung: int, k: nat, c: Coord)
    requires k >= 1
    ensures var coarse := Coord(FloorDiv(c.col, TwoTo(k)), FloorDiv(c.row, TwoTo(k)));
            && Contains(CellRect(rung - k, coarse), CellRect(rung, c))
            && Contains(Shrunk(RenderRect(rung - k, coarse), 2.0 / Scale(rung - k)), RenderRect(rung, c))
  {
    hide Line, Edge, Margin, Scale, FloorDiv, TwoTo;
    AxisNests(rung, k, c.col);
    AxisNests(rung, k, c.row);
    CoarserApronHasRoom(rung, k);
  }

  lemma AxisNests(rung: int, k: nat, n: int)
    ensures var q := FloorDiv(n, TwoTo(k));
            && Line(q, Edge(rung - k)) <= Line(n, Edge(rung))
            && Line(n, Edge(rung)) + Edge(rung) <= Line(q, Edge(rung - k)) + Edge(rung - k)
  {
    hide Line, Edge, FloorDiv, TwoTo;
    CoarserGeometry(rung, k);
    Nested(n, TwoTo(k), Edge(rung), Edge(rung - k));
  }

  /** The coarser apron holds the fine one and two coarser pixels more. */
  lemma CoarserApronHasRoom(rung: int, k: nat)
    requires k >= 1
    ensures Margin(rung) + 2.0 / Scale(rung - k) <= Margin(rung - k)
  {
    hide Scale, TwoTo;
    var s := Scale(rung - k);
    Quotient(2.0, s);
    QuotientIs(APRON, s, 2.0 * (2.0 / s));
    CoarserGeometry(rung, k);
    assert Margin(rung - k) == 2.0 * (2.0 / s);
    hide Margin;
    Scaled(2.0, TwoTo(k) as real, Margin(rung));
    Commute(2.0, Margin(rung));
    Commute(TwoTo(k) as real, Margin(rung));
  }

  lemma Nested(n: int, p: int, edge: real, coarse: real)
    requires p > 0 && edge > 0.0 && coarse > 0.0 && coarse == edge * p as real
    ensures var q := FloorDiv(n, p);
            Line(q, coarse) <= Line(n, edge) && Line(n, edge) + edge <= Line(q, coarse) + coarse
  {
    hide Line, FloorDiv;
    var q := FloorDiv(n, p);
    LineOfCoarse(q, p, edge);
    LineOfCoarse(q + 1, p, edge);
    assert (q + 1) * p == q * p + p;
    Increasing(q * p, n, edge);
    Increasing(n, (q + 1) * p, edge);
    Beyond(q, 0.0, coarse);
  }

  lemma LineOfCoarse(q: int, p: int, edge: real)
    ensures Line(q, edge * p as real) == Line(q * p, edge)
  {
    assert (q * p) as real == q as real * p as real;
    Reassociate(q as real, edge, p as real);
  }

  lemma Reassociate(q: real, edge: real, p: real)
    ensures q * (edge * p) == (q * p) * edge
  {
  }

}
