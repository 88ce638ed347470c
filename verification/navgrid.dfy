/**
 * The navigation grid used by path planning (systems/navgrid.go): size
 * classes, blocked cells, and the conversions between world and grid
 * coordinates. Building a grid from terrain is not part of this model;
 * a grid here is any cell map of the right size.
 */
module NavGrid {
  import opened SimMath

  /** SizeClass is a uint8: Small, Medium, Large, then NumSizeClasses. */
  type SizeClass = c: int | 0 <= c < 256

  const Small: SizeClass := 0
  const Medium: SizeClass := 1
  const Large: SizeClass := 2
  const NumSizeClasses: SizeClass := 3

  /** The navigation cell size in pixels. */
  const NavGridCellSize: real := 16.0

  /** GetSizeClass: radius below 12 is Small, below 24 Medium, otherwise Large. */
  function GetSizeClass(radius: real): (c: SizeClass)
    ensures c == Small <==> radius < 12.0
    ensures c == Medium <==> 12.0 <= radius < 24.0
    ensures c == Large <==> radius >= 24.0
  {
    if radius < 12.0 then Small
    else if radius < 24.0 then Medium
    else Large
  }

  /** A bigger organism never gets a smaller class. */
  lemma SizeClassMonotone(r1: real, r2: real)
    requires r1 <= r2
    ensures GetSizeClass(r1) <= GetSizeClass(r2)
  {
  }

  /** A grid of width * height cells, true meaning blocked. */
  datatype Grid = Grid(cells: seq<bool>, cellSize: real, width: int, height: int)

  predicate Valid(g: Grid)
  {
    g.width >= 0 && g.height >= 0 && g.cellSize > 0.0 && |g.cells| == g.width * g.height
  }

  predicate InBounds(g: Grid, gx: int, gy: int)
  {
    0 <= gx < g.width && 0 <= gy < g.height
  }

  lemma RowMajorInRange(gx: int, gy: int, w: int, h: int)
    requires 0 <= gx < w && 0 <= gy < h
    ensures 0 <= gy * w + gx < w * h
  {
    MulLe(gy, h - 1, w);
    assert (h - 1) * w == w * h - w;
  }

  /** IsBlocked: any cell outside the grid is blocked; inside, the cell map decides. */
  function IsBlocked(g: Grid, gx: int, gy: int): (b: bool)
    requires Valid(g)
    ensures !InBounds(g, gx, gy) ==> b
    ensures !b ==> InBounds(g, gx, gy)
    ensures InBounds(g, gx, gy) ==> 0 <= gy * g.width + gx < |g.cells| && b == g.cells[gy * g.width + gx]
  {
    if !InBounds(g, gx, gy) then true
    else
      RowMajorInRange(gx, gy, g.width, g.height);
      g.cells[gy * g.width + gx]
  }

  /** WorldToGrid: truncation of the position over the cell size. */
  function WorldToGrid(g: Grid, x: real, y: real): (c: (int, int))
    requires Valid(g)
    ensures x >= 0.0 ==> g.cellSize * c.0 as real <= x < g.cellSize * (c.0 + 1) as real
    ensures y >= 0.0 ==> g.cellSize * c.1 as real <= y < g.cellSize * (c.1 + 1) as real
  {
    CellOf(x, g.cellSize);
    CellOf(y, g.cellSize);
    (Trunc(x / g.cellSize), Trunc(y / g.cellSize))
  }

  lemma CellOf(p: real, size: real)
    requires size > 0.0
    ensures p >= 0.0 ==> size * Trunc(p / size) as real <= p < size * (Trunc(p / size) + 1) as real
  {
    if p >= 0.0 {
      CellLower(p, size);
      CellUpper(p, size);
    }
  }

  lemma CellLower(p: real, size: real)
    requires size > 0.0 && p >= 0.0
    ensures size * Trunc(p / size) as real <= p
  {
    var q := p / size;
    DivNonNegative(p, size);
    DivMul(p, size);
    assert size * q == p;
    var k := Trunc(q);
    MulMonotone(size, k as real, q);
  }

  lemma CellUpper(p: real, size: real)
    requires size > 0.0 && p >= 0.0
    ensures p < size * (Trunc(p / size) + 1) as real
  {
    var q := p / size;
    DivNonNegative(p, size);
    DivMul(p, size);
    assert size * q == p;
    var k := Trunc(q);
    assert q < k as real + 1.0;
    MulStrict(size, q, k as real + 1.0);
    assert size * q < size * (k as real + 1.0);
    assert p < size * (k as real + 1.0);
  }

  /** GridToWorld: the centre of a cell. */
  function GridToWorld(g: Grid, gx: int, gy: int): (p: (real, real))
    requires Valid(g)
    ensures p.0 == g.cellSize * gx as real + g.cellSize / 2.0
    ensures p.1 == g.cellSize * gy as real + g.cellSize / 2.0
  {
    ((gx as real + 0.5) * g.cellSize, (gy as real + 0.5) * g.cellSize)
  }

  /** Converting a cell to its centre and back gives the same cell, for non-negative cells. */
  lemma GridWorldRoundTrip(g: Grid, gx: int, gy: int)
    requires Valid(g) && gx >= 0 && gy >= 0
    ensures WorldToGrid(g, GridToWorld(g, gx, gy).0, GridToWorld(g, gx, gy).1) == (gx, gy)
  {
    var p := GridToWorld(g, gx, gy);
    var a := gx as real + 0.5;
    var b := gy as real + 0.5;
    assert p.0 == a * g.cellSize;
    assert p.1 == b * g.cellSize;
    MulDivCancel(a, g.cellSize);
    MulDivCancel(b, g.cellSize);
    assert p.0 / g.cellSize == a;
    assert p.1 / g.cellSize == b;
    assert Trunc(a) == gx;
    assert Trunc(b) == gy;
  }

  /** The centre of the cell a non-negative position falls in is within half a cell of it on each axis. */
  lemma WorldGridNear(g: Grid, x: real, y: real)
    requires Valid(g) && x >= 0.0 && y >= 0.0
    ensures var c := WorldToGrid(g, x, y);
      var p := GridToWorld(g, c.0, c.1);
      Abs(p.0 - x) <= g.cellSize / 2.0 && Abs(p.1 - y) <= g.cellSize / 2.0
  {
    var c := WorldToGrid(g, x, y);
    assert g.cellSize * (c.0 + 1) as real == g.cellSize * c.0 as real + g.cellSize;
    assert g.cellSize * (c.1 + 1) as real == g.cellSize * c.1 as real + g.cellSize;
  }

  /** IsBlockedWorld: whether the cell a world position falls in is blocked. */
  function IsBlockedWorld(g: Grid, x: real, y: real): (b: bool)
    requires Valid(g)
    ensures x < 0.0 && x / g.cellSize <= -1.0 ==> b
    ensures !b ==> InBounds(g, WorldToGrid(g, x, y).0, WorldToGrid(g, x, y).1)
  {
    var c := WorldToGrid(g, x, y);
    IsBlocked(g, c.0, c.1)
  }

  /** One grid per size class. */
  datatype GridSet = GridSet(grids: seq<Grid>)

  predicate ValidSet(s: GridSet)
  {
    |s.grids| == NumSizeClasses && forall i :: 0 <= i < |s.grids| ==> Valid(s.grids[i])
  }

  /** GetGrid: the class's own grid; any class past the last is treated as Large. */
  function GetGrid(s: GridSet, sc: SizeClass): (g: Grid)
    requires ValidSet(s)
    ensures Valid(g)
    ensures sc >= NumSizeClasses ==> g == s.grids[Large]
    ensures sc < NumSizeClasses ==> g == s.grids[sc]
  {
    if sc >= NumSizeClasses then s.grids[Large] else s.grids[sc]
  }

  /** Every class GetSizeClass produces has its own grid. */
  lemma SizeClassHasGrid(s: GridSet, radius: real)
    requires ValidSet(s)
    ensures GetGrid(s, GetSizeClass(radius)) == s.grids[GetSizeClass(radius)]
  {
  }
}
