/**
 * The spatial hash of the simulation (systems/spatial.go): a grid of cells
 * over a wrapping world, each cell holding the entities inserted there,
 * and radius queries that scan the block of cells around a point, filter
 * by toroidal distance and stop at MaxQueryResults.
 *
 * Entities are ids; the position lookup is a map (an entity without a
 * position is one the lookup returns nil for).
 */
module Spatial {
  import opened SimMath
  import opened Wrappers
  import Grid
  import NavGrid

  type Entity = nat

  /** A nearby entity with its toroidal offset from the query point and squared distance. */
  datatype Neighbor = Neighbor(e: Entity, dx: real, dy: real, distSq: real)

  datatype SpatialGrid = SpatialGrid(cellSize: real, cols: int, rows: int, width: real, height: real,
                                     cells: seq<seq<Entity>>)

  /** A grid NewSpatialGrid can produce: positive cell size, at least one cell each way, row-major cells. */
  predicate Valid(g: SpatialGrid)
  {
    g.cellSize > 0.0 && g.cols >= 1 && g.rows >= 1 && |g.cells| == g.cols * g.rows
  }

  /**
   * NewSpatialGrid: one more column and row than whole cells fit, so the
   * cells cover the whole world, and every cell starts empty.
   */
  function NewSpatialGrid(width: real, height: real, cellSize: real): (g: SpatialGrid)
    requires width >= 0.0 && height >= 0.0 && cellSize > 0.0
    ensures Valid(g) && g.width == width && g.height == height && g.cellSize == cellSize
    ensures InCell(width, cellSize, g.cols - 1) && InCell(height, cellSize, g.rows - 1)
    ensures forall i :: 0 <= i < |g.cells| ==> g.cells[i] == []
  {
    var cols := CellsFor(width, cellSize);
    var rows := CellsFor(height, cellSize);
    NavGrid.RowMajorInRange(0, 0, cols, rows);
    SpatialGrid(cellSize, cols, rows, width, height, seq(cols * rows, i => []))
  }

  /** int(p / size) + 1: the number of cells of the given size that cover [0, p]. */
  function CellsFor(p: real, size: real): (n: int)
    requires p >= 0.0 && size > 0.0
    ensures n >= 1
    ensures InCell(p, size, n - 1)
  {
    NavGrid.CellOf(p, size);
    var k := Trunc(p / size);
    TruncMonotone(0.0, p / size);
    DivNonNegative(p, size);
    assert (k + 1) - 1 == k;
    k + 1
  }

  /** Clear: every cell emptied, the layout kept. */
  function Clear(g: SpatialGrid): (r: SpatialGrid)
    ensures r.cellSize == g.cellSize && r.cols == g.cols && r.rows == g.rows
    ensures r.width == g.width && r.height == g.height
    ensures |r.cells| == |g.cells| && forall i :: 0 <= i < |r.cells| ==> r.cells[i] == []
    ensures Valid(g) ==> Valid(r)
  {
    g.(cells := seq(|g.cells|, i => []))
  }

  /** Clamp a cell coordinate into [0, n). */
  function ClampCell(c: int, n: int): (r: int)
    requires n >= 1
    ensures 0 <= r < n
    ensures 0 <= c < n ==> r == c
  {
    if c < 0 then 0 else if c >= n then n - 1 else c
  }

  /** cellIndex: the row-major cell containing a point, clamped to the grid's edge cells. */
  function CellIndex(g: SpatialGrid, x: real, y: real): (r: int)
    requires Valid(g)
    ensures 0 <= r < |g.cells|
  {
    var col := ClampCell(Trunc(x / g.cellSize), g.cols);
    var row := ClampCell(Trunc(y / g.cellSize), g.rows);
    NavGrid.RowMajorInRange(col, row, g.cols, g.rows);
    row * g.cols + col
  }

  /**
   * A point inside the grid's area lands in the cell whose square holds it:
   * the cell's column and row bound the point on both sides.
   */
  lemma CellIndexContains(g: SpatialGrid, x: real, y: real)
    requires Valid(g)
    requires 0.0 <= x < g.cellSize * g.cols as real && 0.0 <= y < g.cellSize * g.rows as real
    ensures InCell(x, g.cellSize, CellIndex(g, x, y) % g.cols)
    ensures InCell(y, g.cellSize, CellIndex(g, x, y) / g.cols)
  {
    AxisCell(x, g.cellSize, g.cols);
    AxisCell(y, g.cellSize, g.rows);
    RowMajorSplit(Trunc(x / g.cellSize), Trunc(y / g.cellSize), g.cols);
  }

  /** The c-th cell of the given size along an axis holds p. */
  predicate InCell(p: real, size: real, c: int)
  {
    size * c as real <= p < size * (c + 1) as real
  }

  /** Along one axis, a point inside the grid's extent is in the unclamped cell, bounded by its edges. */
  lemma AxisCell(p: real, size: real, n: int)
    requires size > 0.0 && n >= 1 && 0.0 <= p < size * n as real
    ensures ClampCell(Trunc(p / size), n) == Trunc(p / size)
    ensures InCell(p, size, Trunc(p / size))
  {
    NavGrid.CellOf(p, size);
    BelowCount(p, size, n);
  }

  /** A row-major index splits back into its column and row. */
  lemma RowMajorSplit(c: int, row: int, cols: int)
    requires 0 <= c < cols
    ensures (row * cols + c) % cols == c && (row * cols + c) / cols == row
  {
    ModUnique(row * cols + c, cols, row, c);
  }

  /** A point below size * n lies in a cell before the n-th. */
  lemma BelowCount(p: real, size: real, n: int)
    requires size > 0.0 && 0.0 <= p < size * n as real
    ensures 0 <= Trunc(p / size) < n
  {
    NavGrid.CellOf(p, size);
    var k := Trunc(p / size);
    TruncMonotone(0.0, p / size);
    assert 0.0 <= p / size by { DivNonNegative(p, size); }
    if k >= n {
      MulMonotone(size, n as real, k as real);
    }
  }

  /** Insert: the entity appended to the cell of its position, every other cell untouched. */
  function Insert(g: SpatialGrid, e: Entity, x: real, y: real): (r: SpatialGrid)
    requires Valid(g)
    ensures Valid(r) && r.cols == g.cols && r.rows == g.rows && r.cellSize == g.cellSize
    ensures |r.cells| == |g.cells|
    ensures r.cells[CellIndex(g, x, y)] == g.cells[CellIndex(g, x, y)] + [e]
    ensures forall i :: 0 <= i < |r.cells| && i != CellIndex(g, x, y) ==> r.cells[i] == g.cells[i]
  {
    var idx := CellIndex(g, x, y);
    g.(cells := g.cells[idx := g.cells[idx] + [e]])
  }

  /** After clearing, the grid holds exactly the one entity inserted next, in the cell of its position. */
  lemma ClearThenInsert(g: SpatialGrid, e: Entity, x: real, y: real)
    requires Valid(g)
    ensures var r := Insert(Clear(g), e, x, y);
      forall i :: 0 <= i < |r.cells| ==> r.cells[i] == (if i == CellIndex(g, x, y) then [e] else [])
  {
    assert CellIndex(Clear(g), x, y) == CellIndex(g, x, y);
  }

  /** Queries stop once this many neighbours are held. */
  const MaxQueryResults: nat := 128

  // ---- Scanning the block of cells around the query point ----

  /** The row-major indices of one column's cells, rows cr+dr .. cr+hi wrapped round the grid. */
  function ScanRows(g: SpatialGrid, col: int, cr: int, dr: int, hi: int): (r: seq<int>)
    requires Valid(g) && 0 <= col < g.cols
    ensures forall i :: 0 <= i < |r| ==> 0 <= r[i] < |g.cells|
    ensures |r| == if dr > hi then 0 else hi - dr + 1
    decreases hi - dr + 1
  {
    if dr > hi then []
    else
      var row := Grid.ModInt(cr + dr, g.rows);
      NavGrid.RowMajorInRange(col, row, g.cols, g.rows);
      [row * g.cols + col] + ScanRows(g, col, cr, dr + 1, hi)
  }

  /**
   * The cells a query visits, column offsets dc .. radius in the outer loop
   * and row offsets -radius .. radius in the inner one, each wrapped round
   * the grid.
   */
  function ScanCells(g: SpatialGrid, cc: int, cr: int, dc: int, radius: int): (r: seq<int>)
    requires Valid(g)
    ensures forall i :: 0 <= i < |r| ==> 0 <= r[i] < |g.cells|
    decreases radius - dc + 1
  {
    if dc > radius then []
    else ScanRows(g, Grid.ModInt(cc + dc, g.cols), cr, -radius, radius) + ScanCells(g, cc, cr, dc + 1, radius)
  }

  /** The entities of the scanned cells, cell after cell. */
  function Candidates(g: SpatialGrid, idx: seq<int>): (r: seq<Entity>)
    requires forall i :: 0 <= i < |idx| ==> 0 <= idx[i] < |g.cells|
    ensures forall e :: e in r ==> exists i :: 0 <= i < |idx| && e in g.cells[idx[i]]
    ensures forall i, e :: 0 <= i < |idx| && e in g.cells[idx[i]] ==> e in r
  {
    if |idx| == 0 then []
    else
      var rest := Candidates(g, idx[1..]);
      assert forall i :: 1 <= i < |idx| ==> idx[1..][i - 1] == idx[i];
      g.cells[idx[0]] + rest
  }

  // ---- Filtering ----

  /** What a query needs to judge one candidate. */
  datatype Lookup = Lookup(x: real, y: real, radiusSq: real, exclude: Entity, pos: map<Entity, (real, real)>,
                         width: real, height: real)

  /** The neighbour a candidate makes: not the excluded entity, positioned, and within the radius. */
  function Judge(p: Lookup, e: Entity): (r: Option<Neighbor>)
    ensures r.Some? ==> r.value.e == e && e != p.exclude && e in p.pos && r.value.distSq <= p.radiusSq
    ensures r.Some? ==> r.value.dx == TorusDelta(p.x, p.pos[e].0, p.width) && r.value.dy == TorusDelta(p.y, p.pos[e].1, p.height)
    ensures r.Some? ==> r.value.distSq == Sq(r.value.dx) + Sq(r.value.dy)
    ensures r.None? ==> (e == p.exclude || e !in p.pos ||
                         Sq(TorusDelta(p.x, p.pos[e].0, p.width)) + Sq(TorusDelta(p.y, p.pos[e].1, p.height)) > p.radiusSq)
  {
    if e == p.exclude then None
    else if e !in p.pos then None
    else
      var dx := TorusDelta(p.x, p.pos[e].0, p.width);
      var dy := TorusDelta(p.y, p.pos[e].1, p.height);
      var distSq := Sq(dx) + Sq(dy);
      if distSq <= p.radiusSq then Some(Neighbor(e, dx, dy, distSq)) else None
  }

  /** Every neighbour the candidates make, in candidate order: the query without its cap. */
  function Matches(p: Lookup, cands: seq<Entity>): (r: seq<Neighbor>)
    ensures |r| <= |cands|
    ensures forall i :: 0 <= i < |r| ==> r[i].e in cands && Judge(p, r[i].e) == Some(r[i])
    ensures forall e :: e in cands && Judge(p, e).Some? ==> Judge(p, e).value in r
  {
    if |cands| == 0 then []
    else
      var rest := Matches(p, cands[1..]);
      match Judge(p, cands[0])
      case None => rest
      case Some(n) => [n] + rest
  }

  /** How many more neighbours a query may add to a result of length n before it stops. */
  function Room(n: nat): (k: nat)
    ensures k >= 1
    ensures n < MaxQueryResults ==> n + k == MaxQueryResults
  {
    if n < MaxQueryResults then MaxQueryResults - n else 1
  }

  /**
   * The filtering loop: append each candidate's neighbour and return as
   * soon as the result holds MaxQueryResults.
   */
  function Collect(p: Lookup, cands: seq<Entity>, dst: seq<Neighbor>): seq<Neighbor>
    decreases |cands|
  {
    if |cands| == 0 then dst
    else
      match Judge(p, cands[0])
      case None => Collect(p, cands[1..], dst)
      case Some(n) =>
        var d := dst + [n];
        if |d| >= MaxQueryResults then d else Collect(p, cands[1..], d)
  }

  /** The filtering loop appends exactly the uncapped matches, cut off at the room the result had. */
  lemma {:induction false} CollectTakesMatches(p: Lookup, cands: seq<Entity>, dst: seq<Neighbor>)
    ensures Collect(p, cands, dst) == dst + Matches(p, cands)[..MinInt(|Matches(p, cands)|, Room(|dst|))]
    decreases |cands|
  {
    if |cands| > 0 {
      var m' := Matches(p, cands[1..]);
      match Judge(p, cands[0])
      case None =>
        CollectTakesMatches(p, cands[1..], dst);
        assert Matches(p, cands) == m';
      case Some(n) =>
        var d := dst + [n];
        assert Matches(p, cands) == [n] + m';
        if |d| >= MaxQueryResults {
          assert Room(|dst|) == 1;
          assert Matches(p, cands)[..1] == [n];
        } else {
          CollectTakesMatches(p, cands[1..], d);
          assert Room(|d|) == Room(|dst|) - 1;
          TakeCons(n, m', Room(|dst|));
        }
    }
  }

  /** Taking k >= 1 from a sequence with n in front keeps n and k - 1 of the rest. */
  lemma TakeCons(n: Neighbor, m: seq<Neighbor>, k: int)
    requires k >= 1
    ensures ([n] + m)[..MinInt(|m| + 1, k)] == [n] + m[..MinInt(|m|, k - 1)]
  {
  }

  /** The integer min, kept here to state how much of the matches a query keeps. */
  function MinInt(a: int, b: int): (r: int)
    ensures r <= a && r <= b && (r == a || r == b)
  {
    if a <= b then a else b
  }

  /**
   * The cells a query around (x, y) visits: the (2k+1) x (2k+1) block
   * centred on the point's cell, k = int(radius / cellSize) + 1, wrapped
   * round the grid.
   */
  function QueryCells(g: SpatialGrid, x: real, y: real, radius: real): (r: seq<int>)
    requires Valid(g)
    ensures forall i :: 0 <= i < |r| ==> 0 <= r[i] < |g.cells|
  {
    var k := Trunc(radius / g.cellSize) + 1;
    ScanCells(g, Trunc(x / g.cellSize), Trunc(y / g.cellSize), -k, k)
  }

  /**
   * QueryRadiusInto: scan the (2k+1) x (2k+1) block of cells around the
   * point, k = int(radius / cellSize) + 1, and collect the neighbours
   * within the radius, after those already in dst.
   */
  function QueryRadiusInto(g: SpatialGrid, dst: seq<Neighbor>, x: real, y: real, radius: real, exclude: Entity,
                           pos: map<Entity, (real, real)>): (r: seq<Neighbor>)
    requires Valid(g)
    ensures |r| >= |dst| && r[..|dst|] == dst
    ensures forall i :: |dst| <= i < |r| ==>
      r[i].e != exclude && r[i].e in pos && r[i].distSq <= Sq(radius) &&
      r[i].dx == TorusDelta(x, pos[r[i].e].0, g.width) && r[i].dy == TorusDelta(y, pos[r[i].e].1, g.height)
    ensures |dst| < MaxQueryResults ==> |r| <= MaxQueryResults
    ensures |dst| >= MaxQueryResults ==> |r| <= |dst| + 1
  {
    var p := Lookup(x, y, Sq(radius), exclude, pos, g.width, g.height);
    var cands := Candidates(g, QueryCells(g, x, y, radius));
    var r := Collect(p, cands, dst);
    var m := Matches(p, cands);
    CollectTakesMatches(p, cands, dst);
    assert forall i :: |dst| <= i < |r| ==> r[i] == m[i - |dst|];
    r
  }

  /**
   * A query that stops short of the cap misses nothing: every entity in the
   * scanned cells that is not excluded, has a position and lies within the
   * radius is in the result.
   */
  lemma QueryComplete(g: SpatialGrid, dst: seq<Neighbor>, x: real, y: real, radius: real, exclude: Entity,
                      pos: map<Entity, (real, real)>, e: Entity)
    requires Valid(g)
    requires e in Candidates(g, QueryCells(g, x, y, radius))
    requires e != exclude && e in pos
    requires Sq(TorusDelta(x, pos[e].0, g.width)) + Sq(TorusDelta(y, pos[e].1, g.height)) <= Sq(radius)
    requires |QueryRadiusInto(g, dst, x, y, radius, exclude, pos)| < MaxQueryResults
    ensures exists i :: |dst| <= i < |QueryRadiusInto(g, dst, x, y, radius, exclude, pos)| &&
                        QueryRadiusInto(g, dst, x, y, radius, exclude, pos)[i].e == e
  {
    var p := Lookup(x, y, Sq(radius), exclude, pos, g.width, g.height);
    var cands := Candidates(g, QueryCells(g, x, y, radius));
    var r := QueryRadiusInto(g, dst, x, y, radius, exclude, pos);
    assert r == Collect(p, cands, dst);
    assert Judge(p, e).Some?;
    CollectComplete(p, cands, dst, e);
    var i :| |dst| <= i < |r| && r[i].e == e;
  }

  /** The filtering loop misses no neighbour when it stops short of the cap. */
  lemma CollectComplete(p: Lookup, cands: seq<Entity>, dst: seq<Neighbor>, e: Entity)
    requires e in cands && Judge(p, e).Some?
    requires |Collect(p, cands, dst)| < MaxQueryResults
    ensures exists i :: |dst| <= i < |Collect(p, cands, dst)| && Collect(p, cands, dst)[i].e == e
  {
    var m := Matches(p, cands);
    var r := Collect(p, cands, dst);
    CollectTakesMatches(p, cands, dst);
    assert |m| < Room(|dst|);
    assert r == dst + m;
    var n := Judge(p, e).value;
    var j :| 0 <= j < |m| && m[j] == n;
    assert r[|dst| + j] == n;
  }
  /** QueryRadius: the entities of a query into an empty result, in the same order. */
  function QueryRadius(g: SpatialGrid, x: real, y: real, radius: real, exclude: Entity,
                       pos: map<Entity, (real, real)>): (r: seq<Entity>)
    requires Valid(g)
    ensures |r| <= MaxQueryResults
    ensures forall i :: 0 <= i < |r| ==> r[i] != exclude && r[i] in pos
  {
    var ns := QueryRadiusInto(g, [], x, y, radius, exclude, pos);
    seq(|ns|, i requires 0 <= i < |ns| => ns[i].e)
  }

  // ---- The wrap as written ----

  /**
   * The column (or row) the source computes for offset d from cell c:
   * (c + d + n) % n with Go's truncated remainder. It is negative once
   * c + d < -n, which a cell radius larger than the grid reaches.
   */
  function WrapAsWritten(c: int, d: int, n: int): (r: int)
    requires n >= 1
    ensures c + d + n >= 0 ==> 0 <= r < n
  {
    GoRem(c + d + n, n)
  }

  /** Within one grid width of the centre the written wrap is the true modulus the model uses. */
  lemma WrapAsWrittenAgrees(c: int, d: int, n: int)
    requires n >= 1 && c + d + n >= 0
    ensures WrapAsWritten(c, d, n) == Grid.ModInt(c + d, n)
  {
    var a := c + d + n;
    Grid.ModIntIsEuclidean(c + d, n);
    assert GoRem(a, n) == a % n;
    ModShift(c + d, n);
  }

  lemma ModShift(a: int, n: int)
    requires n >= 1
    ensures (a + n) % n == a % n
  {
    ModUnique(a + n, n, a / n + 1, a % n);
  }

  /**
   * Two columns, centre column 0 and a cell radius of 3 (a query radius of
   * over two cells' width): the column offset -3 gives column -1, and on
   * the first row the cell index -1.
   */
  lemma WrapAsWrittenGoesNegative()
    ensures WrapAsWritten(0, -3, 2) == -1
    ensures 0 * 2 + WrapAsWritten(0, -3, 2) < 0
  {
    assert GoRem(-1, 2) == -((1) % 2);
  }
}
