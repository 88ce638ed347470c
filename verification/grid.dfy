/**
 * Mass accounting on the resource and detritus grids shared by the
 * particle resource field (systems/particle_resource.go) and the
 * capacity-driven resource field (systems/resource_field.go): toroidal
 * index helpers, bilinear corner weights, and the three ways mass moves
 * between a list of cells and a grid — unconditional adds, capped
 * deposits and bounded removals.
 */
module Grid {
  import opened SimMath

  /**
   * pfFract / rfFract: the fractional part x - floor(x), except that a
   * negative whole number gives 1 rather than 0.
   */
  function Fract(x: real): (r: real)
    ensures 0.0 <= r <= 1.0
    ensures x >= 0.0 || x.Floor as real != x ==> r == x - x.Floor as real && r < 1.0
    ensures x < 0.0 && x.Floor as real == x ==> r == 1.0
  {
    var t := Trunc(x);
    var f := x.Floor;
    assert f as real <= x < f as real + 1.0;
    assert x < 0.0 && x < t as real ==> f == t - 1;
    assert x < 0.0 && x == t as real ==> f == t;
    var k := if x >= 0.0 then t else t - 1;
    x - k as real
  }

  /** pfModInt / rfModInt: Go's remainder shifted into [0, m). */
  function ModInt(a: int, m: int): (r: int)
    requires m > 0
    ensures 0 <= r < m
    ensures 0 <= a < m ==> r == a
  {
    var r := GoRem(a, m);
    if r < 0 then r + m else r
  }

  /** ModInt agrees with the mathematical (Euclidean) remainder for every a. */
  lemma ModIntIsEuclidean(a: int, m: int)
    requires m > 0
    ensures ModInt(a, m) == a % m
  {
    var am := IntAbs(m);
    assert am == m;
    if a >= 0 {
      var q := a / m;
      ModUnique(a, m, q, a - q * m);
    } else {
      var q := (-a) / m;
      var rem := (-a) - q * m;
      assert GoRem(a, m) == -rem;
      if rem == 0 {
        ModUnique(a, m, -q, 0);
      } else {
        ModUnique(a, m, -q - 1, m - rem);
      }
    }
  }

  /** pfWrap: at most two shifts by max in either direction. */
  function Wrap(x: real, max: real): (r: real)
    requires max > 0.0
    ensures -2.0 * max <= x < 2.0 * max ==> 0.0 <= r < max
    ensures 0.0 <= x < max ==> r == x
    ensures r == x || r == x + max || r == x + 2.0 * max || r == x - max || r == x - 2.0 * max
  {
    if x < 0.0 then
      (if x + max < 0.0 then x + max + max else x + max)
    else if x >= max then
      (if x - max >= max then x - max - max else x - max)
    else x
  }

  /** Row-major cell index of (x, y) on a grid w cells wide. */
  function CellIndex(x: int, y: int, w: int): int
  {
    y * w + x
  }

  lemma CellIndexInRange(x: int, y: int, w: int, h: int)
    requires 0 <= x < w && 0 <= y < h
    ensures 0 <= CellIndex(x, y, w) < w * h
  {
    MulLe(y + 1, h, w);
    MulLe(0, y, w);
  }

  /** A cell of the grid and the mass to move there (or the weight of that cell). */
  datatype Cell = Cell(index: int, amount: real)

  predicate InGrid(cells: seq<Cell>, size: int)
  {
    forall k :: 0 <= k < |cells| ==> 0 <= cells[k].index < size
  }

  /** The amounts added up, front to back. */
  function Total(cells: seq<Cell>): real
  {
    if |cells| == 0 then 0.0 else cells[0].amount + Total(cells[1..])
  }

  /** Only the positive amounts added up. */
  function PosTotal(cells: seq<Cell>): (r: real)
    ensures r >= 0.0
  {
    if |cells| == 0 then 0.0 else Max(cells[0].amount, 0.0) + PosTotal(cells[1..])
  }

  lemma {:induction false} PosTotalOfNonNegative(cells: seq<Cell>)
    requires forall k :: 0 <= k < |cells| ==> cells[k].amount >= 0.0
    ensures PosTotal(cells) == Total(cells)
  {
    if |cells| > 0 {
      assert forall k :: 0 <= k < |cells[1..]| ==> cells[1..][k] == cells[k + 1];
      PosTotalOfNonNegative(cells[1..]);
    }
  }

  /** The same cells with every amount scaled by mass. */
  function Scale(cells: seq<Cell>, mass: real): (r: seq<Cell>)
    ensures |r| == |cells|
    ensures forall k :: 0 <= k < |r| ==> r[k] == Cell(cells[k].index, mass * cells[k].amount)
  {
    seq(|cells|, k requires 0 <= k < |cells| => Cell(cells[k].index, mass * cells[k].amount))
  }

  lemma {:induction false} ScaleTotal(cells: seq<Cell>, mass: real)
    ensures Total(Scale(cells, mass)) == mass * Total(cells)
  {
    if |cells| > 0 {
      var a := Scale(cells, mass)[1..];
      var b := Scale(cells[1..], mass);
      assert |a| == |b| && forall k :: 0 <= k < |a| ==> a[k] == b[k];
      assert a == b;
      ScaleTotal(cells[1..], mass);
      assert mass * (cells[0].amount + Total(cells[1..])) == mass * cells[0].amount + mass * Total(cells[1..]);
    }
  }

  /** No cell of the list touches index i. */
  predicate Untouched(cells: seq<Cell>, i: int)
  {
    forall k :: 0 <= k < |cells| ==> cells[k].index != i
  }

  predicate NonNegative(grid: seq<real>)
  {
    forall i :: 0 <= i < |grid| ==> grid[i] >= 0.0
  }

  /** The grid after the cells moved mass, and how much moved. */
  datatype Moved = Moved(grid: seq<real>, moved: real)

  /**
   * Unconditional adds (splatToDetGrid and the uncapped splatToGrid): the
   * grid total grows by exactly the amounts, untouched cells keep their
   * value and non-negative amounts never lower a cell.
   */
  function AddAll(grid: seq<real>, cells: seq<Cell>): (r: seq<real>)
    requires InGrid(cells, |grid|)
    ensures |r| == |grid|
    ensures Sum(r) == Sum(grid) + Total(cells)
    ensures forall i :: 0 <= i < |grid| && Untouched(cells, i) ==> r[i] == grid[i]
    ensures (forall k :: 0 <= k < |cells| ==> cells[k].amount >= 0.0) ==> forall i :: 0 <= i < |grid| ==> r[i] >= grid[i]
    decreases |cells|
  {
    if |cells| == 0 then grid
    else
      var c := cells[0];
      var g := grid[c.index := grid[c.index] + c.amount];
      SumUpdate(grid, c.index, grid[c.index] + c.amount);
      assert forall k :: 0 <= k < |cells[1..]| ==> cells[1..][k] == cells[k + 1];
      AddAll(g, cells[1..])
  }

  /**
   * Capped deposits (splatToGrid with a capacity): each positive amount
   * is added up to the room left below cap. What is deposited is never
   * negative and never more than the positive amounts; the grid total
   * grows by exactly what is deposited; a cell at or below cap stays at
   * or below cap, and no cell is lowered.
   */
  function PutAll(grid: seq<real>, cells: seq<Cell>, cap: real): (r: Moved)
    requires InGrid(cells, |grid|)
    ensures |r.grid| == |grid|
    ensures Sum(r.grid) == Sum(grid) + r.moved
    ensures 0.0 <= r.moved <= PosTotal(cells)
    ensures forall i :: 0 <= i < |grid| ==> grid[i] <= r.grid[i]
    ensures forall i :: 0 <= i < |grid| && grid[i] <= cap ==> r.grid[i] <= cap
    ensures forall i :: 0 <= i < |grid| && Untouched(cells, i) ==> r.grid[i] == grid[i]
    decreases |cells|
  {
    if |cells| == 0 then Moved(grid, 0.0)
    else
      var c := cells[0];
      var room := cap - grid[c.index];
      var put := if c.amount > 0.0 && room > 0.0 then Min(c.amount, room) else 0.0;
      var g := grid[c.index := grid[c.index] + put];
      SumUpdate(grid, c.index, grid[c.index] + put);
      assert forall k :: 0 <= k < |cells[1..]| ==> cells[1..][k] == cells[k + 1];
      var rest := PutAll(g, cells[1..], cap);
      Moved(rest.grid, put + rest.moved)
  }

  /**
   * What one removal takes from a cell: the smaller of the amount and the
   * cell, applied only for a positive amount (removeFromGrid) or, guarded,
   * only when that smaller value is itself positive.
   */
  function Taken(amount: real, cell: real, guarded: bool): (t: real)
    ensures guarded || cell >= 0.0 ==> t >= 0.0
    ensures t <= Max(amount, 0.0)
    ensures cell >= 0.0 ==> t <= cell
  {
    if guarded then (if Min(amount, cell) > 0.0 then Min(amount, cell) else 0.0)
    else if amount > 0.0 then Min(amount, cell) else 0.0
  }

  /** From a non-negative cell both rules take the same. */
  lemma TakenAgree(amount: real, cell: real)
    requires cell >= 0.0
    ensures Taken(amount, cell, false) == Taken(amount, cell, true)
  {
  }

  lemma InGridTail(cells: seq<Cell>, size: int)
    requires |cells| > 0 && InGrid(cells, size)
    ensures InGrid(cells[1..], size)
  {
    assert forall k :: 0 <= k < |cells[1..]| ==> cells[1..][k] == cells[k + 1];
  }

  /** The removals in order under one rule: each cell loses what Taken says. */
  function Removal(grid: seq<real>, cells: seq<Cell>, guarded: bool): (r: Moved)
    requires InGrid(cells, |grid|)
    ensures |r.grid| == |grid|
    decreases |cells|
  {
    if |cells| == 0 then Moved(grid, 0.0)
    else
      var c := cells[0];
      var t := Taken(c.amount, grid[c.index], guarded);
      InGridTail(cells, |grid|);
      var rest := Removal(grid[c.index := grid[c.index] - t], cells[1..], guarded);
      Moved(rest.grid, t + rest.moved)
  }

  /** The grid total drops by exactly what is taken. */
  lemma {:induction false} RemovalSum(grid: seq<real>, cells: seq<Cell>, guarded: bool)
    requires InGrid(cells, |grid|)
    ensures var r := Removal(grid, cells, guarded); Sum(r.grid) == Sum(grid) - r.moved
    decreases |cells|
  {
    if |cells| > 0 {
      var c := cells[0];
      var t := Taken(c.amount, grid[c.index], guarded);
      SumUpdate(grid, c.index, grid[c.index] - t);
      InGridTail(cells, |grid|);
      RemovalSum(grid[c.index := grid[c.index] - t], cells[1..], guarded);
    }
  }

  /** Cells no removal touches keep their value. */
  lemma {:induction false} RemovalUntouched(grid: seq<real>, cells: seq<Cell>, guarded: bool)
    requires InGrid(cells, |grid|)
    ensures var r := Removal(grid, cells, guarded);
      forall i :: 0 <= i < |grid| && Untouched(cells, i) ==> r.grid[i] == grid[i]
    decreases |cells|
  {
    if |cells| > 0 {
      var c := cells[0];
      var g := grid[c.index := grid[c.index] - Taken(c.amount, grid[c.index], guarded)];
      InGridTail(cells, |grid|);
      RemovalUntouched(g, cells[1..], guarded);
      forall i | 0 <= i < |grid| && Untouched(cells, i)
        ensures Untouched(cells[1..], i) && g[i] == grid[i]
      {
        assert forall k :: 0 <= k < |cells[1..]| ==> cells[1..][k] == cells[k + 1];
        assert cells[0].index != i;
      }
    }
  }

  /**
   * Under the guarded rule, or on a non-negative grid, removals never raise
   * a cell, keep non-negative cells non-negative, and take between 0 and
   * the positive amounts.
   */
  lemma {:induction false} RemovalLowers(grid: seq<real>, cells: seq<Cell>, guarded: bool)
    requires InGrid(cells, |grid|)
    ensures var r := Removal(grid, cells, guarded);
      (guarded || NonNegative(grid)) ==>
        0.0 <= r.moved <= PosTotal(cells) &&
        (forall i :: 0 <= i < |grid| ==> r.grid[i] <= grid[i]) &&
        (forall i :: 0 <= i < |grid| && grid[i] >= 0.0 ==> r.grid[i] >= 0.0)
    decreases |cells|
  {
    if |cells| > 0 && (guarded || NonNegative(grid)) {
      var c := cells[0];
      var t := Taken(c.amount, grid[c.index], guarded);
      var g := grid[c.index := grid[c.index] - t];
      assert t >= 0.0;
      assert guarded || NonNegative(g);
      InGridTail(cells, |grid|);
      RemovalLowers(g, cells[1..], guarded);
      assert forall i :: 0 <= i < |grid| ==> g[i] <= grid[i];
      assert forall i :: 0 <= i < |grid| && grid[i] >= 0.0 ==> g[i] >= 0.0;
    }
  }

  /**
   * Bounded removals (removeFromGrid, and grazing in the particle field):
   * each positive amount takes the smaller of itself and the cell. The
   * grid total drops by exactly what is taken; on a non-negative grid no
   * cell goes negative, no cell is raised, and what is taken lies between
   * 0 and the positive amounts.
   */
  function TakeAll(grid: seq<real>, cells: seq<Cell>): (r: Moved)
    requires InGrid(cells, |grid|)
    ensures |r.grid| == |grid|
    ensures Sum(r.grid) == Sum(grid) - r.moved
    ensures NonNegative(grid) ==> NonNegative(r.grid) && 0.0 <= r.moved <= PosTotal(cells)
    ensures NonNegative(grid) ==> forall i :: 0 <= i < |grid| ==> r.grid[i] <= grid[i]
    ensures forall i :: 0 <= i < |grid| && Untouched(cells, i) ==> r.grid[i] == grid[i]
  {
    RemovalSum(grid, cells, false);
    RemovalUntouched(grid, cells, false);
    RemovalLowers(grid, cells, false);
    Removal(grid, cells, false)
  }

  /**
   * Guarded removals (grazing in the resource field): the smaller of the
   * amount and the cell, applied only when positive. Without any
   * assumption on the grid, nothing is raised, what is taken is never
   * negative, and a non-negative cell stays non-negative.
   */
  function TakeGuarded(grid: seq<real>, cells: seq<Cell>): (r: Moved)
    requires InGrid(cells, |grid|)
    ensures |r.grid| == |grid|
    ensures Sum(r.grid) == Sum(grid) - r.moved
    ensures 0.0 <= r.moved <= PosTotal(cells)
    ensures forall i :: 0 <= i < |grid| ==> r.grid[i] <= grid[i]
    ensures forall i :: 0 <= i < |grid| && grid[i] >= 0.0 ==> r.grid[i] >= 0.0
    ensures forall i :: 0 <= i < |grid| && Untouched(cells, i) ==> r.grid[i] == grid[i]
  {
    RemovalSum(grid, cells, true);
    RemovalUntouched(grid, cells, true);
    RemovalLowers(grid, cells, true);
    Removal(grid, cells, true)
  }

  /** On a non-negative grid the two removal rules coincide. */
  lemma {:induction false} TakeRulesAgree(grid: seq<real>, cells: seq<Cell>)
    requires InGrid(cells, |grid|) && NonNegative(grid)
    ensures TakeAll(grid, cells) == TakeGuarded(grid, cells)
  {
    RemovalRulesAgree(grid, cells);
  }

  lemma {:induction false} RemovalRulesAgree(grid: seq<real>, cells: seq<Cell>)
    requires InGrid(cells, |grid|) && NonNegative(grid)
    ensures Removal(grid, cells, false) == Removal(grid, cells, true)
    decreases |cells|
  {
    if |cells| > 0 {
      var c := cells[0];
      TakenAgree(c.amount, grid[c.index]);
      var g := grid[c.index := grid[c.index] - Taken(c.amount, grid[c.index], false)];
      assert NonNegative(g);
      InGridTail(cells, |grid|);
      RemovalRulesAgree(g, cells[1..]);
    }
  }

  /** The four bilinear corners of grid point (gx, gy): cell indices and weights. */
  function Corners(gx: real, gy: real, w: int, h: int): (cs: seq<Cell>)
    requires w > 0 && h > 0 && gx >= 0.0 && gy >= 0.0
    ensures |cs| == 4
    ensures InGrid(cs, w * h)
    ensures forall k :: 0 <= k < 4 ==> 0.0 <= cs[k].amount <= 1.0
    ensures Total(cs) == 1.0
  {
    var cx := Trunc(gx);
    var cy := Trunc(gy);
    var fx := gx - cx as real;
    var fy := gy - cy as real;
    var x0 := if cx >= w then 0 else cx;
    var y0 := if cy >= h then 0 else cy;
    var x1 := if cx + 1 >= w then 0 else cx + 1;
    var y1 := if cy + 1 >= h then 0 else cy + 1;
    CellIndexInRange(x0, y0, w, h);
    CellIndexInRange(x1, y0, w, h);
    CellIndexInRange(x0, y1, w, h);
    CellIndexInRange(x1, y1, w, h);
    WeightsInUnit(fx, fy);
    var cs := [Cell(CellIndex(x0, y0, w), Along(1.0 - fx, 1.0 - fy)), Cell(CellIndex(x1, y0, w), Along(fx, 1.0 - fy)),
     Cell(CellIndex(x0, y1, w), Along(1.0 - fx, fy)), Cell(CellIndex(x1, y1, w), Along(fx, fy))];
    assert Total(cs[3..]) == cs[3].amount + Total(cs[4..]);
    assert Total(cs[2..]) == cs[2].amount + Total(cs[3..]);
    assert Total(cs[1..]) == cs[1].amount + Total(cs[2..]);
    cs
  }

  /** The product of a fraction and an amount: a bilinear weight, a share, an interpolation step. */
  function Along(a: real, b: real): real
  {
    a * b
  }

  lemma WeightsInUnit(fx: real, fy: real)
    requires 0.0 <= fx <= 1.0 && 0.0 <= fy <= 1.0
    ensures 0.0 <= Along(1.0 - fx, 1.0 - fy) <= 1.0 && 0.0 <= Along(fx, 1.0 - fy) <= 1.0
    ensures 0.0 <= Along(1.0 - fx, fy) <= 1.0 && 0.0 <= Along(fx, fy) <= 1.0
    ensures Along(1.0 - fx, 1.0 - fy) + Along(fx, 1.0 - fy) + Along(1.0 - fx, fy) + Along(fx, fy) == 1.0
  {
    UnitProduct(1.0 - fx, 1.0 - fy);
    UnitProduct(fx, 1.0 - fy);
    UnitProduct(1.0 - fx, fy);
    UnitProduct(fx, fy);
    assert (1.0 - fx) * (1.0 - fy) + fx * (1.0 - fy) == 1.0 - fy;
    assert (1.0 - fx) * fy + fx * fy == fy;
  }

  lemma UnitProduct(a: real, b: real)
    requires 0.0 <= a <= 1.0 && 0.0 <= b <= 1.0
    ensures 0.0 <= Along(a, b) <= 1.0
  {
    assert 0.0 <= a * b by { MulMonotone(a, 0.0, b); assert a * 0.0 == 0.0; }
    assert a * b <= a by { MulMonotone(a, b, 1.0); assert a * 1.0 == a; }
  }

  /** A kernel offset (ox, oy) from the grazing cell. */
  datatype Offset = Offset(ox: int, oy: int)

  /** The grazing loops' visiting order: oy from -radius to radius, and within it ox likewise. */
  function Offsets(radius: int): (os: seq<Offset>)
    ensures radius < 0 ==> os == []
    ensures radius >= 0 ==> |os| == (2 * radius + 1) * (2 * radius + 1)
    ensures forall k :: 0 <= k < |os| ==> -radius <= os[k].ox <= radius && -radius <= os[k].oy <= radius
  {
    if radius < 0 then []
    else
      var n := 2 * radius + 1;
      RowMajorBounds(n, n);
      seq(n * n, t requires 0 <= t < n * n => Offset(t % n - radius, t / n - radius))
  }

  lemma RowMajorBounds(n: int, m: int)
    requires n > 0 && m >= 0
    ensures n * m >= 0
    ensures forall t :: 0 <= t < n * m ==> 0 <= t / n < m
  {
    forall t | 0 <= t < n * m
      ensures 0 <= t / n < m
    {
      var q := t / n;
      assert q * n <= t;
      if q >= m {
        MulLe(m, q, n);
        assert false;
      }
    }
  }

  /** The centre offset (0, 0) is visited, at position radius * (2 radius + 1) + radius. */
  lemma OffsetsHaveCentre(radius: int)
    requires radius >= 0
    ensures var os := Offsets(radius); var t := radius * (2 * radius + 1) + radius;
      0 <= t < |os| && os[t] == Offset(0, 0)
  {
    var n := 2 * radius + 1;
    var t := radius * n + radius;
    MulLe(radius + 1, n, n);
    ModUnique(t, n, radius, radius);
  }

  /** The tent weight of an offset: radius + 1 minus its Manhattan distance. */
  function Tent(radius: int, o: Offset): int
  {
    radius + 1 - (IntAbs(o.ox) + IntAbs(o.oy))
  }

  /** wsum: the positive tent weights added up. */
  function TentSum(os: seq<Offset>, radius: int): (r: real)
    ensures r >= 0.0
    ensures forall k :: 0 <= k < |os| && Tent(radius, os[k]) > 0 ==> Tent(radius, os[k]) as real <= r
  {
    if |os| == 0 then 0.0
    else
      var rest := TentSum(os[1..], radius);
      assert forall k :: 1 <= k < |os| ==> os[k] == os[1..][k - 1];
      (if Tent(radius, os[0]) > 0 then Tent(radius, os[0]) as real else 0.0) + rest
  }

  /** The kernel weight sum is positive exactly when the radius is not negative. */
  lemma TentSumPositive(radius: int)
    ensures TentSum(Offsets(radius), radius) > 0.0 <==> radius >= 0
  {
    if radius >= 0 {
      OffsetsHaveCentre(radius);
    }
  }

  /** want * (weight / wsum): one cell's share of what is wanted. */
  function Share(want: real, weight: real, wsum: real): real
    requires wsum != 0.0
  {
    want * (weight / wsum)
  }

  lemma SharePositive(want: real, weight: real, wsum: real)
    requires want > 0.0 && weight > 0.0 && wsum > 0.0
    ensures Share(want, weight, wsum) > 0.0
  {
    DivNonNegative(weight, wsum);
    assert weight / wsum != 0.0;
    MulStrict(want, 0.0, weight / wsum);
    assert want * 0.0 == 0.0;
  }

  lemma SharePositiveWhen(want: real, weight: real, wsum: real)
    requires wsum != 0.0 && weight > 0.0
    ensures want > 0.0 && wsum > 0.0 ==> Share(want, weight, wsum) > 0.0
  {
    if want > 0.0 && wsum > 0.0 {
      SharePositive(want, weight, wsum);
    }
  }

  lemma SharesAdd(want: real, a: real, b: real, s: real)
    requires s != 0.0
    ensures Share(want, a, s) + Share(want, b, s) == Share(want, a + b, s)
  {
    assert (a + b) / s == a / s + b / s;
  }

  /**
   * The cells one grazing call visits with positive weight, each with its
   * share want * (w / wsum), wrapped onto a w x h torus around (cx, cy).
   */
  function GrazeCells(os: seq<Offset>, radius: int, cx: int, cy: int, w: int, h: int, want: real, wsum: real): (cs: seq<Cell>)
    requires w > 0 && h > 0 && wsum != 0.0
    ensures InGrid(cs, w * h)
    ensures want > 0.0 && wsum > 0.0 ==> forall k :: 0 <= k < |cs| ==> cs[k].amount > 0.0
    ensures Total(cs) == Share(want, TentSum(os, radius), wsum)
  {
    if |os| == 0 then
      assert 0.0 / wsum == 0.0;
      assert want * 0.0 == 0.0;
      []
    else
      var rest := GrazeCells(os[1..], radius, cx, cy, w, h, want, wsum);
      var tw := Tent(radius, os[0]);
      if tw > 0 then
        var xx := ModInt(cx + os[0].ox, w);
        var yy := ModInt(cy + os[0].oy, h);
        CellIndexInRange(xx, yy, w, h);
        var c := Cell(CellIndex(xx, yy, w), Share(want, tw as real, wsum));
        SharePositiveWhen(want, tw as real, wsum);
        SharesAdd(want, tw as real, TentSum(os[1..], radius), wsum);
        assert ([c] + rest)[1..] == rest;
        [c] + rest
      else rest
  }

  /** With the sum taken over the same kernel, the shares add up to exactly what was wanted. */
  lemma GrazeSharesTotal(os: seq<Offset>, radius: int, cx: int, cy: int, w: int, h: int, want: real)
    requires w > 0 && h > 0 && TentSum(os, radius) > 0.0
    ensures Total(GrazeCells(os, radius, cx, cy, w, h, want, TentSum(os, radius))) == want
  {
    var s := TentSum(os, radius);
    ShareOfWhole(want, s);
  }

  lemma ShareOfWhole(want: real, s: real)
    requires s != 0.0
    ensures Share(want, s, s) == want
  {
    assert s / s == 1.0;
  }

  /** Linear interpolation from a toward b by t. */
  function Lerp(a: real, b: real, t: real): real
  {
    a + Along(b - a, t)
  }

  /** Interpolating between two values inside [lo, hi] with t in [0, 1] stays inside. */
  lemma LerpBetween(a: real, b: real, t: real, lo: real, hi: real)
    requires 0.0 <= t <= 1.0 && lo <= a <= hi && lo <= b <= hi
    ensures lo <= Lerp(a, b, t) <= hi
  {
    if a <= b {
      PartWithin(b - a, t);
    } else {
      PartWithin(a - b, t);
      assert Along(b - a, t) == -Along(a - b, t);
    }
  }

  lemma PartWithin(d: real, t: real)
    requires d >= 0.0 && 0.0 <= t <= 1.0
    ensures 0.0 <= Along(d, t) <= d
  {
    MulMonotone(d, 0.0, t);
    MulMonotone(d, t, 1.0);
  }

  lemma LerpSame(c: real, t: real)
    ensures Lerp(c, c, t) == c
  {
    assert Along(0.0, t) == 0.0;
  }

  /** One axis of a bilinear sample: the lower cell, its wrapped neighbour, and the fraction past the lower cell. */
  datatype Axis = Axis(lo: int, hi: int, t: real)

  /**
   * The sampling axis of a coordinate: the fractional world position
   * scaled to the grid. Both cells are on the grid; the neighbour wraps
   * to 0 past the edge; the fraction lies in [0, 1) except when the
   * fractional position is exactly 1.
   */
  function AxisOf(p: real, world: real, cells: int): (a: Axis)
    requires world > 0.0 && cells > 0
    ensures 0 <= a.lo < cells && 0 <= a.hi < cells
    ensures a.hi == (a.lo + 1) % cells
    ensures Fract(p / world) < 1.0 ==> 0.0 <= a.t < 1.0
  {
    var u := Fract(p / world);
    var f := u * cells as real;
    var x0 := Trunc(f);
    ScaledFraction(u, cells);
    var lo := if x0 >= cells then 0 else x0;
    var hi := if lo + 1 >= cells then 0 else lo + 1;
    NextWraps(lo, cells);
    Axis(lo, hi, f - lo as real)
  }

  /** A fraction in [0, 1] scaled to n cells truncates onto the grid, with the part past the cell in [0, 1), when it is below 1. */
  lemma ScaledFraction(u: real, cells: int)
    requires 0.0 <= u <= 1.0 && cells > 0
    ensures var f := u * cells as real;
      f >= 0.0 && Trunc(f) >= 0 && (u < 1.0 ==> Trunc(f) < cells && 0.0 <= f - Trunc(f) as real < 1.0)
  {
    var n := cells as real;
    MulMonotone(n, 0.0, u);
    assert n * u == u * n;
    BelowOne(n, u);
  }

  /** The neighbour of an on-grid cell, wrapping to 0 past the edge, is the next index modulo the size. */
  lemma NextWraps(lo: int, cells: int)
    requires 0 <= lo < cells
    ensures (if lo + 1 >= cells then 0 else lo + 1) == (lo + 1) % cells
  {
    if lo + 1 >= cells {
      assert lo + 1 == cells;
    }
  }

  /**
   * sampleGrid: bilinear interpolation of the four cells around a wrapped
   * position. Away from the fractional-position-1 corner case the sample
   * never leaves the range of the grid's values, and a uniform grid
   * samples to its value everywhere.
   */
  function SampleGrid(grid: seq<real>, w: int, h: int, worldW: real, worldH: real, x: real, y: real): (r: real)
    requires w > 0 && h > 0 && worldW > 0.0 && worldH > 0.0 && |grid| == w * h
    ensures |grid| > 0
    ensures Fract(x / worldW) < 1.0 && Fract(y / worldH) < 1.0 ==> MinOf(grid) <= r <= MaxOf(grid)
    ensures (forall i :: 0 <= i < |grid| ==> grid[i] == grid[0]) ==> r == grid[0]
  {
    var ax := AxisOf(x, worldW, w);
    var ay := AxisOf(y, worldH, h);
    var i00 := CellIndex(ax.lo, ay.lo, w);
    var i10 := CellIndex(ax.hi, ay.lo, w);
    var i01 := CellIndex(ax.lo, ay.hi, w);
    var i11 := CellIndex(ax.hi, ay.hi, w);
    CellIndexInRange(ax.lo, ay.lo, w, h);
    CellIndexInRange(ax.hi, ay.lo, w, h);
    CellIndexInRange(ax.lo, ay.hi, w, h);
    CellIndexInRange(ax.hi, ay.hi, w, h);
    CornersInRange(grid, i00, i10, i01, i11);
    BilinearBetween(grid[i00], grid[i10], grid[i01], grid[i11], ax.t, ay.t, MinOf(grid), MaxOf(grid));
    BilinearUniform(grid, i00, i10, i01, i11, ax.t, ay.t);
    Lerp(Lerp(grid[i00], grid[i10], ax.t), Lerp(grid[i01], grid[i11], ax.t), ay.t)
  }

  lemma CornersInRange(grid: seq<real>, i00: int, i10: int, i01: int, i11: int)
    requires 0 <= i00 < |grid| && 0 <= i10 < |grid| && 0 <= i01 < |grid| && 0 <= i11 < |grid|
    ensures MinOf(grid) <= grid[i00] <= MaxOf(grid) && MinOf(grid) <= grid[i10] <= MaxOf(grid)
    ensures MinOf(grid) <= grid[i01] <= MaxOf(grid) && MinOf(grid) <= grid[i11] <= MaxOf(grid)
  {
  }

  lemma BilinearUniform(grid: seq<real>, i00: int, i10: int, i01: int, i11: int, tx: real, ty: real)
    requires 0 <= i00 < |grid| && 0 <= i10 < |grid| && 0 <= i01 < |grid| && 0 <= i11 < |grid|
    ensures (forall i :: 0 <= i < |grid| ==> grid[i] == grid[0]) ==>
      Lerp(Lerp(grid[i00], grid[i10], tx), Lerp(grid[i01], grid[i11], tx), ty) == grid[0]
  {
    if forall i :: 0 <= i < |grid| ==> grid[i] == grid[0] {
      var c := grid[0];
      assert grid[i00] == c && grid[i10] == c && grid[i01] == c && grid[i11] == c;
      LerpSame(c, tx);
      LerpSame(c, ty);
    }
  }

  lemma BelowOne(n: real, u: real)
    requires n > 0.0
    ensures u < 1.0 ==> u * n < n
  {
    if u < 1.0 {
      MulStrict(n, u, 1.0);
      assert n * u == u * n;
    }
  }

  /** Bilinear interpolation of four values in [lo, hi] with both fractions in [0, 1] stays in [lo, hi]. */
  lemma BilinearBetween(g00: real, g10: real, g01: real, g11: real, tx: real, ty: real, lo: real, hi: real)
    requires lo <= g00 <= hi && lo <= g10 <= hi && lo <= g01 <= hi && lo <= g11 <= hi
    ensures 0.0 <= tx <= 1.0 && 0.0 <= ty <= 1.0 ==>
      lo <= Lerp(Lerp(g00, g10, tx), Lerp(g01, g11, tx), ty) <= hi
  {
    if 0.0 <= tx <= 1.0 && 0.0 <= ty <= 1.0 {
      LerpBetween(g00, g10, tx, lo, hi);
      LerpBetween(g01, g11, tx, lo, hi);
      LerpBetween(Lerp(g00, g10, tx), Lerp(g01, g11, tx), ty, lo, hi);
    }
  }
}
