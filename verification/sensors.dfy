/**
 * Bounded neighbour sensing (systems/sensors.go): top-k nearest bins per
 * (sector, kind), the flat neural input layout, and the saturating
 * response curve. Square roots are a parameter.
 */
module Sensors {
  import opened SimMath

  const NumSectors: int := 8
  const NumInputs: int := NumSectors * 3 + 3
  const TopKPerSector: int := 2

  /** Inline storage of TopKPerSector slots, of which the first count are in use. */
  datatype Bin = Bin(distSq: seq<real>, weight: seq<real>, count: int)

  predicate ValidBin(b: Bin)
  {
    |b.distSq| == TopKPerSector && |b.weight| == TopKPerSector && 0 <= b.count <= TopKPerSector
  }

  const EmptyBin: Bin := Bin([0.0, 0.0], [0.0, 0.0], 0)

  /** The first index holding the largest value, as a scan replacing only on strictly greater. */
  function FurthestIndex(ds: seq<real>): (i: int)
    requires |ds| > 0
    ensures 0 <= i < |ds|
    ensures forall j :: 0 <= j < |ds| ==> ds[j] <= ds[i]
    ensures forall j :: 0 <= j < i ==> ds[j] < ds[i]
  {
    if |ds| == 1 then 0
    else
      var k := FurthestIndex(ds[..|ds| - 1]);
      assert forall j :: 0 <= j < |ds| - 1 ==> ds[..|ds| - 1][j] == ds[j];
      if ds[|ds| - 1] > ds[k] then |ds| - 1 else k
  }

  /**
   * insert: append while there is room; once full, the new neighbour
   * replaces the farthest kept one, and only if it is strictly closer.
   */
  function Insert(b: Bin, distSq: real, weight: real): (r: Bin)
    requires ValidBin(b)
    ensures ValidBin(r)
    ensures r.count == if b.count < TopKPerSector then b.count + 1 else TopKPerSector
    ensures b.count < TopKPerSector ==>
      r.distSq[..r.count] == b.distSq[..b.count] + [distSq] && r.weight[..r.count] == b.weight[..b.count] + [weight]
    ensures b.count == TopKPerSector && distSq >= b.distSq[FurthestIndex(b.distSq)] ==> r == b
    ensures b.count == TopKPerSector && distSq < b.distSq[FurthestIndex(b.distSq)] ==>
      var i := FurthestIndex(b.distSq);
      r.distSq == b.distSq[i := distSq] && r.weight == b.weight[i := weight]
  {
    if b.count < TopKPerSector then
      Bin(b.distSq[b.count := distSq], b.weight[b.count := weight], b.count + 1)
    else
      var i := FurthestIndex(b.distSq);
      if distSq < b.distSq[i] then Bin(b.distSq[i := distSq], b.weight[i := weight], b.count)
      else b
  }

  /** Once full, an insertion never moves the farthest kept distance outward. */
  lemma InsertNeverWidens(b: Bin, distSq: real, weight: real)
    requires ValidBin(b) && b.count == TopKPerSector
    ensures var r := Insert(b, distSq, weight);
      r.distSq[FurthestIndex(r.distSq)] <= b.distSq[FurthestIndex(b.distSq)]
  {
  }

  /** A full bin keeps a new neighbour exactly when it is closer than some kept one. */
  lemma InsertKeepsIffCloser(b: Bin, distSq: real, weight: real)
    requires ValidBin(b) && b.count == TopKPerSector
    ensures (Insert(b, distSq, weight) != b) ==> exists j :: 0 <= j < TopKPerSector && distSq < b.distSq[j]
    ensures (exists j :: 0 <= j < TopKPerSector && distSq < b.distSq[j]) ==>
      distSq in Insert(b, distSq, weight).distSq
  {
    var i := FurthestIndex(b.distSq);
    if exists j :: 0 <= j < TopKPerSector && distSq < b.distSq[j] {
      var j :| 0 <= j < TopKPerSector && distSq < b.distSq[j];
      assert Insert(b, distSq, weight).distSq[i] == distSq;
    }
  }

  /** The squared distances in use. */
  function Kept(b: Bin): seq<real>
    requires ValidBin(b)
  {
    b.distSq[..b.count]
  }

  /** What an insertion pushes out of the bin: nothing while there is room, else the farther of the two. */
  function Evicted(b: Bin, distSq: real): (r: seq<real>)
    requires ValidBin(b)
    ensures |r| <= 1
  {
    if b.count < TopKPerSector then []
    else
      var i := FurthestIndex(b.distSq);
      if distSq < b.distSq[i] then [b.distSq[i]] else [distSq]
  }

  /** Every kept distance is at most every dropped one. */
  predicate Nearest(kept: seq<real>, dropped: seq<real>)
  {
    forall i, j :: 0 <= i < |kept| && 0 <= j < |dropped| ==> kept[i] <= dropped[j]
  }

  /** The bin holds the nearest of what it has seen, and only a full bin has dropped anything. */
  predicate TopK(b: Bin, dropped: seq<real>)
    requires ValidBin(b)
  {
    Nearest(Kept(b), dropped) && (|dropped| > 0 ==> b.count == TopKPerSector)
  }

  lemma NearestReplace(kept: seq<real>, dropped: seq<real>, i: int, d: real)
    requires 0 <= i < |kept| && Nearest(kept, dropped) && d < kept[i]
    requires forall j :: 0 <= j < |kept| ==> kept[j] <= kept[i]
    ensures Nearest(kept[i := d], dropped + [kept[i]])
  {
    var k2 := kept[i := d];
    var d2 := dropped + [kept[i]];
    forall a, c | 0 <= a < |k2| && 0 <= c < |d2|
      ensures k2[a] <= d2[c]
    {
      if c < |dropped| {
        assert d2[c] == dropped[c];
        assert kept[i] <= dropped[c];
      }
    }
  }

  lemma NearestReject(kept: seq<real>, dropped: seq<real>, d: real)
    requires Nearest(kept, dropped)
    requires forall j :: 0 <= j < |kept| ==> kept[j] <= d
    ensures Nearest(kept, dropped + [d])
  {
  }

  /** One insertion keeps the bin holding the nearest of all distances seen. */
  lemma InsertKeepsNearest(b: Bin, dropped: seq<real>, distSq: real, weight: real)
    requires ValidBin(b) && TopK(b, dropped)
    ensures TopK(Insert(b, distSq, weight), dropped + Evicted(b, distSq))
  {
    var r := Insert(b, distSq, weight);
    if b.count == TopKPerSector {
      var i := FurthestIndex(b.distSq);
      assert Kept(b) == b.distSq;
      if distSq < b.distSq[i] {
        assert Kept(r) == b.distSq[i := distSq];
        NearestReplace(b.distSq, dropped, i, distSq);
      } else {
        assert Kept(r) == Kept(b);
        NearestReject(b.distSq, dropped, distSq);
      }
    } else {
      assert dropped == [];
      assert dropped + Evicted(b, distSq) == [];
    }
  }

  /** One insertion loses no distance: kept plus evicted is the old kept plus the new one. */
  lemma InsertConserves(b: Bin, distSq: real, weight: real)
    requires ValidBin(b)
    ensures multiset(Kept(Insert(b, distSq, weight))) + multiset(Evicted(b, distSq))
      == multiset(Kept(b)) + multiset{distSq}
  {
    var r := Insert(b, distSq, weight);
    if b.count == TopKPerSector {
      var i := FurthestIndex(b.distSq);
      assert Kept(b) == b.distSq;
      if distSq < b.distSq[i] {
        assert Kept(r) == b.distSq[i := distSq];
        assert Evicted(b, distSq) == [b.distSq[i]];
      } else {
        assert Kept(r) == Kept(b);
      }
    } else {
      assert Kept(r) == Kept(b) + [distSq];
    }
  }

  /** Inserting a run of (distance, weight) pairs in order. */
  function InsertAll(b: Bin, items: seq<(real, real)>): (r: Bin)
    requires ValidBin(b)
    ensures ValidBin(r)
    decreases |items|
  {
    if |items| == 0 then b else InsertAll(Insert(b, items[0].0, items[0].1), items[1..])
  }

  function Dists(items: seq<(real, real)>): (r: seq<real>)
    ensures |r| == |items|
    ensures forall i :: 0 <= i < |items| ==> r[i] == items[i].0
  {
    seq(|items|, i requires 0 <= i < |items| => items[i].0)
  }

  /** The distances dropped while inserting a run. */
  function DroppedAll(b: Bin, items: seq<(real, real)>): seq<real>
    requires ValidBin(b)
    decreases |items|
  {
    if |items| == 0 then []
    else Evicted(b, items[0].0) + DroppedAll(Insert(b, items[0].0, items[0].1), items[1..])
  }

  /**
   * Top-k: after any run of insertions into a bin holding the nearest of
   * what it has seen, the bin holds the nearest of everything seen.
   */
  lemma {:induction false} InsertAllKeepsNearest(b: Bin, dropped: seq<real>, items: seq<(real, real)>)
    requires ValidBin(b) && TopK(b, dropped)
    ensures TopK(InsertAll(b, items), dropped + DroppedAll(b, items))
    decreases |items|
  {
    if |items| > 0 {
      var (d, w) := items[0];
      var b1 := Insert(b, d, w);
      var dropped1 := dropped + Evicted(b, d);
      InsertKeepsNearest(b, dropped, d, w);
      InsertAllKeepsNearest(b1, dropped1, items[1..]);
      assert dropped1 + DroppedAll(b1, items[1..]) == dropped + DroppedAll(b, items);
    } else {
      assert dropped + DroppedAll(b, items) == dropped;
    }
  }

  /** A run of insertions loses no distance: kept plus dropped is the old kept plus everything inserted. */
  lemma {:induction false} InsertAllConserves(b: Bin, items: seq<(real, real)>)
    requires ValidBin(b)
    ensures multiset(Kept(InsertAll(b, items))) + multiset(DroppedAll(b, items))
      == multiset(Kept(b)) + multiset(Dists(items))
    decreases |items|
  {
    if |items| > 0 {
      var d := items[0].0;
      var b1 := Insert(b, d, items[0].1);
      var rest := items[1..];
      InsertConserves(b, d, items[0].1);
      InsertAllConserves(b1, rest);
      DistsCons(items);
      var e := Evicted(b, d);
      var tail := DroppedAll(b1, rest);
      assert DroppedAll(b, items) == e + tail;
      assert InsertAll(b, items) == InsertAll(b1, rest);
      calc {
        multiset(Kept(InsertAll(b1, rest))) + multiset(e + tail);
        multiset(Kept(InsertAll(b1, rest))) + multiset(tail) + multiset(e);
        multiset(Kept(b1)) + multiset(Dists(rest)) + multiset(e);
        multiset(Kept(b)) + multiset{d} + multiset(Dists(rest));
      }
    } else {
      assert Dists(items) == [];
    }
  }

  lemma DistsCons(items: seq<(real, real)>)
    requires |items| > 0
    ensures multiset(Dists(items)) == multiset{items[0].0} + multiset(Dists(items[1..]))
  {
    assert Dists(items) == [items[0].0] + Dists(items[1..]);
  }

  /** From an empty bin: the bin keeps the nearest of all inserted distances, and kept plus dropped is all of them. */
  lemma EmptyBinKeepsNearest(items: seq<(real, real)>)
    ensures var r := InsertAll(EmptyBin, items);
      TopK(r, DroppedAll(EmptyBin, items)) &&
      multiset(Kept(r)) + multiset(DroppedAll(EmptyBin, items)) == multiset(Dists(items))
  {
    InsertAllKeepsNearest(EmptyBin, [], items);
    InsertAllConserves(EmptyBin, items);
    assert [] + DroppedAll(EmptyBin, items) == DroppedAll(EmptyBin, items);
    assert Kept(EmptyBin) == [];
  }

  /** sum: the weights of the slots in use. */
  function BinSum(b: Bin): real
    requires ValidBin(b)
  {
    Sum(b.weight[..b.count])
  }

  /** The loop of sum, against the slice total. */
  method SumLoop(b: Bin) returns (s: real)
    requires ValidBin(b)
    ensures s == BinSum(b)
    ensures b.count == 0 ==> s == 0.0
  {
    s := 0.0;
    var i := 0;
    while i < b.count
      invariant 0 <= i <= b.count
      invariant s == Sum(b.weight[..i])
    {
      SumSnoc(b.weight[..i], b.weight[i]);
      assert b.weight[..i + 1] == b.weight[..i] + [b.weight[i]];
      s := s + b.weight[i];
      i := i + 1;
    }
  }

  /** minDist: 0 for an empty bin, else the root of the smallest squared distance in use. */
  function MinDist(b: Bin, sqrt: real -> real): (r: real)
    requires ValidBin(b)
    ensures b.count == 0 ==> r == 0.0
    ensures b.count > 0 ==> r == sqrt(MinOf(b.distSq[..b.count]))
  {
    if b.count == 0 then 0.0 else sqrt(MinOf(b.distSq[..b.count]))
  }

  /** The loop of minDist, against the smallest element of the slice. */
  method MinDistLoop(b: Bin, sqrt: real -> real) returns (r: real)
    requires ValidBin(b)
    ensures r == MinDist(b, sqrt)
  {
    if b.count == 0 {
      return 0.0;
    }
    var m := b.distSq[0];
    var i := 1;
    while i < b.count
      invariant 1 <= i <= b.count
      invariant m == MinOf(b.distSq[..i])
    {
      assert b.distSq[..i + 1] == b.distSq[..i] + [b.distSq[i]];
      MinOfSnoc(b.distSq[..i], b.distSq[i]);
      if b.distSq[i] < m {
        m := b.distSq[i];
      }
      i := i + 1;
    }
    assert b.distSq[..i] == b.distSq[..b.count];
    r := sqrt(m);
  }

  lemma MinOfSnoc(s: seq<real>, x: real)
    requires |s| > 0
    ensures MinOf(s + [x]) == if x < MinOf(s) then x else MinOf(s)
  {
    var t := s + [x];
    var m := MinOf(t);
    var j :| 0 <= j < |t| && t[j] == m;
    var k :| 0 <= k < |s| && s[k] == MinOf(s);
    assert t[k] == s[k];
    assert forall i :: 0 <= i < |s| ==> t[i] == s[i];
  }

  /** The three bin arrays, one bin per sector each. */
  datatype SectorBins = SectorBins(foodOrg: seq<Bin>, threat: seq<Bin>, kin: seq<Bin>)

  predicate ValidBins(s: SectorBins)
  {
    |s.foodOrg| == NumSectors && |s.threat| == NumSectors && |s.kin| == NumSectors &&
    (forall i :: 0 <= i < NumSectors ==> ValidBin(s.foodOrg[i])) &&
    (forall i :: 0 <= i < NumSectors ==> ValidBin(s.threat[i])) &&
    (forall i :: 0 <= i < NumSectors ==> ValidBin(s.kin[i]))
  }

  function ResetCount(bins: seq<Bin>): (r: seq<Bin>)
    ensures |r| == |bins|
    ensures forall i :: 0 <= i < |bins| ==> r[i] == bins[i].(count := 0)
  {
    seq(|bins|, i requires 0 <= i < |bins| => bins[i].(count := 0))
  }

  /** Clear: every count of every bin becomes 0; stored slots are left as they are. */
  function Clear(s: SectorBins): (r: SectorBins)
    requires ValidBins(s)
    ensures ValidBins(r)
    ensures forall i :: 0 <= i < NumSectors ==> r.foodOrg[i].count == 0 && r.threat[i].count == 0 && r.kin[i].count == 0
    ensures forall i :: 0 <= i < NumSectors ==> BinSum(r.foodOrg[i]) == 0.0 && BinSum(r.threat[i]) == 0.0 && BinSum(r.kin[i]) == 0.0
  {
    SectorBins(ResetCount(s.foodOrg), ResetCount(s.threat), ResetCount(s.kin))
  }

  /** The per-entity sensor values that feed the network. */
  datatype SensorInputs = SensorInputs(food: seq<real>, threat: seq<real>, kin: seq<real>, energy: real, speed: real, diet: real)

  predicate ValidInputs(s: SensorInputs)
  {
    |s.food| == NumSectors && |s.threat| == NumSectors && |s.kin| == NumSectors
  }

  /**
   * FillSlice: Food[8], Threat[8], Kin[8], Energy, Speed, Diet written from
   * the start of dst, returned as its first NumInputs entries.
   */
  method FillSlice(s: SensorInputs, dst: seq<real>) returns (r: seq<real>)
    requires ValidInputs(s) && |dst| >= NumInputs
    ensures |r| == NumInputs
    ensures forall i :: 0 <= i < NumSectors ==>
      r[i] == s.food[i] && r[NumSectors + i] == s.threat[i] && r[2 * NumSectors + i] == s.kin[i]
    ensures r[3 * NumSectors] == s.energy && r[3 * NumSectors + 1] == s.speed && r[3 * NumSectors + 2] == s.diet
  {
    var out := dst;
    var idx := 0;
    var i := 0;
    while i < NumSectors
      invariant 0 <= i <= NumSectors && idx == i && |out| == |dst|
      invariant forall k :: 0 <= k < i ==> out[k] == s.food[k]
    {
      out := out[idx := s.food[i]];
      idx := idx + 1;
      i := i + 1;
    }
    i := 0;
    while i < NumSectors
      invariant 0 <= i <= NumSectors && idx == NumSectors + i && |out| == |dst|
      invariant forall k :: 0 <= k < NumSectors ==> out[k] == s.food[k]
      invariant forall k :: 0 <= k < i ==> out[NumSectors + k] == s.threat[k]
    {
      out := out[idx := s.threat[i]];
      idx := idx + 1;
      i := i + 1;
    }
    i := 0;
    while i < NumSectors
      invariant 0 <= i <= NumSectors && idx == 2 * NumSectors + i && |out| == |dst|
      invariant forall k :: 0 <= k < NumSectors ==> out[k] == s.food[k] && out[NumSectors + k] == s.threat[k]
      invariant forall k :: 0 <= k < i ==> out[2 * NumSectors + k] == s.kin[k]
    {
      out := out[idx := s.kin[i]];
      idx := idx + 1;
      i := i + 1;
    }
    out := out[idx := s.energy];
    idx := idx + 1;
    out := out[idx := s.speed];
    idx := idx + 1;
    out := out[idx := s.diet];
    r := out[..NumInputs];
  }

  // ---------------------------------------------------------------------
  // smoothSaturate
  // ---------------------------------------------------------------------

  /** The cubic Taylor denominator 1 + x + x^2/2 + x^3/6 standing in for exp(x). */
  function TaylorExp(x: real): real
  {
    var x2 := x * x;
    1.0 + x + 0.5 * x2 + x * x2 / 6.0
  }

  lemma TaylorExpMonotone(x: real, y: real)
    requires 0.0 <= x <= y
    ensures 1.0 <= TaylorExp(x) <= TaylorExp(y)
  {
    MulMonotone(x, x, y);
    MulMonotone(y, x, y);
    var x2 := x * x;
    var y2 := y * y;
    assert x2 <= y2;
    MulMonotone(x2, 0.0, x);
    MulMonotone(x2, x, y);
    MulMonotone(y, x2, y2);
    assert x * x2 == x2 * x;
    assert y * x2 <= y * y2;
    assert x2 * y == y * x2;
  }

  lemma RecipAntitone(a: real, b: real)
    requires 0.0 < a <= b
    ensures 1.0 / b <= 1.0 / a
  {
    var q := a / b;
    AverageBetween(a, b, 0.0, 1.0);
    DivNonNegative(1.0, a);
    assert 1.0 / b == (1.0 / a) * q;
    MulMonotone(1.0 / a, q, 1.0);
  }

  /**
   * smoothSaturate: 0 for x <= 0, 1 for x > 5, and in between
   * 1 - 1 / (1 + x + x^2/2 + x^3/6), a fast stand-in for 1 - exp(-x).
   */
  function SmoothSaturate(x: real): (r: real)
    ensures x <= 0.0 ==> r == 0.0
    ensures x > 5.0 ==> r == 1.0
    ensures 0.0 <= r <= 1.0
    ensures 0.0 < x <= 5.0 ==> 0.0 < r < 1.0
  {
    if x <= 0.0 then 0.0
    else if x > 5.0 then 1.0
    else
      TaylorExpMonotone(0.0, x);
      SaturateInterior(x);
      1.0 - 1.0 / TaylorExp(x)
  }

  lemma SaturateInterior(x: real)
    requires 0.0 < x
    ensures 0.0 < 1.0 - 1.0 / TaylorExp(x) < 1.0
  {
    TaylorExpMonotone(0.0, x);
    var d := TaylorExp(x);
    MulMonotone(x, 0.0, x);
    assert d > 1.0;
    DivBelowOne(1.0, d);
    DivNonNegative(1.0, d);
    assert 1.0 / d != 0.0 by {
      DivMul(1.0, d);
    }
  }

  /** smoothSaturate is monotone (the sensor test walks it in steps of 0.5). */
  lemma SmoothSaturateMonotone(x: real, y: real)
    requires x <= y
    ensures SmoothSaturate(x) <= SmoothSaturate(y)
  {
    if 0.0 < x && y <= 5.0 {
      TaylorExpMonotone(x, y);
      TaylorExpMonotone(0.0, x);
      RecipAntitone(TaylorExp(x), TaylorExp(y));
    }
  }
}
