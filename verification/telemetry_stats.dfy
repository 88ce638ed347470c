/**
 * Window statistics helpers (telemetry/stats.go): interpolated percentiles
 * of a sorted series, and the energy and diet summaries built from them.
 * Sorting is modelled by a functional insertion sort whose result is a
 * sorted permutation of its input, which is all sort.Float64s promises.
 */
module TelemetryStats {
  import opened SimMath

  predicate Sorted(s: seq<real>)
  {
    forall i, j :: 0 <= i <= j < |s| ==> s[i] <= s[j]
  }

  /** Inserts x before the first element not below it. */
  function Insert(x: real, s: seq<real>): (r: seq<real>)
    requires Sorted(s)
    ensures |r| == |s| + 1
    ensures Sorted(r)
    ensures multiset(r) == multiset(s) + multiset{x}
    ensures forall k :: 0 <= k < |r| ==> r[k] == x || r[k] in s
  {
    if |s| == 0 then [x]
    else if x <= s[0] then [x] + s
    else
      var rest := Insert(x, s[1..]);
      assert s == [s[0]] + s[1..];
      HeadBelowTail(s, x, rest);
      [s[0]] + rest
  }

  /** In a sorted series the head is below every later value, and so below anything drawn from them or above it. */
  lemma HeadBelowTail(s: seq<real>, x: real, rest: seq<real>)
    requires Sorted(s) && |s| > 0 && s[0] < x
    requires forall k :: 0 <= k < |rest| ==> rest[k] == x || rest[k] in s[1..]
    ensures forall k :: 0 <= k < |rest| ==> s[0] <= rest[k]
  {
  }

  /** A sorted permutation of the input (sort.Float64s on a copy). */
  function SortReals(s: seq<real>): (r: seq<real>)
    ensures |r| == |s|
    ensures Sorted(r)
    ensures multiset(r) == multiset(s)
  {
    if |s| == 0 then []
    else
      assert s == s[..|s| - 1] + [s[|s| - 1]];
      Insert(s[|s| - 1], SortReals(s[..|s| - 1]))
  }

  /** Linear interpolation between a and b at fraction f. */
  function Interp(a: real, b: real, f: real): real
  {
    a * (1.0 - f) + b * f
  }

  lemma InterpBetween(a: real, b: real, f: real)
    requires a <= b && 0.0 <= f <= 1.0
    ensures a <= Interp(a, b, f) <= b
  {
    MulMonotone(f, a, b);
    MulMonotone(1.0 - f, a, b);
  }

  lemma InterpMonotone(a: real, b: real, f1: real, f2: real)
    requires a <= b && f1 <= f2
    ensures Interp(a, b, f1) <= Interp(a, b, f2)
  {
    MulMonotone(b - a, f1, f2);
  }

  /** The fractional rank p * (n - 1) of an interior percentile, with its whole part. */
  lemma RankFacts(n: int, p: real)
    requires n > 0 && 0.0 < p < 1.0
    ensures 0.0 <= (n - 1) as real * p <= (n - 1) as real
    ensures 0 <= Trunc((n - 1) as real * p) <= n - 1
  {
    MulMonotone((n - 1) as real, 0.0, p);
    MulMonotone((n - 1) as real, p, 1.0);
    TruncMonotone((n - 1) as real * p, (n - 1) as real);
    TruncOfWhole(n - 1);
  }

  /** The interpolated value at fractional rank idx in [0, n - 1]. */
  function AtRank(sorted: seq<real>, idx: real): (r: real)
    requires |sorted| > 0 && 0.0 <= idx <= (|sorted| - 1) as real
  {
    var n := |sorted|;
    TruncMonotone(idx, (n - 1) as real);
    TruncOfWhole(n - 1);
    var lo := Trunc(idx);
    var hi := lo + 1;
    if hi >= n then sorted[n - 1]
    else Interp(sorted[lo], sorted[hi], idx - lo as real)
  }

  /**
   * Percentile of a sorted series: 0 when empty, the ends for p outside
   * (0, 1), otherwise linear interpolation at rank p * (n - 1).
   */
  function Percentile(sorted: seq<real>, p: real): (r: real)
    ensures |sorted| == 0 ==> r == 0.0
    ensures |sorted| > 0 && p <= 0.0 ==> r == sorted[0]
    ensures |sorted| > 0 && p >= 1.0 ==> r == sorted[|sorted| - 1]
  {
    var n := |sorted|;
    if n == 0 then 0.0
    else if p <= 0.0 then sorted[0]
    else if p >= 1.0 then sorted[n - 1]
    else AtRank(sorted, Rank(n, p))
  }

  /** The fractional rank p * (n - 1) of an interior percentile. */
  function Rank(n: int, p: real): (r: real)
    requires n > 0 && 0.0 < p < 1.0
    ensures 0.0 <= r <= (n - 1) as real
  {
    MulMonotone((n - 1) as real, 0.0, p);
    MulMonotone((n - 1) as real, p, 1.0);
    (n - 1) as real * p
  }

  lemma RankMonotone(n: int, p: real, q: real)
    requires n > 0 && 0.0 < p <= q < 1.0
    ensures Rank(n, p) <= Rank(n, q)
  {
    MulMonotone((n - 1) as real, p, q);
  }

  /** On sorted input the value at a rank lies between the neighbouring entries. */
  lemma AtRankBetween(sorted: seq<real>, idx: real)
    requires Sorted(sorted) && |sorted| > 0 && 0.0 <= idx <= (|sorted| - 1) as real
    ensures 0 <= Trunc(idx) < |sorted|
    ensures sorted[Trunc(idx)] <= AtRank(sorted, idx)
    ensures Trunc(idx) + 1 < |sorted| ==> AtRank(sorted, idx) <= sorted[Trunc(idx) + 1]
    ensures Trunc(idx) + 1 >= |sorted| ==> AtRank(sorted, idx) == sorted[|sorted| - 1]
  {
    var n := |sorted|;
    TruncMonotone(idx, (n - 1) as real);
    TruncOfWhole(n - 1);
    var lo := Trunc(idx);
    if lo + 1 < n {
      InterpBetween(sorted[lo], sorted[lo + 1], idx - lo as real);
    }
  }

  /** On sorted input the value at a rank is monotone in the rank. */
  lemma AtRankMonotone(sorted: seq<real>, i: real, j: real)
    requires Sorted(sorted) && |sorted| > 0 && 0.0 <= i <= j <= (|sorted| - 1) as real
    ensures AtRank(sorted, i) <= AtRank(sorted, j)
  {
    var n := |sorted|;
    AtRankBetween(sorted, i);
    AtRankBetween(sorted, j);
    TruncMonotone(i, j);
    var li := Trunc(i);
    var lj := Trunc(j);
    if lj + 1 >= n {
    } else if li == lj {
      InterpMonotone(sorted[li], sorted[li + 1], i - li as real, j - lj as real);
    } else {
      assert sorted[li + 1] <= sorted[lj];
    }
  }

  /** On sorted input every percentile lies between the smallest and largest value. */
  lemma PercentileInRange(sorted: seq<real>, p: real)
    requires Sorted(sorted) && |sorted| > 0
    ensures sorted[0] <= Percentile(sorted, p) <= sorted[|sorted| - 1]
  {
    var n := |sorted|;
    if 0.0 < p < 1.0 {
      AtRankBetween(sorted, Rank(n, p));
    }
  }

  lemma InteriorPercentileMonotone(sorted: seq<real>, p: real, q: real)
    requires Sorted(sorted) && |sorted| > 0 && 0.0 < p <= q < 1.0
    ensures Percentile(sorted, p) <= Percentile(sorted, q)
  {
    RankMonotone(|sorted|, p, q);
    AtRankMonotone(sorted, Rank(|sorted|, p), Rank(|sorted|, q));
  }

  /** On sorted input the percentile is monotone in p; in particular p10 <= p50 <= p90. */
  lemma PercentileMonotone(sorted: seq<real>, p: real, q: real)
    requires Sorted(sorted) && p <= q
    ensures Percentile(sorted, p) <= Percentile(sorted, q)
  {
    if |sorted| > 0 {
      if p <= 0.0 || q >= 1.0 {
        PercentileInRange(sorted, p);
        PercentileInRange(sorted, q);
      } else {
        InteriorPercentileMonotone(sorted, p, q);
      }
    }
  }

  /** A value of a sorted permutation of s lies between the extremes of s. */
  lemma PermutationWithinExtremes(s: seq<real>, t: seq<real>, i: int)
    requires |s| > 0 && multiset(t) == multiset(s) && 0 <= i < |t|
    ensures MinOf(s) <= t[i] <= MaxOf(s)
  {
    assert t[i] in multiset(s);
    var k :| 0 <= k < |s| && s[k] == t[i];
  }

  /** ComputeEnergyStats: mean and the 10th, 50th and 90th percentiles. */
  datatype EnergyStats = EnergyStats(mean: real, p10: real, p50: real, p90: real)

  function ComputeEnergyStats(values: seq<real>): (r: EnergyStats)
    ensures |values| == 0 ==> r == EnergyStats(0.0, 0.0, 0.0, 0.0)
    ensures |values| > 0 ==> MinOf(values) <= r.mean <= MaxOf(values)
    ensures |values| > 0 ==> MinOf(values) <= r.p10 <= r.p50 <= r.p90 <= MaxOf(values)
  {
    if |values| == 0 then EnergyStats(0.0, 0.0, 0.0, 0.0)
    else
      var sorted := SortReals(values);
      OrderedPercentiles(values, sorted);
      EnergyStats(Mean(values), Percentile(sorted, 0.10), Percentile(sorted, 0.50), Percentile(sorted, 0.90))
  }

  lemma OrderedPercentiles(values: seq<real>, sorted: seq<real>)
    requires |values| > 0 && Sorted(sorted) && multiset(sorted) == multiset(values)
    ensures MinOf(values) <= Percentile(sorted, 0.10) <= Percentile(sorted, 0.50)
    ensures Percentile(sorted, 0.50) <= Percentile(sorted, 0.90) <= MaxOf(values)
  {
    assert |sorted| == |multiset(values)| == |values|;
    PercentileMonotone(sorted, 0.10, 0.50);
    PercentileMonotone(sorted, 0.50, 0.90);
    PercentileInRange(sorted, 0.10);
    PercentileInRange(sorted, 0.90);
    PermutationWithinExtremes(values, sorted, 0);
    PermutationWithinExtremes(values, sorted, |sorted| - 1);
  }

  /** ComputeDietStats: as the energy summary, plus the population standard deviation. */
  datatype DietStats = DietStats(mean: real, std: real, p10: real, p50: real, p90: real)

  /** The square root is a parameter; it only needs to be non-negative on non-negative input. */
  function ComputeDietStats(values: seq<real>, sqrt: real -> real): (r: DietStats)
    ensures |values| == 0 ==> r == DietStats(0.0, 0.0, 0.0, 0.0, 0.0)
    ensures |values| > 0 ==> MinOf(values) <= r.mean <= MaxOf(values)
    ensures |values| > 0 ==> MinOf(values) <= r.p10 <= r.p50 <= r.p90 <= MaxOf(values)
    ensures (forall x :: x >= 0.0 ==> sqrt(x) >= 0.0) ==> r.std >= 0.0
  {
    if |values| == 0 then DietStats(0.0, 0.0, 0.0, 0.0, 0.0)
    else
      var sorted := SortReals(values);
      OrderedPercentiles(values, sorted);
      DietStats(Mean(values), sqrt(PopVariance(values)),
        Percentile(sorted, 0.10), Percentile(sorted, 0.50), Percentile(sorted, 0.90))
  }

  /** The diet summary agrees with the energy summary on everything they share. */
  lemma DietStatsExtendEnergyStats(values: seq<real>, sqrt: real -> real)
    ensures var d := ComputeDietStats(values, sqrt); var e := ComputeEnergyStats(values);
      d.mean == e.mean && d.p10 == e.p10 && d.p50 == e.p50 && d.p90 == e.p90
  {
  }
}
