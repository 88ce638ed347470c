/**
 * Analysis of an optimizer log (experiments/exp10/analyze.py).
 *
 * A log is the sequence of fitness values in evaluation order (lower is
 * better) plus, per parameter, the sequence of values tried. Plotting and
 * CSV reading are not modelled; the numbers the report prints are.
 */
module Analyze {
  import opened Wrappers
  import opened SimMath
  import OptFitness

  const MaxTicks: real := 3000000.0
  const Dt: real := 1.0 / 60.0

  /** One row of the script's bounds table, with its default. */
  datatype Bound = Bound(name: string, lo: real, hi: real, default: real)

  const Bounds: seq<Bound> := [
    Bound("prey_move_cost", 0.05, 0.25, 0.12),
    Bound("pred_move_cost", 0.01, 0.08, 0.025),
    Bound("pred_bite_reward", 0.4, 0.8, 0.5),
    Bound("pred_digest_time", 0.2, 3.0, 0.8),
    Bound("pred_repro_thresh", 0.5, 0.95, 0.85),
    Bound("prey_cooldown", 4.0, 20.0, 8.0),
    Bound("pred_cooldown", 6.0, 20.0, 12.0),
    Bound("parent_energy_split", 0.4, 0.7, 0.55),
    Bound("spawn_offset", 5.0, 30.0, 15.0),
    Bound("heading_jitter", 0.0, 1.0, 0.25),
    Bound("pred_density_k", 10.0, 600.0, 0.0),
    Bound("newborn_hunt_cooldown", 0.5, 5.0, 2.0),
    Bound("refugia_strength", 0.5, 1.5, 1.0),
    Bound("part_spawn_rate", 20.0, 300.0, 100.0),
    Bound("part_initial_mass", 0.002, 0.05, 0.01),
    Bound("part_deposit_rate", 0.5, 5.0, 2.0),
    Bound("part_pickup_rate", 0.1, 3.0, 0.5),
    Bound("part_cell_capacity", 0.3, 2.0, 1.0),
    Bound("detritus_fraction", 0.0, 0.30, 0.10),
    Bound("carcass_fraction", 0.30, 0.90, 0.70),
    Bound("detritus_decay_rate", 0.01, 0.20, 0.05),
    Bound("detritus_decay_eff", 0.30, 0.80, 0.50),
    Bound("grazing_diet_cap", 0.15, 0.50, 0.30),
    Bound("hunting_diet_floor", 0.50, 0.85, 0.70),
    Bound("prey_density_k", 50.0, 500.0, 200.0)
  ]

  /** Every range in the table is non-empty, so the normalised spread is always std / range. */
  lemma BoundsHavePositiveRange()
    ensures |Bounds| == 25
    ensures forall i :: 0 <= i < |Bounds| ==> Bounds[i].lo < Bounds[i].hi
  {
  }

  /** The one default outside its own range: pred_density_k defaults to 0, below its minimum 10. */
  lemma OnlyPredDensityDefaultOutOfRange()
    ensures Bounds[10].name == "pred_density_k"
    ensures Bounds[10].default < Bounds[10].lo
    ensures forall i :: 0 <= i < |Bounds| && i != 10 ==> Bounds[i].lo <= Bounds[i].default <= Bounds[i].hi
  {
  }

  /** idxmin: the first position holding the minimum. */
  function ArgMin(s: seq<real>): (r: nat)
    requires |s| > 0
    ensures r < |s|
    ensures s[r] == MinOf(s)
    ensures forall j :: 0 <= j < r ==> s[j] > s[r]
  {
    FirstAt(s, MinOf(s), 0)
  }

  function FirstAt(s: seq<real>, v: real, from: nat): (r: nat)
    requires from <= |s|
    requires exists i :: from <= i < |s| && s[i] == v
    requires forall j :: 0 <= j < |s| ==> v <= s[j]
    requires forall j :: 0 <= j < from ==> s[j] > v
    ensures from <= r < |s| && s[r] == v
    ensures forall j :: 0 <= j < r ==> s[j] > v
    decreases |s| - from
  {
    if s[from] == v then from else FirstAt(s, v, from + 1)
  }

  // ---------------------------------------------------------------------
  // Running best and rolling mean
  // ---------------------------------------------------------------------

  /** cummin: entry i is the best fitness among the first i + 1 evaluations. */
  function RunningBest(f: seq<real>): (r: seq<real>)
    ensures |r| == |f|
    ensures forall i, j :: 0 <= j <= i < |f| ==> r[i] <= f[j]
    ensures forall i :: 0 <= i < |f| ==> exists j :: 0 <= j <= i && r[i] == f[j]
  {
    if |f| == 0 then []
    else
      var init := f[..|f| - 1];
      var p := RunningBest(init);
      var last := f[|f| - 1];
      var b := if |p| == 0 then last else Min(p[|p| - 1], last);
      assert forall j :: 0 <= j < |init| ==> init[j] == f[j];
      assert exists j :: 0 <= j < |f| && b == f[j] by {
        if |p| > 0 && p[|p| - 1] <= last {
          var k :| 0 <= k <= |p| - 1 && p[|p| - 1] == init[k];
          assert b == f[k];
        } else {
          assert b == f[|f| - 1];
        }
      }
      p + [b]
  }

  /** The running best never gets worse. */
  lemma RunningBestNonIncreasing(f: seq<real>, i: int, j: int)
    requires 0 <= i <= j < |f|
    ensures RunningBest(f)[j] <= RunningBest(f)[i]
  {
    var r := RunningBest(f);
    var k :| 0 <= k <= i && r[i] == f[k];
    assert r[j] <= f[k];
  }

  /** A checkpoint "best of the first k evaluations" is the running best at k - 1. */
  lemma CheckpointIsRunningBest(f: seq<real>, k: int)
    requires 0 < k <= |f|
    ensures MinOf(f[..k]) == RunningBest(f)[k - 1]
  {
    var r := RunningBest(f);
    var jr :| 0 <= jr <= k - 1 && r[k - 1] == f[jr];
    assert forall j :: 0 <= j < k ==> r[k - 1] <= f[j];
    PrefixMinimum(f, k, r[k - 1], jr);
  }

  /** An entry of the first k that no other entry among them undercuts is their minimum. */
  lemma PrefixMinimum(f: seq<real>, k: int, b: real, w: int)
    requires 0 <= w < k <= |f| && b == f[w]
    requires forall j :: 0 <= j < k ==> b <= f[j]
    ensures MinOf(f[..k]) == b
  {
    var pre := f[..k];
    assert pre[w] == b;
    var ja :| 0 <= ja < k && MinOf(pre) == pre[ja];
    assert pre[ja] == f[ja];
  }

  /** The first index of the trailing window of width 10 ending at i. */
  function WindowStart(i: nat): nat
  {
    if i < 9 then 0 else i - 9
  }

  /** rolling(10, min_periods=1).mean(): the mean of up to ten latest values. */
  function RollingMean(f: seq<real>): (r: seq<real>)
    ensures |r| == |f|
    ensures |f| > 0 ==> r[0] == f[0]
    ensures forall i :: 0 <= i < |f| ==> MinOf(f[WindowStart(i)..i + 1]) <= r[i] <= MaxOf(f[WindowStart(i)..i + 1])
  {
    FirstWindowMean(f);
    seq(|f|, i requires 0 <= i < |f| => Mean(f[WindowStart(i)..i + 1]))
  }

  lemma FirstWindowMean(f: seq<real>)
    ensures |f| > 0 ==> Mean(f[WindowStart(0)..1]) == f[0]
  {
    if |f| > 0 {
      assert f[0..1] == [f[0]];
      assert Sum([f[0]]) == f[0] + Sum([]);
    }
  }

  /** Values confined to an interval keep their rolling mean inside it. */
  lemma RollingMeanWithin(f: seq<real>, lo: real, hi: real)
    requires forall i :: 0 <= i < |f| ==> lo <= f[i] <= hi
    ensures forall i :: 0 <= i < |f| ==> lo <= RollingMean(f)[i] <= hi
  {
    forall i | 0 <= i < |f|
      ensures lo <= RollingMean(f)[i] <= hi
    {
      var w := f[WindowStart(i)..i + 1];
      assert forall k :: 0 <= k < |w| ==> w[k] == f[WindowStart(i) + k];
      var a :| 0 <= a < |w| && MinOf(w) == w[a];
      var b :| 0 <= b < |w| && MaxOf(w) == w[b];
    }
  }

  // ---------------------------------------------------------------------
  // Per-parameter classification over the last 20 evaluations
  // ---------------------------------------------------------------------

  datatype Status = Converged | Narrowing | Exploring
  datatype BoundFlag = NoFlag | HittingMin | HittingMax
  datatype ParamStatus = ParamStatus(status: Status, flag: BoundFlag)

  /** tail(20): the last twenty rows, or all of them when there are fewer. */
  function Last20<T>(s: seq<T>): (r: seq<T>)
    ensures |r| == if |s| < 20 then |s| else 20
    ensures forall i :: 0 <= i < |r| ==> r[i] == s[|s| - |r| + i]
  {
    if |s| < 20 then s else s[|s| - 20..]
  }

  /**
   * The sample variance (pandas std squared, ddof = 1). With fewer than two
   * rows pandas yields NaN, modelled as None.
   */
  function SampleVariance(s: seq<real>): (r: Option<real>)
    ensures r.Some? <==> |s| >= 2
    ensures r.Some? ==> r.value >= 0.0
  {
    if |s| < 2 then None else Some(SqDev(s, Mean(s)) / (|s| - 1) as real)
  }

  /** The status label from the normalised spread std / range, as the script tests it. */
  function StatusOfNormStd(normStd: real): Status
  {
    if normStd < 0.10 then Converged else if normStd > 0.20 then Exploring else Narrowing
  }

  /**
   * The classification of one parameter from its last-20 window. The spread
   * test compares the variance against squared thresholds, which for a
   * positive range is the same as comparing std / range with 0.10 and 0.20.
   * A NaN spread fails both tests and lands on Narrowing; a range that is
   * not positive makes the spread 0 and so Converged.
   */
  function Classify(window: seq<real>, lo: real, hi: real): (r: ParamStatus)
    ensures hi - lo <= 0.0 ==> r.status == Converged
    ensures hi - lo > 0.0 && |window| < 2 ==> r.status == Narrowing
    ensures |window| == 0 ==> r.flag == NoFlag
    ensures r.flag == HittingMin <==> |window| > 0 && Mean(window) <= lo + 0.05 * (hi - lo)
    ensures r.flag == HittingMax <==>
              |window| > 0 && Mean(window) > lo + 0.05 * (hi - lo) && Mean(window) >= hi - 0.05 * (hi - lo)
  {
    var rng := hi - lo;
    var status :=
      if !(rng > 0.0) then Converged
      else match SampleVariance(window)
        case None => Narrowing
        case Some(v) => StatusOfVariance(v, rng);
    var thr := 0.05 * rng;
    var flag :=
      if |window| == 0 then NoFlag
      else if Mean(window) <= lo + thr then HittingMin
      else if Mean(window) >= hi - thr then HittingMax
      else NoFlag;
    ParamStatus(status, flag)
  }

  /** The spread test on the variance: the squared form of std / range against 0.10 and 0.20. */
  function StatusOfVariance(v: real, rng: real): Status
  {
    if v < (0.10 * rng) * (0.10 * rng) then Converged
    else if v > (0.20 * rng) * (0.20 * rng) then Exploring
    else Narrowing
  }

  lemma SquareLess(a: real, b: real)
    requires a >= 0.0 && b >= 0.0
    ensures a < b <==> a * a < b * b
  {
    if a < b {
      MulStrict(a + b, 0.0, b - a);
      assert b * b - a * a == (a + b) * (b - a);
    } else {
      MulMonotone(a + b, 0.0, a - b);
      assert a * a - b * b == (a + b) * (a - b);
    }
  }

  lemma DivLess(x: real, y: real, c: real)
    requires y > 0.0
    ensures x / y < c <==> x < c * y
  {
    DivMul(x, y);
    if x / y < c {
      MulStrict(y, x / y, c);
    } else {
      MulMonotone(y, c, x / y);
    }
  }

  /**
   * The squared comparison agrees with the script's std / range test, for
   * any non-negative std whose square is the sample variance.
   */
  lemma VarianceTestMatchesNormStd(std: real, rng: real)
    requires rng > 0.0 && std >= 0.0
    ensures StatusOfVariance(std * std, rng) == StatusOfNormStd(std / rng)
  {
    DivLess(std, rng, 0.10);
    assert 0.10 * rng == 0.10 * rng;
    SquareLess(std, 0.10 * rng);
    DivLess(-std, rng, -0.20);
    assert -std / rng == -(std / rng);
    SquareLess(0.20 * rng, std);
  }

  /**
   * The squared comparison agrees with the script's std / range test, for
   * any non-negative std whose square is the sample variance.
   */
  lemma ClassifyMatchesNormStd(window: seq<real>, lo: real, hi: real, std: real)
    requires hi > lo && |window| >= 2
    requires std >= 0.0 && std * std == SampleVariance(window).value
    ensures Classify(window, lo, hi).status == StatusOfNormStd(std / (hi - lo))
  {
    VarianceTestMatchesNormStd(std, hi - lo);
  }

  /** For a positive range the two bound tests cannot both hold, so their order only matters for a degenerate range. */
  lemma BoundFlagsExclusive(mean: real, lo: real, hi: real)
    requires hi > lo
    ensures !(mean <= lo + 0.05 * (hi - lo) && mean >= hi - 0.05 * (hi - lo))
  {
  }

  /** The printed status: the spread word, then the bound flag if any. */
  function StatusLabel(p: ParamStatus): (r: string)
    ensures |r| >= |StatusWord(p.status)|
    ensures p.flag == NoFlag ==> r == StatusWord(p.status)
    ensures p.flag != NoFlag ==> r[..|StatusWord(p.status)|] == StatusWord(p.status)
  {
    StatusWord(p.status) +
      (match p.flag
       case NoFlag => ""
       case HittingMin => " (hitting MIN)"
       case HittingMax => " (hitting MAX)")
  }

  function StatusWord(s: Status): string
  {
    match s
    case Converged => "converged"
    case Narrowing => "narrowing"
    case Exploring => "exploring"
  }

  // ---------------------------------------------------------------------
  // Convergence verdict
  // ---------------------------------------------------------------------

  datatype Verdict = LargelyConverged | StillImproving | ConvergedEarly

  /** head(100): the first hundred rows, or all of them. */
  function Head100(f: seq<real>): (r: seq<real>)
    ensures |r| == if |f| < 100 then |f| else 100
    ensures r == f[..|r|]
  {
    if |f| < 100 then f else f[..100]
  }

  /** tail(100): the last hundred rows, or all of them. */
  function Tail100(f: seq<real>): (r: seq<real>)
    ensures |r| == if |f| < 100 then |f| else 100
    ensures r == f[|f| - |r|..]
  {
    if |f| < 100 then f else f[|f| - 100..]
  }

  /** The verdict rule applied to the two half-bests. */
  function VerdictOf(firstBest: real, secondBest: real): (v: Verdict)
    ensures v == LargelyConverged <==> Abs(firstBest - secondBest) < Abs(firstBest) * 0.02
    ensures v == StillImproving <==> !(Abs(firstBest - secondBest) < Abs(firstBest) * 0.02) && secondBest < firstBest
  {
    var improvement := firstBest - secondBest;
    if Abs(improvement) < Abs(firstBest) * 0.02 then LargelyConverged
    else if improvement > 0.0 then StillImproving
    else ConvergedEarly
  }

  /**
   * The verdict: compare the best of the first 100 rows with the best of the
   * last 100. An empty log gives NaN bests, failing both tests.
   */
  function ConvergenceVerdict(f: seq<real>): (v: Verdict)
    ensures |f| == 0 ==> v == ConvergedEarly
    ensures var h := if |f| < 100 then |f| else 100;
      v == LargelyConverged <==>
        |f| > 0 && Abs(MinOf(f[..h]) - MinOf(f[|f| - h..])) < 0.02 * Abs(MinOf(f[..h]))
    ensures var h := if |f| < 100 then |f| else 100;
      v == StillImproving <==>
        |f| > 0 && !(Abs(MinOf(f[..h]) - MinOf(f[|f| - h..])) < 0.02 * Abs(MinOf(f[..h]))) &&
        MinOf(f[|f| - h..]) < MinOf(f[..h])
  {
    if |f| == 0 then ConvergedEarly
    else VerdictOf(MinOf(Head100(f)), MinOf(Tail100(f)))
  }

  /**
   * With at most 100 rows both halves are the whole log, so the improvement
   * is zero: any non-zero best counts as largely converged.
   */
  lemma ShortLogVerdict(f: seq<real>)
    requires 0 < |f| <= 100
    ensures MinOf(f) != 0.0 ==> ConvergenceVerdict(f) == LargelyConverged
    ensures MinOf(f) == 0.0 ==> ConvergenceVerdict(f) == ConvergedEarly
  {
    assert Head100(f) == f && Tail100(f) == f;
  }

  /** In a log of 200 the second half being strictly better by over 2% reads as still improving. */
  lemma ImprovingSecondHalf(f: seq<real>)
    requires |f| == 200
    requires MinOf(f[100..]) < MinOf(f[..100])
    requires Abs(MinOf(f[..100]) - MinOf(f[100..])) >= Abs(MinOf(f[..100])) * 0.02
    ensures ConvergenceVerdict(f) == StillImproving
  {
    assert Head100(f) == f[..100];
    assert Tail100(f) == f[100..];
  }

  // ---------------------------------------------------------------------
  // Survival and caps
  // ---------------------------------------------------------------------

  /** The survival estimate in ticks, assuming the middle quality 0.5. */
  function ApproxSurvivalTicks(fitness: real): real
  {
    -fitness / 1.1
  }

  function ApproxSurvivalSec(fitness: real): real
  {
    ApproxSurvivalTicks(fitness) * Dt
  }

  /**
   * For a fitness produced by the fitness formula with quality in [0, 1], the
   * true survival lies in [-f / 1.2, -f] and so does the estimate.
   */
  lemma SurvivalEstimateBracket(survival: real, quality: real)
    requires survival >= 0.0 && 0.0 <= quality <= 1.0
    ensures var f := OptFitness.ComputeFitness(survival, quality);
      -f / 1.2 <= survival <= -f &&
      -f / 1.2 <= ApproxSurvivalTicks(f) <= -f
  {
    var f := OptFitness.ComputeFitness(survival, quality);
    assert -f == survival * (1.0 + 0.2 * quality);
    MulMonotone(survival, 1.0, 1.0 + 0.2 * quality);
    MulMonotone(survival, 1.0 + 0.2 * quality, 1.2);
  }

  /** The conservative cap test: at or below -MaxTicks. */
  predicate HitCapConservative(fitness: real)
  {
    fitness <= -MaxTicks
  }

  /** The generous cap test: at or below -1.2 MaxTicks. */
  predicate HitCapGenerous(fitness: real)
  {
    fitness <= -MaxTicks * 1.2
  }

  function CountWhere(f: seq<real>, generous: bool): (n: nat)
    ensures n <= |f|
  {
    if |f| == 0 then 0
    else
      (if (if generous then HitCapGenerous(f[0]) else HitCapConservative(f[0])) then 1 else 0)
      + CountWhere(f[1..], generous)
  }

  /** Every run over the generous cap is over the conservative cap, so the counts are ordered. */
  lemma {:induction false} GenerousCountAtMostConservative(f: seq<real>)
    ensures CountWhere(f, true) <= CountWhere(f, false)
  {
    if |f| > 0 {
      GenerousCountAtMostConservative(f[1..]);
    }
  }

  /** The k-th block of 50 evaluations, clipped to the log like a Python slice. */
  function Quartile(f: seq<real>, k: nat): (r: seq<real>)
    requires k < 4
    ensures |r| <= 50
  {
    var a := if 50 * k < |f| then 50 * k else |f|;
    var b := if 50 * k + 50 < |f| then 50 * k + 50 else |f|;
    f[a..b]
  }

  /** The four blocks, in order, are exactly the first 200 evaluations. */
  lemma QuartilesCoverFirst200(f: seq<real>)
    ensures Quartile(f, 0) + Quartile(f, 1) + Quartile(f, 2) + Quartile(f, 3)
         == f[..if |f| < 200 then |f| else 200]
  {
  }

  /** How the best fitness is read back: cap quality, or survival ticks. */
  datatype Implied = CapQuality(quality: real) | SurvivedTicks(ticks: real)

  function ImpliedOf(best: real): (r: Implied)
    ensures -best >= MaxTicks <==> r.CapQuality?
    ensures r.CapQuality? ==> 0.0 <= r.quality <= 1.0
    ensures r.SurvivedTicks? ==> r.ticks == ApproxSurvivalTicks(best)
  {
    if -best >= MaxTicks then
      var q := (-best / MaxTicks - 1.0) / 0.2;
      CapQuality(if q < 0.0 then 0.0 else if q > 1.0 then 1.0 else q)
    else SurvivedTicks(-best / 1.1)
  }

  /** A run that reached the tick cap with quality q in [0, 1] reads back exactly q. */
  lemma ImpliedQualityRoundTrip(q: real)
    requires 0.0 <= q <= 1.0
    ensures ImpliedOf(OptFitness.ComputeFitness(MaxTicks, q)) == CapQuality(q)
  {
    var f := OptFitness.ComputeFitness(MaxTicks, q);
    assert -f / MaxTicks == 1.0 + 0.2 * q;
  }

  // ---------------------------------------------------------------------
  // Best-20% subset and correlation markers
  // ---------------------------------------------------------------------

  /** max(1, int(n * 0.2)). */
  function TopCount(n: nat): (k: nat)
    ensures k >= 1
    ensures n >= 1 ==> k <= n
    ensures n >= 5 ==> k == Trunc(n as real * 0.2)
    ensures n < 5 ==> k == 1
  {
    var t := Trunc(n as real * 0.2);
    if t < 1 then 1 else t
  }

  predicate DistinctIndices(s: seq<nat>)
  {
    forall i, j :: 0 <= i < j < |s| ==> s[i] != s[j]
  }

  /** The first position of a smallest fitness among the candidate rows. */
  function ArgMinAmong(f: seq<real>, cand: seq<nat>): (m: nat)
    requires |cand| > 0
    requires forall i :: 0 <= i < |cand| ==> cand[i] < |f|
    ensures m < |cand|
    ensures forall i :: 0 <= i < |cand| ==> f[cand[m]] <= f[cand[i]]
    ensures forall i :: 0 <= i < m ==> f[cand[i]] > f[cand[m]]
  {
    if |cand| == 1 then 0
    else
      var m := ArgMinAmong(f, cand[1..]);
      if f[cand[0]] <= f[cand[1..][m]] then 0 else m + 1
  }

  function RemoveAt(s: seq<nat>, i: nat): (r: seq<nat>)
    requires i < |s|
    ensures |r| == |s| - 1
  {
    s[..i] + s[i + 1..]
  }

  /** Taking one index out keeps every remaining index below a common bound. */
  lemma RemoveAtBounded(s: seq<nat>, m: nat, n: int)
    requires m < |s| && forall i :: 0 <= i < |s| ==> s[i] < n
    ensures forall i :: 0 <= i < |RemoveAt(s, m)| ==> RemoveAt(s, m)[i] < n
  {
    var r := RemoveAt(s, m);
    assert forall j :: 0 <= j < |r| ==> r[j] == (if j < m then s[j] else s[j + 1]);
  }

  /** Taking one index out of a distinct list leaves the others, still distinct. */
  lemma RemoveAtFacts(s: seq<nat>, m: nat)
    requires m < |s| && DistinctIndices(s)
    ensures DistinctIndices(RemoveAt(s, m))
    ensures s[m] !in RemoveAt(s, m)
    ensures forall x :: x in RemoveAt(s, m) ==> x in s
    ensures forall y :: y in s && y != s[m] ==> y in RemoveAt(s, m)
  {
    var r := RemoveAt(s, m);
    assert forall j :: 0 <= j < |r| ==> r[j] == (if j < m then s[j] else s[j + 1]);
    forall y | y in s && y != s[m]
      ensures y in r
    {
      var j :| 0 <= j < |s| && s[j] == y;
      if j < m { assert r[j] == y; } else { assert r[j - 1] == y; }
    }
  }

  lemma ConsDistinct(x: nat, t: seq<nat>)
    requires x !in t && DistinctIndices(t)
    ensures DistinctIndices([x] + t)
  {
    var r := [x] + t;
    assert forall j :: 1 <= j < |r| ==> r[j] == t[j - 1];
  }

  /**
   * nsmallest(k): repeatedly take the first row of smallest fitness among
   * those not yet taken; this is pandas' keep='first' order.
   */
  function Smallest(f: seq<real>, cand: seq<nat>, k: nat): (r: seq<nat>)
    requires forall i :: 0 <= i < |cand| ==> cand[i] < |f|
    requires DistinctIndices(cand)
    ensures |r| == if k < |cand| then k else |cand|
    ensures forall x :: x in r ==> x in cand
    ensures DistinctIndices(r)
    decreases k
  {
    if k == 0 || |cand| == 0 then []
    else
      var m := ArgMinAmong(f, cand);
      var rest := RemoveAt(cand, m);
      RemoveAtFacts(cand, m);
      var t := Smallest(f, rest, k - 1);
      ConsDistinct(cand[m], t);
      [cand[m]] + t
  }

  function AllRows(n: nat): (r: seq<nat>)
    ensures |r| == n
    ensures forall i :: 0 <= i < n ==> r[i] == i
  {
    seq(n, i requires 0 <= i < n => i)
  }

  /** nsmallest(TopCount(n)): the rows of the best fifth of the log. */
  function TopSubset(f: seq<real>): (r: seq<nat>)
    ensures |r| == if |f| == 0 then 0 else TopCount(|f|)
    ensures forall x :: x in r ==> x < |f|
    ensures DistinctIndices(r)
  {
    Smallest(f, AllRows(|f|), TopCount(|f|))
  }

  /** Every row taken is at least as good as every row left behind. */
  lemma {:induction false} SmallestBeatsRest(f: seq<real>, cand: seq<nat>, k: nat, x: nat, y: nat)
    requires forall i :: 0 <= i < |cand| ==> cand[i] < |f|
    requires DistinctIndices(cand)
    requires x in Smallest(f, cand, k) && y in cand && y !in Smallest(f, cand, k)
    ensures f[x] <= f[y]
    decreases k
  {
    var m := ArgMinAmong(f, cand);
    SmallestStep(f, cand, k);
    if x == cand[m] {
      ArgMinBeats(f, cand, y);
    } else {
      SmallestBeatsRest(f, RemoveAt(cand, m), k - 1, x, y);
    }
  }

  /** The first smallest candidate is no worse than any candidate. */
  lemma ArgMinBeats(f: seq<real>, cand: seq<nat>, y: nat)
    requires |cand| > 0 && forall i :: 0 <= i < |cand| ==> cand[i] < |f|
    requires y in cand
    ensures y < |f| && f[cand[ArgMinAmong(f, cand)]] <= f[y]
  {
    var jy :| 0 <= jy < |cand| && cand[jy] == y;
  }

  /**
   * One step of nsmallest: the first smallest row is taken, every other
   * row taken comes from the remaining rows, and a row left behind is left
   * behind among the remaining rows too.
   */
  lemma SmallestStep(f: seq<real>, cand: seq<nat>, k: nat)
    requires forall i :: 0 <= i < |cand| ==> cand[i] < |f|
    requires DistinctIndices(cand)
    requires k > 0 && |cand| > 0
    ensures var m := ArgMinAmong(f, cand); var rest := RemoveAt(cand, m);
      (forall i :: 0 <= i < |rest| ==> rest[i] < |f|) && DistinctIndices(rest) &&
      (forall z :: z in Smallest(f, cand, k) && z != cand[m] ==> z in Smallest(f, rest, k - 1)) &&
      (forall z :: z in cand && z !in Smallest(f, cand, k) ==> z in rest && z !in Smallest(f, rest, k - 1))
  {
    var m := ArgMinAmong(f, cand);
    var rest := RemoveAt(cand, m);
    RemoveAtFacts(cand, m);
    RemoveAtBounded(cand, m, |f|);
    assert Smallest(f, cand, k) == [cand[m]] + Smallest(f, rest, k - 1);
  }

  lemma TopSubsetIsBest(f: seq<real>, x: nat, y: nat)
    requires x in TopSubset(f) && y < |f| && y !in TopSubset(f)
    ensures f[x] <= f[y]
  {
    assert y in AllRows(|f|) by { assert AllRows(|f|)[y] == y; }
    SmallestBeatsRest(f, AllRows(|f|), TopCount(|f|), x, y);
  }

  /** The significance marker of a correlation; NaN compares false and gets none. */
  function Marker(r: Option<real>): (m: string)
    ensures |m| <= 3
    ensures r.None? ==> m == ""
  {
    match r
    case None => ""
    case Some(v) =>
      if Abs(v) > 0.3 then "***" else if Abs(v) > 0.2 then "**" else if Abs(v) > 0.1 then "*" else ""
  }

  /** Marker tiers grow with |r|: a stronger correlation never gets fewer stars. */
  lemma MarkerMonotone(a: real, b: real)
    requires Abs(a) <= Abs(b)
    ensures |Marker(Some(a))| <= |Marker(Some(b))|
  {
  }

  /** The three thresholds, seen from each tier. */
  lemma MarkerTiers(v: real)
    ensures |Marker(Some(v))| == 3 <==> Abs(v) > 0.3
    ensures |Marker(Some(v))| == 2 <==> 0.2 < Abs(v) <= 0.3
    ensures |Marker(Some(v))| == 1 <==> 0.1 < Abs(v) <= 0.2
    ensures |Marker(Some(v))| == 0 <==> Abs(v) <= 0.1
  {
  }

  // ---------------------------------------------------------------------
  // Positions within a range
  // ---------------------------------------------------------------------

  /** The best value's position in its range, in percent. */
  function PercentOfRange(val: real, lo: real, hi: real): (r: real)
    requires hi != lo
    ensures lo < hi && lo <= val <= hi ==> 0.0 <= r <= 100.0
  {
    UnitRatio(val, lo, hi);
    (val - lo) / (hi - lo) * 100.0
  }

  lemma UnitRatio(val: real, lo: real, hi: real)
    requires hi != lo
    ensures lo < hi && lo <= val <= hi ==> 0.0 <= (val - lo) / (hi - lo) <= 1.0
  {
    if lo < hi && lo <= val <= hi {
      AverageBetween(val - lo, hi - lo, 0.0, 1.0);
    }
  }

  /** The shift of the best value from the default, in percent of the range. */
  function ShiftFromDefault(best: real, default: real, lo: real, hi: real): (r: real)
    requires hi != lo
    ensures r == PercentOfRange(best, lo, hi) - PercentOfRange(default, lo, hi)
  {
    (best - default) / (hi - lo) * 100.0
  }
}
