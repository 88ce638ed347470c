/**
 * The optimizer's scalar fitness (cmd/optimize/fitness.go): survival ticks
 * scaled by up to 20% for ecosystem quality, negated so that lower is better.
 *
 * The per-window quality scores are exponentials of the window statistics;
 * they are carried in each window as given numbers, and the stability score
 * is a function parameter applied to cv(prey)^2 + cv(pred)^2.
 */
module OptFitness {
  import opened SimMath

  const WeightRatio: real := 0.30
  const WeightStability: real := 0.25
  const WeightEnergy: real := 0.25
  const WeightHunting: real := 0.20
  const WarmupWindows: nat := 3
  const MinPop: int := 3

  /** -(survival * (1 + 0.2 * quality)). */
  function ComputeFitness(survival: real, quality: real): (f: real)
    ensures survival >= 0.0 && 0.0 <= quality <= 1.0 ==> -1.2 * survival <= f <= -survival
    ensures survival > 0.0 && quality >= 0.0 ==> f < 0.0
  {
    FitnessScale(survival, quality);
    -(survival * (1.0 + 0.2 * quality))
  }

  lemma FitnessScale(survival: real, quality: real)
    ensures survival >= 0.0 && 0.0 <= quality <= 1.0 ==>
      survival <= survival * (1.0 + 0.2 * quality) <= 1.2 * survival
    ensures survival > 0.0 && quality >= 0.0 ==> survival * (1.0 + 0.2 * quality) > 0.0
  {
    if survival >= 0.0 && 0.0 <= quality <= 1.0 {
      MulMonotone(survival, 1.0, 1.0 + 0.2 * quality);
      MulMonotone(survival, 1.0 + 0.2 * quality, 1.2);
    }
    if survival > 0.0 && quality >= 0.0 {
      MulStrict(survival, 0.0, 1.0 + 0.2 * quality);
    }
  }

  /** Surviving longer is never worse, whatever the quality in [0, 1]. */
  lemma FitnessRewardsSurvival(s1: real, s2: real, q1: real, q2: real)
    requires 0.0 <= s1 && s1 * 1.2 < s2
    requires 0.0 <= q1 <= 1.0 && 0.0 <= q2 <= 1.0
    ensures ComputeFitness(s2, q2) < ComputeFitness(s1, q1)
  {
  }

  /** At equal survival, higher quality is better (lower fitness). */
  lemma FitnessRewardsQuality(s: real, q1: real, q2: real)
    requires s > 0.0 && q1 < q2
    ensures ComputeFitness(s, q2) < ComputeFitness(s, q1)
  {
    var a1 := 1.0 + 0.2 * q1;
    var a2 := 1.0 + 0.2 * q2;
    MulStrict(s, a1, a2);
    var x1 := s * a1;
    var x2 := s * a2;
    assert x1 < x2;
    assert ComputeFitness(s, q1) == -x1;
    assert ComputeFitness(s, q2) == -x2;
  }

  /**
   * cv(values)^2: the population variance over the squared mean, or 0 for
   * an empty slice or a zero mean.
   */
  function CvSquared(values: seq<real>): (r: real)
    ensures r >= 0.0
    ensures |values| == 0 ==> r == 0.0
    ensures |values| > 0 && Mean(values) == 0.0 ==> r == 0.0
  {
    if |values| == 0 then 0.0
    else
      var mean := Mean(values);
      if mean == 0.0 then 0.0
      else
        DivTwiceNonNegative(PopVariance(values), mean);
        (PopVariance(values) / mean) / mean
  }

  /** cv(values) = sqrt(variance) / mean, with the square root supplied. */
  function Cv(values: seq<real>, sqrt: real -> real): (r: real)
    ensures |values| == 0 ==> r == 0.0
    ensures |values| > 0 && Mean(values) == 0.0 ==> r == 0.0
  {
    if |values| == 0 then 0.0
    else
      var mean := Mean(values);
      if mean == 0.0 then 0.0 else sqrt(PopVariance(values)) / mean
  }

  /** With a non-negative square root, cv is non-negative for positive-mean data. */
  lemma CvNonNegative(values: seq<real>, sqrt: real -> real)
    requires |values| > 0 && Mean(values) > 0.0
    requires sqrt(PopVariance(values)) >= 0.0
    ensures Cv(values, sqrt) >= 0.0
  {
  }

  /** With an exact square root, the square of cv is CvSquared: only the square enters the stability score. */
  lemma CvSquaredAgrees(values: seq<real>, sqrt: real -> real)
    requires |values| > 0 && Mean(values) != 0.0
    requires sqrt(PopVariance(values)) * sqrt(PopVariance(values)) == PopVariance(values)
    ensures Cv(values, sqrt) * Cv(values, sqrt) == CvSquared(values)
  {
    SquareOfQuotient(sqrt(PopVariance(values)), PopVariance(values), Mean(values));
  }

  /**
   * One telemetry window as quality sees it: the two population counts,
   * the bites attempted, and the three exp-based scores already evaluated.
   */
  datatype QWindow = QWindow(
    preyCount: int, predCount: int, bitesAttempted: int,
    ratioScore: real, energyScore: real, huntScore: real)

  predicate Valid(w: QWindow)
  {
    w.preyCount >= MinPop && w.predCount >= MinPop
  }

  predicate Hunting(w: QWindow)
  {
    w.predCount > 0 && w.bitesAttempted > 0
  }

  /** The windows past warmup with both species at the minimum population. */
  function ValidWindows(ws: seq<QWindow>): (r: seq<QWindow>)
    ensures |r| <= |ws|
    ensures forall i :: 0 <= i < |r| ==> Valid(r[i])
    ensures forall w :: w in r ==> w in ws
    ensures forall w :: w in ws && Valid(w) ==> w in r
    ensures forall w :: multiset(r)[w] == if Valid(w) then multiset(ws)[w] else 0
  {
    if |ws| == 0 then []
    else
      assert ws == [ws[0]] + ws[1..];
      (if Valid(ws[0]) then [ws[0]] else []) + ValidWindows(ws[1..])
  }

  function HuntingWindows(ws: seq<QWindow>): (r: seq<QWindow>)
    ensures |r| <= |ws|
    ensures forall i :: 0 <= i < |r| ==> Hunting(r[i])
    ensures forall w :: w in r ==> w in ws
    ensures forall w :: multiset(r)[w] == if Hunting(w) then multiset(ws)[w] else 0
  {
    if |ws| == 0 then []
    else
      assert ws == [ws[0]] + ws[1..];
      (if Hunting(ws[0]) then [ws[0]] else []) + HuntingWindows(ws[1..])
  }

  function RatioScores(ws: seq<QWindow>): (r: seq<real>)
    ensures |r| == |ws|
    ensures forall i :: 0 <= i < |ws| ==> r[i] == ws[i].ratioScore
  {
    seq(|ws|, i requires 0 <= i < |ws| => ws[i].ratioScore)
  }

  function EnergyScores(ws: seq<QWindow>): (r: seq<real>)
    ensures |r| == |ws|
    ensures forall i :: 0 <= i < |ws| ==> r[i] == ws[i].energyScore
  {
    seq(|ws|, i requires 0 <= i < |ws| => ws[i].energyScore)
  }

  function HuntScores(ws: seq<QWindow>): (r: seq<real>)
    ensures |r| == |ws|
    ensures forall i :: 0 <= i < |ws| ==> r[i] == ws[i].huntScore
  {
    seq(|ws|, i requires 0 <= i < |ws| => ws[i].huntScore)
  }

  function PreyCounts(ws: seq<QWindow>): (r: seq<real>)
    ensures |r| == |ws|
    ensures forall i :: 0 <= i < |ws| ==> r[i] == ws[i].preyCount as real
  {
    seq(|ws|, i requires 0 <= i < |ws| => ws[i].preyCount as real)
  }

  function PredCounts(ws: seq<QWindow>): (r: seq<real>)
    ensures |r| == |ws|
    ensures forall i :: 0 <= i < |ws| ==> r[i] == ws[i].predCount as real
  {
    seq(|ws|, i requires 0 <= i < |ws| => ws[i].predCount as real)
  }

  /** The weighted score before clamping, for a non-empty set of valid windows. */
  function RawQuality(valid: seq<QWindow>, stabilityOf: real -> real): real
    requires |valid| > 0
  {
    var ratioScore := Mean(RatioScores(valid));
    var stability :=
      if |valid| >= 2 then stabilityOf(CvSquared(PreyCounts(valid)) + CvSquared(PredCounts(valid))) else 0.0;
    var energyScore := Mean(EnergyScores(valid));
    var hunters := HuntingWindows(valid);
    var huntScore := if |hunters| > 0 then Mean(HuntScores(hunters)) else 0.0;
    WeightRatio * ratioScore + WeightStability * stability + WeightEnergy * energyScore + WeightHunting * huntScore
  }

  /**
   * computeQuality: zero with at most the warmup windows or with no valid
   * window after them; otherwise the clamped weighted score.
   */
  function ComputeQuality(ws: seq<QWindow>, stabilityOf: real -> real): (q: real)
    ensures 0.0 <= q <= 1.0
    ensures |ws| <= WarmupWindows ==> q == 0.0
    ensures |ws| > WarmupWindows && |ValidWindows(ws[WarmupWindows..])| == 0 ==> q == 0.0
  {
    if |ws| <= WarmupWindows then 0.0
    else
      var valid := ValidWindows(ws[WarmupWindows..]);
      if |valid| == 0 then 0.0 else Clamp01(RawQuality(valid, stabilityOf))
  }

  /** Warmup windows never count, however healthy: all-warmup input scores like an empty log. */
  lemma WarmupIgnored(ws: seq<QWindow>, stabilityOf: real -> real)
    requires |ws| > WarmupWindows
    requires forall i :: WarmupWindows <= i < |ws| ==> !Valid(ws[i])
    ensures ComputeQuality(ws, stabilityOf) == 0.0
  {
  }

  lemma MeanInUnit(s: seq<real>)
    requires |s| > 0
    requires forall i :: 0 <= i < |s| ==> 0.0 <= s[i] <= 1.0
    ensures 0.0 <= Mean(s) <= 1.0
  {
    var a :| 0 <= a < |s| && MinOf(s) == s[a];
    var b :| 0 <= b < |s| && MaxOf(s) == s[b];
  }

  /**
   * When every score is in [0, 1] the weights (summing to 1) already keep
   * the result in [0, 1]: the clamp then changes nothing.
   */
  lemma ClampInactiveForUnitScores(ws: seq<QWindow>, stabilityOf: real -> real)
    requires |ws| > WarmupWindows
    requires |ValidWindows(ws[WarmupWindows..])| > 0
    requires forall i :: 0 <= i < |ws| ==>
      0.0 <= ws[i].ratioScore <= 1.0 && 0.0 <= ws[i].energyScore <= 1.0 && 0.0 <= ws[i].huntScore <= 1.0
    requires forall x :: 0.0 <= stabilityOf(x) <= 1.0
    ensures ComputeQuality(ws, stabilityOf) == RawQuality(ValidWindows(ws[WarmupWindows..]), stabilityOf)
  {
    var valid := ValidWindows(ws[WarmupWindows..]);
    forall j | 0 <= j < |valid|
      ensures 0.0 <= valid[j].ratioScore <= 1.0 && 0.0 <= valid[j].energyScore <= 1.0 && 0.0 <= valid[j].huntScore <= 1.0
    {
      var w := valid[j];
      assert w in valid;
      var k :| 0 <= k < |ws[WarmupWindows..]| && ws[WarmupWindows..][k] == w;
      assert ws[WarmupWindows + k] == w;
    }
    RawQualityInUnit(valid, stabilityOf);
  }

  /** Scores in [0, 1] give a weighted score in [0, 1]. */
  lemma RawQualityInUnit(valid: seq<QWindow>, stabilityOf: real -> real)
    requires |valid| > 0
    requires forall j :: 0 <= j < |valid| ==>
      0.0 <= valid[j].ratioScore <= 1.0 && 0.0 <= valid[j].energyScore <= 1.0 && 0.0 <= valid[j].huntScore <= 1.0
    requires forall x :: 0.0 <= stabilityOf(x) <= 1.0
    ensures 0.0 <= RawQuality(valid, stabilityOf) <= 1.0
  {
    MeanInUnit(RatioScores(valid));
    MeanInUnit(EnergyScores(valid));
    var hunters := HuntingWindows(valid);
    if |hunters| > 0 {
      forall j | 0 <= j < |hunters|
        ensures 0.0 <= hunters[j].huntScore <= 1.0
      {
        assert hunters[j] in valid;
      }
      MeanInUnit(HuntScores(hunters));
    }
  }
}
