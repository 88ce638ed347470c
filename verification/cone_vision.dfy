/**
 * Four-cone polar vision (neural/vision.go): which cone an angle falls in,
 * the per-cone sensor weights, the entity scan that accumulates food,
 * threat and friend intensities per cone, the clamp and log normalisation
 * that feed the brain, and directional light sampling with its gradients.
 * atan2, cos, sin and log are parameters; the light sampler is optional.
 */
module ConeVision {
  import opened SimMath
  import opened Wrappers
  import Capability

  const NumCones: int := 4
  const ConeFront: int := 0
  const ConeRight: int := 1
  const ConeBack: int := 2
  const ConeLeft: int := 3

  const MinIntensity: real := 0.000001
  const MaxConeIntensity: real := 10.0
  const LightSampleDistance: real := 0.5
  const LightGradientEpsilon: real := 0.000001

  /** The baseline weight of every cone when there is no usable sensor. */
  const BaselineWeight: real := 0.3
  /** The least weight any cone gets once sensors are present. */
  const WeightFloor: real := 0.1

  /**
   * AngleToCone: after wrapping into [-π, π], within π/4 of ahead is Front,
   * within π/4 of behind is Back, and the sign picks Right or Left between.
   */
  function AngleToCone(angle: real): (r: int)
    ensures 0 <= r < NumCones
    ensures r == ConeFront <==> Abs(AngleWrap(angle)) <= Pi / 4.0
    ensures r == ConeBack <==> Abs(AngleWrap(angle)) >= 3.0 * Pi / 4.0 && Abs(AngleWrap(angle)) > Pi / 4.0
    ensures r == ConeRight <==> Pi / 4.0 < AngleWrap(angle) < 3.0 * Pi / 4.0
    ensures r == ConeLeft <==> -3.0 * Pi / 4.0 < AngleWrap(angle) < -Pi / 4.0
  {
    var a := AngleWrap(angle);
    var absAngle := Abs(a);
    if absAngle <= Pi / 4.0 then ConeFront
    else if absAngle >= 3.0 * Pi / 4.0 then ConeBack
    else if a > 0.0 then ConeRight
    else ConeLeft
  }

  /** ConeCenter: the angle each cone looks along; 0 for anything that is not a cone. */
  function ConeCenter(cone: int): (r: real)
    ensures -Pi <= r <= Pi
  {
    if cone == ConeFront then 0.0
    else if cone == ConeRight then Pi / 2.0
    else if cone == ConeBack then Pi
    else if cone == ConeLeft then -Pi / 2.0
    else 0.0
  }

  /** Every cone's centre falls in that cone. */
  lemma ConeOfCenter(cone: int)
    requires 0 <= cone < NumCones
    ensures AngleToCone(ConeCenter(cone)) == cone
  {
  }

  /** A whole turn more lands in the same cone. */
  lemma AngleToConePeriodic(angle: real)
    ensures AngleToCone(angle + TwoPi) == AngleToCone(angle)
  {
    AngleWrapPeriodic(angle);
  }

  /** clampVision: a cone intensity held in [0, MaxConeIntensity]. */
  function ClampVision(v: real): (r: real)
    ensures 0.0 <= r <= MaxConeIntensity
    ensures 0.0 <= v <= MaxConeIntensity ==> r == v
    ensures v < 0.0 ==> r == 0.0
    ensures v > MaxConeIntensity ==> r == MaxConeIntensity
  {
    ClampFloat(v, 0.0, MaxConeIntensity)
  }

  /** logNormalize: log(1 + v) / log(1 + MaxConeIntensity), and 0 for v <= 0. */
  function LogNormalize(v: real, log: real -> real): (r: real)
    ensures v <= 0.0 ==> r == 0.0
    ensures v == MaxConeIntensity && log(1.0 + MaxConeIntensity) != 0.0 ==> r == 1.0
  {
    if v <= 0.0 then 0.0
    else
      var maxLog := log(1.0 + MaxConeIntensity);
      if maxLog == 0.0 then 0.0 else log(1.0 + v) / maxLog
  }

  /** A logarithm as the normalisation needs it: 0 at 1, non-decreasing, positive at 1 + MaxConeIntensity. */
  ghost predicate LogLike(log: real -> real)
  {
    log(1.0) == 0.0 && log(1.0 + MaxConeIntensity) > 0.0 &&
    forall x, y :: 1.0 <= x <= y ==> log(x) <= log(y)
  }

  /** With a logarithm, logNormalize maps [0, MaxConeIntensity] into [0, 1], keeping order. */
  lemma LogNormalizeInUnit(log: real -> real, u: real, v: real)
    requires LogLike(log)
    requires 0.0 <= u <= v <= MaxConeIntensity
    ensures 0.0 <= LogNormalize(v, log) <= 1.0
    ensures LogNormalize(u, log) <= LogNormalize(v, log)
  {
    var m := log(1.0 + MaxConeIntensity);
    if v > 0.0 {
      assert 0.0 <= log(1.0 + v) <= m;
      DivNonNegative(log(1.0 + v), m);
      DivMonotone(log(1.0 + v), m, m);
      if u > 0.0 {
        DivMonotone(log(1.0 + u), log(1.0 + v), m);
      }
    }
  }

  /** A sensor cell: its grid offset from the organism centre and its strength. */
  datatype SensorCell = SensorCell(gridX: int, gridY: int, strength: real)

  /** x to the fourth power, math.Pow(x, SensorFocusK). */
  function Pow4(x: real): (r: real)
    ensures x >= 0.0 ==> r >= 0.0
    ensures 0.0 <= x <= 1.0 ==> r <= 1.0
  {
    SquareInUnit(x);
    SquareInUnit(x * x);
    assert x * x * x * x == (x * x) * (x * x);
    x * x * x * x
  }

  lemma SquareInUnit(x: real)
    ensures x * x >= 0.0
    ensures 0.0 <= x <= 1.0 ==> x * x <= x
  {
    if 0.0 <= x <= 1.0 {
      assert x * x <= x * 1.0;
    }
  }

  /** How well a sensor facing the given way serves a cone: max(0, cos(diff)) to the SensorFocusK = 4. */
  function Alignment4(facing: real, cone: int, cos: real -> real): (r: real)
    ensures r >= 0.0
    ensures cos(Abs(AngleWrap(facing - ConeCenter(cone)))) <= 1.0 ==> r <= 1.0
  {
    Pow4(Max(0.0, cos(Abs(AngleWrap(facing - ConeCenter(cone))))))
  }

  function Strengths(sensors: seq<SensorCell>): (r: seq<real>)
    ensures |r| == |sensors|
    ensures forall i :: 0 <= i < |sensors| ==> r[i] == sensors[i].strength
  {
    seq(|sensors|, i requires 0 <= i < |sensors| => sensors[i].strength)
  }

  /** One cone's raw coverage: the strength-weighted alignment of every positive-strength sensor. */
  function ConeCoverage(sensors: seq<SensorCell>, cone: int, atan2: (real, real) -> real, cos: real -> real): (r: real)
    ensures r >= 0.0
    decreases |sensors|
  {
    if |sensors| == 0 then 0.0
    else SensorShare(sensors[0], cone, atan2, cos) + ConeCoverage(sensors[1..], cone, atan2, cos)
  }

  /** One sensor's share of a cone: its strength times its alignment, nothing when it has no strength. */
  function SensorShare(s: SensorCell, cone: int, atan2: (real, real) -> real, cos: real -> real): (r: real)
    ensures r >= 0.0
    ensures cos(Abs(AngleWrap(atan2(s.gridY as real, s.gridX as real) - ConeCenter(cone)))) <= 1.0 && s.strength >= 0.0
      ==> r <= s.strength
  {
    if s.strength <= 0.0 then 0.0
    else
      var al := Alignment4(atan2(s.gridY as real, s.gridX as real), cone, cos);
      ScaledShare(s.strength, al);
      s.strength * al
  }

  /** A positive strength scaled by a non-negative alignment stays non-negative, and at most itself when the alignment is at most one. */
  lemma ScaledShare(strength: real, al: real)
    requires strength > 0.0 && al >= 0.0
    ensures strength * al >= 0.0
    ensures al <= 1.0 ==> strength * al <= strength
  {
    MulMonotone(strength, 0.0, al);
    if al <= 1.0 {
      MulMonotone(strength, al, 1.0);
    }
  }

  /**
   * computeSensorConeWeights: 0.3 for every cone without sensors or with
   * a total strength below 0.01; otherwise each cone's coverage over the
   * total strength, floored at 0.1.
   */
  function SensorConeWeights(sensors: seq<SensorCell>, atan2: (real, real) -> real, cos: real -> real): (r: seq<real>)
    ensures |r| == NumCones
    ensures (|sensors| == 0 || Sum(Strengths(sensors)) < 0.01) ==> forall i :: 0 <= i < NumCones ==> r[i] == BaselineWeight
    ensures forall i :: 0 <= i < NumCones ==> r[i] >= WeightFloor
  {
    var total := Sum(Strengths(sensors));
    if |sensors| == 0 || total < 0.01 then seq(NumCones, i => BaselineWeight)
    else seq(NumCones, i => Max(WeightFloor, ConeCoverage(sensors, i, atan2, cos) / total))
  }

  /** A cosine as the weights need it: never above 1. */
  ghost predicate CosLike(cos: real -> real)
  {
    forall x :: cos(x) <= 1.0
  }

  /** With no negative strengths, a cone's coverage never exceeds the total strength. */
  lemma {:induction false} CoverageAtMostTotal(sensors: seq<SensorCell>, cone: int, atan2: (real, real) -> real, cos: real -> real)
    requires CosLike(cos)
    requires forall i :: 0 <= i < |sensors| ==> sensors[i].strength >= 0.0
    ensures ConeCoverage(sensors, cone, atan2, cos) <= Sum(Strengths(sensors))
    decreases |sensors|
  {
    if |sensors| > 0 {
      var s := sensors[0];
      assert Strengths(sensors)[1..] == Strengths(sensors[1..]);
      CoverageAtMostTotal(sensors[1..], cone, atan2, cos);
      assert Sum(Strengths(sensors)) == s.strength + Sum(Strengths(sensors[1..]));
      assert cos(Abs(AngleWrap(atan2(s.gridY as real, s.gridX as real) - ConeCenter(cone)))) <= 1.0;
    }
  }

  /** With sensors of non-negative strength, every cone weight lies in [0.1, 1]. */
  lemma SensorWeightsInRange(sensors: seq<SensorCell>, atan2: (real, real) -> real, cos: real -> real)
    requires CosLike(cos)
    requires forall i :: 0 <= i < |sensors| ==> sensors[i].strength >= 0.0
    ensures forall i :: 0 <= i < NumCones ==> WeightFloor <= SensorConeWeights(sensors, atan2, cos)[i] <= 1.0
  {
    var total := Sum(Strengths(sensors));
    if |sensors| > 0 && total >= 0.01 {
      forall i | 0 <= i < NumCones
        ensures SensorConeWeights(sensors, atan2, cos)[i] <= 1.0
      {
        CoverageAtMostTotal(sensors, i, atan2, cos);
        DivMonotone(ConeCoverage(sensors, i, atan2, cos), total, total);
      }
    }
  }

  /** What the scan knows about a seen entity. */
  datatype Entity = Entity(x: real, y: real, composition: real, digestiveSpec: real, armor: real,
                           geneticDistance: real, isFlora: bool, emittedLight: real)

  /** The observer's side of a scan. */
  datatype ScanParams = ScanParams(posX: real, posY: real, heading: real, myComposition: real,
                                   myDigestiveSpec: real, myArmor: real, effectiveRadius: real,
                                   lightLevel: real, sensors: seq<SensorCell>)

  /** Per-cone food, threat and friend intensities. */
  datatype Cones = Cones(food: seq<real>, threat: seq<real>, friend: seq<real>)

  predicate ValidCones(c: Cones)
  {
    |c.food| == NumCones && |c.threat| == NumCones && |c.friend| == NumCones
  }

  const EmptyCones: Cones := Cones([0.0, 0.0, 0.0, 0.0], [0.0, 0.0, 0.0, 0.0], [0.0, 0.0, 0.0, 0.0])

  /** Food relevance: can I eat it? Flora counts as composition 1. */
  function FoodRelevance(mySpectrum: real, e: Entity): (r: real)
    ensures 0.0 <= r <= 1.0
    ensures r == Capability.ThreatLevel(mySpectrum, if e.isFlora then 1.0 else e.composition, e.armor)
  {
    Capability.Penetration(Capability.Edibility(mySpectrum, if e.isFlora then 1.0 else e.composition), e.armor)
  }

  /** Friend relevance: 1 / (1 + genetic distance) for fauna with a known distance, else 0. */
  function FriendRelevance(e: Entity): (r: real)
    ensures 0.0 <= r <= 1.0
    ensures !e.isFlora && e.geneticDistance == 0.0 ==> r == 1.0
  {
    if !e.isFlora && e.geneticDistance >= 0.0 then
      DivSign(1.0, 1.0 + e.geneticDistance);
      DivMonotone(1.0, 1.0 + e.geneticDistance, 1.0 + e.geneticDistance);
      1.0 / (1.0 + e.geneticDistance)
    else 0.0
  }

  function DistSq(p: ScanParams, e: Entity): real
  {
    (e.x - p.posX) * (e.x - p.posX) + (e.y - p.posY) * (e.y - p.posY)
  }

  /** What one entity adds: its cone and the three increments, or nothing when it is skipped. */
  datatype Hit = Hit(cone: int, food: real, threat: real, friend: real)

  /**
   * One entity's contribution: skipped when beyond the effective radius or
   * nearer than MinIntensity, or when its inverse-square intensity, dimmed
   * by the light it is seen in and weighted by the cone's sensors, falls
   * below MinIntensity.
   */
  function Contribution(p: ScanParams, weights: seq<real>, e: Entity, atan2: (real, real) -> real): (r: Option<Hit>)
    requires |weights| == NumCones
    ensures r.Some? ==> (0 <= r.value.cone < NumCones && r.value.food >= 0.0 &&
      r.value.threat >= 0.0 && r.value.friend >= 0.0)
    ensures DistSq(p, e) > p.effectiveRadius * p.effectiveRadius ==> r == None
  {
    var distSq := DistSq(p, e);
    if distSq > p.effectiveRadius * p.effectiveRadius || distSq < MinIntensity then None
    else
      var cone := AngleToCone(atan2(e.y - p.posY, e.x - p.posX) - p.heading);
      var light := Min(p.lightLevel + e.emittedLight, 1.0);
      var intensity := 1.0 / distSq * light * weights[cone];
      if intensity < MinIntensity then None
      else
        var f := FoodRelevance(p.myDigestiveSpec, e);
        var t := Capability.ThreatLevel(e.digestiveSpec, p.myComposition, p.myArmor);
        var fr := FriendRelevance(e);
        MulMonotone(intensity, 0.0, f);
        MulMonotone(intensity, 0.0, t);
        MulMonotone(intensity, 0.0, fr);
        Some(Hit(cone, f * intensity, t * intensity, fr * intensity))
  }

  function AddHit(c: Cones, h: Hit): (r: Cones)
    requires ValidCones(c) && 0 <= h.cone < NumCones
    ensures ValidCones(r)
  {
    Cones(c.food[h.cone := c.food[h.cone] + h.food],
          c.threat[h.cone := c.threat[h.cone] + h.threat],
          c.friend[h.cone := c.friend[h.cone] + h.friend])
  }

  predicate NonNegative(c: Cones)
    requires ValidCones(c)
  {
    forall i :: 0 <= i < NumCones ==> c.food[i] >= 0.0 && c.threat[i] >= 0.0 && c.friend[i] >= 0.0
  }

  /** The accumulation loop of ScanEntities, over entities in order; nothing it adds is negative. */
  function Accumulate(p: ScanParams, weights: seq<real>, entities: seq<Entity>, atan2: (real, real) -> real): (r: Cones)
    requires |weights| == NumCones
    ensures ValidCones(r) && NonNegative(r)
    decreases |entities|
  {
    if |entities| == 0 then EmptyCones
    else
      var prev := Accumulate(p, weights, entities[..|entities| - 1], atan2);
      match Contribution(p, weights, entities[|entities| - 1], atan2)
      case None => prev
      case Some(h) => AddHit(prev, h)
  }

  /** An entity beyond the effective radius changes nothing. */
  lemma OutOfRangeIgnored(p: ScanParams, weights: seq<real>, entities: seq<Entity>, e: Entity, atan2: (real, real) -> real)
    requires |weights| == NumCones
    requires DistSq(p, e) > p.effectiveRadius * p.effectiveRadius
    ensures Accumulate(p, weights, entities + [e], atan2) == Accumulate(p, weights, entities, atan2)
  {
    assert (entities + [e])[..|entities|] == entities;
  }

  function ClampCones(c: Cones): (r: Cones)
    requires ValidCones(c)
    ensures ValidCones(r)
    ensures forall i :: 0 <= i < NumCones ==>
      r.food[i] == ClampVision(c.food[i]) && r.threat[i] == ClampVision(c.threat[i]) && r.friend[i] == ClampVision(c.friend[i])
  {
    Cones(seq(NumCones, i requires 0 <= i < NumCones => ClampVision(c.food[i])),
          seq(NumCones, i requires 0 <= i < NumCones => ClampVision(c.threat[i])),
          seq(NumCones, i requires 0 <= i < NumCones => ClampVision(c.friend[i])))
  }

  /**
   * ScanEntities: every cone intensity lies in [0, MaxConeIntensity], and
   * since nothing accumulated is negative the clamp only ever caps from
   * above; with no entities every cone is 0.
   */
  function ScanEntities(p: ScanParams, entities: seq<Entity>, atan2: (real, real) -> real, cos: real -> real): (r: Cones)
    ensures ValidCones(r)
    ensures forall i :: 0 <= i < NumCones ==>
      0.0 <= r.food[i] <= MaxConeIntensity && 0.0 <= r.threat[i] <= MaxConeIntensity &&
      0.0 <= r.friend[i] <= MaxConeIntensity
    ensures var acc := Accumulate(p, SensorConeWeights(p.sensors, atan2, cos), entities, atan2);
      forall i :: 0 <= i < NumCones ==>
        r.food[i] == Min(acc.food[i], MaxConeIntensity) && r.threat[i] == Min(acc.threat[i], MaxConeIntensity) &&
        r.friend[i] == Min(acc.friend[i], MaxConeIntensity)
    ensures |entities| == 0 ==> r == EmptyCones
  {
    var acc := Accumulate(p, SensorConeWeights(p.sensors, atan2, cos), entities, atan2);
    var r := ClampCones(acc);
    assert |entities| == 0 ==> r.food == EmptyCones.food && r.threat == EmptyCones.threat && r.friend == EmptyCones.friend;
    r
  }

  /** NormalizeForBrain: logNormalize applied to every cone of every channel. */
  function NormalizeForBrain(c: Cones, log: real -> real): (r: Cones)
    requires ValidCones(c)
    ensures ValidCones(r)
    ensures forall i :: 0 <= i < NumCones ==>
      r.food[i] == LogNormalize(c.food[i], log) && r.threat[i] == LogNormalize(c.threat[i], log) &&
      r.friend[i] == LogNormalize(c.friend[i], log)
  {
    Cones(seq(NumCones, i requires 0 <= i < NumCones => LogNormalize(c.food[i], log)),
          seq(NumCones, i requires 0 <= i < NumCones => LogNormalize(c.threat[i], log)),
          seq(NumCones, i requires 0 <= i < NumCones => LogNormalize(c.friend[i], log)))
  }

  /** Scanned and normalised cones are brain inputs in [0, 1]. */
  lemma BrainInputsInUnit(p: ScanParams, entities: seq<Entity>, atan2: (real, real) -> real, cos: real -> real, log: real -> real)
    requires LogLike(log)
    ensures var n := NormalizeForBrain(ScanEntities(p, entities, atan2, cos), log);
      forall i :: 0 <= i < NumCones ==>
        0.0 <= n.food[i] <= 1.0 && 0.0 <= n.threat[i] <= 1.0 && 0.0 <= n.friend[i] <= 1.0
  {
    var s := ScanEntities(p, entities, atan2, cos);
    forall i | 0 <= i < NumCones
      ensures 0.0 <= LogNormalize(s.food[i], log) <= 1.0 && 0.0 <= LogNormalize(s.threat[i], log) <= 1.0 &&
        0.0 <= LogNormalize(s.friend[i], log) <= 1.0
    {
      LogNormalizeInUnit(log, 0.0, s.food[i]);
      LogNormalizeInUnit(log, 0.0, s.threat[i]);
      LogNormalizeInUnit(log, 0.0, s.friend[i]);
    }
  }

  /** The point at distance d from (x, y) along the given world angle. */
  function Along(x: real, y: real, d: real, angle: real, cos: real -> real, sin: real -> real): (real, real)
  {
    (x + d * cos(angle), y + d * sin(angle))
  }

  /**
   * SampleDirectionalLight: with no sampler every cone sees 0.5; otherwise
   * each cone samples at half the radius along its centre direction.
   */
  function SampleDirectionalLight(posX: real, posY: real, heading: real, sampleRadius: real,
                                  sampler: Option<(real, real) -> real>,
                                  cos: real -> real, sin: real -> real): (r: seq<real>)
    ensures |r| == NumCones
    ensures sampler.None? ==> forall i :: 0 <= i < NumCones ==> r[i] == 0.5
    ensures sampler.Some? ==> forall i :: 0 <= i < NumCones ==>
      var p := Along(posX, posY, sampleRadius * LightSampleDistance, heading + ConeCenter(i), cos, sin);
      r[i] == sampler.value(p.0, p.1)
  {
    if sampler.None? then seq(NumCones, i => 0.5)
    else
      var d := sampleRadius * LightSampleDistance;
      seq(NumCones, i => var p := Along(posX, posY, d, heading + ConeCenter(i), cos, sin); sampler.value(p.0, p.1))
  }

  /**
   * (a - b) / (a + b + epsilon): the normalised difference of two opposite
   * light samples. A zero denominator (only possible with negative light)
   * gives 0 here.
   */
  function Gradient(a: real, b: real): (r: real)
    ensures a == b ==> r == 0.0
    ensures a >= 0.0 && b >= 0.0 ==> -1.0 < r < 1.0
    ensures a >= 0.0 && b >= 0.0 ==> (r > 0.0 <==> a > b)
  {
    var den := a + b + LightGradientEpsilon;
    if a >= 0.0 && b >= 0.0 then
      GradientBounds(a, b, den);
      (a - b) / den
    else if den == 0.0 then 0.0
    else (a - b) / den
  }

  lemma GradientBounds(a: real, b: real, den: real)
    requires a >= 0.0 && b >= 0.0 && den == a + b + LightGradientEpsilon
    ensures -1.0 < (a - b) / den < 1.0
    ensures (a - b) / den > 0.0 <==> a > b
  {
    DivMonotone(a - b, den, den);
    DivMonotone(-den, a - b, den);
    DivSign(a - b, den);
    DivSign(b - a, den);
    assert (b - a) / den == -((a - b) / den);
    if a - b == den { assert false; }
    if a - b == -den { assert false; }
    DivStrict(a - b, den, den);
    DivStrict(-den, a - b, den);
  }

  lemma DivStrict(a: real, b: real, y: real)
    requires y > 0.0 && a < b
    ensures a / y < b / y
  {
    assert (b - a) / y > 0.0;
    assert (b - a) / y == b / y - a / y;
  }

  /** LightGradients: front minus back and right minus left, each normalised. */
  function LightGradients(light: seq<real>): (r: (real, real))
    requires |light| == NumCones
    ensures (forall i :: 0 <= i < NumCones ==> light[i] >= 0.0) ==>
      -1.0 < r.0 < 1.0 && -1.0 < r.1 < 1.0 &&
      (r.0 > 0.0 <==> light[ConeFront] > light[ConeBack]) &&
      (r.1 > 0.0 <==> light[ConeRight] > light[ConeLeft])
  {
    (Gradient(light[ConeFront], light[ConeBack]), Gradient(light[ConeRight], light[ConeLeft]))
  }

  /** Without a light sampler the light is uniform, so neither gradient points anywhere. */
  lemma UniformLightHasNoGradient(posX: real, posY: real, heading: real, sampleRadius: real,
                                  cos: real -> real, sin: real -> real)
    ensures LightGradients(SampleDirectionalLight(posX, posY, heading, sampleRadius, None, cos, sin)) == (0.0, 0.0)
  {
    var l := SampleDirectionalLight(posX, posY, heading, sampleRadius, None, cos, sin);
    assert l[ConeFront] == l[ConeBack] && l[ConeRight] == l[ConeLeft];
  }
}
