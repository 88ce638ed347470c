/**
 * Per-sector vision of the simulation (systems/vision.go): which of the
 * eight sectors around a heading an angle falls in, how effective vision
 * is in a sector, and how the per-sector weights are loaded from either an
 * explicit list or legacy vision zones. cos is a parameter.
 */
module SectorVision {
  import opened SimMath
  import Sensors

  /** The angular width of one sector, 2π / NumSectors. */
  const SectorWidth: real := TwoPi / 8.0

  /** The centre of sector i relative to the heading; sector 0 is straight behind. */
  function SectorCenterAngle(i: int): real
  {
    (i as real - 4.0) * SectorWidth
  }

  /** normalizeAngleFull: math.Mod by 2π, then one turn back into [-π, π]. */
  function NormalizeAngleFull(a: real): (r: real)
    ensures -Pi <= r <= Pi
    ensures -Pi <= a <= Pi ==> r == a
  {
    var m := FMod(a, TwoPi);
    if m > Pi then m - TwoPi else if m < -Pi then m + TwoPi else m
  }

  /**
   * The second normalizeAngle of package systems (systems/sensors.go): one
   * turn of correction at most, so it lands in [-π, π] only for angles
   * within one turn of that range.
   */
  function NormalizeAngleOnce(a: real): (r: real)
    ensures r == a || r == a - TwoPi || r == a + TwoPi
    ensures -Pi - TwoPi <= a <= Pi + TwoPi ==> -Pi <= r <= Pi
    ensures -Pi <= a <= Pi ==> r == a
  {
    if a > Pi then a - TwoPi else if a < -Pi then a + TwoPi else a
  }

  /** Within one turn of [-π, π] the single-step form agrees with the loop form of systems/math.go. */
  lemma NormalizeAngleFormsAgree(a: real)
    requires -Pi - TwoPi <= a <= Pi + TwoPi
    ensures NormalizeAngleOnce(a) == AngleWrap(a)
  {
    if a > Pi {
      assert WrapDown(a) == WrapDown(a - TwoPi) == a - TwoPi;
    } else if a < -Pi {
      assert WrapDown(a) == a;
      assert WrapUp(a) == WrapUp(a + TwoPi) == a + TwoPi;
    }
  }

  /** Beyond one turn the two forms differ: three and a half turns stay above π. */
  lemma NormalizeAngleFormsDiffer()
    ensures NormalizeAngleOnce(3.5 * TwoPi) > Pi
    ensures AngleWrap(3.5 * TwoPi) <= Pi
  {
  }

  /** The unwrapped index: the nearest sector centre counted from -π, 0 ..= NumSectors. */
  function RawSector(a: real): (k: int)
    requires -Pi <= a <= Pi
    ensures 0 <= k <= Sensors.NumSectors
    ensures Abs(a - SectorCenterAngle(k)) <= SectorWidth / 2.0
  {
    var x := (a + Pi) / SectorWidth + 0.5;
    var k := x.Floor;
    assert k as real <= x < k as real + 1.0;
    k
  }

  /**
   * sectorIndexFromAngle: always a valid sector, and the sector whose
   * centre is nearest the angle; the sector behind (index 0, centred on
   * ±π) also takes the half-sector just below π.
   */
  function SectorIndexFromAngle(angle: real): (r: int)
    ensures 0 <= r < Sensors.NumSectors
    ensures var a := NormalizeAngleFull(angle);
      Abs(a - SectorCenterAngle(r)) <= SectorWidth / 2.0 ||
      (r == 0 && a >= Pi - SectorWidth / 2.0)
  {
    var idx := GoRem(RawSector(NormalizeAngleFull(angle)), Sensors.NumSectors);
    if idx < 0 then idx + Sensors.NumSectors else idx
  }

  /** The centre of every sector maps back to that sector. */
  lemma SectorOfCenter(i: int)
    requires 0 <= i < Sensors.NumSectors
    ensures SectorIndexFromAngle(SectorCenterAngle(i)) == i
  {
    var a := SectorCenterAngle(i);
    assert NormalizeAngleFull(a) == a;
    var x := (a + Pi) / SectorWidth + 0.5;
    assert x == i as real + 0.5;
    assert RawSector(a) == i;
  }

  datatype Kind = Prey | Predator

  /** The cached effectiveness settings: the floor and each kind's per-sector weights. */
  datatype VisionCache = VisionCache(minEffectiveness: real, predWeights: seq<real>, preyWeights: seq<real>)

  predicate ValidCache(c: VisionCache)
  {
    |c.predWeights| == Sensors.NumSectors && |c.preyWeights| == Sensors.NumSectors
  }

  /**
   * VisionEffectivenessForSector: the floor for an index out of range,
   * otherwise the floor raised toward 1 by the kind's sector weight.
   */
  function VisionEffectivenessForSector(c: VisionCache, sectorIdx: int, kind: Kind): (r: real)
    requires ValidCache(c)
    ensures (sectorIdx < 0 || sectorIdx >= Sensors.NumSectors) ==> r == c.minEffectiveness
    ensures 0 <= sectorIdx < Sensors.NumSectors ==>
      var w := if kind == Predator then c.predWeights[sectorIdx] else c.preyWeights[sectorIdx];
      (w == 0.0 ==> r == c.minEffectiveness) && (w == 1.0 ==> r == 1.0) &&
      (0.0 <= c.minEffectiveness <= 1.0 && 0.0 <= w <= 1.0 ==> c.minEffectiveness <= r <= 1.0)
  {
    if sectorIdx < 0 || sectorIdx >= Sensors.NumSectors then c.minEffectiveness
    else
      var w := if kind == Predator then c.predWeights[sectorIdx] else c.preyWeights[sectorIdx];
      var m := c.minEffectiveness;
      RaiseBetween(m, w);
      m + (1.0 - m) * w
  }

  lemma RaiseBetween(m: real, w: real)
    ensures 0.0 <= m <= 1.0 && 0.0 <= w <= 1.0 ==> m <= m + (1.0 - m) * w <= 1.0
  {
    if 0.0 <= m <= 1.0 && 0.0 <= w <= 1.0 {
      MulMonotone(1.0 - m, 0.0, w);
      MulMonotone(1.0 - m, w, 1.0);
    }
  }

  /** A legacy vision zone: centre angle, half-width and power. */
  datatype Zone = Zone(angle: real, width: real, power: real)

  /** What one zone offers at an angle: a cosine falloff inside its half-width. */
  function ZoneValue(relAngle: real, z: Zone, cos: real -> real): real
  {
    var d := Abs(AngleWrap(relAngle - z.angle));
    if d < z.width then z.power * cos(d / z.width * (Pi / 2.0)) else 0.0
  }

  /** A zone covers an angle when the angle is strictly inside its half-width. */
  predicate Covers(relAngle: real, z: Zone)
  {
    Abs(AngleWrap(relAngle - z.angle)) < z.width
  }

  /**
   * zoneEffectiveness: the largest value any covering zone offers, and 0
   * when none offers more.
   */
  function ZoneEffectiveness(relAngle: real, zones: seq<Zone>, cos: real -> real): (r: real)
    ensures r >= 0.0
    ensures forall i :: 0 <= i < |zones| && Covers(relAngle, zones[i]) ==> ZoneValue(relAngle, zones[i], cos) <= r
    ensures r == 0.0 || exists i :: 0 <= i < |zones| && Covers(relAngle, zones[i]) && r == ZoneValue(relAngle, zones[i], cos)
    decreases |zones|
  {
    if |zones| == 0 then 0.0
    else
      var prev := ZoneEffectiveness(relAngle, zones[..|zones| - 1], cos);
      var z := zones[|zones| - 1];
      assert forall i :: 0 <= i < |zones| - 1 ==> zones[..|zones| - 1][i] == zones[i];
      if Covers(relAngle, z) && ZoneValue(relAngle, z, cos) > prev then ZoneValue(relAngle, z, cos) else prev
  }

  /**
   * loadVisionWeights: an explicit list of exactly NumSectors weights is
   * clamped into [0, 1] slot by slot (kept inside, cut to 0 or 1 outside);
   * otherwise, with no zones every weight is 0, and with zones each sector
   * takes the clamped best zone effectiveness at its centre.
   */
  function LoadVisionWeights(weights: seq<real>, zones: seq<Zone>, cos: real -> real): (r: seq<real>)
    ensures |r| == Sensors.NumSectors
    ensures forall i :: 0 <= i < |r| ==> 0.0 <= r[i] <= 1.0
    ensures |weights| == Sensors.NumSectors ==>
      forall i :: 0 <= i < |r| ==> (0.0 <= weights[i] <= 1.0 ==> r[i] == weights[i])
    ensures |weights| == Sensors.NumSectors ==>
      forall i :: 0 <= i < |r| ==> (weights[i] > 1.0 ==> r[i] == 1.0) && (weights[i] < 0.0 ==> r[i] == 0.0)
    ensures |weights| == Sensors.NumSectors ==> forall i :: 0 <= i < |r| ==> r[i] == Clamp01(weights[i])
    ensures |weights| != Sensors.NumSectors && |zones| == 0 ==> forall i :: 0 <= i < |r| ==> r[i] == 0.0
    ensures |weights| != Sensors.NumSectors && |zones| > 0 ==>
      forall i :: 0 <= i < |r| ==> (r[i] == 0.0 <==> ZoneEffectiveness(SectorCenterAngle(i), zones, cos) == 0.0)
    ensures |weights| != Sensors.NumSectors && |zones| > 0 ==>
      forall i :: 0 <= i < |r| ==> r[i] == Clamp01(ZoneEffectiveness(SectorCenterAngle(i), zones, cos))
  {
    if |weights| == Sensors.NumSectors then
      seq(Sensors.NumSectors, i requires 0 <= i < Sensors.NumSectors => Clamp01(weights[i]))
    else if |zones| == 0 then
      seq(Sensors.NumSectors, i => 0.0)
    else
      seq(Sensors.NumSectors, i => Clamp01(ZoneEffectiveness(SectorCenterAngle(i), zones, cos)))
  }

  /**
   * Loaded weights keep every sector's effectiveness between the floor and
   * 1 whenever the floor itself is in [0, 1].
   */
  lemma LoadedEffectivenessBetween(minEff: real, pred: seq<real>, prey: seq<real>, predZones: seq<Zone>,
                                   preyZones: seq<Zone>, cos: real -> real, sectorIdx: int, kind: Kind)
    requires 0.0 <= minEff <= 1.0
    ensures var c := VisionCache(minEff, LoadVisionWeights(pred, predZones, cos), LoadVisionWeights(prey, preyZones, cos));
      minEff <= VisionEffectivenessForSector(c, sectorIdx, kind) <= 1.0
  {
    var c := VisionCache(minEff, LoadVisionWeights(pred, predZones, cos), LoadVisionWeights(prey, preyZones, cos));
    if 0 <= sectorIdx < Sensors.NumSectors {
      assert 0.0 <= c.predWeights[sectorIdx] <= 1.0;
      assert 0.0 <= c.preyWeights[sectorIdx] <= 1.0;
    }
  }
}
