/**
 * The grid resource field (systems/resource_field.go): resource that
 * regrows toward an animated capacity, detritus that decays back into
 * resource, and grazing. The capacity noise itself is a parameter.
 */
module ResourceField {
  import opened SimMath
  import opened Grid
  import ParticleField

  /** A per-tick rate: rate * dt, capped at 1 (a cell never moves past its target in one tick). */
  function TickRate(rate: real, dt: real): (r: real)
    ensures r <= 1.0
    ensures rate * dt <= 1.0 ==> r == rate * dt
    ensures rate >= 0.0 && dt >= 0.0 ==> 0.0 <= r
  {
    Min(rate * dt, 1.0)
  }

  /** One cell after detritus decay: new resource, new detritus, heat returned. */
  datatype Decay = Decay(res: real, det: real, heat: real)

  /**
   * Detritus decay in one cell: a positive cell loses rate of itself, eff
   * of which becomes resource and the rest heat. Detritus lost equals
   * resource gained plus heat.
   */
  function DecayCell(res: real, det: real, rate: real, eff: real): (o: Decay)
    ensures det - o.det == (o.res - res) + o.heat
    ensures det <= 0.0 ==> o == Decay(res, det, 0.0)
    ensures det > 0.0 && 0.0 <= rate <= 1.0 ==> 0.0 <= o.det <= det
    ensures det > 0.0 && 0.0 <= rate && 0.0 <= eff <= 1.0 ==> o.res >= res && o.heat >= 0.0
  {
    if det <= 0.0 then Decay(res, det, 0.0)
    else
      var decayed := ParticleField.Portion(rate, det);
      ParticleField.DecayShares(det, decayed, eff);
      ParticleField.DecayBounds(det, rate);
      DecaySigns(det, rate, eff);
      Decay(res + ParticleField.Portion(eff, decayed), det - decayed, ParticleField.Portion(1.0 - eff, decayed))
  }

  lemma DecaySigns(det: real, rate: real, eff: real)
    requires det > 0.0
    ensures 0.0 <= rate && 0.0 <= eff <= 1.0 ==>
      var decayed := ParticleField.Portion(rate, det);
      ParticleField.Portion(eff, decayed) >= 0.0 && ParticleField.Portion(1.0 - eff, decayed) >= 0.0
  {
    if 0.0 <= rate && 0.0 <= eff <= 1.0 {
      var decayed := ParticleField.Portion(rate, det);
      ParticleField.PortionNonNegative(rate, det);
      ParticleField.PortionNonNegative(eff, decayed);
      ParticleField.PortionNonNegative(1.0 - eff, decayed);
    }
  }

  /** One cell after moving toward capacity: new resource, energy created, heat lost. */
  datatype Regen = Regen(res: real, input: real, heat: real)

  /**
   * Regeneration toward capacity: below it the cell regrows by regen of
   * the gap (counted as energy input), above it decays by decay of the
   * excess (counted as heat). The change in the cell is input minus heat.
   */
  function RegenCell(cap: real, res: real, regen: real, decay: real): (o: Regen)
    ensures o.res - res == o.input - o.heat
    ensures res == cap ==> o == Regen(res, 0.0, 0.0)
    ensures res < cap ==> o.heat == 0.0 && (0.0 <= regen <= 1.0 ==> res <= o.res <= cap && o.input >= 0.0)
    ensures res < cap && regen == 1.0 ==> o.res == cap
    ensures res > cap ==> o.input == 0.0 && (0.0 <= decay <= 1.0 ==> cap <= o.res <= res && o.heat >= 0.0)
    ensures res > cap && decay == 1.0 ==> o.res == cap
  {
    if res < cap then
      ParticleField.DecayBounds(cap - res, 1.0 - regen);
      var r := res + ParticleField.Portion(regen, cap - res);
      assert ParticleField.Portion(1.0 - regen, cap - res) == (cap - res) - ParticleField.Portion(regen, cap - res);
      Regen(r, r - res, 0.0)
    else if res > cap then
      ParticleField.DecayBounds(res - cap, decay);
      var r := res - ParticleField.Portion(decay, res - cap);
      Regen(r, 0.0, res - r)
    else Regen(res, 0.0, 0.0)
  }

  /** The whole per-cell step: detritus decays first, then the resource moves toward capacity. */
  datatype CellOut = CellOut(res: real, det: real, heat: real, input: real)

  function CellStep(cap: real, res: real, det: real, detRate: real, eff: real, regen: real, decay: real): (c: CellOut)
    ensures (c.res + c.det) - (res + det) == c.input - c.heat
    ensures det <= 0.0 ==> c.det == det
    ensures 0.0 <= regen <= 1.0 && 0.0 <= decay <= 1.0 && 0.0 <= detRate && 0.0 <= eff <= 1.0 ==>
      c.input >= 0.0 && c.heat >= 0.0
  {
    var d := DecayCell(res, det, detRate, eff);
    var g := RegenCell(cap, d.res, regen, decay);
    CellOut(g.res, d.det, d.heat + g.heat, g.input)
  }

  /** The energy accounting a step returns. */
  datatype StepResult = StepResult(heatLoss: real, energyInput: real)

  /** TotalMass: resource plus detritus over the whole grid. */
  function TotalMass(res: seq<real>, det: seq<real>): real
  {
    Sum(res) + Sum(det)
  }

  /**
   * Step: every cell takes CellStep with the tick's capped rates. The
   * field's total mass changes by exactly the energy input minus the
   * heat loss, and with rates and efficiency in range both are
   * non-negative.
   */
  method Step(cap: seq<real>, res: seq<real>, det: seq<real>, dt: real,
              regenRate: real, decayRate: real, detDecayRate: real, detEff: real)
    returns (res': seq<real>, det': seq<real>, result: StepResult)
    requires |cap| == |res| == |det|
    ensures |res'| == |res| && |det'| == |det|
    ensures TotalMass(res', det') == TotalMass(res, det) + result.energyInput - result.heatLoss
    ensures forall i :: 0 <= i < |res| ==>
      var c := CellStep(cap[i], res[i], det[i], detDecayRate * dt, detEff, TickRate(regenRate, dt), TickRate(decayRate, dt));
      res'[i] == c.res && det'[i] == c.det
    ensures regenRate >= 0.0 && decayRate >= 0.0 && detDecayRate >= 0.0 && dt >= 0.0 && 0.0 <= detEff <= 1.0 ==>
      result.energyInput >= 0.0 && result.heatLoss >= 0.0
  {
    var regen := TickRate(regenRate, dt);
    var decay := TickRate(decayRate, dt);
    var detRate := detDecayRate * dt;
    var inRange := regenRate >= 0.0 && decayRate >= 0.0 && detDecayRate >= 0.0 && dt >= 0.0 && 0.0 <= detEff <= 1.0;
    if inRange {
      MulMonotone(detDecayRate, 0.0, dt);
    }
    res' := res;
    det' := det;
    var heat := 0.0;
    var input := 0.0;
    var i := 0;
    while i < |res|
      invariant 0 <= i <= |res| && |res'| == |res| && |det'| == |det|
      invariant TotalMass(res', det') == TotalMass(res, det) + input - heat
      invariant forall j :: i <= j < |res| ==> res'[j] == res[j] && det'[j] == det[j]
      invariant forall j :: 0 <= j < i ==>
        var c := CellStep(cap[j], res[j], det[j], detRate, detEff, regen, decay);
        res'[j] == c.res && det'[j] == c.det
      invariant inRange ==> input >= 0.0 && heat >= 0.0
    {
      var c := CellStep(cap[i], res'[i], det'[i], detRate, detEff, regen, decay);
      SumUpdate(res', i, c.res);
      SumUpdate(det', i, c.det);
      res' := res'[i := c.res];
      det' := det'[i := c.det];
      heat := heat + c.heat;
      input := input + c.input;
      i := i + 1;
    }
    result := StepResult(heat, input);
  }

  /**
   * With both rates capped at 1, a cell whose detritus is empty ends the
   * step between its old value and its capacity: regrowth never
   * overshoots and decay never undershoots.
   */
  lemma StepApproachesCapacity(cap: real, res: real, det: real, detRate: real, eff: real, regen: real, decay: real)
    requires det <= 0.0 && 0.0 <= regen <= 1.0 && 0.0 <= decay <= 1.0
    ensures var c := CellStep(cap, res, det, detRate, eff, regen, decay);
      Min(res, cap) <= c.res <= Max(res, cap)
  {
    var d := DecayCell(res, det, detRate, eff);
    assert d.res == res;
  }

  /** The capacity clock: animation time and when the capacity was last regenerated. */
  datatype Clock = Clock(time: real, lastCapUpdate: real)

  /**
   * Step's clock update: with a positive time speed, time advances by
   * dt * speed and the capacity is regenerated (the clock's last-update
   * mark catches up) once a full interval has passed; the returned flag
   * says whether it was.
   */
  function AdvanceClock(c: Clock, dt: real, timeSpeed: real, interval: real): (r: (Clock, bool))
    ensures timeSpeed <= 0.0 ==> r == (c, false)
    ensures r.1 ==> r.0.lastCapUpdate == r.0.time
    ensures timeSpeed > 0.0 && !r.1 ==> r.0.time - r.0.lastCapUpdate < Product(interval, timeSpeed)
    ensures timeSpeed > 0.0 ==> r.0.time == c.time + Product(dt, timeSpeed)
  {
    if timeSpeed <= 0.0 then (c, false)
    else
      var t := c.time + Product(dt, timeSpeed);
      if t - c.lastCapUpdate >= Product(interval, timeSpeed) then (Clock(t, t), true)
      else (Clock(t, c.lastCapUpdate), false)
  }

  /** a * b, kept behind a name. */
  function Product(a: real, b: real): real
  {
    a * b
  }

  /**
   * The capacity is never stale by a full interval: if the clock starts
   * within an interval of its last update, it stays so after every step.
   */
  lemma CapacityNeverStale(c: Clock, dt: real, timeSpeed: real, interval: real)
    requires timeSpeed > 0.0 && interval > 0.0 && dt >= 0.0
    requires 0.0 <= c.time - c.lastCapUpdate < Product(interval, timeSpeed)
    ensures var r := AdvanceClock(c, dt, timeSpeed, interval).0;
      0.0 <= r.time - r.lastCapUpdate < Product(interval, timeSpeed)
  {
    MulMonotone(timeSpeed, 0.0, dt);
    assert timeSpeed * dt == Product(dt, timeSpeed);
    MulStrict(timeSpeed, 0.0, interval);
    assert timeSpeed * interval == Product(interval, timeSpeed);
  }

  /**
   * NewResourceField's time speed: the configured speed scaled by the
   * reference world size 1024 over the larger world side, so hotspots
   * drift at the same physical speed in any world.
   */
  function ScaledTimeSpeed(timeSpeed: real, worldW: real, worldH: real): (r: real)
    requires worldW > 0.0 && worldH > 0.0
    ensures Product(r, Max(worldW, worldH)) == Product(timeSpeed, 1024.0)
  {
    var size := if worldH > worldW then worldH else worldW;
    timeSpeed * (1024.0 / size)
  }

  /**
   * grazeFromGrid: as the particle field's, except that a kernel cell
   * whose resource is not positive gives nothing. The grid total drops by
   * exactly what is removed, which lies between 0 and rate * dt.
   */
  function Graze(res: seq<real>, g: ParticleField.Geometry, x: real, y: real, rate: real, dt: real, radius: int): (r: Moved)
    requires ParticleField.ValidGeometry(g) && |res| == g.w * g.h
    ensures |r.grid| == |res|
    ensures Sum(r.grid) == Sum(res) - r.moved
    ensures 0.0 <= r.moved <= Max(rate * dt, 0.0)
    ensures forall i :: 0 <= i < |res| ==> r.grid[i] <= res[i] && (res[i] >= 0.0 ==> r.grid[i] >= 0.0)
  {
    var cx := ParticleField.GrazeCentre(x, g.worldW, g.w);
    var cy := ParticleField.GrazeCentre(y, g.worldH, g.h);
    var want := rate * dt;
    if want <= 0.0 then Moved(res, 0.0)
    else
      var os := Offsets(radius);
      var wsum := TentSum(os, radius);
      TentSumPositive(radius);
      if wsum <= 0.0 then Moved(res, 0.0)
      else
        var cs := GrazeCells(os, radius, cx, cy, g.w, g.h, want, wsum);
        GrazeSharesTotal(os, radius, cx, cy, g.w, g.h, want);
        PosTotalOfNonNegative(cs);
        TakeGuarded(res, cs)
  }

  /** On a non-negative grid the two fields graze identically. */
  lemma GrazeAgreesWithParticleField(res: seq<real>, g: ParticleField.Geometry, x: real, y: real, rate: real, dt: real, radius: int)
    requires ParticleField.ValidGeometry(g) && |res| == g.w * g.h && NonNegative(res)
    ensures Graze(res, g, x, y, rate, dt, radius) == ParticleField.GrazeFromGrid(res, g, x, y, rate, dt, radius)
  {
    var cx := ParticleField.GrazeCentre(x, g.worldW, g.w);
    var cy := ParticleField.GrazeCentre(y, g.worldH, g.h);
    var want := rate * dt;
    if want > 0.0 {
      var os := Offsets(radius);
      var wsum := TentSum(os, radius);
      if wsum > 0.0 {
        TakeRulesAgree(res, GrazeCells(os, radius, cx, cy, g.w, g.h, want, wsum));
      }
    }
  }

  /** DepositDetritus: the same splat as the particle field's; the whole positive amount lands on the grid. */
  function DepositDetritus(det: seq<real>, g: ParticleField.Geometry, x: real, y: real, amount: real): (r: Moved)
    requires ParticleField.ValidGeometry(g) && |det| == g.w * g.h && x >= 0.0 && y >= 0.0
    ensures |r.grid| == |det|
    ensures amount <= 0.0 ==> r == Moved(det, 0.0)
    ensures amount > 0.0 ==> r.moved == amount && Sum(r.grid) == Sum(det) + amount
  {
    ParticleField.DepositDetritus(det, g, x, y, amount)
  }
}
