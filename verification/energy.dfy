/**
 * Metabolism, foraging and predation transfers (systems/energy.go).
 * The cached configuration values the source reads from package globals
 * are the `EnergyParams` parameter. The energy record is the one energy.go
 * reads and writes (Value, Max, Age, Alive, LastThrust).
 */
module Energy {
  import opened SimMath

  datatype EnergyParams = EnergyParams(
    preyBaseCost: real, predBaseCost: real,
    preyMoveCost: real, predMoveCost: real,
    preyAccelCost: real, predAccelCost: real,
    biteCost: real,
    grazingDietCap: real, huntingDietFloor: real,
    grazingPeak: real, forageRate: real,
    detritusFraction: real, transferEfficiency: real)

  datatype EnergyState = EnergyState(value: real, max: real, age: real, alive: bool, lastThrust: real)

  /** lerp32: a + (b - a) * t. */
  function Lerp(a: real, b: real, t: real): (r: real)
    ensures t == 0.0 ==> r == a
    ensures t == 1.0 ==> r == b
  {
    a + (b - a) * t
  }

  /** For t in [0, 1] the interpolation stays between the end points. */
  lemma LerpBetween(a: real, b: real, t: real)
    requires 0.0 <= t <= 1.0
    ensures a <= b ==> a <= Lerp(a, b, t) <= b
    ensures b < a ==> b <= Lerp(a, b, t) <= a
  {
    var d := b - a;
    assert Lerp(a, b, t) == a + d * t;
    if a <= b {
      ScaledWithin(d, t);
    } else {
      ScaledWithin(-d, t);
      assert d * t == -((-d) * t);
    }
  }

  /** A non-negative amount scaled by t in [0, 1] lies between 0 and the amount. */
  lemma ScaledWithin(d: real, t: real)
    requires d >= 0.0 && 0.0 <= t <= 1.0
    ensures 0.0 <= d * t <= d
  {
    MulMonotone(d, t, 1.0);
    MulMonotone(d, 0.0, t);
  }

  /** (speed / maxSpeed)^2 from the velocity, 0 when the maximum speed is not positive. */
  function SpeedRatioSq(vx: real, vy: real, maxSpeed: real): (r: real)
    ensures r >= 0.0
  {
    var speedSq := vx * vx + vy * vy;
    var maxSpeedSq := maxSpeed * maxSpeed;
    SquareNonNegative(vx);
    SquareNonNegative(vy);
    if maxSpeedSq > 0.0 then
      DivNonNegative(speedSq, maxSpeedSq);
      speedSq / maxSpeedSq
    else 0.0
  }

  /** Everything one UpdateEnergy call charges: base, movement, thrust and bite. */
  function MetabolicCost(
    e: EnergyState, vx: real, vy: real, maxSpeed: real, diet: real, biteActive: bool, dt: real, p: EnergyParams): real
  {
    var baseCost := Lerp(p.preyBaseCost, p.predBaseCost, diet);
    var moveCost := Lerp(p.preyMoveCost, p.predMoveCost, diet);
    var accelCost := Lerp(p.preyAccelCost, p.predAccelCost, diet);
    baseCost * dt
    + moveCost * SpeedRatioSq(vx, vy, maxSpeed) * dt
    + accelCost * e.lastThrust * e.lastThrust * dt
    + (if biteActive then p.biteCost else 0.0)
  }

  /**
   * UpdateEnergy: the dead are untouched; the living age by dt, pay the
   * metabolic cost, and die (with energy set to 0) once they reach 0.
   */
  function UpdateEnergy(
    e: EnergyState, vx: real, vy: real, maxSpeed: real, diet: real, biteActive: bool, dt: real, p: EnergyParams): (r: EnergyState)
    ensures !e.alive ==> r == e
    ensures e.alive ==> r.age == e.age + dt && r.max == e.max && r.lastThrust == e.lastThrust
    ensures e.alive ==> (r.alive <==> e.value - MetabolicCost(e, vx, vy, maxSpeed, diet, biteActive, dt, p) > 0.0)
    ensures e.alive && r.alive ==> r.value == e.value - MetabolicCost(e, vx, vy, maxSpeed, diet, biteActive, dt, p)
    ensures !r.alive ==> r.value == 0.0 || r == e
    ensures r.alive ==> r.value > 0.0 || r == e
  {
    if !e.alive then e
    else
      var v := e.value - MetabolicCost(e, vx, vy, maxSpeed, diet, biteActive, dt, p);
      if v <= 0.0 then e.(age := e.age + dt, value := 0.0, alive := false)
      else e.(age := e.age + dt, value := v)
  }

  /** Per-cost terms are non-negative when every configured cost is, for a diet in [0, 1]. */
  predicate CostsNonNegative(p: EnergyParams)
  {
    p.preyBaseCost >= 0.0 && p.predBaseCost >= 0.0 &&
    p.preyMoveCost >= 0.0 && p.predMoveCost >= 0.0 &&
    p.preyAccelCost >= 0.0 && p.predAccelCost >= 0.0 &&
    p.biteCost >= 0.0
  }

  lemma LerpNonNegative(a: real, b: real, t: real)
    requires a >= 0.0 && b >= 0.0 && 0.0 <= t <= 1.0
    ensures Lerp(a, b, t) >= 0.0
  {
    LerpBetween(a, b, t);
  }

  lemma ProductNonNegative(a: real, b: real)
    requires a >= 0.0 && b >= 0.0
    ensures a * b >= 0.0
  {
    MulMonotone(b, 0.0, a);
  }

  /** With non-negative costs, diet in [0, 1] and dt >= 0, a tick never adds energy. */
  lemma MetabolismNeverGains(
    e: EnergyState, vx: real, vy: real, maxSpeed: real, diet: real, biteActive: bool, dt: real, p: EnergyParams)
    requires CostsNonNegative(p) && 0.0 <= diet <= 1.0 && dt >= 0.0
    ensures MetabolicCost(e, vx, vy, maxSpeed, diet, biteActive, dt, p) >= 0.0
    ensures e.value >= 0.0 ==> UpdateEnergy(e, vx, vy, maxSpeed, diet, biteActive, dt, p).value <= e.value
  {
    var baseCost := Lerp(p.preyBaseCost, p.predBaseCost, diet);
    var moveCost := Lerp(p.preyMoveCost, p.predMoveCost, diet);
    var accelCost := Lerp(p.preyAccelCost, p.predAccelCost, diet);
    LerpNonNegative(p.preyBaseCost, p.predBaseCost, diet);
    LerpNonNegative(p.preyMoveCost, p.predMoveCost, diet);
    LerpNonNegative(p.preyAccelCost, p.predAccelCost, diet);
    ProductNonNegative(baseCost, dt);
    var ratio := SpeedRatioSq(vx, vy, maxSpeed);
    ProductNonNegative(moveCost, ratio);
    ProductNonNegative(moveCost * ratio, dt);
    SquareNonNegative(e.lastThrust);
    ProductNonNegative(accelCost, e.lastThrust * e.lastThrust);
    assert accelCost * e.lastThrust * e.lastThrust == accelCost * (e.lastThrust * e.lastThrust);
    ProductNonNegative(accelCost * e.lastThrust * e.lastThrust, dt);
  }

  /** GrazingEfficiency: 1 at diet 0 falling linearly to 0 at the cap; 0 when the cap is not positive. */
  function GrazingEfficiency(diet: real, cap: real): (r: real)
    ensures cap <= 0.0 ==> r == 0.0
    ensures r >= 0.0
    ensures cap > 0.0 && diet >= 0.0 ==> r <= 1.0
    ensures cap > 0.0 && diet == 0.0 ==> r == 1.0
    ensures cap > 0.0 && diet >= cap ==> r == 0.0
  {
    if cap <= 0.0 then 0.0
    else
      DivSign(diet, cap);
      assert diet >= cap ==> diet / cap >= 1.0 by {
        if diet >= cap {
          AverageBetween(diet, cap, 1.0, diet / cap);
          DivMul(diet, cap);
          MulMonotone(cap, 1.0, diet / cap);
        }
      }
      var eff := 1.0 - diet / cap;
      if eff < 0.0 then 0.0 else eff
  }

  lemma GrazingEfficiencyMonotone(d1: real, d2: real, cap: real)
    requires d1 <= d2
    ensures GrazingEfficiency(d2, cap) <= GrazingEfficiency(d1, cap)
  {
    if cap > 0.0 {
      DivMonotone(d1, d2, cap);
    }
  }

  /** HuntingEfficiency: 0 below the floor, ramping linearly to 1 at diet 1; 1 when the floor is at least 1. */
  function HuntingEfficiency(diet: real, floor: real): (r: real)
    ensures diet < floor ==> r == 0.0
    ensures diet >= floor && floor >= 1.0 ==> r == 1.0
    ensures floor <= diet <= 1.0 ==> 0.0 <= r <= 1.0
    ensures diet == 1.0 && floor < 1.0 ==> r == 1.0
  {
    if diet < floor then 0.0
    else
      var range := 1.0 - floor;
      if range <= 0.0 then 1.0
      else
        assert diet <= 1.0 ==> 0.0 <= (diet - floor) / range <= 1.0 by {
          if diet <= 1.0 {
            AverageBetween(diet - floor, range, 0.0, 1.0);
          }
        }
        (diet - floor) / range
  }

  lemma HuntingEfficiencyMonotone(d1: real, d2: real, floor: real)
    requires d1 <= d2
    ensures HuntingEfficiency(d1, floor) <= HuntingEfficiency(d2, floor)
  {
    if d1 >= floor && floor < 1.0 {
      DivMonotone(d1 - floor, d2 - floor, 1.0 - floor);
    } else if d1 < floor {
      if d2 >= floor && floor < 1.0 {
        DivNonNegative(d2 - floor, 1.0 - floor);
      }
    }
  }

  /** Foraging efficiency: 1 - 2 |ratio - peak| with the speed ratio capped at 1, floored at 0. */
  function ForageEfficiency(speed: real, maxSpeed: real, peak: real): (r: real)
    requires maxSpeed > 0.0
    ensures r >= 0.0
    ensures 0.0 <= peak ==> r <= 1.0
    ensures 0.0 <= peak <= 1.0 && speed == peak * maxSpeed ==> r == 1.0
    ensures Abs(Min(speed / maxSpeed, 1.0) - peak) >= 0.5 ==> r == 0.0
    ensures Abs(Min(speed / maxSpeed, 1.0) - peak) < 0.5 ==> r > 0.0
  {
    var ratio := speed / maxSpeed;
    var capped := if ratio > 1.0 then 1.0 else ratio;
    assert capped == Min(ratio, 1.0);
    assert speed == peak * maxSpeed ==> ratio == peak by {
      if speed == peak * maxSpeed {
        MulDivCancel(peak, maxSpeed);
      }
    }
    var eff := 1.0 - 2.0 * Abs(capped - peak);
    if eff < 0.0 then 0.0 else eff
  }

  /**
   * Efficiency peaks at the grazing speed: it rises up to peak * maxSpeed
   * and falls beyond it, so no speed forages better than the peak.
   */
  lemma ForageEfficiencyUnimodal(s1: real, s2: real, maxSpeed: real, peak: real)
    requires maxSpeed > 0.0 && 0.0 <= peak <= 1.0 && s1 <= s2
    ensures s2 <= peak * maxSpeed ==> ForageEfficiency(s1, maxSpeed, peak) <= ForageEfficiency(s2, maxSpeed, peak)
    ensures peak * maxSpeed <= s1 ==> ForageEfficiency(s2, maxSpeed, peak) <= ForageEfficiency(s1, maxSpeed, peak)
    ensures ForageEfficiency(s1, maxSpeed, peak) <= ForageEfficiency(peak * maxSpeed, maxSpeed, peak)
  {
    DivMonotone(s1, s2, maxSpeed);
    if s2 <= peak * maxSpeed {
      DivMonotone(s2, peak * maxSpeed, maxSpeed);
      MulDivCancel(peak, maxSpeed);
    }
    if peak * maxSpeed <= s1 {
      DivMonotone(peak * maxSpeed, s1, maxSpeed);
      MulDivCancel(peak, maxSpeed);
    }
  }

  /**
   * UpdatePreyForage: the living gain resource * rate * efficiency * dt,
   * capped at Max. The speed is the caller's square root of the squared
   * velocity.
   */
  function UpdatePreyForage(e: EnergyState, speed: real, maxSpeed: real, resourceHere: real, dt: real, p: EnergyParams): (r: EnergyState)
    requires maxSpeed > 0.0
    ensures !e.alive ==> r == e
    ensures e.alive ==> r.value == Min(e.value + resourceHere * p.forageRate * ForageEfficiency(speed, maxSpeed, p.grazingPeak) * dt, e.max)
    ensures r.max == e.max && r.alive == e.alive && r.age == e.age
    ensures e.alive ==> r.value <= e.max
  {
    if !e.alive then e
    else
      var gain := resourceHere * p.forageRate * ForageEfficiency(speed, maxSpeed, p.grazingPeak) * dt;
      var v := e.value + gain;
      e.(value := if v > e.max then e.max else v)
  }

  /** The split of one predation event. */
  datatype Transfer = Transfer(removed: real, toGainer: real, toDet: real, toHeat: real, overflow: real)

  datatype TransferResult = TransferResult(t: Transfer, predator: EnergyState, prey: EnergyState)

  /**
   * TransferEnergy: take min(amount, prey energy) from the prey; the
   * predator gains eta * removed * (1 - detFrac), detFrac * removed becomes
   * detritus, the rest heat; predator energy above Max overflows; the prey
   * dies at 0.
   */
  function TransferEnergy(predator: EnergyState, prey: EnergyState, amount: real, p: EnergyParams): (r: TransferResult)
    ensures !predator.alive || !prey.alive ==> r == TransferResult(Transfer(0.0, 0.0, 0.0, 0.0, 0.0), predator, prey)
    ensures predator.alive && prey.alive ==> r.t.removed == Min(amount, prey.value)
    ensures r.t.removed <= amount || r.t.removed == 0.0
    ensures predator.alive && prey.alive ==>
      predator.value + prey.value == r.predator.value + r.prey.value + r.t.toDet + r.t.toHeat + r.t.overflow
    ensures r.t.removed == r.t.toGainer + r.t.toDet + r.t.toHeat
    ensures r.t.overflow >= 0.0
    ensures predator.alive && prey.alive && predator.value <= predator.max ==> r.predator.value <= predator.max
    ensures predator.alive && prey.alive ==> r.predator.value == Min(predator.value + r.t.toGainer, predator.max)
    ensures predator.alive && prey.alive ==> (r.prey.alive <==> prey.value - r.t.removed > 0.0)
    ensures !r.prey.alive && prey.alive && predator.alive ==> r.prey.value == 0.0
    ensures r.predator.max == predator.max && r.predator.alive == predator.alive
  {
    if !predator.alive || !prey.alive then TransferResult(Transfer(0.0, 0.0, 0.0, 0.0, 0.0), predator, prey)
    else
      var removed := if prey.value < amount then prey.value else amount;
      var toGainer := p.transferEfficiency * removed * (1.0 - p.detritusFraction);
      var toDet := p.detritusFraction * removed;
      var toHeat := removed - toGainer - toDet;
      var preyValue := prey.value - removed;
      var predValue := predator.value + toGainer;
      var overflow := if predValue > predator.max then predValue - predator.max else 0.0;
      var predator2 := predator.(value := if predValue > predator.max then predator.max else predValue);
      var prey2 := if preyValue <= 0.0 then prey.(value := 0.0, alive := false) else prey.(value := preyValue);
      TransferResult(Transfer(removed, toGainer, toDet, toHeat, overflow), predator2, prey2)
  }

  /** With efficiency and detritus fraction in [0, 1] and a non-negative take, every flow is non-negative. */
  lemma TransferFlowsNonNegative(predator: EnergyState, prey: EnergyState, amount: real, p: EnergyParams)
    requires 0.0 <= p.transferEfficiency <= 1.0 && 0.0 <= p.detritusFraction <= 1.0
    requires amount >= 0.0 && prey.value >= 0.0
    ensures var t := TransferEnergy(predator, prey, amount, p).t;
      t.removed >= 0.0 && t.toGainer >= 0.0 && t.toDet >= 0.0 && t.toHeat >= 0.0
  {
    if predator.alive && prey.alive {
      var removed := if prey.value < amount then prey.value else amount;
      SplitFlows(p.transferEfficiency, p.detritusFraction, removed);
    }
  }

  /** Splitting a non-negative take by an efficiency and a detritus fraction in [0, 1] leaves three non-negative parts. */
  lemma SplitFlows(efficiency: real, detritus: real, removed: real)
    requires 0.0 <= efficiency <= 1.0 && 0.0 <= detritus <= 1.0 && removed >= 0.0
    ensures efficiency * removed * (1.0 - detritus) >= 0.0 && detritus * removed >= 0.0
    ensures removed - efficiency * removed * (1.0 - detritus) - detritus * removed >= 0.0
  {
    var keep := removed * (1.0 - detritus);
    ProductNonNegative(removed, 1.0 - detritus);
    ProductNonNegative(efficiency, keep);
    MulMonotone(keep, efficiency, 1.0);
    ProductNonNegative(detritus, removed);
    assert efficiency * removed * (1.0 - detritus) == efficiency * keep;
    assert keep * efficiency == efficiency * keep;
    assert keep + detritus * removed == removed;
  }
}
