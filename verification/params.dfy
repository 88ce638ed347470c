/**
 * The optimizer's parameter space (cmd/optimize/params.go): a table of
 * bounded parameters, the maps between raw values and the unit cube, the
 * clamp into bounds, and how a vector is written into the configuration.
 */
module OptParams {
  import opened SimMath

  /** One optimizable parameter: display name, config path, bounds and default. */
  datatype ParamSpec = ParamSpec(name: string, path: string, lo: real, hi: real, default: real)

  /** NewParamVector: the standard table of 21 parameters, in vector order. */
  const Specs: seq<ParamSpec> := [
    ParamSpec("base_cost", "energy.base_cost", 0.003, 0.015, 0.007),
    ParamSpec("move_cost", "energy.move_cost", 0.02, 0.08, 0.035),
    ParamSpec("accel_cost", "energy.accel_cost", 0.005, 0.025, 0.012),
    ParamSpec("feeding_rate", "energy.feeding_rate", 0.03, 0.12, 0.06),
    ParamSpec("feeding_efficiency", "energy.feeding_efficiency", 0.6, 0.95, 0.80),
    ParamSpec("cooldown_factor", "energy.cooldown_factor", 0.5, 3.0, 1.5),
    ParamSpec("pred_repro_thresh", "reproduction.pred_threshold", 0.5, 0.95, 0.85),
    ParamSpec("prey_cooldown", "reproduction.prey_cooldown", 4.0, 20.0, 8.0),
    ParamSpec("pred_cooldown", "reproduction.pred_cooldown", 6.0, 20.0, 12.0),
    ParamSpec("parent_energy_split", "reproduction.parent_energy_split", 0.4, 0.7, 0.55),
    ParamSpec("spawn_offset", "reproduction.spawn_offset", 5.0, 30.0, 15.0),
    ParamSpec("heading_jitter", "reproduction.heading_jitter", 0.0, 1.0, 0.25),
    ParamSpec("pred_density_k", "reproduction.pred_density_k", 10.0, 600.0, 0.0),
    ParamSpec("newborn_hunt_cooldown", "reproduction.newborn_hunt_cooldown", 0.5, 5.0, 2.0),
    ParamSpec("refugia_strength", "refugia.strength", 0.3, 0.8, 0.5),
    ParamSpec("carcass_fraction", "detritus.carcass_fraction", 0.30, 0.90, 0.70),
    ParamSpec("detritus_decay_rate", "detritus.decay_rate", 0.01, 0.20, 0.05),
    ParamSpec("detritus_decay_eff", "detritus.decay_efficiency", 0.30, 0.80, 0.50),
    ParamSpec("grazer_metabolic_rate", "archetypes[0].metabolic_rate", 0.6, 1.5, 1.0),
    ParamSpec("hunter_metabolic_rate", "archetypes[1].metabolic_rate", 0.4, 1.2, 0.75),
    ParamSpec("prey_density_k", "reproduction.prey_density_k", 50.0, 500.0, 200.0)
  ]

  /** Index of pred_density_k, the one parameter whose default lies outside its bounds. */
  const PredDensityIndex: nat := 12

  /** Every spec of the table has a non-empty range, and there are Dim = 21 of them. */
  lemma SpecsWellFormed()
    ensures |Specs| == 21
    ensures forall i :: 0 <= i < |Specs| ==> Specs[i].lo < Specs[i].hi
    ensures Specs[PredDensityIndex].name == "pred_density_k"
    ensures Specs[PredDensityIndex].default < Specs[PredDensityIndex].lo
    ensures forall i :: 0 <= i < |Specs| && i != PredDensityIndex ==>
      Specs[i].lo <= Specs[i].default <= Specs[i].hi
  {
  }

  predicate PositiveRanges(specs: seq<ParamSpec>)
  {
    forall i :: 0 <= i < |specs| ==> specs[i].lo < specs[i].hi
  }

  /** DefaultVector: one entry per spec, each the spec's default. */
  function DefaultVector(specs: seq<ParamSpec>): (v: seq<real>)
    ensures |v| == |specs|
    ensures forall i :: 0 <= i < |specs| ==> v[i] == specs[i].default
  {
    seq(|specs|, i requires 0 <= i < |specs| => specs[i].default)
  }

  // ---------------------------------------------------------------------
  // One coordinate
  // ---------------------------------------------------------------------

  function NormalizeOne(x: real, s: ParamSpec): real
    requires s.lo != s.hi
  {
    (x - s.lo) / (s.hi - s.lo)
  }

  function DenormalizeOne(n: real, s: ParamSpec): real
  {
    s.lo + n * (s.hi - s.lo)
  }

  /** The clamp tests the lower bound first and then the upper one, each on the updated value. */
  function ClampOne(x: real, s: ParamSpec): real
  {
    var low := if x < s.lo then s.lo else x;
    if low > s.hi then s.hi else low
  }

  lemma DenormalizeNormalizeOne(x: real, s: ParamSpec)
    requires s.lo != s.hi
    ensures DenormalizeOne(NormalizeOne(x, s), s) == x
  {
    DivMul(x - s.lo, s.hi - s.lo);
  }

  lemma NormalizeDenormalizeOne(n: real, s: ParamSpec)
    requires s.lo != s.hi
    ensures NormalizeOne(DenormalizeOne(n, s), s) == n
  {
  }

  lemma NormalizeOneInUnit(x: real, s: ParamSpec)
    requires s.lo < s.hi && s.lo <= x <= s.hi
    ensures 0.0 <= NormalizeOne(x, s) <= 1.0
    ensures x == s.lo ==> NormalizeOne(x, s) == 0.0
    ensures x == s.hi ==> NormalizeOne(x, s) == 1.0
  {
    AverageBetween(x - s.lo, s.hi - s.lo, 0.0, 1.0);
  }

  // ---------------------------------------------------------------------
  // Whole vectors
  // ---------------------------------------------------------------------

  /**
   * Normalize: each raw value mapped so that Min goes to 0 and Max to 1.
   * The raw vector must cover every spec (the source indexes it by spec).
   */
  function Normalize(specs: seq<ParamSpec>, raw: seq<real>): (n: seq<real>)
    requires |raw| >= |specs|
    requires forall i :: 0 <= i < |specs| ==> specs[i].lo != specs[i].hi
    ensures |n| == |specs|
    ensures forall i :: 0 <= i < |specs| && specs[i].lo < specs[i].hi && specs[i].lo <= raw[i] <= specs[i].hi ==>
      0.0 <= n[i] <= 1.0
    ensures forall i :: 0 <= i < |specs| && specs[i].lo < specs[i].hi && raw[i] == specs[i].lo ==> n[i] == 0.0
    ensures forall i :: 0 <= i < |specs| && specs[i].lo < specs[i].hi && raw[i] == specs[i].hi ==> n[i] == 1.0
  {
    var n := seq(|specs|, i requires 0 <= i < |specs| => NormalizeOne(raw[i], specs[i]));
    forall i | 0 <= i < |specs| && specs[i].lo < specs[i].hi && specs[i].lo <= raw[i] <= specs[i].hi
      ensures 0.0 <= n[i] <= 1.0
      ensures raw[i] == specs[i].lo ==> n[i] == 0.0
      ensures raw[i] == specs[i].hi ==> n[i] == 1.0
    {
      NormalizeOneInUnit(raw[i], specs[i]);
    }
    n
  }

  /** Denormalize: the inverse affine map, Min + n * (Max - Min). */
  function Denormalize(specs: seq<ParamSpec>, n: seq<real>): (raw: seq<real>)
    requires |n| >= |specs|
    ensures |raw| == |specs|
    ensures forall i :: 0 <= i < |specs| && n[i] == 0.0 ==> raw[i] == specs[i].lo
    ensures forall i :: 0 <= i < |specs| && n[i] == 1.0 ==> raw[i] == specs[i].hi
  {
    seq(|specs|, i requires 0 <= i < |specs| => DenormalizeOne(n[i], specs[i]))
  }

  /** Round trip: denormalising a normalised vector gives the raw vector back. */
  lemma DenormalizeNormalize(specs: seq<ParamSpec>, raw: seq<real>)
    requires |raw| == |specs|
    requires forall i :: 0 <= i < |specs| ==> specs[i].lo != specs[i].hi
    ensures Denormalize(specs, Normalize(specs, raw)) == raw
  {
    var back := Denormalize(specs, Normalize(specs, raw));
    forall i | 0 <= i < |specs|
      ensures back[i] == raw[i]
    {
      DenormalizeNormalizeOne(raw[i], specs[i]);
    }
  }

  /** The other round trip: normalising a denormalised vector gives the unit vector back. */
  lemma NormalizeDenormalize(specs: seq<ParamSpec>, n: seq<real>)
    requires |n| == |specs|
    requires forall i :: 0 <= i < |specs| ==> specs[i].lo != specs[i].hi
    ensures Normalize(specs, Denormalize(specs, n)) == n
  {
    var back := Normalize(specs, Denormalize(specs, n));
    forall i | 0 <= i < |specs|
      ensures back[i] == n[i]
    {
      NormalizeDenormalizeOne(n[i], specs[i]);
    }
  }

  /** Clamp: every value forced into its spec's [Min, Max]. */
  function Clamp(specs: seq<ParamSpec>, v: seq<real>): (c: seq<real>)
    requires |v| >= |specs|
    ensures |c| == |specs|
    ensures forall i :: 0 <= i < |specs| && specs[i].lo <= specs[i].hi ==> specs[i].lo <= c[i] <= specs[i].hi
    ensures forall i :: 0 <= i < |specs| && specs[i].lo <= v[i] <= specs[i].hi ==> c[i] == v[i]
    ensures forall i :: 0 <= i < |specs| && v[i] < specs[i].lo <= specs[i].hi ==> c[i] == specs[i].lo
    ensures forall i :: 0 <= i < |specs| && specs[i].hi < v[i] && specs[i].lo <= v[i] ==> c[i] == specs[i].hi
  {
    seq(|specs|, i requires 0 <= i < |specs| => ClampOne(v[i], specs[i]))
  }

  /** Clamping twice is clamping once. */
  lemma ClampIdempotent(specs: seq<ParamSpec>, v: seq<real>)
    requires |v| >= |specs|
    requires PositiveRanges(specs)
    ensures Clamp(specs, Clamp(specs, v)) == Clamp(specs, v)
  {
  }

  /** For a well-ordered range the clamp is the simulation's clampFloat. */
  lemma ClampAgreesWithClampFloat(specs: seq<ParamSpec>, v: seq<real>, i: int)
    requires |v| >= |specs| && 0 <= i < |specs| && specs[i].lo <= specs[i].hi
    ensures Clamp(specs, v)[i] == ClampFloat(v[i], specs[i].lo, specs[i].hi)
  {
  }

  /**
   * Clamping the default vector changes exactly one entry: pred_density_k's
   * default 0 is raised to its minimum 10.
   */
  lemma ClampedDefaults()
    ensures Clamp(Specs, DefaultVector(Specs))[PredDensityIndex] == 10.0
    ensures forall i :: 0 <= i < |Specs| && i != PredDensityIndex ==>
      Clamp(Specs, DefaultVector(Specs))[i] == Specs[i].default
  {
    SpecsWellFormed();
  }

  // ---------------------------------------------------------------------
  // Writing a vector into the configuration
  // ---------------------------------------------------------------------

  /** The part of the simulation configuration the optimizer writes. */
  datatype Config = Config(
    preyThreshold: real, maturityAge: real, cooldownJitter: real,
    maxPrey: int, maxPred: int,
    baseCost: real, moveCost: real, accelCost: real,
    feedingRate: real, feedingEfficiency: real, cooldownFactor: real,
    predThreshold: real, preyCooldown: real, predCooldown: real,
    parentEnergySplit: real, spawnOffset: real, headingJitter: real,
    predDensityK: real, newbornHuntCooldown: real,
    refugiaStrength: real,
    carcassFraction: real, decayRate: real, decayEfficiency: real,
    metabolicRates: seq<real>,
    preyDensityK: real)

  /** The 18 scalar fields that take a vector entry, in vector order (metabolic rates aside). */
  function WrittenScalars(c: Config): seq<real>
  {
    [c.baseCost, c.moveCost, c.accelCost,
     c.feedingRate, c.feedingEfficiency, c.cooldownFactor,
     c.predThreshold, c.preyCooldown, c.predCooldown,
     c.parentEnergySplit, c.spawnOffset, c.headingJitter,
     c.predDensityK, c.newbornHuntCooldown,
     c.refugiaStrength,
     c.carcassFraction, c.decayRate, c.decayEfficiency]
  }

  /** Writes an already clamped vector into the configuration, field by field. */
  function WriteVector(cfg: Config, c: seq<real>): (r: Config)
    requires |c| >= 21
    ensures r.preyThreshold == 0.50 && r.maturityAge == 2.0 && r.cooldownJitter == 3.0
    ensures r.maxPrey == 2000 && r.maxPred == 500
    ensures |r.metabolicRates| == |cfg.metabolicRates|
    ensures forall k :: 2 <= k < |cfg.metabolicRates| ==> r.metabolicRates[k] == cfg.metabolicRates[k]
    ensures WrittenScalars(r) == c[..18]
    ensures |cfg.metabolicRates| > 0 ==> r.metabolicRates[0] == c[18]
    ensures |cfg.metabolicRates| > 1 ==> r.metabolicRates[1] == c[19]
    ensures r.preyDensityK == c[20]
  {
    var rates :=
      if |cfg.metabolicRates| == 0 then cfg.metabolicRates
      else if |cfg.metabolicRates| == 1 then [c[18]]
      else [c[18], c[19]] + cfg.metabolicRates[2..];
    Config(
      0.50, 2.0, 3.0, 2000, 500,
      c[0], c[1], c[2],
      c[3], c[4], c[5],
      c[6], c[7], c[8],
      c[9], c[10], c[11],
      c[12], c[13],
      c[14],
      c[15], c[16], c[17],
      rates,
      c[20])
  }

  /** ApplyToConfig: fixes the locked values, then writes the clamped vector. */
  function ApplyToConfig(cfg: Config, values: seq<real>): (r: Config)
    requires |values| >= |Specs|
    ensures r.preyThreshold == 0.50 && r.maturityAge == 2.0 && r.cooldownJitter == 3.0
    ensures r.maxPrey == 2000 && r.maxPred == 500
    ensures |r.metabolicRates| == |cfg.metabolicRates|
    ensures forall k :: 2 <= k < |cfg.metabolicRates| ==> r.metabolicRates[k] == cfg.metabolicRates[k]
    ensures WrittenScalars(r) == Clamp(Specs, values)[..18]
    ensures |cfg.metabolicRates| > 0 ==> r.metabolicRates[0] == Clamp(Specs, values)[18]
    ensures |cfg.metabolicRates| > 1 ==> r.metabolicRates[1] == Clamp(Specs, values)[19]
    ensures r.preyDensityK == Clamp(Specs, values)[20]
  {
    WriteVector(cfg, Clamp(Specs, values))
  }

  /** Every value the optimizer writes lies within its spec's bounds, whatever vector it proposes. */
  lemma AppliedValuesInBounds(cfg: Config, values: seq<real>)
    requires |values| >= |Specs|
    ensures forall k :: 0 <= k < 18 ==>
      Specs[k].lo <= WrittenScalars(ApplyToConfig(cfg, values))[k] <= Specs[k].hi
    ensures Specs[20].lo <= ApplyToConfig(cfg, values).preyDensityK <= Specs[20].hi
  {
    SpecsWellFormed();
    var c := Clamp(Specs, values);
    ClampWithin(Specs, values);
    PrefixWithin(Specs, c, WrittenScalars(ApplyToConfig(cfg, values)), 18);
  }

  /** The two metabolic rates the optimizer writes lie within their specs' bounds. */
  lemma AppliedRatesInBounds(cfg: Config, values: seq<real>)
    requires |values| >= |Specs|
    ensures |cfg.metabolicRates| > 0 ==>
      Specs[18].lo <= ApplyToConfig(cfg, values).metabolicRates[0] <= Specs[18].hi
    ensures |cfg.metabolicRates| > 1 ==>
      Specs[19].lo <= ApplyToConfig(cfg, values).metabolicRates[1] <= Specs[19].hi
  {
    SpecsWellFormed();
    ClampWithin(Specs, values);
  }

  /** With every range well ordered, each clamped value lies in its range. */
  lemma ClampWithin(specs: seq<ParamSpec>, values: seq<real>)
    requires |values| >= |specs|
    requires forall i :: 0 <= i < |specs| ==> specs[i].lo < specs[i].hi
    ensures forall i :: 0 <= i < |specs| ==> specs[i].lo <= Clamp(specs, values)[i] <= specs[i].hi
  {
  }

  /** A prefix of a vector within its ranges is within them too. */
  lemma PrefixWithin(specs: seq<ParamSpec>, c: seq<real>, w: seq<real>, n: int)
    requires 0 <= n <= |specs| == |c| && w == c[..n]
    requires forall i :: 0 <= i < |specs| ==> specs[i].lo <= c[i] <= specs[i].hi
    ensures forall k :: 0 <= k < n ==> specs[k].lo <= w[k] <= specs[k].hi
  {
  }

  /** Applying a vector twice leaves the configuration as applying it once. */
  lemma ApplyIdempotent(cfg: Config, values: seq<real>)
    requires |values| >= |Specs|
    ensures ApplyToConfig(ApplyToConfig(cfg, values), values) == ApplyToConfig(cfg, values)
  {
  }
}
