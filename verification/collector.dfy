/**
 * The telemetry window collector (telemetry/collector.go): event counters
 * accumulated over a window of ticks and flushed into one WindowStats row.
 */
module Collector {
  import opened SimMath
  import opened TelemetryStats

  datatype Kind = Prey | Predator

  /** The events the simulation reports, one Record* call each. */
  datatype Event =
    | BiteAttempt | BiteHit | Kill | BiteBlockedByDigest | BiteMissedRefugia
    | Birth(kind: Kind) | Death(kind: Kind)

  /** The nine per-window counters. */
  datatype Counter =
    | PreyBirths | PredBirths | PreyDeaths | PredDeaths
    | BitesAttempted | BitesHit | Kills | BitesBlockedDigest | BitesMissedRefugia

  datatype Counters = Counters(
    preyBirths: int, predBirths: int, preyDeaths: int, predDeaths: int,
    bitesAttempted: int, bitesHit: int, kills: int,
    bitesBlockedDigest: int, bitesMissedRefugia: int)

  const NoCounts: Counters := Counters(0, 0, 0, 0, 0, 0, 0, 0, 0)

  function Count(c: Counters, k: Counter): int
  {
    match k
    case PreyBirths => c.preyBirths
    case PredBirths => c.predBirths
    case PreyDeaths => c.preyDeaths
    case PredDeaths => c.predDeaths
    case BitesAttempted => c.bitesAttempted
    case BitesHit => c.bitesHit
    case Kills => c.kills
    case BitesBlockedDigest => c.bitesBlockedDigest
    case BitesMissedRefugia => c.bitesMissedRefugia
  }

  /** The counter an event increments; any kind other than prey counts as predator. */
  function CounterOf(e: Event): Counter
  {
    match e
    case BiteAttempt => BitesAttempted
    case BiteHit => BitesHit
    case Kill => Kills
    case BiteBlockedByDigest => BitesBlockedDigest
    case BiteMissedRefugia => BitesMissedRefugia
    case Birth(k) => if k == Prey then PreyBirths else PredBirths
    case Death(k) => if k == Prey then PreyDeaths else PredDeaths
  }

  datatype Collector = Collector(
    windowDurationSec: real, windowDurationTicks: int, dt: real,
    windowStartTick: int, counters: Counters)

  /** NewCollector: the window length in whole ticks, at least one; counters start at zero. */
  function NewCollector(windowDurationSec: real, dt: real): (c: Collector)
    requires dt > 0.0
    ensures c.windowDurationTicks >= 1
    ensures windowDurationSec / dt >= 1.0 ==> c.windowDurationTicks as real <= windowDurationSec / dt < c.windowDurationTicks as real + 1.0
    ensures c.windowStartTick == 0 && c.counters == NoCounts
  {
    var ticks := Trunc(windowDurationSec / dt);
    Collector(windowDurationSec, if ticks < 1 then 1 else ticks, dt, 0, NoCounts)
  }

  function Bump(c: Counters, k: Counter): Counters
  {
    match k
    case PreyBirths => c.(preyBirths := c.preyBirths + 1)
    case PredBirths => c.(predBirths := c.predBirths + 1)
    case PreyDeaths => c.(preyDeaths := c.preyDeaths + 1)
    case PredDeaths => c.(predDeaths := c.predDeaths + 1)
    case BitesAttempted => c.(bitesAttempted := c.bitesAttempted + 1)
    case BitesHit => c.(bitesHit := c.bitesHit + 1)
    case Kills => c.(kills := c.kills + 1)
    case BitesBlockedDigest => c.(bitesBlockedDigest := c.bitesBlockedDigest + 1)
    case BitesMissedRefugia => c.(bitesMissedRefugia := c.bitesMissedRefugia + 1)
  }

  /** A Record* call: exactly the event's own counter goes up by one. */
  function Record(c: Collector, e: Event): (r: Collector)
    ensures forall k :: Count(r.counters, k) == Count(c.counters, k) + (if k == CounterOf(e) then 1 else 0)
    ensures r.windowStartTick == c.windowStartTick && r.windowDurationTicks == c.windowDurationTicks
    ensures r.dt == c.dt && r.windowDurationSec == c.windowDurationSec
  {
    c.(counters := Bump(c.counters, CounterOf(e)))
  }

  function RecordAll(c: Collector, es: seq<Event>): Collector
    decreases |es|
  {
    if |es| == 0 then c else RecordAll(Record(c, es[0]), es[1..])
  }

  /** How many of the events feed counter k. */
  function Occurrences(es: seq<Event>, k: Counter): nat
  {
    if |es| == 0 then 0 else (if CounterOf(es[0]) == k then 1 else 0) + Occurrences(es[1..], k)
  }

  /** Each counter ends up holding exactly the number of its own events, whatever the order. */
  lemma {:induction false} RecordAllCounts(c: Collector, es: seq<Event>)
    ensures forall k :: Count(RecordAll(c, es).counters, k) == Count(c.counters, k) + Occurrences(es, k)
    decreases |es|
  {
    if |es| > 0 {
      RecordAllCounts(Record(c, es[0]), es[1..]);
    }
  }

  /** ShouldFlush: at least a window's worth of ticks since the window started. */
  predicate ShouldFlush(c: Collector, currentTick: int)
  {
    currentTick - c.windowStartTick >= c.windowDurationTicks
  }

  /** The energy pools supplied at flush time. */
  datatype EnergyPools = EnergyPools(
    totalRes: real, totalDet: real, totalOrganisms: real, heatLossAccum: real, particleInput: real)

  /** One row of window telemetry. The diet summary is never filled in by Flush and stays zero. */
  datatype WindowStats = WindowStats(
    windowStartTick: int, windowEndTick: int, simTimeSec: real,
    preyCount: int, predCount: int,
    events: Counters,
    hitRate: real, killRate: real,
    preyEnergy: EnergyStats, predEnergy: EnergyStats,
    meanResourceAtPreyPos: real,
    totalRes: real, totalDet: real, totalOrganisms: real, inTransit: real,
    heatLossAccum: real, energyInput: real,
    diet: DietStats,
    activeClades: int)

  /** A ratio that is 0 unless the denominator is positive. */
  function Rate(num: int, den: int): (r: real)
    ensures den <= 0 ==> r == 0.0
    ensures den > 0 ==> r * den as real == num as real
    ensures den > 0 && 0 <= num <= den ==> 0.0 <= r <= 1.0
  {
    if den > 0 then
      assert 0 <= num <= den ==> 0.0 <= num as real / den as real <= 1.0 by {
        if 0 <= num <= den {
          AverageBetween(num as real, den as real, 0.0, 1.0);
        }
      }
      num as real / den as real
    else 0.0
  }

  datatype FlushResult = FlushResult(stats: WindowStats, next: Collector)

  /**
   * Flush: the window's row (counts, hit and kill rates, energy summaries,
   * the caller's pools) and a collector whose new window starts now with
   * zeroed counters.
   */
  function Flush(
    c: Collector, currentTick: int, preyCount: int, predCount: int,
    preyEnergies: seq<real>, predEnergies: seq<real>,
    meanResourceAtPrey: real, activeClades: int, pools: EnergyPools): (r: FlushResult)
    ensures r.stats.events == c.counters
    ensures r.stats.windowStartTick == c.windowStartTick && r.stats.windowEndTick == currentTick
    ensures c.counters.bitesAttempted <= 0 ==> r.stats.hitRate == 0.0
    ensures c.counters.bitesAttempted > 0 ==>
      r.stats.hitRate * c.counters.bitesAttempted as real == c.counters.bitesHit as real
    ensures c.counters.bitesHit <= 0 ==> r.stats.killRate == 0.0
    ensures c.counters.bitesHit > 0 ==> r.stats.killRate * c.counters.bitesHit as real == c.counters.kills as real
    ensures r.stats.preyEnergy == ComputeEnergyStats(preyEnergies)
    ensures r.stats.predEnergy == ComputeEnergyStats(predEnergies)
    ensures r.stats.simTimeSec == currentTick as real * c.dt
    ensures r.stats.preyCount == preyCount && r.stats.predCount == predCount
    ensures r.stats.meanResourceAtPreyPos == meanResourceAtPrey && r.stats.activeClades == activeClades
    ensures r.stats.totalRes == pools.totalRes && r.stats.totalDet == pools.totalDet
    ensures r.stats.totalOrganisms == pools.totalOrganisms && r.stats.heatLossAccum == pools.heatLossAccum
    ensures r.stats.energyInput == pools.particleInput && r.stats.inTransit == 0.0
    ensures r.stats.diet == DietStats(0.0, 0.0, 0.0, 0.0, 0.0)
    ensures r.next.counters == NoCounts && r.next.windowStartTick == currentTick
    ensures r.next.windowDurationTicks == c.windowDurationTicks && r.next.dt == c.dt
  {
    var stats := WindowStats(
      c.windowStartTick, currentTick, currentTick as real * c.dt,
      preyCount, predCount,
      c.counters,
      Rate(c.counters.bitesHit, c.counters.bitesAttempted),
      Rate(c.counters.kills, c.counters.bitesHit),
      ComputeEnergyStats(preyEnergies), ComputeEnergyStats(predEnergies),
      meanResourceAtPrey,
      pools.totalRes, pools.totalDet, pools.totalOrganisms, 0.0,
      pools.heatLossAccum, pools.particleInput,
      DietStats(0.0, 0.0, 0.0, 0.0, 0.0),
      activeClades);
    FlushResult(stats, c.(windowStartTick := currentTick, counters := NoCounts))
  }

  /**
   * After a flush at tick t the collector is not due again at t (a window
   * is at least one tick) and is due exactly from t + windowDurationTicks on.
   */
  lemma FlushRestartsWindow(
    c: Collector, t: int, preyCount: int, predCount: int,
    preyEnergies: seq<real>, predEnergies: seq<real>,
    meanResourceAtPrey: real, activeClades: int, pools: EnergyPools, later: int)
    requires c.windowDurationTicks >= 1
    ensures var n := Flush(c, t, preyCount, predCount, preyEnergies, predEnergies, meanResourceAtPrey, activeClades, pools).next;
      !ShouldFlush(n, t) && (ShouldFlush(n, later) <==> later >= t + c.windowDurationTicks)
  {
  }

  /** With no more hits than attempts and no more kills than hits, both rates are fractions. */
  lemma RatesAreFractions(c: Collector, currentTick: int, preyEnergies: seq<real>, predEnergies: seq<real>, pools: EnergyPools)
    requires 0 <= c.counters.bitesHit <= c.counters.bitesAttempted
    requires 0 <= c.counters.kills <= c.counters.bitesHit
    ensures var s := Flush(c, currentTick, 0, 0, preyEnergies, predEnergies, 0.0, 0, pools).stats;
      0.0 <= s.hitRate <= 1.0 && 0.0 <= s.killRate <= 1.0
  {
  }
}
