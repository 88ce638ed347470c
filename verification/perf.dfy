/**
 * Per-tick performance sampling (telemetry/perf.go): a ring buffer of the
 * last windowSize tick samples, phase timers, and the window aggregate.
 * Clock readings are parameters (`now`, in nanoseconds); durations are
 * integers of nanoseconds as time.Duration is.
 */
module Perf {
  import opened Wrappers
  import opened SimMath

  const DefaultWindow: int := 60
  /** time.Second in nanoseconds. */
  const Second: int := 1000000000

  datatype Sample = Sample(tickDuration: int, phases: map<string, int>)

  const EmptySample: Sample := Sample(0, map[])

  /** lastFrameTime is None while it is Go's zero time. */
  datatype PerfCollector = PerfCollector(
    windowSize: int, samples: seq<Sample>, writeIndex: int, sampleCount: int,
    currentPhases: map<string, int>, tickStart: int, phaseStart: int, lastPhase: string,
    lastFrameTime: Option<int>, frameDuration: int)

  predicate Valid(p: PerfCollector)
  {
    p.windowSize >= 1 && |p.samples| == p.windowSize &&
    0 <= p.writeIndex < p.windowSize && 0 <= p.sampleCount <= p.windowSize
  }

  /** NewPerfCollector: a window below one sample becomes 60 samples. */
  function NewPerfCollector(windowSize: int): (p: PerfCollector)
    ensures Valid(p)
    ensures p.windowSize == if windowSize < 1 then DefaultWindow else windowSize
    ensures p.writeIndex == 0 && p.sampleCount == 0 && p.currentPhases == map[]
    ensures p.lastFrameTime.None? && p.frameDuration == 0
  {
    var ws := if windowSize < 1 then DefaultWindow else windowSize;
    PerfCollector(ws, seq(ws, _ => EmptySample), 0, 0, map[], 0, 0, "", None, 0)
  }

  /** StartTick: note the start time and forget the previous tick's phases. */
  function StartTick(p: PerfCollector, now: int): (r: PerfCollector)
    ensures r.tickStart == now && r.currentPhases == map[] && r.lastPhase == ""
    ensures r.samples == p.samples && r.writeIndex == p.writeIndex && r.sampleCount == p.sampleCount
  {
    p.(tickStart := now, currentPhases := map[], lastPhase := "")
  }

  /** phases[phase] += d, a missing phase counting as zero. */
  function Accumulate(phases: map<string, int>, phase: string, d: int): (r: map<string, int>)
    ensures r.Keys == phases.Keys + {phase}
    ensures r[phase] == (if phase in phases then phases[phase] else 0) + d
    ensures forall k :: k in phases && k != phase ==> r[k] == phases[k]
  {
    phases[phase := (if phase in phases then phases[phase] else 0) + d]
  }

  /** The phase map once the running phase (if any) is charged up to now. */
  function ClosePhase(p: PerfCollector, now: int): (r: map<string, int>)
    ensures p.lastPhase == "" ==> r == p.currentPhases
    ensures p.lastPhase != "" ==> r == Accumulate(p.currentPhases, p.lastPhase, now - p.phaseStart)
  {
    if p.lastPhase != "" then Accumulate(p.currentPhases, p.lastPhase, now - p.phaseStart)
    else p.currentPhases
  }

  /** StartPhase: charge the running phase up to now and start the next one. */
  function StartPhase(p: PerfCollector, phase: string, now: int): (r: PerfCollector)
    ensures r.lastPhase == phase && r.phaseStart == now
    ensures p.lastPhase != "" ==> r.currentPhases.Keys == p.currentPhases.Keys + {p.lastPhase}
    ensures p.lastPhase != "" ==>
      r.currentPhases[p.lastPhase] == (if p.lastPhase in p.currentPhases then p.currentPhases[p.lastPhase] else 0) + (now - p.phaseStart)
    ensures p.lastPhase == "" ==> r.currentPhases == p.currentPhases
    ensures forall k :: k in p.currentPhases && k != p.lastPhase ==> k in r.currentPhases && r.currentPhases[k] == p.currentPhases[k]
    ensures r.samples == p.samples && r.writeIndex == p.writeIndex && r.sampleCount == p.sampleCount
  {
    p.(currentPhases := ClosePhase(p, now), phaseStart := now, lastPhase := phase)
  }

  /** The sample EndTick records at time now. */
  function TickSample(p: PerfCollector, now: int): Sample
  {
    Sample(now - p.tickStart, ClosePhase(p, now))
  }

  /**
   * EndTick: store the sample at the write index, advance it modulo the
   * window, and count samples up to the window size.
   */
  function EndTick(p: PerfCollector, now: int): (r: PerfCollector)
    requires Valid(p)
    ensures Valid(r)
    ensures r.samples == p.samples[p.writeIndex := TickSample(p, now)]
    ensures r.samples[p.writeIndex].tickDuration == now - p.tickStart
    ensures r.writeIndex == (p.writeIndex + 1) % p.windowSize
    ensures r.sampleCount == if p.sampleCount < p.windowSize then p.sampleCount + 1 else p.windowSize
    ensures r.windowSize == p.windowSize && r.frameDuration == p.frameDuration
  {
    p.(samples := p.samples[p.writeIndex := TickSample(p, now)],
       writeIndex := (p.writeIndex + 1) % p.windowSize,
       sampleCount := if p.sampleCount < p.windowSize then p.sampleCount + 1 else p.sampleCount,
       currentPhases := ClosePhase(p, now))
  }

  /** RecordFrame: the gap since the previous frame, none before the first one. */
  function RecordFrame(p: PerfCollector, now: int): (r: PerfCollector)
    ensures r.lastFrameTime == Some(now)
    ensures p.lastFrameTime.None? ==> r.frameDuration == p.frameDuration
    ensures p.lastFrameTime.Some? ==> r.frameDuration + p.lastFrameTime.value == now
  {
    if p.lastFrameTime.Some? then p.(frameDuration := now - p.lastFrameTime.value, lastFrameTime := Some(now))
    else p.(lastFrameTime := Some(now))
  }

  // ---------------------------------------------------------------------
  // The ring buffer against the log of every tick sample
  // ---------------------------------------------------------------------

  /**
   * The buffer holds the log of every sample: the write index is the log
   * length modulo the window, the count is the log length capped at the
   * window, and each of the last windowSize samples sits in its slot.
   */
  predicate Holds(p: PerfCollector, log: seq<Sample>)
    requires Valid(p)
  {
    p.writeIndex == |log| % p.windowSize &&
    p.sampleCount == (if |log| < p.windowSize then |log| else p.windowSize) &&
    forall j :: 0 <= j < |log| && |log| - p.windowSize <= j ==> p.samples[j % p.windowSize] == log[j]
  }

  lemma NewPerfCollectorHoldsEmptyLog(windowSize: int)
    ensures Holds(NewPerfCollector(windowSize), [])
  {
  }

  lemma EndTickHolds(p: PerfCollector, log: seq<Sample>, now: int)
    requires Valid(p) && Holds(p, log)
    ensures Holds(EndTick(p, now), log + [TickSample(p, now)])
  {
    ModSucc(|log|, p.windowSize);
    RingSlots(p.samples, log, TickSample(p, now));
  }

  /**
   * The samples Stats reads (slots 0 .. sampleCount) are the whole log
   * before the buffer wraps, and afterwards the last windowSize samples.
   */
  lemma WindowIsRecentSamples(p: PerfCollector, log: seq<Sample>)
    requires Valid(p) && Holds(p, log)
    ensures |log| < p.windowSize ==> p.samples[..p.sampleCount] == log
    ensures |log| >= p.windowSize ==>
      (p.sampleCount == p.windowSize &&
       forall j :: |log| - p.windowSize <= j < |log| ==> p.samples[j % p.windowSize] == log[j])
  {
    if |log| < p.windowSize {
      forall j | 0 <= j < |log|
        ensures p.samples[..p.sampleCount][j] == log[j]
      {
        ModUnique(j, p.windowSize, 0, j);
      }
    }
  }

  // ---------------------------------------------------------------------
  // Aggregation
  // ---------------------------------------------------------------------

  function TickTotal(ss: seq<Sample>): int
  {
    if |ss| == 0 then 0 else TickTotal(ss[..|ss| - 1]) + ss[|ss| - 1].tickDuration
  }

  /** The smallest tick duration: the first sample, then any strictly smaller one. */
  function MinTick(ss: seq<Sample>): (r: int)
    requires |ss| > 0
    ensures forall i :: 0 <= i < |ss| ==> r <= ss[i].tickDuration
    ensures exists i :: 0 <= i < |ss| && r == ss[i].tickDuration
  {
    if |ss| == 1 then ss[0].tickDuration
    else
      var m := MinTick(ss[..|ss| - 1]);
      var last := ss[|ss| - 1].tickDuration;
      assert exists i :: 0 <= i < |ss| - 1 && m == ss[i].tickDuration by {
        var i :| 0 <= i < |ss[..|ss| - 1]| && m == ss[..|ss| - 1][i].tickDuration;
        assert ss[..|ss| - 1][i] == ss[i];
      }
      assert forall i :: 0 <= i < |ss| - 1 ==> ss[..|ss| - 1][i] == ss[i];
      if last < m then last else m
  }

  /** The largest tick duration, starting from zero as the source's accumulator does. */
  function MaxTick(ss: seq<Sample>): (r: int)
    ensures r >= 0
    ensures forall i :: 0 <= i < |ss| ==> ss[i].tickDuration <= r
    ensures r == 0 || exists i :: 0 <= i < |ss| && r == ss[i].tickDuration
  {
    if |ss| == 0 then 0
    else
      var m := MaxTick(ss[..|ss| - 1]);
      var last := ss[|ss| - 1].tickDuration;
      assert m == 0 || exists i :: 0 <= i < |ss| - 1 && m == ss[i].tickDuration by {
        if m != 0 {
          var i :| 0 <= i < |ss[..|ss| - 1]| && m == ss[..|ss| - 1][i].tickDuration;
          assert ss[..|ss| - 1][i] == ss[i];
        }
      }
      assert forall i :: 0 <= i < |ss| - 1 ==> ss[..|ss| - 1][i] == ss[i];
      if last > m then last else m
  }

  /** With every duration in [lo, hi], the total lies in [n * lo, n * hi]. */
  lemma {:induction false} TickTotalBetween(ss: seq<Sample>, lo: int, hi: int)
    requires forall i :: 0 <= i < |ss| ==> lo <= ss[i].tickDuration <= hi
    ensures lo * |ss| <= TickTotal(ss) <= hi * |ss|
  {
    if |ss| > 0 {
      var init := ss[..|ss| - 1];
      assert forall i :: 0 <= i < |init| ==> init[i] == ss[i];
      TickTotalBetween(init, lo, hi);
      assert lo * |ss| == lo * |init| + lo;
      assert hi * |ss| == hi * |init| + hi;
    }
  }

  /** Every phase any sample reports. */
  function PhaseKeys(ss: seq<Sample>): (r: set<string>)
    ensures forall i, ph :: 0 <= i < |ss| && ph in ss[i].phases ==> ph in r
    ensures forall ph :: ph in r ==> exists i :: 0 <= i < |ss| && ph in ss[i].phases
  {
    set i, ph | 0 <= i < |ss| && ph in ss[i].phases :: ph
  }

  /** A phase's total over the samples, a sample without it contributing zero. */
  function PhaseTotal(ss: seq<Sample>, ph: string): int
  {
    if |ss| == 0 then 0
    else PhaseTotal(ss[..|ss| - 1], ph) + (if ph in ss[|ss| - 1].phases then ss[|ss| - 1].phases[ph] else 0)
  }

  /** A rate per second for a positive duration, else 0. */
  function PerSecond(d: int): (r: real)
    ensures d <= 0 ==> r == 0.0
    ensures d > 0 ==> r * d as real == Second as real && r > 0.0
  {
    if d > 0 then
      DivMul(Second as real, d as real);
      Second as real / d as real
    else 0.0
  }

  datatype PerfStats = PerfStats(
    avgTick: int, minTick: int, maxTick: int,
    phaseAvg: map<string, int>, phasePct: map<string, real>,
    ticksPerSecond: real, frameDuration: int, fps: real)

  /**
   * The aggregate over a window of samples: the frame rate always; with no
   * samples, zero durations and empty maps; otherwise the truncated
   * average, the extremes (the maximum starting from zero), per-phase
   * truncated averages, and each phase as a percentage of the average tick
   * when that is positive.
   */
  function StatsOf(window: seq<Sample>, frameDuration: int): (r: PerfStats)
    ensures r.frameDuration == frameDuration && r.fps == PerSecond(frameDuration)
    ensures |window| == 0 ==>
      r.avgTick == 0 && r.minTick == 0 && r.maxTick == 0 && r.phaseAvg == map[] && r.phasePct == map[] && r.ticksPerSecond == 0.0
    ensures |window| > 0 ==> r.minTick <= r.avgTick <= r.maxTick
    ensures forall i :: 0 <= i < |window| ==> r.minTick <= window[i].tickDuration <= r.maxTick
    ensures |window| > 0 ==> exists i :: 0 <= i < |window| && r.minTick == window[i].tickDuration
    ensures r.maxTick == 0 || exists i :: 0 <= i < |window| && r.maxTick == window[i].tickDuration
    ensures |window| > 0 ==> r.avgTick == GoDiv(TickTotal(window), |window|)
    ensures r.phaseAvg.Keys == PhaseKeys(window)
    ensures forall ph :: ph in r.phaseAvg ==> r.phaseAvg[ph] == GoDiv(PhaseTotal(window, ph), |window|)
    ensures r.phasePct == Percentages(r.phaseAvg, r.avgTick)
    ensures r.ticksPerSecond == PerSecond(r.avgTick)
  {
    var fps := PerSecond(frameDuration);
    var n := |window|;
    if n == 0 then PerfStats(0, 0, 0, map[], map[], 0.0, frameDuration, fps)
    else
      var total := TickTotal(window);
      var minTick := MinTick(window);
      var maxTick := MaxTick(window);
      TickTotalBetween(window, minTick, maxTick);
      GoDivBetween(total, n, minTick, maxTick);
      var avgTick := GoDiv(total, n);
      var keys := PhaseKeys(window);
      var phaseAvg := map ph | ph in keys :: GoDiv(PhaseTotal(window, ph), n);
      var phasePct := Percentages(phaseAvg, avgTick);
      PerfStats(avgTick, minTick, maxTick, phaseAvg, phasePct, PerSecond(avgTick), frameDuration, fps)
  }

  /** Each phase average as a percentage of the average tick; none unless that is positive. */
  function Percentages(phaseAvg: map<string, int>, avgTick: int): (r: map<string, real>)
    ensures r.Keys == if avgTick > 0 then phaseAvg.Keys else {}
    ensures forall ph :: ph in r ==> r[ph] * avgTick as real == phaseAvg[ph] as real * 100.0
  {
    if avgTick > 0 then
      var r := map ph | ph in phaseAvg :: phaseAvg[ph] as real / avgTick as real * 100.0;
      assert forall ph :: ph in r ==> r[ph] * avgTick as real == phaseAvg[ph] as real * 100.0 by {
        forall ph | ph in r
          ensures r[ph] * avgTick as real == phaseAvg[ph] as real * 100.0
        {
          PercentOf(phaseAvg[ph] as real, avgTick as real);
        }
      }
      r
    else map[]
  }

  lemma PercentOf(part: real, whole: real)
    requires whole > 0.0
    ensures part / whole * 100.0 * whole == part * 100.0
  {
    DivMul(part, whole);
    var q := part / whole;
    assert q * 100.0 * whole == (whole * q) * 100.0;
  }

  /** The loop over the samples that accumulates the total and the extremes. */
  method ScanTicks(ss: seq<Sample>) returns (total: int, minTick: int, maxTick: int)
    requires |ss| > 0
    ensures total == TickTotal(ss) && minTick == MinTick(ss) && maxTick == MaxTick(ss)
  {
    total, minTick, maxTick := 0, 0, 0;
    var i := 0;
    while i < |ss|
      invariant 0 <= i <= |ss|
      invariant total == TickTotal(ss[..i])
      invariant i > 0 ==> minTick == MinTick(ss[..i])
      invariant maxTick == MaxTick(ss[..i])
    {
      var d := ss[i].tickDuration;
      assert ss[..i + 1][..i] == ss[..i];
      total := total + d;
      if i == 0 || d < minTick {
        minTick := d;
      }
      if d > maxTick {
        maxTick := d;
      }
      i := i + 1;
    }
    assert ss[..i] == ss;
  }

  /** Stats: the aggregate over the first sampleCount slots of the buffer. */
  method Stats(p: PerfCollector) returns (r: PerfStats)
    requires Valid(p)
    ensures r == StatsOf(p.samples[..p.sampleCount], p.frameDuration)
  {
    var fps := PerSecond(p.frameDuration);
    var n := p.sampleCount;
    var window := p.samples[..n];
    if n == 0 {
      return PerfStats(0, 0, 0, map[], map[], 0.0, p.frameDuration, fps);
    }
    var total, minTick, maxTick := ScanTicks(window);
    var avgTick := GoDiv(total, n);
    var keys := PhaseKeys(window);
    var phaseAvg := map ph | ph in keys :: GoDiv(PhaseTotal(window, ph), n);
    r := PerfStats(avgTick, minTick, maxTick, phaseAvg, Percentages(phaseAvg, avgTick), PerSecond(avgTick), p.frameDuration, fps);
  }
}
