/**
 * Automatic bookmarks (telemetry/bookmark.go): a ring buffer of recent
 * window rows and five detectors run on each new row against that history.
 * The detector thresholds, which the source reads from the global
 * configuration, are a parameter.
 */
module Bookmark {
  import opened Wrappers
  import opened SimMath
  import opened TelemetryStats
  import opened Collector

  datatype BookmarkType = HuntBreakthrough | ForageBreakthrough | PredatorRecovery | PreyCrash | StableEcosystem

  /** A triggered bookmark; the formatted description is not modelled. */
  datatype Bookmark = Bookmark(kind: BookmarkType, tick: int)

  datatype Config = Config(
    huntMultiplier: real, huntMinKills: int,
    forageMultiplier: real, forageMinResource: real,
    recoveryMinPopulation: int, recoveryMultiplier: int, recoveryMinFinal: int,
    crashDropPercent: real, crashMinDrop: int,
    stableMinPrey: int, stableMinPred: int, stableCvThreshold: real, stableWindows: int)

  datatype Detector = Detector(
    history: seq<WindowStats>, size: int, idx: int, full: bool,
    predMin: int, preyPeak: int, stableCount: int)

  const MinHistory: int := 5

  /** The all-zero row a fresh ring buffer is filled with. */
  const ZeroRow: WindowStats := WindowStats(
    0, 0, 0.0, 0, 0, NoCounts, 0.0, 0.0,
    EnergyStats(0.0, 0.0, 0.0, 0.0), EnergyStats(0.0, 0.0, 0.0, 0.0),
    0.0, 0.0, 0.0, 0.0, 0.0, 0.0, 0.0,
    DietStats(0.0, 0.0, 0.0, 0.0, 0.0), 0)

  predicate Valid(d: Detector)
  {
    d.size >= MinHistory && |d.history| == d.size && 0 <= d.idx < d.size
  }

  /** NewBookmarkDetector: at least five slots, all counters zero. */
  function NewDetector(historySize: int): (d: Detector)
    ensures Valid(d)
    ensures d.size == if historySize < MinHistory then MinHistory else historySize
    ensures d.idx == 0 && !d.full && d.predMin == 0 && d.preyPeak == 0 && d.stableCount == 0
  {
    var size := if historySize < MinHistory then MinHistory else historySize;
    Detector(seq(size, _ => ZeroRow), size, 0, false, 0, 0, 0)
  }

  // ---------------------------------------------------------------------
  // The ring buffer
  // ---------------------------------------------------------------------

  /** addToHistory: write at idx, advance idx modulo the size, note the first wrap. */
  function AddToHistory(d: Detector, s: WindowStats): (r: Detector)
    requires Valid(d)
    ensures Valid(r)
    ensures r.history == d.history[d.idx := s]
    ensures r.idx == (d.idx + 1) % d.size
    ensures r.full == (d.full || r.idx == 0)
    ensures r.size == d.size && r.predMin == d.predMin && r.preyPeak == d.preyPeak && r.stableCount == d.stableCount
  {
    var next := (d.idx + 1) % d.size;
    d.(history := d.history[d.idx := s], idx := next, full := d.full || next == 0)
  }

  /** getHistory: the written prefix until the first wrap, then the whole buffer. */
  function GetHistory(d: Detector): (h: seq<WindowStats>)
    requires Valid(d)
    ensures |h| == if d.full then d.size else d.idx
  {
    if d.full then d.history else d.history[..d.idx]
  }

  /**
   * The ring buffer holds the log of every row ever added: idx counts the
   * log modulo the size, full says the log has reached the size, and each
   * of the last size rows sits in slot (its position mod size).
   */
  predicate Holds(d: Detector, log: seq<WindowStats>)
    requires Valid(d)
  {
    d.idx == |log| % d.size &&
    d.full == (|log| >= d.size) &&
    forall j :: 0 <= j < |log| && |log| - d.size <= j ==> d.history[j % d.size] == log[j]
  }

  lemma NewDetectorHoldsEmptyLog(historySize: int)
    ensures Holds(NewDetector(historySize), [])
  {
  }

  /** The write index and the wrapped flag advance with the length of the log. */
  lemma RingAdvance(n: int, size: int, idx: int, full: bool)
    requires n >= 0 && size > 0 && idx == n % size && full == (n >= size)
    ensures (idx + 1) % size == (n + 1) % size
    ensures (full || (idx + 1) % size == 0) == (n + 1 >= size)
  {
    ModSucc(n, size);
    if n < size {
      ModUnique(n, size, 0, n);
      if n + 1 < size {
        ModUnique(n + 1, size, 0, n + 1);
      }
    }
  }

  /** Adding a row to the buffer adds it to the log it holds. */
  lemma AddToHistoryHolds(d: Detector, log: seq<WindowStats>, s: WindowStats)
    requires Valid(d) && Holds(d, log)
    ensures Holds(AddToHistory(d, s), log + [s])
  {
    RingAdvance(|log|, d.size, d.idx, d.full);
    RingSlots(d.history, log, s);
  }

  /** Before the first wrap getHistory is exactly the log. */
  lemma HistoryBeforeWrap(d: Detector, log: seq<WindowStats>)
    requires Valid(d) && Holds(d, log) && |log| < d.size
    ensures GetHistory(d) == log
  {
    assert |log| % d.size == |log|;
    forall j | 0 <= j < |log|
      ensures GetHistory(d)[j] == log[j]
    {
      assert j % d.size == j;
    }
  }

  /** After the first wrap getHistory holds exactly the last size rows, each once, rotated. */
  lemma HistoryAfterWrap(d: Detector, log: seq<WindowStats>)
    requires Valid(d) && Holds(d, log) && |log| >= d.size
    ensures |GetHistory(d)| == d.size
    ensures forall j :: |log| - d.size <= j < |log| ==> GetHistory(d)[j % d.size] == log[j]
  {
  }

  // ---------------------------------------------------------------------
  // The detectors
  // ---------------------------------------------------------------------

  function SumKills(h: seq<WindowStats>): int
  {
    if |h| == 0 then 0 else h[0].events.kills + SumKills(h[1..])
  }

  function SumHits(h: seq<WindowStats>): int
  {
    if |h| == 0 then 0 else h[0].events.bitesHit + SumHits(h[1..])
  }

  function Resources(h: seq<WindowStats>): (r: seq<real>)
    ensures |r| == |h|
    ensures forall i :: 0 <= i < |h| ==> r[i] == h[i].meanResourceAtPreyPos
  {
    seq(|h|, i requires 0 <= i < |h| => h[i].meanResourceAtPreyPos)
  }

  /** Beating m times a mean total / n is beating m times the total once both sides are scaled by n. */
  lemma AboveScaledMean(x: real, total: real, n: real, m: real)
    requires n > 0.0
    ensures x > total / n * m <==> x * n > total * m
    ensures total / n == 0.0 <==> total == 0.0
  {
    assert total / n * m * n == total * m;
  }

  /** Kill rate above multiplier times the history's pooled kill rate, with enough kills. */
  function CheckHunt(history: seq<WindowStats>, s: WindowStats, cfg: Config): (b: Option<Bookmark>)
    ensures b.Some? ==> |history| >= 3 && s.events.kills >= cfg.huntMinKills && s.events.bitesHit != 0
    ensures b.Some? ==> b.value == Bookmark(HuntBreakthrough, s.windowEndTick)
    ensures |history| >= 3 && SumHits(history) > 0 && s.events.bitesHit != 0 ==>
      (b.Some? <==> SumKills(history) != 0 && s.events.kills >= cfg.huntMinKills &&
                    s.killRate * SumHits(history) as real > SumKills(history) as real * cfg.huntMultiplier)
  {
    if |history| < 3 then None
    else
      var totalKills := SumKills(history);
      var totalHits := SumHits(history);
      if totalHits == 0 || s.events.bitesHit == 0 then None
      else
        var avg := totalKills as real / totalHits as real;
        if avg == 0.0 then None
        else if totalHits > 0 then
          AboveScaledMean(s.killRate, totalKills as real, totalHits as real, cfg.huntMultiplier);
          if s.killRate > avg * cfg.huntMultiplier && s.events.kills >= cfg.huntMinKills then
            Some(Bookmark(HuntBreakthrough, s.windowEndTick))
          else None
        else if s.killRate > avg * cfg.huntMultiplier && s.events.kills >= cfg.huntMinKills then
          Some(Bookmark(HuntBreakthrough, s.windowEndTick))
        else None
  }

  /** Resource use above multiplier times the history's mean, and above the floor. */
  function CheckForage(history: seq<WindowStats>, s: WindowStats, cfg: Config): (b: Option<Bookmark>)
    ensures b.Some? ==> |history| >= 3 && s.meanResourceAtPreyPos > cfg.forageMinResource
    ensures b.Some? ==> b.value == Bookmark(ForageBreakthrough, s.windowEndTick)
    ensures |history| >= 3 ==>
      (b.Some? <==> Sum(Resources(history)) != 0.0 && s.meanResourceAtPreyPos > cfg.forageMinResource &&
                    s.meanResourceAtPreyPos * |history| as real > Sum(Resources(history)) * cfg.forageMultiplier)
  {
    if |history| < 3 then None
    else
      var avg := Sum(Resources(history)) / |history| as real;
      AboveScaledMean(s.meanResourceAtPreyPos, Sum(Resources(history)), |history| as real, cfg.forageMultiplier);
      if avg == 0.0 then None
      else if s.meanResourceAtPreyPos > avg * cfg.forageMultiplier && s.meanResourceAtPreyPos > cfg.forageMinResource then
        Some(Bookmark(ForageBreakthrough, s.windowEndTick))
      else None
  }

  datatype IntStep = IntStep(b: Option<Bookmark>, value: int)

  /** Predators that fell to at most MinPopulation recover to multiplier times that low; the low resets. */
  function CheckRecovery(predMin: int, s: WindowStats, cfg: Config): (r: IntStep)
    ensures r.b.Some? <==>
      (predMin != 0 && predMin <= cfg.recoveryMinPopulation &&
       s.predCount >= predMin * cfg.recoveryMultiplier && s.predCount >= cfg.recoveryMinFinal)
    ensures r.b.Some? ==> r.b.value == Bookmark(PredatorRecovery, s.windowEndTick)
    ensures r.b.Some? ==> s.predCount >= cfg.recoveryMinFinal && r.value == s.predCount
    ensures r.b.None? ==> r.value == predMin
  {
    if predMin == 0 || predMin > cfg.recoveryMinPopulation then IntStep(None, predMin)
    else
      var threshold := predMin * cfg.recoveryMultiplier;
      if s.predCount >= threshold && s.predCount >= cfg.recoveryMinFinal then
        IntStep(Some(Bookmark(PredatorRecovery, s.windowEndTick)), s.predCount)
      else IntStep(None, predMin)
  }

  /** Prey more than DropPercent and MinDrop below the recent peak is a crash; the peak resets. */
  function CheckCrash(preyPeak: int, s: WindowStats, cfg: Config): (r: IntStep)
    ensures r.b.Some? ==> preyPeak != 0 && s.preyCount < preyPeak - cfg.crashMinDrop && r.value == s.preyCount
    ensures r.b.Some? ==> r.b.value == Bookmark(PreyCrash, s.windowEndTick)
    ensures r.b.None? ==> r.value == preyPeak
    ensures preyPeak > 0 ==>
      (r.b.Some? <==> (preyPeak - s.preyCount) as real > cfg.crashDropPercent * preyPeak as real &&
                      s.preyCount < preyPeak - cfg.crashMinDrop)
  {
    if preyPeak == 0 then IntStep(None, preyPeak)
    else
      var drop := 1.0 - s.preyCount as real / preyPeak as real;
      assert preyPeak > 0 ==> (drop > cfg.crashDropPercent <==>
        (preyPeak - s.preyCount) as real > cfg.crashDropPercent * preyPeak as real) by {
        if preyPeak > 0 {
          AboveScaledMean(1.0 - cfg.crashDropPercent, s.preyCount as real, preyPeak as real, 1.0);
        }
      }
      if drop > cfg.crashDropPercent && s.preyCount < preyPeak - cfg.crashMinDrop then
        IntStep(Some(Bookmark(PreyCrash, s.windowEndTick)), s.preyCount)
      else IntStep(None, preyPeak)
  }

  function PreyCounts(h: seq<WindowStats>): (r: seq<real>)
    ensures |r| == |h|
    ensures forall i :: 0 <= i < |h| ==> r[i] == h[i].preyCount as real
  {
    seq(|h|, i requires 0 <= i < |h| => h[i].preyCount as real)
  }

  function PredCounts(h: seq<WindowStats>): (r: seq<real>)
    ensures |r| == |h|
    ensures forall i :: 0 <= i < |h| ==> r[i] == h[i].predCount as real
  {
    seq(|h|, i requires 0 <= i < |h| => h[i].predCount as real)
  }

  /** Population variance over squared mean, 0 unless the mean is positive. */
  function CvSquaredOf(counts: seq<real>): real
    requires |counts| > 0
  {
    var mean := Mean(counts);
    if mean > 0.0 then PopVariance(counts) / (mean * mean) else 0.0
  }

  /** Four rows whose prey and predator counts both have a squared cv under the threshold. */
  predicate StableRows(w: seq<WindowStats>, threshold: real)
    requires |w| > 0
  {
    CvSquaredOf(PreyCounts(w)) < threshold && CvSquaredOf(PredCounts(w)) < threshold
  }

  /**
   * The rows the stability test reads: the last four entries of getHistory.
   * Once the buffer has wrapped these are the last four physical slots,
   * not necessarily the four most recent rows.
   */
  function StableWindow(history: seq<WindowStats>): (w: seq<WindowStats>)
    requires |history| >= 4
    ensures |w| == 4
  {
    history[|history| - 4..]
  }

  /**
   * The buffer read oldest row first: once it has wrapped, the slots from
   * the write index onward come before the slots below it.
   */
  function Chronological(d: Detector): (h: seq<WindowStats>)
    requires Valid(d)
    ensures |h| == |GetHistory(d)|
    ensures !d.full ==> h == GetHistory(d)
    ensures d.full ==> forall k :: 0 <= k < d.size ==> h[k] == d.history[(d.idx + k) % d.size]
  {
    if d.full then
      var h := d.history[d.idx..] + d.history[..d.idx];
      assert forall k :: 0 <= k < d.size ==> h[k] == d.history[(d.idx + k) % d.size] by {
        forall k | 0 <= k < d.size
          ensures h[k] == d.history[(d.idx + k) % d.size]
        {
          if d.idx + k < d.size {
            ModUnique(d.idx + k, d.size, 0, d.idx + k);
          } else {
            ModUnique(d.idx + k, d.size, 1, d.idx + k - d.size);
          }
        }
      }
      h
    else GetHistory(d)
  }

  /** Read chronologically, the buffer is the most recent rows of the log, oldest first. */
  lemma ChronologicalIsRecentLog(d: Detector, log: seq<WindowStats>)
    requires Valid(d) && Holds(d, log)
    ensures |log| < d.size ==> Chronological(d) == log
    ensures |log| >= d.size ==> Chronological(d) == log[|log| - d.size..]
  {
    if |log| < d.size {
      HistoryBeforeWrap(d, log);
    } else {
      var h := Chronological(d);
      var tail := log[|log| - d.size..];
      forall k | 0 <= k < d.size
        ensures h[k] == tail[k]
      {
        ShiftSlot(|log|, d.size, d.idx, k);
      }
    }
  }

  /** Slot of the k-th oldest of the last size rows: the write index plus k, wrapped. */
  lemma ShiftSlot(n: int, size: int, idx: int, k: int)
    requires n >= size > 0 && idx == n % size && 0 <= k < size
    ensures (n - size + k) % size == (idx + k) % size
  {
    var q := n / size;
    assert n == q * size + idx;
    if idx + k < size {
      ModUnique(n - size + k, size, q - 1, idx + k);
      ModUnique(idx + k, size, 0, idx + k);
    } else {
      ModUnique(n - size + k, size, q, idx + k - size);
      ModUnique(idx + k, size, 1, idx + k - size);
    }
  }

  /** The corrected stability test reads the four most recent rows of the log. */
  lemma ChronologicalWindowIsRecent(d: Detector, log: seq<WindowStats>)
    requires Valid(d) && Holds(d, log) && |log| >= 4
    ensures StableWindow(Chronological(d)) == log[|log| - 4..]
  {
    ChronologicalIsRecentLog(d, log);
  }

  /** A window row distinguished only by its prey count. */
  function RowWithPrey(n: int): WindowStats
  {
    ZeroRow.(preyCount := n)
  }

  /**
   * The as-written read: a five-slot buffer after six rows (prey counts 0
   * to 5) holds rows 5, 1, 2, 3, 4, so the last four entries of getHistory
   * are rows 1 to 4 instead of the most recent rows 2 to 5.
   */
  lemma StableWindowNotRecent()
    ensures var log := seq(6, i => RowWithPrey(i));
      var d := Detector([RowWithPrey(5), RowWithPrey(1), RowWithPrey(2), RowWithPrey(3), RowWithPrey(4)],
                        5, 1, true, 0, 0, 0);
      Valid(d) && Holds(d, log) &&
      StableWindow(GetHistory(d))[3].preyCount == 4 && log[|log| - 4..][3].preyCount == 5
  {
    var log := seq(6, i => RowWithPrey(i));
    var d := Detector([RowWithPrey(5), RowWithPrey(1), RowWithPrey(2), RowWithPrey(3), RowWithPrey(4)],
                      5, 1, true, 0, 0, 0);
    assert forall j :: 1 <= j < 6 ==> d.history[j % 5] == log[j] by {
      assert 5 % 5 == 0;
    }
  }

  /**
   * Both populations present and both squared cvs under the threshold
   * extends the stable run; the bookmark fires when the run reaches exactly
   * StableWindows. Missing populations reset the run; short history leaves it.
   */
  function CheckStable(history: seq<WindowStats>, count: int, s: WindowStats, cfg: Config): (r: IntStep)
    ensures s.preyCount < cfg.stableMinPrey || s.predCount < cfg.stableMinPred ==> r == IntStep(None, 0)
    ensures s.preyCount >= cfg.stableMinPrey && s.predCount >= cfg.stableMinPred && |history| < 4 ==> r == IntStep(None, count)
    ensures r.value == 0 || r.value == count || r.value == count + 1
    ensures r.b.Some? <==> (|history| >= 4 && s.preyCount >= cfg.stableMinPrey && s.predCount >= cfg.stableMinPred && r.value == cfg.stableWindows)
    ensures r.b.Some? ==> r.b.value == Bookmark(StableEcosystem, s.windowEndTick)
    ensures |history| >= 4 && s.preyCount >= cfg.stableMinPrey && s.predCount >= cfg.stableMinPred ==>
      r.value == (if StableRows(history[|history| - 4..], cfg.stableCvThreshold) then count + 1 else 0)
  {
    if s.preyCount < cfg.stableMinPrey || s.predCount < cfg.stableMinPred then IntStep(None, 0)
    else if |history| < 4 then IntStep(None, count)
    else
      var w := StableWindow(history);
      var stable := CvSquaredOf(PreyCounts(w)) < cfg.stableCvThreshold && CvSquaredOf(PredCounts(w)) < cfg.stableCvThreshold;
      var next := if stable then count + 1 else 0;
      IntStep(if next == cfg.stableWindows then Some(Bookmark(StableEcosystem, s.windowEndTick)) else None, next)
  }

  function Collect(bs: seq<Option<Bookmark>>): (r: seq<Bookmark>)
    ensures |r| <= |bs|
    ensures forall b :: b in r <==> Some(b) in bs
  {
    if |bs| == 0 then []
    else
      var rest := Collect(bs[1..]);
      assert forall o :: o in bs <==> o == bs[0] || o in bs[1..];
      if bs[0].Some? then [bs[0].value] + rest else rest
  }

  datatype CheckResult = CheckResult(bookmarks: seq<Bookmark>, next: Detector)

  function KindRank(k: BookmarkType): int
  {
    match k
    case HuntBreakthrough => 0
    case ForageBreakthrough => 1
    case PredatorRecovery => 2
    case PreyCrash => 3
    case StableEcosystem => 4
  }

  /** Running the detectors: their bookmarks in detector order and the updated trackers. */
  datatype Detection = Detection(
    hunt: Option<Bookmark>, forage: Option<Bookmark>, recovery: IntStep, crash: IntStep, stable: IntStep)

  /** Each detector can only report its own kind, stamped with the window's end tick. */
  predicate Tagged(det: Detection, tick: int)
  {
    (det.hunt.Some? ==> det.hunt.value == Bookmark(HuntBreakthrough, tick)) &&
    (det.forage.Some? ==> det.forage.value == Bookmark(ForageBreakthrough, tick)) &&
    (det.recovery.b.Some? ==> det.recovery.b.value == Bookmark(PredatorRecovery, tick)) &&
    (det.crash.b.Some? ==> det.crash.b.value == Bookmark(PreyCrash, tick)) &&
    (det.stable.b.Some? ==> det.stable.b.value == Bookmark(StableEcosystem, tick))
  }

  function Detect(d: Detector, s: WindowStats, cfg: Config): (r: Detection)
    requires Valid(d)
    ensures Tagged(r, s.windowEndTick)
  {
    var history := GetHistory(d);
    Detection(
      CheckHunt(history, s, cfg), CheckForage(history, s, cfg),
      CheckRecovery(d.predMin, s, cfg), CheckCrash(d.preyPeak, s, cfg),
      CheckStable(Chronological(d), d.stableCount, s, cfg))
  }

  /** The detectors run only once the buffer holds some history. */
  predicate Active(d: Detector)
  {
    d.full || d.idx > 0
  }

  /** The bookmarks of one check, in detector order; none while the buffer is empty. */
  function Found(det: Detection, active: bool, tick: int): (r: seq<Bookmark>)
    requires Tagged(det, tick)
    ensures !active ==> r == []
    ensures forall i :: 0 <= i < |r| ==> r[i].tick == tick
    ensures forall i, j :: 0 <= i < j < |r| ==> KindRank(r[i].kind) < KindRank(r[j].kind)
    ensures Bookmark(HuntBreakthrough, tick) in r <==> active && det.hunt.Some?
    ensures Bookmark(ForageBreakthrough, tick) in r <==> active && det.forage.Some?
    ensures Bookmark(PredatorRecovery, tick) in r <==> active && det.recovery.b.Some?
    ensures Bookmark(PreyCrash, tick) in r <==> active && det.crash.b.Some?
    ensures Bookmark(StableEcosystem, tick) in r <==> active && det.stable.b.Some?
  {
    var found := if active then [det.hunt, det.forage, det.recovery.b, det.crash.b, det.stable.b] else [];
    OrderedKinds(found, tick);
    Collect(found)
  }

  /**
   * Adding the row and tracking: the predator low drops to the current
   * count (a zero low is always replaced) and the prey peak rises to it.
   */
  function Track(d: Detector, s: WindowStats, predMin: int, preyPeak: int, stableCount: int): (r: Detector)
    requires Valid(d)
    ensures Valid(r)
    ensures r.(predMin := d.predMin, preyPeak := d.preyPeak, stableCount := d.stableCount) == AddToHistory(d, s)
    ensures r.stableCount == stableCount
    ensures r.predMin <= s.predCount && (r.predMin == s.predCount || r.predMin == predMin)
    ensures predMin != 0 ==> r.predMin == (if s.predCount < predMin then s.predCount else predMin)
    ensures r.preyPeak == (if s.preyCount > preyPeak then s.preyCount else preyPeak)
  {
    var predMin2 := if s.predCount < predMin || predMin == 0 then s.predCount else predMin;
    var peak2 := if s.preyCount > preyPeak then s.preyCount else preyPeak;
    AddToHistory(d, s).(predMin := predMin2, preyPeak := peak2, stableCount := stableCount)
  }

  /**
   * Check: run the detectors (recovery resets the low, a crash resets the
   * peak, the stable run advances), then add the row and track.
   */
  function Check(d: Detector, s: WindowStats, cfg: Config): (r: CheckResult)
    requires Valid(d)
    ensures Valid(r.next)
    ensures !d.full && d.idx == 0 ==> r.bookmarks == []
    ensures forall i :: 0 <= i < |r.bookmarks| ==> r.bookmarks[i].tick == s.windowEndTick
    ensures forall i, j :: 0 <= i < j < |r.bookmarks| ==> KindRank(r.bookmarks[i].kind) < KindRank(r.bookmarks[j].kind)
    ensures Bookmark(HuntBreakthrough, s.windowEndTick) in r.bookmarks <==>
      Active(d) && CheckHunt(GetHistory(d), s, cfg).Some?
    ensures Bookmark(ForageBreakthrough, s.windowEndTick) in r.bookmarks <==>
      Active(d) && CheckForage(GetHistory(d), s, cfg).Some?
    ensures Bookmark(PredatorRecovery, s.windowEndTick) in r.bookmarks <==>
      Active(d) && CheckRecovery(d.predMin, s, cfg).b.Some?
    ensures Bookmark(PreyCrash, s.windowEndTick) in r.bookmarks <==>
      Active(d) && CheckCrash(d.preyPeak, s, cfg).b.Some?
    ensures Bookmark(StableEcosystem, s.windowEndTick) in r.bookmarks <==>
      Active(d) && CheckStable(Chronological(d), d.stableCount, s, cfg).b.Some?
    ensures r.next.(predMin := d.predMin, preyPeak := d.preyPeak, stableCount := d.stableCount) == AddToHistory(d, s)
    ensures r.next.predMin <= s.predCount && r.next.preyPeak >= s.preyCount
    ensures Bookmark(PredatorRecovery, s.windowEndTick) in r.bookmarks ==> r.next.predMin == s.predCount
    ensures Bookmark(PreyCrash, s.windowEndTick) in r.bookmarks ==> r.next.preyPeak == s.preyCount
    ensures Bookmark(PredatorRecovery, s.windowEndTick) !in r.bookmarks && d.predMin != 0 ==>
      r.next.predMin == (if s.predCount < d.predMin then s.predCount else d.predMin)
    ensures Bookmark(PreyCrash, s.windowEndTick) !in r.bookmarks ==>
      r.next.preyPeak == (if s.preyCount > d.preyPeak then s.preyCount else d.preyPeak)
  {
    var det := Detect(d, s, cfg);
    var active := Active(d);
    var next := Track(d, s,
      if active then det.recovery.value else d.predMin,
      if active then det.crash.value else d.preyPeak,
      if active then det.stable.value else d.stableCount);
    CheckResult(Found(det, active, s.windowEndTick), next)
  }

  /** Collected detector outputs keep detector order and the window's tick. */
  lemma OrderedKinds(found: seq<Option<Bookmark>>, tick: int)
    requires forall i :: 0 <= i < |found| && found[i].Some? ==> KindRank(found[i].value.kind) == i && found[i].value.tick == tick
    ensures forall i, j :: 0 <= i < j < |Collect(found)| ==>
      KindRank(Collect(found)[i].kind) < KindRank(Collect(found)[j].kind)
    ensures forall i :: 0 <= i < |Collect(found)| ==> Collect(found)[i].tick == tick
  {
    OrderedKindsShift(found, 0, tick);
  }

  lemma {:induction false} OrderedKindsShift(found: seq<Option<Bookmark>>, base: int, tick: int)
    requires forall i :: 0 <= i < |found| && found[i].Some? ==>
      KindRank(found[i].value.kind) == base + i && found[i].value.tick == tick
    ensures forall i, j :: 0 <= i < j < |Collect(found)| ==>
      KindRank(Collect(found)[i].kind) < KindRank(Collect(found)[j].kind)
    ensures forall i :: 0 <= i < |Collect(found)| ==>
      base <= KindRank(Collect(found)[i].kind) < base + |found| && Collect(found)[i].tick == tick
    decreases |found|
  {
    if |found| > 0 {
      OrderedKindsShift(found[1..], base + 1, tick);
    }
  }

  /** Holds reads only the buffer, not the trackers. */
  lemma HoldsOnBuffer(d1: Detector, d2: Detector, log: seq<WindowStats>)
    requires Valid(d1) && Valid(d2) && Holds(d1, log)
    requires d2.(predMin := d1.predMin, preyPeak := d1.preyPeak, stableCount := d1.stableCount) == d1
    ensures Holds(d2, log)
  {
  }

  /** A run of checks from a fresh detector keeps the ring buffer holding the whole log. */
  function CheckAll(d: Detector, rows: seq<WindowStats>, cfg: Config): (r: Detector)
    requires Valid(d)
    ensures Valid(r) && r.size == d.size
    decreases |rows|
  {
    if |rows| == 0 then d else CheckAll(Check(d, rows[0], cfg).next, rows[1..], cfg)
  }

  lemma {:induction false} CheckAllHolds(d: Detector, log: seq<WindowStats>, rows: seq<WindowStats>, cfg: Config)
    requires Valid(d) && Holds(d, log)
    ensures Holds(CheckAll(d, rows, cfg), log + rows)
    decreases |rows|
  {
    if |rows| > 0 {
      var n := Check(d, rows[0], cfg).next;
      CheckExtendsLog(d, log, rows[0], cfg);
      CheckAllHolds(n, log + [rows[0]], rows[1..], cfg);
      AppendHead(log, rows);
    }
  }

  lemma AppendHead(log: seq<WindowStats>, rows: seq<WindowStats>)
    requires |rows| > 0
    ensures log + [rows[0]] + rows[1..] == log + rows
  {
    assert [rows[0]] + rows[1..] == rows;
  }

  /** One check appends its window to the rows the ring buffer holds. */
  lemma CheckExtendsLog(d: Detector, log: seq<WindowStats>, s: WindowStats, cfg: Config)
    requires Valid(d) && Holds(d, log)
    ensures Holds(Check(d, s, cfg).next, log + [s])
  {
    AddToHistoryHolds(d, log, s);
    HoldsOnBuffer(AddToHistory(d, s), Check(d, s, cfg).next, log + [s]);
  }

  /**
   * From a fresh detector, getHistory returns every row checked so far
   * until the buffer wraps, and afterwards the last size rows, each in
   * slot (its position mod size).
   */
  lemma FreshHistory(historySize: int, rows: seq<WindowStats>, cfg: Config)
    ensures var d := CheckAll(NewDetector(historySize), rows, cfg);
      (|rows| < d.size ==> GetHistory(d) == rows) &&
      (|rows| >= d.size ==>
        (GetHistory(d) == d.history &&
         forall j :: |rows| - d.size <= j < |rows| ==> d.history[j % d.size] == rows[j]))
  {
    var d0 := NewDetector(historySize);
    NewDetectorHoldsEmptyLog(historySize);
    CheckAllHolds(d0, [], rows, cfg);
    assert [] + rows == rows;
    var d := CheckAll(d0, rows, cfg);
    if |rows| < d.size {
      HistoryBeforeWrap(d, rows);
    }
  }

  /** A stable run that has just reached StableWindows cannot fire again on the next window. */
  lemma StableFiresOncePerRun(history: seq<WindowStats>, s: WindowStats, cfg: Config)
    requires cfg.stableWindows > 0
    ensures CheckStable(history, cfg.stableWindows, s, cfg).b.None?
  {
  }
}
