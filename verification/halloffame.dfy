/**
 * The hall of fame (telemetry/halloffame.go): one bounded list of proven
 * lineages per archetype, kept in descending fitness order, and tournament
 * sampling from it. The configuration and the random draws are parameters.
 */
module HallOfFame {
  import opened Wrappers
  import opened SimMath

  datatype HallEntry = HallEntry(
    fitness: real, entityId: int, children: int, kills: int,
    survival: real, foraging: real, cladeId: int, founder: int, diet: real,
    weights: seq<real>)

  /** The lifetime record of a dead organism, as far as the hall reads it. */
  datatype LifetimeStats = LifetimeStats(
    children: int, survivalSec: real, kills: int, totalForaged: real,
    cladeId: int, founder: int, birthDiet: real)

  datatype EntryConfig = EntryConfig(minChildren: int, minSurvivalSec: real, minKills: int, minForaging: real)
  datatype FitnessWeights = FitnessWeights(children: real, survival: real, kills: real, forage: real)

  datatype Hall = Hall(halls: seq<seq<HallEntry>>, maxSize: int)

  predicate SortedDesc(h: seq<HallEntry>)
  {
    forall i, j :: 0 <= i <= j < |h| ==> h[i].fitness >= h[j].fitness
  }

  /** Every hall is sorted and within capacity. */
  predicate Valid(hof: Hall)
  {
    forall a :: 0 <= a < |hof.halls| ==> SortedDesc(hof.halls[a]) && |hof.halls[a]| <= hof.maxSize
  }

  /** NewHallOfFame: one empty hall per archetype. */
  function NewHall(maxSize: int, numArchetypes: int): (hof: Hall)
    requires maxSize >= 0 && numArchetypes >= 0
    ensures |hof.halls| == numArchetypes && hof.maxSize == maxSize
    ensures forall a :: 0 <= a < numArchetypes ==> hof.halls[a] == []
    ensures Valid(hof)
  {
    Hall(seq(numArchetypes, _ => []), maxSize)
  }

  // ---------------------------------------------------------------------
  // Entry criteria and fitness
  // ---------------------------------------------------------------------

  /**
   * meetsEntryCriteria: enough children alone qualifies; otherwise a long
   * enough life plus enough kills (diet >= 0.5) or enough foraging.
   */
  predicate MeetsEntryCriteria(diet: real, s: LifetimeStats, cfg: EntryConfig)
  {
    if s.children >= cfg.minChildren then true
    else if s.survivalSec >= cfg.minSurvivalSec then
      if diet >= 0.5 then s.kills >= cfg.minKills else s.totalForaged >= cfg.minForaging
    else false
  }

  /** One lifetime dominates another when it is at least as good in every counted respect. */
  predicate Dominates(a: LifetimeStats, b: LifetimeStats)
  {
    a.children >= b.children && a.survivalSec >= b.survivalSec &&
    a.kills >= b.kills && a.totalForaged >= b.totalForaged
  }

  /** Doing better never costs a place: the criteria are monotone. */
  lemma EntryCriteriaMonotone(diet: real, a: LifetimeStats, b: LifetimeStats, cfg: EntryConfig)
    requires Dominates(a, b) && MeetsEntryCriteria(diet, b, cfg)
    ensures MeetsEntryCriteria(diet, a, cfg)
  {
  }

  /** Reproducing at least MinChildren times qualifies whatever else happened. */
  lemma ChildrenAloneQualify(diet: real, s: LifetimeStats, cfg: EntryConfig)
    requires s.children >= cfg.minChildren
    ensures MeetsEntryCriteria(diet, s, cfg)
  {
  }

  /** calculateFitness: weighted children and survival, plus kills for hunters or foraging for grazers. */
  function CalculateFitness(diet: real, s: LifetimeStats, w: FitnessWeights): real
  {
    var base := s.children as real * w.children + s.survivalSec * w.survival;
    if diet >= 0.5 then base + s.kills as real * w.kills else base + s.totalForaged * w.forage
  }

  /** With non-negative weights a dominating lifetime scores at least as high. */
  lemma FitnessMonotone(diet: real, a: LifetimeStats, b: LifetimeStats, w: FitnessWeights)
    requires Dominates(a, b)
    requires w.children >= 0.0 && w.survival >= 0.0 && w.kills >= 0.0 && w.forage >= 0.0
    ensures CalculateFitness(diet, a, w) >= CalculateFitness(diet, b, w)
  {
    var ca, cb := a.children as real * w.children, b.children as real * w.children;
    var sa, sb := a.survivalSec * w.survival, b.survivalSec * w.survival;
    var ka, kb := a.kills as real * w.kills, b.kills as real * w.kills;
    var fa, fb := a.totalForaged * w.forage, b.totalForaged * w.forage;
    MulMonotone(w.children, b.children as real, a.children as real);
    MulMonotone(w.survival, b.survivalSec, a.survivalSec);
    MulMonotone(w.kills, b.kills as real, a.kills as real);
    MulMonotone(w.forage, b.totalForaged, a.totalForaged);
    assert cb <= ca && sb <= sa && kb <= ka && fb <= fa;
    if diet >= 0.5 {
      assert CalculateFitness(diet, a, w) == ca + sa + ka;
      assert CalculateFitness(diet, b, w) == cb + sb + kb;
    } else {
      assert CalculateFitness(diet, a, w) == ca + sa + fa;
      assert CalculateFitness(diet, b, w) == cb + sb + fb;
    }
  }

  // ---------------------------------------------------------------------
  // Sorted insertion
  // ---------------------------------------------------------------------

  /** sort.Search over [i, j) for the first entry strictly below x: a binary search. */
  function SearchFrom(h: seq<HallEntry>, x: real, i: int, j: int): (r: int)
    requires 0 <= i <= j <= |h|
    ensures i <= r <= j
    decreases j - i
  {
    if i < j then
      var mid := (i + j) / 2;
      if !(h[mid].fitness < x) then SearchFrom(h, x, mid + 1, j) else SearchFrom(h, x, i, mid)
    else i
  }

  function Search(h: seq<HallEntry>, x: real): (r: int)
    ensures 0 <= r <= |h|
  {
    SearchFrom(h, x, 0, |h|)
  }

  lemma {:induction false} SearchFromSplits(h: seq<HallEntry>, x: real, i: int, j: int)
    requires 0 <= i <= j <= |h| && SortedDesc(h)
    requires forall k :: 0 <= k < i ==> h[k].fitness >= x
    requires forall k :: j <= k < |h| ==> h[k].fitness < x
    ensures forall k :: 0 <= k < SearchFrom(h, x, i, j) ==> h[k].fitness >= x
    ensures forall k :: SearchFrom(h, x, i, j) <= k < |h| ==> h[k].fitness < x
    decreases j - i
  {
    if i < j {
      var mid := (i + j) / 2;
      if !(h[mid].fitness < x) {
        SearchFromSplits(h, x, mid + 1, j);
      } else {
        SearchFromSplits(h, x, i, mid);
      }
    }
  }

  /** On a sorted hall the binary search splits it into entries at least x and entries below x. */
  lemma SearchSplits(h: seq<HallEntry>, x: real)
    requires SortedDesc(h)
    ensures forall k :: 0 <= k < Search(h, x) ==> h[k].fitness >= x
    ensures forall k :: Search(h, x) <= k < |h| ==> h[k].fitness < x
  {
    SearchFromSplits(h, x, 0, |h|);
  }

  /** When no entry in [i, j) is below x the search runs to the end. */
  lemma {:induction false} SearchPastAll(h: seq<HallEntry>, x: real, i: int, j: int)
    requires 0 <= i <= j <= |h|
    requires forall k :: i <= k < j ==> h[k].fitness >= x
    ensures SearchFrom(h, x, i, j) == j
    decreases j - i
  {
    if i < j {
      SearchPastAll(h, x, (i + j) / 2 + 1, j);
    }
  }

  /** insertEntry: place after every entry of equal or higher fitness, then trim to capacity. */
  function InsertEntry(h: seq<HallEntry>, e: HallEntry, maxSize: int): (r: seq<HallEntry>)
    ensures |h| <= maxSize ==> |r| <= maxSize
    ensures |r| <= |h| + 1
    ensures forall k :: 0 <= k < |r| && k < Search(h, e.fitness) ==> r[k] == h[k]
  {
    var idx := Search(h, e.fitness);
    if |h| >= maxSize && idx >= maxSize then h
    else
      var grown := h[..idx] + [e] + h[idx..];
      if |grown| > maxSize then grown[..maxSize] else grown
  }

  lemma InsertKeepsOrder(h: seq<HallEntry>, e: HallEntry, maxSize: int)
    requires SortedDesc(h)
    ensures SortedDesc(InsertEntry(h, e, maxSize))
  {
    var idx := Search(h, e.fitness);
    SearchSplits(h, e.fitness);
    if !(|h| >= maxSize && idx >= maxSize) {
      var grown := h[..idx] + [e] + h[idx..];
      assert forall k :: 0 <= k < |grown| ==>
        grown[k] == (if k < idx then h[k] else if k == idx then e else h[k - 1]);
      assert SortedDesc(grown);
    }
  }

  /** A full sorted hall is left as it is when no entry ranks below the newcomer. */
  lemma FullHallRejectsLowest(h: seq<HallEntry>, e: HallEntry, maxSize: int)
    requires SortedDesc(h) && |h| >= maxSize
    requires forall k :: 0 <= k < |h| ==> h[k].fitness >= e.fitness
    ensures InsertEntry(h, e, maxSize) == h
  {
    SearchPastAll(h, e.fitness, 0, |h|);
  }

  /** Below capacity nothing is lost: the result is the old entries plus the new one. */
  lemma InsertBelowCapacity(h: seq<HallEntry>, e: HallEntry, maxSize: int)
    requires |h| < maxSize
    ensures multiset(InsertEntry(h, e, maxSize)) == multiset(h) + multiset{e}
  {
    var idx := Search(h, e.fitness);
    assert h == h[..idx] + h[idx..];
  }

  /** At capacity a newcomer that beats the lowest entry replaces exactly that entry. */
  lemma InsertAtCapacity(h: seq<HallEntry>, e: HallEntry, maxSize: int)
    requires SortedDesc(h) && |h| == maxSize > 0
    requires h[|h| - 1].fitness < e.fitness
    ensures multiset(InsertEntry(h, e, maxSize)) + multiset{h[|h| - 1]} == multiset(h) + multiset{e}
  {
    var idx := Search(h, e.fitness);
    SearchSplits(h, e.fitness);
    assert idx < |h|;
    var a, b, last := h[..idx], h[idx..|h| - 1], h[|h| - 1];
    assert h == a + b + [last];
    var grown := h[..idx] + [e] + h[idx..];
    assert grown == a + [e] + b + [last];
    assert InsertEntry(h, e, maxSize) == a + [e] + b;
    DisplacedLast(a, e, b, last);
  }

  /** Putting e in the middle and dropping the last element trades the last for e. */
  lemma DisplacedLast(a: seq<HallEntry>, e: HallEntry, b: seq<HallEntry>, last: HallEntry)
    ensures multiset(a + [e] + b) + multiset{last} == multiset(a + b + [last]) + multiset{e}
  {
  }

  // ---------------------------------------------------------------------
  // The halls
  // ---------------------------------------------------------------------

  /** getHall: an archetype beyond the table reads as an empty hall. */
  function GetHall(hof: Hall, archetype: nat): (h: seq<HallEntry>)
    ensures archetype >= |hof.halls| ==> h == []
  {
    if archetype >= |hof.halls| then [] else hof.halls[archetype]
  }

  function Size(hof: Hall, archetype: nat): nat
  {
    |GetHall(hof, archetype)|
  }

  /** TopFitness: the first entry's fitness, 0 for an empty hall. */
  function TopFitness(hof: Hall, archetype: nat): (f: real)
    ensures Size(hof, archetype) == 0 ==> f == 0.0
  {
    var h := GetHall(hof, archetype);
    if |h| == 0 then 0.0 else h[0].fitness
  }

  /** In a valid hall of fame the top fitness is the best fitness of its hall. */
  lemma TopFitnessIsBest(hof: Hall, archetype: nat)
    requires Valid(hof)
    ensures forall k :: 0 <= k < Size(hof, archetype) ==> GetHall(hof, archetype)[k].fitness <= TopFitness(hof, archetype)
  {
  }

  function EntryOf(fitness: real, weights: seq<real>, s: LifetimeStats, entityId: int): HallEntry
  {
    HallEntry(fitness, entityId, s.children, s.kills, s.survivalSec, s.totalForaged,
      s.cladeId, s.founder, s.birthDiet, weights)
  }

  datatype ConsiderResult = ConsiderResult(added: bool, hof: Hall)

  /**
   * Consider: a qualifying organism is inserted into its founder's hall and
   * reported as added. An unknown founder archetype inserts into a throwaway
   * hall: still reported as added, while the halls stay as they were.
   */
  function Consider(
    hof: Hall, diet: real, weights: seq<real>, s: LifetimeStats, entityId: int,
    entry: EntryConfig, w: FitnessWeights): (r: ConsiderResult)
    requires s.founder >= 0
    ensures r.added <==> MeetsEntryCriteria(diet, s, entry)
    ensures !r.added || s.founder >= |hof.halls| ==> r.hof == hof
    ensures |r.hof.halls| == |hof.halls| && r.hof.maxSize == hof.maxSize
    ensures forall a :: 0 <= a < |hof.halls| && a != s.founder ==> r.hof.halls[a] == hof.halls[a]
    ensures r.added && s.founder < |hof.halls| ==>
      r.hof.halls[s.founder] == InsertEntry(hof.halls[s.founder], EntryOf(CalculateFitness(diet, s, w), weights, s, entityId), hof.maxSize)
  {
    if !MeetsEntryCriteria(diet, s, entry) then ConsiderResult(false, hof)
    else
      var e := EntryOf(CalculateFitness(diet, s, w), weights, s, entityId);
      if s.founder >= |hof.halls| then ConsiderResult(true, hof)
      else ConsiderResult(true, hof.(halls := hof.halls[s.founder := InsertEntry(hof.halls[s.founder], e, hof.maxSize)]))
  }

  /** Consider keeps every hall sorted and within capacity. */
  lemma ConsiderPreservesValid(
    hof: Hall, diet: real, weights: seq<real>, s: LifetimeStats, entityId: int,
    entry: EntryConfig, w: FitnessWeights)
    requires Valid(hof) && s.founder >= 0
    ensures Valid(Consider(hof, diet, weights, s, entityId, entry, w).hof)
  {
    if MeetsEntryCriteria(diet, s, entry) && s.founder < |hof.halls| {
      var e := EntryOf(CalculateFitness(diet, s, w), weights, s, entityId);
      InsertKeepsOrder(hof.halls[s.founder], e, hof.maxSize);
    }
  }

  // ---------------------------------------------------------------------
  // Tournament sampling
  // ---------------------------------------------------------------------

  const TournamentSize: nat := 3

  /**
   * The index kept after the first k draws: a later draw replaces the
   * current best only when strictly fitter.
   */
  function Tournament(h: seq<HallEntry>, draws: seq<int>, k: nat): (best: int)
    requires 0 < k <= |draws|
    requires forall i :: 0 <= i < |draws| ==> 0 <= draws[i] < |h|
    ensures exists i :: 0 <= i < k && best == draws[i]
    ensures forall i :: 0 <= i < k ==> h[draws[i]].fitness <= h[best].fitness
    ensures exists i :: 0 <= i < k && best == draws[i] && forall j :: 0 <= j < i ==> h[draws[j]].fitness < h[best].fitness
  {
    if k == 1 then draws[0]
    else
      var prev := Tournament(h, draws, k - 1);
      if h[draws[k - 1]].fitness > h[prev].fitness then draws[k - 1] else prev
  }

  /**
   * Sample: none for an empty hall; otherwise the weights of the fittest of
   * min(3, size) uniform draws, which are supplied.
   */
  function Sample(hof: Hall, archetype: nat, draws: seq<int>): (r: Option<seq<real>>)
    requires |draws| >= Min(TournamentSize as real, Size(hof, archetype) as real) as int
    requires forall i :: 0 <= i < |draws| ==> 0 <= draws[i] < Size(hof, archetype)
    ensures Size(hof, archetype) == 0 <==> r.None?
    ensures var h := GetHall(hof, archetype); var k := if |h| < TournamentSize then |h| else TournamentSize;
      r.Some? ==>
        exists i :: 0 <= i < k && r.value == h[draws[i]].weights &&
          (forall j :: 0 <= j < k ==> h[draws[j]].fitness <= h[draws[i]].fitness) &&
          (forall j :: 0 <= j < i ==> h[draws[j]].fitness < h[draws[i]].fitness)
  {
    var h := GetHall(hof, archetype);
    if |h| == 0 then None
    else
      var k := if |h| < TournamentSize then |h| else TournamentSize;
      Some(h[Tournament(h, draws, k)].weights)
  }

  /** Stats: the size and top fitness of every hall. */
  function HallStats(hof: Hall): (r: (seq<int>, seq<real>))
    ensures |r.0| == |hof.halls| && |r.1| == |hof.halls|
    ensures forall a :: 0 <= a < |hof.halls| ==> r.0[a] == Size(hof, a) && r.1[a] == TopFitness(hof, a)
  {
    (seq(|hof.halls|, a requires 0 <= a < |hof.halls| => |hof.halls[a]|),
     seq(|hof.halls|, a requires 0 <= a < |hof.halls| => TopFitness(hof, a)))
  }
}
