/**
 * Speciation bookkeeping (neural/species.go): assigning a genome to the
 * first compatible species or founding a new one, membership lists,
 * fitness staleness, end-of-generation ageing and culling, and summary
 * statistics. A genome is its list of connection genes; a missing genome
 * or representative is None.
 */
module Species {
  import opened Wrappers
  import opened SimMath
  import Reproduction

  type Genome = seq<Reproduction.Gene>

  datatype Species = Species(id: int, representative: Option<Genome>, members: seq<int>,
                             bestFitness: real, avgFitness: real, age: int, staleness: int)

  /** The options speciation reads: the distance coefficients, the threshold and the drop-off age. */
  datatype SpeciesOpts = SpeciesOpts(coeffs: Reproduction.CompatCoeffs, compatThreshold: real, dropOffAge: int)

  datatype Manager = Manager(species: seq<Species>, opts: SpeciesOpts, nextSpeciesID: int)

  /** Species IDs are distinct, positive and below the next ID to hand out. */
  predicate Valid(m: Manager)
  {
    m.nextSpeciesID >= 1 &&
    (forall sp :: sp in m.species ==> 1 <= sp.id < m.nextSpeciesID) &&
    (forall i, j :: 0 <= i < j < |m.species| ==> m.species[i].id != m.species[j].id)
  }

  /** NewSpeciesManager: no species, IDs start at 1. */
  function NewManager(opts: SpeciesOpts): (m: Manager)
    ensures Valid(m) && |m.species| == 0 && m.nextSpeciesID == 1
  {
    Manager([], opts, 1)
  }

  /** A species accepts a genome when it has a representative closer than the threshold. */
  predicate Accepts(sp: Species, genome: Genome, opts: SpeciesOpts)
  {
    sp.representative.Some? &&
    Reproduction.GenomeCompatibility(Some(genome), sp.representative, opts.coeffs) < opts.compatThreshold
  }

  /** The index of the first element satisfying p, or |s| when none does. */
  function FirstWhere<T>(s: seq<T>, p: T -> bool): (i: int)
    ensures 0 <= i <= |s|
    ensures i < |s| ==> p(s[i])
    ensures forall j :: 0 <= j < i ==> !p(s[j])
    decreases |s|
  {
    if |s| == 0 then 0
    else if p(s[0]) then 0
    else 1 + FirstWhere(s[1..], p)
  }

  /** The index of the first species that accepts the genome, or |species| when none does. */
  function FirstAccepting(species: seq<Species>, genome: Genome, opts: SpeciesOpts): (i: int)
    ensures 0 <= i <= |species|
    ensures i < |species| ==> Accepts(species[i], genome, opts)
    ensures forall j :: 0 <= j < i ==> !Accepts(species[j], genome, opts)
  {
    FirstWhere(species, sp => Accepts(sp, genome, opts))
  }

  /**
   * AssignSpecies: 0 for a missing genome; the ID of the first species
   * that accepts it; otherwise a new species founded on it with the next
   * ID, which then advances by one.
   */
  function AssignSpecies(m: Manager, genome: Option<Genome>): (r: (int, Manager))
    requires Valid(m)
    ensures Valid(r.1)
    ensures genome.None? ==> r.0 == 0 && r.1 == m
    ensures genome.Some? ==> r.0 >= 1
    ensures genome.Some? && FirstAccepting(m.species, genome.value, m.opts) < |m.species| ==>
      r.1 == m && r.0 == m.species[FirstAccepting(m.species, genome.value, m.opts)].id
    ensures genome.Some? && FirstAccepting(m.species, genome.value, m.opts) == |m.species| ==>
      r.0 == m.nextSpeciesID && r.1.nextSpeciesID == m.nextSpeciesID + 1 &&
      r.1.species == m.species + [Species(m.nextSpeciesID, genome, [], 0.0, 0.0, 0, 0)]
  {
    if genome.None? then (0, m)
    else
      var i := FirstAccepting(m.species, genome.value, m.opts);
      if i < |m.species| then (m.species[i].id, m)
      else
        var sp := Species(m.nextSpeciesID, genome, [], 0.0, 0.0, 0, 0);
        (sp.id, m.(species := m.species + [sp], nextSpeciesID := m.nextSpeciesID + 1))
  }

  /** Founded species get IDs 1, 2, 3, …: each new ID is one more than the last one handed out. */
  lemma NewSpeciesIdsCountUp(m: Manager, genome: Genome)
    requires Valid(m)
    requires FirstAccepting(m.species, genome, m.opts) == |m.species|
    ensures var (id, m2) := AssignSpecies(m, Some(genome));
      id == m.nextSpeciesID && m2.nextSpeciesID == id + 1 &&
      forall i :: 0 <= i < |m.species| ==> m.species[i].id < id
  {
  }

  /** GetSpeciesForGenome: the same search as AssignSpecies, without founding anything. */
  function GetSpeciesForGenome(m: Manager, genome: Option<Genome>): (r: int)
    requires Valid(m)
    ensures genome.None? ==> r == 0
    ensures genome.Some? && r != 0 ==> exists i :: 0 <= i < |m.species| && m.species[i].id == r && Accepts(m.species[i], genome.value, m.opts)
    ensures genome.Some? ==> (r == 0 <==> forall i :: 0 <= i < |m.species| ==> !Accepts(m.species[i], genome.value, m.opts))
  {
    if genome.None? then 0
    else
      var i := FirstAccepting(m.species, genome.value, m.opts);
      if i < |m.species| then m.species[i].id else 0
  }

  /** Looking up without founding agrees with assigning whenever some species accepts the genome. */
  lemma GetAgreesWithAssign(m: Manager, genome: Genome)
    requires Valid(m)
    requires GetSpeciesForGenome(m, Some(genome)) != 0
    ensures AssignSpecies(m, Some(genome)) == (GetSpeciesForGenome(m, Some(genome)), m)
  {
  }

  /** The index of the species with the given ID, or |species|. */
  function IndexOf(species: seq<Species>, id: int): (i: int)
    ensures 0 <= i <= |species|
    ensures i < |species| ==> species[i].id == id
    ensures forall j :: 0 <= j < i ==> species[j].id != id
  {
    FirstWhere(species, (sp: Species) => sp.id == id)
  }

  /** AddMember: appends the entity to the species with that ID, and only to it; an unknown ID changes nothing. */
  function AddMember(m: Manager, speciesID: int, entityID: int): (r: Manager)
    requires Valid(m)
    ensures Valid(r) && r.nextSpeciesID == m.nextSpeciesID && |r.species| == |m.species|
    ensures forall i :: 0 <= i < |m.species| ==>
      (m.species[i].id == speciesID ==> r.species[i] == m.species[i].(members := m.species[i].members + [entityID])) &&
      (m.species[i].id != speciesID ==> r.species[i] == m.species[i])
  {
    var i := IndexOf(m.species, speciesID);
    if i == |m.species| then m
    else
      var sp := m.species[i];
      m.(species := m.species[i := sp.(members := sp.members + [entityID])])
  }

  /** The first position of x in s, or |s|. */
  function Find(s: seq<int>, x: int): (i: int)
    ensures 0 <= i <= |s|
    ensures i < |s| ==> s[i] == x
    ensures forall j :: 0 <= j < i ==> s[j] != x
  {
    FirstWhere(s, (y: int) => y == x)
  }

  /** Swap-with-last removal of the first occurrence of x. */
  function SwapRemove(s: seq<int>, x: int): (r: seq<int>)
    ensures x !in s ==> r == s
    ensures x in s ==> |r| == |s| - 1 && multiset(r) == multiset(s) - multiset{x}
  {
    var i := Find(s, x);
    if i == |s| then s
    else
      var last := |s| - 1;
      var t := s[i := s[last]];
      SwapRemoveMultiset(s, i);
      t[..last]
  }

  lemma SwapRemoveMultiset(s: seq<int>, i: int)
    requires 0 <= i < |s|
    ensures multiset(s[i := s[|s| - 1]][..|s| - 1]) == multiset(s) - multiset{s[i]}
  {
    var last := |s| - 1;
    var t := s[i := s[last]][..last];
    if i < last {
      assert s == s[..i] + [s[i]] + s[i + 1..last] + [s[last]];
      assert t == s[..i] + [s[last]] + s[i + 1..last];
      MovedLastFillsGap(s[..i], s[i], s[i + 1..last], s[last]);
    } else {
      assert s == t + [s[last]];
    }
  }

  /** Putting the last value in place of a middle one loses exactly that middle value. */
  lemma MovedLastFillsGap(before: seq<int>, mid: int, after: seq<int>, last: int)
    ensures multiset(before + [last] + after) == multiset(before + [mid] + after + [last]) - multiset{mid}
  {
    assert multiset(before + [mid] + after + [last]) == multiset(before) + multiset{mid} + multiset(after) + multiset{last};
    assert multiset(before + [last] + after) == multiset(before) + multiset{last} + multiset(after);
  }

  /** RemoveMember: takes exactly one occurrence of the entity out of that species, leaving the rest alone. */
  function RemoveMember(m: Manager, speciesID: int, entityID: int): (r: Manager)
    requires Valid(m)
    ensures Valid(r) && r.nextSpeciesID == m.nextSpeciesID && |r.species| == |m.species|
    ensures forall i :: 0 <= i < |m.species| ==>
      (m.species[i].id == speciesID ==> r.species[i] == m.species[i].(members := SwapRemove(m.species[i].members, entityID))) &&
      (m.species[i].id != speciesID ==> r.species[i] == m.species[i])
  {
    var i := IndexOf(m.species, speciesID);
    if i == |m.species| then m
    else
      var sp := m.species[i];
      m.(species := m.species[i := sp.(members := SwapRemove(sp.members, entityID))])
  }

  /** UpdateFitness: a new best fitness is recorded and resets staleness; anything else changes nothing. */
  function UpdateFitness(m: Manager, speciesID: int, fitness: real): (r: Manager)
    requires Valid(m)
    ensures Valid(r) && |r.species| == |m.species|
    ensures forall i :: 0 <= i < |m.species| ==>
      r.species[i].members == m.species[i].members && r.species[i].id == m.species[i].id &&
      r.species[i].bestFitness >= m.species[i].bestFitness &&
      (r.species[i].bestFitness > m.species[i].bestFitness ==> m.species[i].id == speciesID && r.species[i].staleness == 0) &&
      (r.species[i].bestFitness == m.species[i].bestFitness ==> r.species[i] == m.species[i])
  {
    var i := IndexOf(m.species, speciesID);
    if i == |m.species| then m
    else
      var sp := m.species[i];
      if fitness > sp.bestFitness then m.(species := m.species[i := sp.(bestFitness := fitness, staleness := 0)])
      else m
  }

  /** The species that survive culling: with members, and not yet at the drop-off age of staleness. */
  predicate Keep(sp: Species, dropOffAge: int)
  {
    |sp.members| > 0 && sp.staleness < dropOffAge
  }

  /** RemoveStaleSpecies: keeps exactly the species that qualify, in their order. */
  function RemoveStale(species: seq<Species>, dropOffAge: int): (r: seq<Species>)
    ensures |r| <= |species|
    ensures forall sp :: sp in r <==> sp in species && Keep(sp, dropOffAge)
    decreases |species|
  {
    if |species| == 0 then []
    else
      var rest := RemoveStale(species[1..], dropOffAge);
      assert forall sp :: sp in species <==> sp == species[0] || sp in species[1..];
      if Keep(species[0], dropOffAge) then [species[0]] + rest else rest
  }

  /** Culling keeps the surviving species in their original order: the result is a subsequence. */
  lemma {:induction false} RemoveStaleIsSubsequence(species: seq<Species>, dropOffAge: int)
    ensures IsSubsequence(RemoveStale(species, dropOffAge), species)
    decreases |species|
  {
    if |species| > 0 {
      RemoveStaleIsSubsequence(species[1..], dropOffAge);
      var rest := RemoveStale(species[1..], dropOffAge);
      if Keep(species[0], dropOffAge) {
        assert ([species[0]] + rest)[1..] == rest;
      }
    }
  }

  /** a is b with some elements left out, order kept. */
  predicate IsSubsequence<T(==)>(a: seq<T>, b: seq<T>)
    decreases |b|
  {
    |a| == 0 || (|b| > 0 && ((a[0] == b[0] && IsSubsequence(a[1..], b[1..])) || IsSubsequence(a, b[1..])))
  }

  function RemoveStaleSpecies(m: Manager): (r: Manager)
    requires Valid(m)
    ensures Valid(r) && r.nextSpeciesID == m.nextSpeciesID
    ensures forall sp :: sp in r.species <==> sp in m.species && Keep(sp, m.opts.dropOffAge)
  {
    var kept := RemoveStale(m.species, m.opts.dropOffAge);
    RemoveStaleIsSubsequence(m.species, m.opts.dropOffAge);
    SubsequenceKeepsDistinctIds(kept, m.species);
    m.(species := kept)
  }

  lemma {:induction false} SubsequenceKeepsDistinctIds(a: seq<Species>, b: seq<Species>)
    requires IsSubsequence(a, b)
    requires forall i, j :: 0 <= i < j < |b| ==> b[i].id != b[j].id
    ensures forall i, j :: 0 <= i < j < |a| ==> a[i].id != a[j].id
    ensures forall sp :: sp in a ==> sp in b
    decreases |b|
  {
    if |a| > 0 {
      if a[0] == b[0] && IsSubsequence(a[1..], b[1..]) {
        SubsequenceKeepsDistinctIds(a[1..], b[1..]);
        forall j | 0 < j < |a|
          ensures a[0].id != a[j].id
        {
          assert a[j] == a[1..][j - 1];
          assert a[j] in a[1..];
          var k :| 0 <= k < |b[1..]| && b[1..][k] == a[j];
          assert b[k + 1] == a[j];
        }
        forall sp | sp in a
          ensures sp in b
        {
          if sp != a[0] { assert sp in a[1..]; }
        }
      } else {
        SubsequenceKeepsDistinctIds(a, b[1..]);
      }
    }
  }

  /** One generation older and one generation staler. */
  function Aged(sp: Species): Species
  {
    sp.(age := sp.age + 1, staleness := sp.staleness + 1)
  }

  function Older(species: seq<Species>): (r: seq<Species>)
    ensures |r| == |species|
    ensures forall i :: 0 <= i < |species| ==> r[i] == Aged(species[i])
  {
    seq(|species|, i requires 0 <= i < |species| => Aged(species[i]))
  }

  /**
   * EndGeneration: every species ages and grows staler by one, then the
   * empty and the stale species are culled: what survives is exactly the
   * aged species that still have members and are below the drop-off age.
   */
  function EndGeneration(m: Manager): (r: Manager)
    requires Valid(m)
    ensures Valid(r) && r.nextSpeciesID == m.nextSpeciesID
    ensures forall sp :: sp in r.species ==> Keep(sp, m.opts.dropOffAge)
    ensures forall sp :: sp in r.species ==> exists i :: 0 <= i < |m.species| && sp == Aged(m.species[i])
    ensures forall i :: 0 <= i < |m.species| && Keep(Aged(m.species[i]), m.opts.dropOffAge) ==> Aged(m.species[i]) in r.species
  {
    var older := Older(m.species);
    assert forall i :: 0 <= i < |m.species| ==> Aged(m.species[i]) in older;
    assert forall sp :: sp in older ==> exists i :: 0 <= i < |m.species| && sp == older[i];
    RemoveStaleSpecies(m.(species := older))
  }

  /** GetMemberCount: the members of all species together. */
  function MemberCount(species: seq<Species>): (r: nat)
    ensures |species| == 0 ==> r == 0
    ensures forall i :: 0 <= i < |species| ==> |species[i].members| <= r
    decreases |species|
  {
    if |species| == 0 then 0 else |species[0].members| + MemberCount(species[1..])
  }

  /** Replacing one species changes the member total by the difference in its size. */
  lemma {:induction false} MemberCountUpdate(species: seq<Species>, i: int, sp: Species)
    requires 0 <= i < |species|
    ensures MemberCount(species[i := sp]) == MemberCount(species) - |species[i].members| + |sp.members|
    decreases |species|
  {
    if i > 0 {
      MemberCountUpdate(species[1..], i - 1, sp);
      assert species[i := sp][1..] == species[1..][i - 1 := sp];
    } else {
      assert species[i := sp][1..] == species[1..];
    }
  }

  /** Adding a member to an existing species raises the member total by exactly one. */
  lemma AddMemberCounts(m: Manager, speciesID: int, entityID: int)
    requires Valid(m)
    requires exists i :: 0 <= i < |m.species| && m.species[i].id == speciesID
    ensures MemberCount(AddMember(m, speciesID, entityID).species) == MemberCount(m.species) + 1
  {
    var i := IndexOf(m.species, speciesID);
    var sp := m.species[i];
    MemberCountUpdate(m.species, i, sp.(members := sp.members + [entityID]));
  }

  /** Removing a member that is there lowers the member total by exactly one; otherwise it is unchanged. */
  lemma RemoveMemberCounts(m: Manager, speciesID: int, entityID: int)
    requires Valid(m)
    ensures var i := IndexOf(m.species, speciesID);
      MemberCount(RemoveMember(m, speciesID, entityID).species) ==
        if i < |m.species| && entityID in m.species[i].members then MemberCount(m.species) - 1
        else MemberCount(m.species)
  {
    var i := IndexOf(m.species, speciesID);
    if i < |m.species| {
      var sp := m.species[i];
      MemberCountUpdate(m.species, i, sp.(members := SwapRemove(sp.members, entityID)));
    }
  }

  /** UpdateRepresentatives: each species with members takes its first member's genome when there is one; all member lists empty. */
  function UpdateRepresentatives(m: Manager, getGenome: int -> Option<Genome>): (r: Manager)
    requires Valid(m)
    ensures Valid(r) && |r.species| == |m.species|
    ensures forall i :: 0 <= i < |m.species| ==>
      r.species[i].members == [] && r.species[i].id == m.species[i].id &&
      (|m.species[i].members| > 0 && getGenome(m.species[i].members[0]).Some? ==>
        r.species[i].representative == getGenome(m.species[i].members[0])) &&
      (|m.species[i].members| == 0 || getGenome(m.species[i].members[0]).None? ==>
        r.species[i].representative == m.species[i].representative)
  {
    m.(species := seq(|m.species|, i requires 0 <= i < |m.species| =>
      var sp := m.species[i];
      var rep := if |sp.members| > 0 && getGenome(sp.members[0]).Some? then getGenome(sp.members[0]) else sp.representative;
      sp.(representative := rep, members := [])))
  }

  /** Go's largest int, the starting value of the smallest-size scan. */
  const MaxInt: int := 0x7FFF_FFFF_FFFF_FFFF

  datatype SpeciesStats = SpeciesStats(count: int, totalMembers: int, largestSize: int, smallestSize: int,
                                       averageStaleness: real)

  const ZeroStats: SpeciesStats := SpeciesStats(0, 0, 0, 0, 0.0)

  /** Largest member count, starting from 0. */
  function Largest(species: seq<Species>): (r: int)
    ensures r >= 0
    ensures forall i :: 0 <= i < |species| ==> |species[i].members| <= r
    ensures |species| > 0 ==> exists i :: 0 <= i < |species| && |species[i].members| == r
    decreases |species|
  {
    if |species| == 0 then 0
    else
      var rest := Largest(species[1..]);
      assert forall i :: 1 <= i < |species| ==> species[i] == species[1..][i - 1];
      if |species[0].members| >= rest then |species[0].members| else rest
  }

  /** Smallest member count, starting from MaxInt. */
  function Smallest(species: seq<Species>): (r: int)
    ensures r <= MaxInt
    ensures forall i :: 0 <= i < |species| ==> r <= |species[i].members|
    ensures r == MaxInt || exists i :: 0 <= i < |species| && |species[i].members| == r
    decreases |species|
  {
    if |species| == 0 then MaxInt
    else
      var rest := Smallest(species[1..]);
      assert forall i :: 1 <= i < |species| ==> species[i] == species[1..][i - 1];
      if |species[0].members| < rest then |species[0].members| else rest
  }

  function TotalStaleness(species: seq<Species>): int
    decreases |species|
  {
    if |species| == 0 then 0 else species[0].staleness + TotalStaleness(species[1..])
  }

  /** Species that all share one staleness have that staleness times their count in total. */
  lemma {:induction false} TotalStalenessUniform(species: seq<Species>, st: int)
    requires forall i :: 0 <= i < |species| ==> species[i].staleness == st
    ensures TotalStaleness(species) == |species| * st
    decreases |species|
  {
    if |species| > 0 {
      TotalStalenessUniform(species[1..], st);
      assert TotalStaleness(species) == st + (|species| - 1) * st;
    }
  }

  /** When every species is equally stale, the mean staleness is that value. */
  lemma GetStatsUniformStaleness(m: Manager, st: int)
    requires |m.species| > 0
    requires forall i :: 0 <= i < |m.species| ==> m.species[i].staleness == st
    ensures GetStats(m).averageStaleness == st as real
  {
    var total, n, a := TotalStaleness(m.species), |m.species|, GetStats(m).averageStaleness;
    TotalStalenessUniform(m.species, st);
    MeanOfUniform(total, n, st, a);
  }

  lemma MeanOfUniform(total: int, count: int, st: int, a: real)
    requires count > 0 && total == count * st && a == total as real / count as real
    ensures a == st as real
  {
    var n := count as real;
    DivMul(total as real, n);
    assert total as real == n * st as real;
    assert n * (a - st as real) == 0.0;
    ZeroProduct(n, a - st as real);
  }

  /** Smallest member count, reported as 0 when it stays at the MaxInt start. */
  function SmallestSize(species: seq<Species>): (r: int)
    ensures r >= 0
    ensures forall i :: 0 <= i < |species| ==> r <= |species[i].members|
    ensures |species| > 0 && (forall i :: 0 <= i < |species| ==> |species[i].members| < MaxInt) ==>
      exists i :: 0 <= i < |species| && |species[i].members| == r
  {
    var lo := Smallest(species);
    if lo == MaxInt then 0
    else
      assert |species| > 0 && (forall i :: 0 <= i < |species| ==> |species[i].members| < MaxInt) ==>
        exists i :: 0 <= i < |species| && |species[i].members| == lo;
      lo
  }

  /** Mean staleness: the total over the count, 0 without species. */
  function MeanStaleness(species: seq<Species>): (r: real)
    ensures |species| == 0 ==> r == 0.0
    ensures r * |species| as real == TotalStaleness(species) as real
  {
    if |species| == 0 then 0.0
    else
      var total, n := TotalStaleness(species) as real, |species| as real;
      DivMul(total, n);
      total / n
  }

  /**
   * GetStats: all zero without species; otherwise the count, the member
   * total, the largest and smallest sizes (smallest <= largest, each the
   * size of some species, the smallest unless every size reaches MaxInt)
   * and the mean staleness.
   */
  function GetStats(m: Manager): (r: SpeciesStats)
    ensures |m.species| == 0 ==> r == ZeroStats
    ensures |m.species| > 0 ==>
      r.count == |m.species| && r.totalMembers == MemberCount(m.species) &&
      0 <= r.smallestSize <= r.largestSize &&
      (forall i :: 0 <= i < |m.species| ==> r.smallestSize <= |m.species[i].members| <= r.largestSize)
    ensures |m.species| > 0 ==> exists i :: 0 <= i < |m.species| && |m.species[i].members| == r.largestSize
    ensures |m.species| > 0 && (forall i :: 0 <= i < |m.species| ==> |m.species[i].members| < MaxInt) ==>
      exists i :: 0 <= i < |m.species| && |m.species[i].members| == r.smallestSize
    ensures |m.species| > 0 ==> r.averageStaleness == TotalStaleness(m.species) as real / |m.species| as real
  {
    if |m.species| == 0 then ZeroStats
    else
      var lo, hi := SmallestSize(m.species), Largest(m.species);
      assert lo <= |m.species[0].members| <= hi;
      SpeciesStats(|m.species|, MemberCount(m.species), hi, lo, MeanStaleness(m.species))
  }

  /**
   * CalculateFitness: the energy ratio (None when a zero maximum makes it
   * non-finite), times the survival bonus (ticks per
   * thousand), times the reproduction bonus (1 plus a half per offspring).
   * No energy or no survival time gives 0; ordinary inputs never give less.
   */
  function CalculateFitness(energy: real, maxEnergy: real, survivalTicks: int, offspringCount: int): (r: Option<real>)
    ensures r.None? <==> maxEnergy == 0.0
    ensures r.Some? && (energy == 0.0 || survivalTicks == 0) ==> r.value == 0.0
    ensures maxEnergy > 0.0 && energy >= 0.0 && survivalTicks >= 0 && offspringCount >= 0 ==> r.Some? && r.value >= 0.0
  {
    if maxEnergy == 0.0 then None
    else
      var ratio := energy / maxEnergy;
      var survivalBonus := survivalTicks as real / 1000.0;
      var reproBonus := 1.0 + offspringCount as real * 0.5;
      assert maxEnergy > 0.0 && energy >= 0.0 && survivalTicks >= 0 && offspringCount >= 0 ==>
          ratio * survivalBonus * reproBonus >= 0.0 by {
        if maxEnergy > 0.0 && energy >= 0.0 && survivalTicks >= 0 && offspringCount >= 0 {
          DivNonNegative(energy, maxEnergy);
          MulMonotone(ratio, 0.0, survivalBonus);
          MulMonotone(ratio * survivalBonus, 0.0, reproBonus);
        }
      }
      Some(ratio * survivalBonus * reproBonus)
  }

  /** Each offspring adds half of the childless fitness. */
  lemma FitnessOffspringBonus(energy: real, maxEnergy: real, survivalTicks: int, offspringCount: int)
    requires maxEnergy != 0.0
    ensures CalculateFitness(energy, maxEnergy, survivalTicks, offspringCount).value ==
      CalculateFitness(energy, maxEnergy, survivalTicks, 0).value * (1.0 + 0.5 * offspringCount as real)
  {
  }

  /** Living longer or leaving more offspring never lowers fitness. */
  lemma FitnessMonotone(energy: real, maxEnergy: real, t1: int, t2: int, o1: int, o2: int)
    requires maxEnergy > 0.0 && energy >= 0.0
    requires 0 <= t1 <= t2 && 0 <= o1 <= o2
    ensures CalculateFitness(energy, maxEnergy, t1, o1).value <= CalculateFitness(energy, maxEnergy, t2, o2).value
  {
    var ratio := energy / maxEnergy;
    DivNonNegative(energy, maxEnergy);
    var s1, s2 := t1 as real / 1000.0, t2 as real / 1000.0;
    var b1, b2 := 1.0 + o1 as real * 0.5, 1.0 + o2 as real * 0.5;
    assert CalculateFitness(energy, maxEnergy, t1, o1).value ==
      (energy / maxEnergy) * (t1 as real / 1000.0) * (1.0 + o1 as real * 0.5) == ratio * s1 * b1;
    assert CalculateFitness(energy, maxEnergy, t2, o2).value ==
      (energy / maxEnergy) * (t2 as real / 1000.0) * (1.0 + o2 as real * 0.5) == ratio * s2 * b2;
    ProductMonotone(ratio, ratio, s1, s2);
    ProductMonotone(ratio * s1, ratio * s2, b1, b2);
  }

  /** At full energy, a thousand ticks and no offspring score exactly 1; two offspring double it. */
  lemma FitnessExample()
    ensures CalculateFitness(50.0, 50.0, 1000, 0) == Some(1.0)
    ensures CalculateFitness(50.0, 50.0, 1000, 2) == Some(2.0)
    ensures CalculateFitness(25.0, 50.0, 500, 0) == Some(0.25)
  {
  }

  /**
   * CalculateBreedingFitness: the energy ratio times a size bonus of 1 plus
   * a tenth per cell; never below the bare ratio for ordinary inputs.
   */
  function CalculateBreedingFitness(energy: real, maxEnergy: real, cellCount: int): (r: Option<real>)
    ensures r.None? <==> maxEnergy == 0.0
    ensures r.Some? && energy == 0.0 ==> r.value == 0.0
    ensures maxEnergy > 0.0 && energy >= 0.0 && cellCount >= 0 ==> r.Some? && r.value >= energy / maxEnergy
  {
    if maxEnergy == 0.0 then None
    else
      var ratio := energy / maxEnergy;
      var sizeBonus := 1.0 + cellCount as real * 0.1;
      assert maxEnergy > 0.0 && energy >= 0.0 && cellCount >= 0 ==> ratio * sizeBonus >= ratio by {
        if maxEnergy > 0.0 && energy >= 0.0 && cellCount >= 0 {
          DivNonNegative(energy, maxEnergy);
          MulMonotone(ratio, 1.0, sizeBonus);
        }
      }
      Some(ratio * sizeBonus)
  }

  /** More energy or more cells never lowers breeding fitness. */
  lemma BreedingFitnessMonotone(e1: real, e2: real, maxEnergy: real, c1: int, c2: int)
    requires maxEnergy > 0.0 && 0.0 <= e1 <= e2
    requires 0 <= c1 <= c2
    ensures CalculateBreedingFitness(e1, maxEnergy, c1).value <= CalculateBreedingFitness(e2, maxEnergy, c2).value
  {
    var r1, r2 := e1 / maxEnergy, e2 / maxEnergy;
    DivNonNegative(e1, maxEnergy);
    DivMonotone(e1, e2, maxEnergy);
    var b1, b2 := 1.0 + c1 as real * 0.1, 1.0 + c2 as real * 0.1;
    assert CalculateBreedingFitness(e1, maxEnergy, c1).value == (e1 / maxEnergy) * (1.0 + c1 as real * 0.1) == r1 * b1;
    assert CalculateBreedingFitness(e2, maxEnergy, c2).value == (e2 / maxEnergy) * (1.0 + c2 as real * 0.1) == r2 * b2;
    ProductMonotone(r1, r2, b1, b2);
  }
}
