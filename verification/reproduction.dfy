/**
 * Genome bookkeeping of neuro-evolution (neural/reproduction.go): the ID
 * and innovation-number generator, the connection-weight clamp, the
 * connection key, the enable toggle that keeps every output fed, and the
 * compatibility distance between two genomes. The random gene pick of
 * toggleEnable is a parameter.
 */
module Reproduction {
  import opened SimMath
  import opened Wrappers

  const MaxConnectionWeight: real := 8.0
  const InitialInnovNum: int := 1000

  /** math.MaxFloat64, written out exactly. */
  const MaxFloat64: real := 179769313486231570814527423731704356798070567525844996598917476803157260780028538760589558632766878171540458953514382464234321326889464182768467546703537516986049910576551282076245490090389328944075868508455133942304583236903222948165808559332123348274797826204144723168738177180919299881250404026184124858368.0

  /** GenomeIDGenerator: the next genome ID and the next innovation number. */
  datatype IdGen = IdGen(nextID: int, nextInnov: int)

  /** NewGenomeIDGenerator: IDs start at 1, innovations at 1000. */
  const NewIdGen: IdGen := IdGen(1, InitialInnovNum)

  /** NextID: hands out the current ID and advances by one. */
  function NextID(g: IdGen): (r: (int, IdGen))
    ensures r.1.nextID > r.0 && r.1.nextInnov == g.nextInnov
  {
    (g.nextID, g.(nextID := g.nextID + 1))
  }

  /** NextInnovation: hands out the current innovation number and advances by one. */
  function NextInnovation(g: IdGen): (r: (int, IdGen))
    ensures r.1.nextInnov > r.0 && r.1.nextID == g.nextID
  {
    (g.nextInnov, g.(nextInnov := g.nextInnov + 1))
  }

  /** The IDs handed out by n calls of NextID in a row. */
  function TakeIDs(g: IdGen, n: nat): (r: (seq<int>, IdGen))
    decreases n
  {
    if n == 0 then ([], g)
    else
      var (id, g1) := NextID(g);
      var (rest, g2) := TakeIDs(g1, n - 1);
      ([id] + rest, g2)
  }

  /** Successive IDs count up by one from the generator's next ID, so they are strictly increasing and distinct. */
  lemma {:induction false} TakeIDsIncreasing(g: IdGen, n: nat)
    ensures var (ids, g2) := TakeIDs(g, n);
      |ids| == n && g2.nextID == g.nextID + n &&
      (forall k :: 0 <= k < n ==> ids[k] == g.nextID + k) &&
      (forall j, k :: 0 <= j < k < n ==> ids[j] < ids[k])
    decreases n
  {
    if n > 0 {
      TakeIDsIncreasing(g.(nextID := g.nextID + 1), n - 1);
    }
  }

  /** A fresh generator hands out 1, 2, 3, … */
  lemma FreshIDsStartAtOne(n: nat)
    ensures var ids := TakeIDs(NewIdGen, n).0;
      |ids| == n && forall k :: 0 <= k < n ==> ids[k] == k + 1
  {
    TakeIDsIncreasing(NewIdGen, n);
  }

  /** The innovation numbers handed out by n calls of NextInnovation in a row. */
  function TakeInnovations(g: IdGen, n: nat): (r: (seq<int>, IdGen))
    decreases n
  {
    if n == 0 then ([], g)
    else
      var (v, g1) := NextInnovation(g);
      var (rest, g2) := TakeInnovations(g1, n - 1);
      ([v] + rest, g2)
  }

  /** Successive innovation numbers count up by one, so a fresh generator gives 1000, 1001, … */
  lemma {:induction false} TakeInnovationsIncreasing(g: IdGen, n: nat)
    ensures var (vs, g2) := TakeInnovations(g, n);
      |vs| == n && g2.nextInnov == g.nextInnov + n && g2.nextID == g.nextID &&
      (forall k :: 0 <= k < n ==> vs[k] == g.nextInnov + k)
    decreases n
  {
    if n > 0 {
      TakeInnovationsIncreasing(g.(nextInnov := g.nextInnov + 1), n - 1);
    }
  }

  /** clampWeight: within [-8, 8], the identity inside that range and the nearer bound outside. */
  function ClampWeight(w: real): (r: real)
    ensures -MaxConnectionWeight <= r <= MaxConnectionWeight
    ensures -MaxConnectionWeight <= w <= MaxConnectionWeight ==> r == w
    ensures w > MaxConnectionWeight ==> r == MaxConnectionWeight
    ensures w < -MaxConnectionWeight ==> r == -MaxConnectionWeight
  {
    if w > MaxConnectionWeight then MaxConnectionWeight
    else if w < -MaxConnectionWeight then -MaxConnectionWeight
    else w
  }

  /**
   * connectionKey: int64(in) << 32 | int64(out), over the 64 bits of the
   * two IDs (Go's int is 64 bits wide, so the conversion keeps the bits).
   */
  function ConnectionKey(inID: bv64, outID: bv64): bv64
  {
    (inID << 32) | outID
  }

  /** For IDs that fit in 32 unsigned bits, the key's high half is the in ID and its low half the out ID. */
  lemma KeySplit(inID: bv64, outID: bv64)
    requires inID < 0x1_0000_0000 && outID < 0x1_0000_0000
    ensures ConnectionKey(inID, outID) >> 32 == inID
    ensures ConnectionKey(inID, outID) & 0xFFFF_FFFF == outID
  {
  }

  /** For IDs that fit in 32 unsigned bits, different connections get different keys. */
  lemma ConnectionKeyInjective(in1: bv64, out1: bv64, in2: bv64, out2: bv64)
    requires in1 < 0x1_0000_0000 && out1 < 0x1_0000_0000
    requires in2 < 0x1_0000_0000 && out2 < 0x1_0000_0000
    requires ConnectionKey(in1, out1) == ConnectionKey(in2, out2)
    ensures in1 == in2 && out1 == out2
  {
    KeySplit(in1, out1);
    KeySplit(in2, out2);
  }

  /** The bound matters: an out ID of -1 sets every bit, whatever the in ID. */
  lemma NegativeOutHidesIn(in1: bv64, in2: bv64)
    ensures ConnectionKey(in1, 0xFFFF_FFFF_FFFF_FFFF) == ConnectionKey(in2, 0xFFFF_FFFF_FFFF_FFFF)
  {
  }

  /** A gene as toggleEnable sees it: the node it feeds and whether it is enabled. */
  datatype LinkGene = LinkGene(outNode: int, enabled: bool)

  /** Some enabled gene feeds the node. */
  predicate Fed(genes: seq<LinkGene>, node: int)
  {
    exists j :: 0 <= j < |genes| && genes[j].outNode == node && genes[j].enabled
  }

  /**
   * toggleEnable: flips the picked gene; a gene just disabled is enabled
   * again when no other enabled gene feeds its output node.
   */
  function ToggleEnable(genes: seq<LinkGene>, pick: int): (r: seq<LinkGene>)
    requires |genes| == 0 || 0 <= pick < |genes|
    ensures |r| == |genes|
    ensures forall j :: 0 <= j < |genes| && j != pick ==> r[j] == genes[j]
    ensures |genes| > 0 ==> r[pick].outNode == genes[pick].outNode
    ensures |genes| > 0 && !genes[pick].enabled ==> r[pick].enabled
    ensures |genes| > 0 && genes[pick].enabled ==> (r[pick].enabled <==> !Fed(genes[pick := genes[pick].(enabled := false)], genes[pick].outNode))
  {
    if |genes| == 0 then genes
    else
      var flipped := genes[pick := genes[pick].(enabled := !genes[pick].enabled)];
      if !flipped[pick].enabled && !Fed(flipped, genes[pick].outNode) then genes[pick := genes[pick].(enabled := true)]
      else flipped
  }

  /** toggleEnable never starves an output: every node fed before is still fed after. */
  lemma ToggleKeepsOutputsFed(genes: seq<LinkGene>, pick: int, node: int)
    requires |genes| == 0 || 0 <= pick < |genes|
    requires Fed(genes, node)
    ensures Fed(ToggleEnable(genes, pick), node)
  {
    var r := ToggleEnable(genes, pick);
    var j :| 0 <= j < |genes| && genes[j].outNode == node && genes[j].enabled;
    if j != pick {
      assert r[j] == genes[j];
    } else if !r[pick].enabled {
      var flipped := genes[pick := genes[pick].(enabled := false)];
      var k :| 0 <= k < |flipped| && flipped[k].outNode == node && flipped[k].enabled;
      assert k != pick;
      assert r[k] == genes[k];
    }
  }

  /** A connection gene as the compatibility distance sees it. */
  datatype Gene = Gene(innov: int, weight: real)

  /** NEAT's distance coefficients. */
  datatype CompatCoeffs = CompatCoeffs(excessCoeff: real, disjointCoeff: real, mutdiffCoeff: real)

  /** The innovation-number map of a gene list; a later gene with the same number replaces an earlier one. */
  function GeneMap(genes: seq<Gene>): (m: map<int, real>)
    ensures m.Keys == set g | g in genes :: g.innov
    decreases |genes|
  {
    if |genes| == 0 then map[]
    else
      var prev := GeneMap(genes[..|genes| - 1]);
      var g := genes[|genes| - 1];
      assert genes == genes[..|genes| - 1] + [g];
      prev[g.innov := g.weight]
  }

  /** The largest innovation number, starting from 0. */
  function MaxInnov(genes: seq<Gene>): (r: int)
    ensures r >= 0
    ensures forall g :: g in genes ==> g.innov <= r
    ensures r == 0 || exists g :: g in genes && g.innov == r
    decreases |genes|
  {
    if |genes| == 0 then 0
    else
      var prev := MaxInnov(genes[1..]);
      assert forall g :: g in genes[1..] ==> g in genes;
      assert forall g :: g in genes ==> g == genes[0] || g in genes[1..];
      if genes[0].innov > prev then genes[0].innov else prev
  }

  /** Each innovation number once, in order of first appearance. */
  function DistinctInnovs(genes: seq<Gene>): (r: seq<int>)
    ensures forall i, j :: 0 <= i < j < |r| ==> r[i] != r[j]
    ensures forall k :: k in r <==> k in GeneMap(genes)
    decreases |genes|
  {
    if |genes| == 0 then []
    else
      var prev := DistinctInnovs(genes[..|genes| - 1]);
      var g := genes[|genes| - 1];
      assert genes == genes[..|genes| - 1] + [g];
      if g.innov in prev then prev else prev + [g.innov]
  }

  /** Total absolute weight difference over the given innovations that both maps hold. */
  function WeightDiff(keys: seq<int>, m1: map<int, real>, m2: map<int, real>): (r: real)
    requires forall k :: k in keys ==> k in m1
    ensures r >= 0.0
    ensures m1 == m2 ==> r == 0.0
    decreases |keys|
  {
    if |keys| == 0 then 0.0
    else
      var k := keys[0];
      (if k in m2 then Abs(m1[k] - m2[k]) else 0.0) + WeightDiff(keys[1..], m1, m2)
  }

  /** The gene counts behind the distance. */
  datatype GeneCounts = GeneCounts(matching: nat, disjoint: nat, excess: nat, weightDiff: real)

  /** The innovations above a bound, and those at or below it. */
  function Above(s: set<int>, p: int): set<int>
  {
    set k | k in s && k > p
  }

  function AtMost(s: set<int>, p: int): set<int>
  {
    set k | k in s && k <= p
  }

  lemma SplitCard(s: set<int>, p: int)
    ensures |Above(s, p)| + |AtMost(s, p)| == |s|
  {
    assert s == Above(s, p) + AtMost(s, p);
    assert Above(s, p) * AtMost(s, p) == {};
  }

  /**
   * The counts of compatibility: matching innovations, and each genome's
   * own innovations split into excess (beyond the other's largest) and
   * disjoint (the rest). Every unmatched innovation is counted once.
   */
  function Counts(g1: seq<Gene>, g2: seq<Gene>): (c: GeneCounts)
    ensures c.weightDiff >= 0.0
    ensures var k1 := GeneMap(g1).Keys; var k2 := GeneMap(g2).Keys;
      c.matching == |k1 * k2| && c.disjoint + c.excess == |k1 - k2| + |k2 - k1|
  {
    var m1 := GeneMap(g1);
    var m2 := GeneMap(g2);
    var d1 := m1.Keys - m2.Keys;
    var d2 := m2.Keys - m1.Keys;
    var max1 := MaxInnov(g1);
    var max2 := MaxInnov(g2);
    SplitCard(d1, max2);
    SplitCard(d2, max1);
    GeneCounts(|m1.Keys * m2.Keys|, |AtMost(d1, max2)| + |AtMost(d2, max1)|,
               |Above(d1, max2)| + |Above(d2, max1)|, WeightDiff(DistinctInnovs(g1), m1, m2))
  }

  /**
   * GenomeCompatibility: MaxFloat64 when either genome is missing;
   * otherwise the excess and disjoint counts scaled by the larger genome
   * size (1 below 20 genes) plus the mean weight difference of matching
   * genes, each times its coefficient.
   */
  function GenomeCompatibility(g1: Option<seq<Gene>>, g2: Option<seq<Gene>>, opts: CompatCoeffs): (r: real)
    ensures g1.None? || g2.None? ==> r == MaxFloat64
    ensures g1.Some? && g2.Some? && opts.excessCoeff >= 0.0 && opts.disjointCoeff >= 0.0 && opts.mutdiffCoeff >= 0.0 ==> r >= 0.0
  {
    if g1.None? || g2.None? then MaxFloat64
    else Distance(Counts(g1.value, g2.value), SizeScale(|g1.value|, |g2.value|), opts)
  }

  /** The normaliser: the larger genome size, or 1 below 20 genes. */
  function SizeScale(len1: nat, len2: nat): (n: real)
    ensures n >= 1.0
  {
    var n0 := Max(len1 as real, len2 as real);
    if n0 < 20.0 then 1.0 else n0
  }

  /** The weighted sum of the counts. */
  function Distance(c: GeneCounts, n: real, opts: CompatCoeffs): (r: real)
    requires n > 0.0 && c.weightDiff >= 0.0
    ensures c.excess == 0 && c.disjoint == 0 && c.weightDiff == 0.0 ==> r == 0.0
    ensures opts.excessCoeff >= 0.0 && opts.disjointCoeff >= 0.0 && opts.mutdiffCoeff >= 0.0 ==> r >= 0.0
  {
    var avg := MeanDiff(c.weightDiff, c.matching);
    var top := opts.excessCoeff * c.excess as real + opts.disjointCoeff * c.disjoint as real;
    CompatNonNegative(opts, c, n, avg, top);
    top / n + opts.mutdiffCoeff * avg
  }

  /** The mean weight difference over the matching genes, 0 when none match. */
  function MeanDiff(total: real, matching: nat): (r: real)
    ensures total >= 0.0 ==> r >= 0.0
    ensures total == 0.0 ==> r == 0.0
  {
    if matching > 0 then
      DivNonNegative(Abs(total), matching as real);
      total / matching as real
    else 0.0
  }

  lemma CompatNonNegative(opts: CompatCoeffs, c: GeneCounts, n: real, avg: real, top: real)
    requires n > 0.0 && c.weightDiff >= 0.0
    requires avg == MeanDiff(c.weightDiff, c.matching)
    requires top == opts.excessCoeff * c.excess as real + opts.disjointCoeff * c.disjoint as real
    ensures opts.excessCoeff >= 0.0 && opts.disjointCoeff >= 0.0 && opts.mutdiffCoeff >= 0.0 ==> top / n + opts.mutdiffCoeff * avg >= 0.0
  {
    if opts.excessCoeff >= 0.0 && opts.disjointCoeff >= 0.0 && opts.mutdiffCoeff >= 0.0 {
      MulMonotone(opts.excessCoeff, 0.0, c.excess as real);
      MulMonotone(opts.disjointCoeff, 0.0, c.disjoint as real);
      DivNonNegative(top, n);
      MulMonotone(opts.mutdiffCoeff, 0.0, avg);
    }
  }

  /** A genome is at distance 0 from itself: every gene matches with equal weight. */
  lemma SelfCompatibilityIsZero(g: seq<Gene>, opts: CompatCoeffs)
    ensures GenomeCompatibility(Some(g), Some(g), opts) == 0.0
  {
    var m := GeneMap(g);
    assert m.Keys - m.Keys == {};
  }

  /** Counts do not depend on which genome comes first. */
  lemma CountsSymmetric(g1: seq<Gene>, g2: seq<Gene>)
    ensures Counts(g1, g2).matching == Counts(g2, g1).matching
    ensures Counts(g1, g2).disjoint + Counts(g1, g2).excess == Counts(g2, g1).disjoint + Counts(g2, g1).excess
  {
    var k1 := GeneMap(g1).Keys;
    var k2 := GeneMap(g2).Keys;
    assert k1 * k2 == k2 * k1;
  }
}
