/**
 * Organism traits (traits/traits.go): a 32-bit set of flags for diet,
 * behaviour, flora habit, vision and gender, with membership, union and
 * removal, the diet classification, the vision parameters the eye traits
 * select, and the readable trait names.
 */
module Traits {
  import opened SimMath

  /** A bit position of Go's uint32 Trait. */
  type Bit = b: int | 0 <= b < 32

  /** A trait set: the positions of the bits that are set. */
  type Trait = set<Bit>

  const Flora: Trait := {0}
  const Herbivore: Trait := {1}
  const Carnivore: Trait := {2}
  const Carrion: Trait := {3}
  const Herding: Trait := {4}
  const Breeding: Trait := {5}
  const Rooted: Trait := {6}
  const Floating: Trait := {7}
  const PredatorEyes: Trait := {8}
  const PreyEyes: Trait := {9}
  const FarSight: Trait := {10}
  const Speed: Trait := {11}
  const Male: Trait := {12}
  const Female: Trait := {13}

  /** The diet traits an offspring can inherit. */
  const Diet: Trait := Herbivore + Carnivore + Carrion

  /** Has: the two sets share at least one bit (t & other != 0). */
  function Has(t: Trait, other: Trait): (r: bool)
    ensures r ==> t != {} && other != {}
    ensures r <==> other * t != {}
    ensures other <= t && other != {} ==> r
  {
    t * other != {}
  }

  /** Add: the union of the two sets (t | other). */
  function Add(t: Trait, other: Trait): (r: Trait)
    ensures other != {} ==> Has(r, other)
    ensures forall p :: Has(t, p) || Has(other, p) ==> Has(r, p)
    ensures forall p :: Has(r, p) ==> Has(t, p) || Has(other, p)
  {
    t + other
  }

  /** Remove: the first set without any bit of the second (t &^ other). */
  function Remove(t: Trait, other: Trait): (r: Trait)
    ensures !Has(r, other)
    ensures forall p :: Has(r, p) ==> Has(t, p)
  {
    t - other
  }

  /** Adding a trait and taking it away again is the same as taking it away. */
  lemma RemoveAfterAdd(t: Trait, o: Trait)
    ensures Remove(Add(t, o), o) == Remove(t, o)
  {
  }

  /** Removing keeps every trait that shares no bit with what is removed. */
  lemma RemoveKeepsOthers(t: Trait, o: Trait, p: Trait)
    requires !Has(p, o)
    ensures Has(Remove(t, o), p) <==> Has(t, p)
  {
    if Has(t, p) {
      var b :| b in t * p;
      assert b in o ==> b in p * o;
      assert b !in o;
      assert b in Remove(t, o) * p;
    }
  }

  /** IsFlora: photosynthesises, and eats neither flora nor fauna. */
  function IsFlora(t: Trait): (r: bool)
    ensures r ==> Has(t, Flora)
    ensures r ==> !Has(t, Herbivore) && !Has(t, Carnivore)
  {
    Has(t, Flora) && !Has(t, Herbivore) && !Has(t, Carnivore)
  }

  /** IsFauna: any diet trait. */
  function IsFauna(t: Trait): (r: bool)
    ensures r <==> Has(t, Diet)
  {
    Has(t, Herbivore) || Has(t, Carnivore) || Has(t, Carrion)
  }

  /** IsOmnivore: eats both flora and fauna. */
  function IsOmnivore(t: Trait): (r: bool)
    ensures r ==> IsFauna(t) && !IsFlora(t)
  {
    Has(t, Herbivore) && Has(t, Carnivore)
  }

  /**
   * The classification is not a partition: a carrion eater that also
   * photosynthesises counts as both flora and fauna, and a trait set with
   * neither kind of bit counts as neither.
   */
  lemma ClassesOverlap()
    ensures IsFlora(Flora + Carrion) && IsFauna(Flora + Carrion)
    ensures !IsFlora(Herding) && !IsFauna(Herding)
  {
  }

  /** Field of view (radians) and perception-radius multiplier. */
  datatype VisionParams = VisionParams(fov: real, rangeMultiplier: real)

  /**
   * GetVisionParams: predator eyes give a narrow long cone, prey eyes (only
   * without predator eyes) a wide short one, and far sight stretches the
   * range by half again.
   */
  function GetVisionParams(t: Trait): (r: VisionParams)
    ensures Has(t, PredatorEyes) ==> r.fov == Pi / 2.0
    ensures !Has(t, PredatorEyes) && Has(t, PreyEyes) ==> r.fov == Pi * 1.5
    ensures !Has(t, PredatorEyes) && !Has(t, PreyEyes) ==> r.fov == Pi
    ensures Pi / 2.0 <= r.fov <= Pi * 1.5
    ensures 0.7 <= r.rangeMultiplier <= 2.25
    ensures !Has(t, FarSight) ==> r.rangeMultiplier <= 1.5
    ensures !Has(t, FarSight) ==>
      r.rangeMultiplier == (if Has(t, PredatorEyes) then 1.5 else if Has(t, PreyEyes) then 0.7 else 1.0)
    ensures Has(t, FarSight) ==>
      r.rangeMultiplier == (if Has(t, PredatorEyes) then 2.25 else if Has(t, PreyEyes) then 1.05 else 1.5)
  {
    var base := if Has(t, PredatorEyes) then VisionParams(Pi / 2.0, 1.5)
                else if Has(t, PreyEyes) then VisionParams(Pi * 1.5, 0.7)
                else VisionParams(Pi, 1.0);
    if Has(t, FarSight) then base.(rangeMultiplier := base.rangeMultiplier * 1.5) else base
  }

  /** Predator eyes take precedence: adding prey eyes to them changes nothing. */
  lemma PredatorEyesWin(t: Trait)
    requires Has(t, PredatorEyes)
    ensures GetVisionParams(Add(t, PreyEyes)) == GetVisionParams(t)
  {
    assert Has(Add(t, PreyEyes), PredatorEyes);
    assert Has(Add(t, PreyEyes), FarSight) == Has(t, FarSight);
  }

  /** Far sight multiplies the range by 1.5 and leaves the field of view alone. */
  lemma FarSightStretchesRange(t: Trait)
    ensures var with := GetVisionParams(Add(t, FarSight));
      var without := GetVisionParams(Remove(t, FarSight));
      with.fov == without.fov && with.rangeMultiplier == without.rangeMultiplier * 1.5
  {
    var a := Add(t, FarSight);
    var b := Remove(t, FarSight);
    assert Has(a, PredatorEyes) == Has(b, PredatorEyes);
    assert Has(a, PreyEyes) == Has(b, PreyEyes);
    assert Has(a, FarSight) && !Has(b, FarSight);
  }

  /** Every trait in declaration order, with its display name. */
  const AllTraits: seq<Trait> := [Flora, Herbivore, Carnivore, Carrion, Herding, Breeding, Rooted, Floating,
                                  PredatorEyes, PreyEyes, FarSight, Speed, Male, Female]
  const AllNames: seq<string> := ["Flora", "Herbivore", "Carnivore", "Carrion", "Herding", "Breeding", "Rooted",
                                  "Floating", "Predator Eyes", "Prey Eyes", "Far Sight", "Speed", "Male", "Female"]

  /** The position of a name in the table, or the table's length for a name not in it. */
  function Rank(n: string): (k: nat)
    ensures k <= |AllNames|
    ensures k < |AllNames| ==> AllNames[k] == n
  {
    RankFrom(n, 0)
  }

  function RankFrom(n: string, i: nat): (k: nat)
    requires i <= |AllNames|
    ensures i <= k <= |AllNames|
    ensures k < |AllNames| ==> AllNames[k] == n
    ensures forall j :: i <= j < k ==> AllNames[j] != n
    decreases |AllNames| - i
  {
    if i == |AllNames| then i
    else if AllNames[i] == n then i
    else RankFrom(n, i + 1)
  }

  /** No two table entries share a name, so each entry's name ranks at its own position. */
  lemma RankOfEntry(i: nat)
    requires i < |AllNames|
    ensures Rank(AllNames[i]) == i
  {
    assert forall k :: 0 <= k < |AllNames| && k != i ==> AllNames[k] != AllNames[i];
  }

  const NumTraits: nat := 14

  /** Table entry k is the single bit k, so holding it means holding bit k. */
  lemma TableBit(t: Trait, k: nat)
    requires k < NumTraits
    ensures Has(t, AllTraits[k]) <==> k in t
  {
    assert AllTraits[k] == {k};
    assert k in t ==> k in t * {k};
  }

  /** The table positions from i on of the traits that t holds, ascending. */
  function HeldFrom(t: Trait, i: nat): (r: seq<nat>)
    requires i <= NumTraits
    ensures |r| <= NumTraits - i
    ensures forall k :: i <= k < NumTraits ==> (k in r <==> k in t)
    ensures forall a :: 0 <= a < |r| ==> i <= r[a] < NumTraits
    ensures forall a, b :: 0 <= a < b < |r| ==> r[a] < r[b]
    decreases NumTraits - i
  {
    if i == NumTraits then []
    else
      var rest := HeldFrom(t, i + 1);
      if i in t then [i] + rest else rest
  }

  /** The names at a list of table positions. */
  function NamesAt(held: seq<nat>): (r: seq<string>)
    requires forall a :: 0 <= a < |held| ==> held[a] < NumTraits
    ensures |r| == |held|
    ensures forall a :: 0 <= a < |r| ==> r[a] == AllNames[held[a]]
  {
    seq(|held|, j requires 0 <= j < |held| => AllNames[held[j]])
  }

  /** A name is among the names at some positions iff its position is among them. */
  lemma NamesAtMember(held: seq<nat>, k: nat)
    requires forall a :: 0 <= a < |held| ==> held[a] < NumTraits
    requires k < NumTraits
    ensures AllNames[k] in NamesAt(held) <==> k in held
  {
    var r := NamesAt(held);
    RankOfEntry(k);
    if AllNames[k] in r {
      var j :| 0 <= j < |r| && r[j] == AllNames[k];
      RankOfEntry(held[j]);
    }
    if k in held {
      var j :| 0 <= j < |held| && held[j] == k;
      assert r[j] == AllNames[k];
    }
  }

  /** Ascending positions give names in ascending rank. */
  lemma NamesAtOrdered(held: seq<nat>)
    requires forall a :: 0 <= a < |held| ==> held[a] < NumTraits
    requires forall a, b :: 0 <= a < b < |held| ==> held[a] < held[b]
    ensures var r := NamesAt(held);
      forall a, b :: 0 <= a < b < |r| ==> Rank(r[a]) < Rank(r[b]) && r[a] != r[b]
  {
    var r := NamesAt(held);
    forall a, b | 0 <= a < b < |r|
      ensures Rank(r[a]) < Rank(r[b]) && r[a] != r[b]
    {
      RankOfEntry(held[a]);
      RankOfEntry(held[b]);
    }
  }

  /**
   * TraitNames: one name for each trait held, and only those, each once and
   * in declaration order (Flora first, Female last).
   */
  function TraitNames(t: Trait): (r: seq<string>)
    ensures |r| <= NumTraits
    ensures forall k :: 0 <= k < NumTraits ==> (AllNames[k] in r <==> Has(t, AllTraits[k]))
    ensures forall a, b :: 0 <= a < b < |r| ==> Rank(r[a]) < Rank(r[b]) && r[a] != r[b]
  {
    var held := HeldFrom(t, 0);
    forall k | 0 <= k < NumTraits
      ensures AllNames[k] in NamesAt(held) <==> Has(t, AllTraits[k])
    {
      NamesAtMember(held, k);
      TableBit(t, k);
    }
    NamesAtOrdered(held);
    NamesAt(held)
  }
}
