/**
 * Breeding eligibility and trait inheritance (systems/breeding.go). The
 * random draws of inheritTraits become parameters: one coin per diet trait
 * (heads: inherit it when a parent has it) and the index rand.Intn would
 * pick among the parents' diets.
 */
module Breeding {
  import Traits
  import Allocation

  /** The brain's breed-intent output must reach this. */
  const BreedIntentThreshold: real := 0.6
  /** Energy must be at least this fraction of the maximum. */
  const MinEnergyRatio: real := 0.7

  /**
   * isEligible: every gate in turn, intent, Breed mode, energy, at least
   * one cell, and no cooldown left.
   */
  function IsEligible(breedIntent: real, mode: Allocation.Mode, energy: real, maxEnergy: real,
                      cellCount: int, breedingCooldown: int): (r: bool)
    ensures r ==> breedIntent >= BreedIntentThreshold && mode == Allocation.Breed
    ensures r ==> energy >= maxEnergy * MinEnergyRatio && cellCount >= 1 && breedingCooldown <= 0
    ensures (breedIntent >= BreedIntentThreshold && mode == Allocation.Breed &&
             energy >= maxEnergy * MinEnergyRatio && cellCount >= 1 && breedingCooldown <= 0) ==> r
  {
    if breedIntent < BreedIntentThreshold then false
    else if mode != Allocation.Breed then false
    else if energy < maxEnergy * MinEnergyRatio then false
    else if cellCount < 1 then false
    else if breedingCooldown > 0 then false
    else true
  }

  /** An organism the allocation pass put in Breed mode and that passes the gates is fauna. */
  lemma EligibleIsFauna(breedIntent: real, energy: real, maxEnergy: real, cellCount: int, targetCells: int,
                        energyRatio: real, breedingCooldown: int, threatNearby: bool, isFlora: bool)
    requires IsEligible(breedIntent,
                        Allocation.DetermineMode(cellCount, targetCells, energyRatio, breedingCooldown, threatNearby, isFlora),
                        energy, maxEnergy, cellCount, breedingCooldown)
    ensures !isFlora && breedingCooldown == 0
  {
    Allocation.BreedNeedsReadiness(cellCount, targetCells, energyRatio, breedingCooldown, threatNearby, isFlora);
  }

  /** The random draws of one sexual inheritance. */
  datatype Draws = Draws(herbivore: bool, carnivore: bool, carrion: bool, pick: nat)

  /** The diet traits of a in table order (Herbivore, Carnivore, Carrion). */
  function DietsOf(a: Traits.Trait): (r: seq<Traits.Trait>)
    ensures |r| <= 3
    ensures forall i :: 0 <= i < |r| ==> r[i] in [Traits.Herbivore, Traits.Carnivore, Traits.Carrion] && Traits.Has(a, r[i])
    ensures Traits.Has(a, Traits.Diet) ==> |r| > 0
  {
    (if Traits.Has(a, Traits.Herbivore) then [Traits.Herbivore] else []) +
    (if Traits.Has(a, Traits.Carnivore) then [Traits.Carnivore] else []) +
    (if Traits.Has(a, Traits.Carrion) then [Traits.Carrion] else [])
  }

  /**
   * inheritTraits: each diet trait either parent has is kept on heads; if
   * no diet trait survives, one of the parents' diets is picked, and a
   * Herbivore when the parents have none. Nothing but diet traits is
   * passed on.
   */
  function InheritTraits(a: Traits.Trait, b: Traits.Trait, d: Draws): (r: Traits.Trait)
    ensures Traits.IsFauna(r)
    ensures r <= Traits.Diet
    ensures Traits.Has(Traits.Add(a, b), Traits.Diet) ==> r <= Traits.Add(a, b)
    ensures !Traits.Has(Traits.Add(a, b), Traits.Diet) ==> r == Traits.Herbivore
  {
    var u := Traits.Add(a, b);
    var result := Survivors(u, d);
    if Traits.Has(result, Traits.Herbivore) || Traits.Has(result, Traits.Carnivore) || Traits.Has(result, Traits.Carrion) then
      result
    else
      assert result == {};
      Traits.Add(result, DietFallback(u, d.pick))
  }

  /** The diet traits of u whose coin came up heads. */
  function Survivors(u: Traits.Trait, d: Draws): (r: Traits.Trait)
    ensures r <= u * Traits.Diet
  {
    var h := if Traits.Has(u, Traits.Herbivore) && d.herbivore then Traits.Herbivore else {};
    var c := if Traits.Has(u, Traits.Carnivore) && d.carnivore then Traits.Carnivore else {};
    var e := if Traits.Has(u, Traits.Carrion) && d.carrion then Traits.Carrion else {};
    h + c + e
  }

  /** The diet picked when no coin kept one: one of u's own diets, or Herbivore when it has none. */
  function DietFallback(u: Traits.Trait, pick: nat): (r: Traits.Trait)
    ensures Traits.IsFauna(r) && r <= Traits.Diet
    ensures Traits.Has(u, Traits.Diet) ==> r <= u
    ensures !Traits.Has(u, Traits.Diet) ==> r == Traits.Herbivore
  {
    var diets := DietsOf(u);
    if |diets| > 0 then diets[pick % |diets|] else Traits.Herbivore
  }

  /** With every coin heads the child takes exactly the parents' combined diet. */
  lemma AllHeadsKeepsUnion(a: Traits.Trait, b: Traits.Trait, pick: nat)
    requires Traits.Has(Traits.Add(a, b), Traits.Diet)
    ensures InheritTraits(a, b, Draws(true, true, true, pick)) == Traits.Add(a, b) * Traits.Diet
  {
    var u := Traits.Add(a, b);
    var r := InheritTraits(a, b, Draws(true, true, true, pick));
    assert Traits.Diet == {1, 2, 3};
    assert Traits.Has(u, Traits.Herbivore) <==> 1 in u;
    assert Traits.Has(u, Traits.Carnivore) <==> 2 in u;
    assert Traits.Has(u, Traits.Carrion) <==> 3 in u;
    assert 1 in u || 2 in u || 3 in u;
  }

  /**
   * inheritTraitsAsexual: the parent's diet traits, or Herbivore for a
   * parent with none; nothing else is copied.
   */
  function InheritTraitsAsexual(parent: Traits.Trait): (r: Traits.Trait)
    ensures Traits.IsFauna(r)
    ensures r <= Traits.Diet
    ensures Traits.Has(parent, Traits.Diet) ==> r == parent * Traits.Diet
    ensures !Traits.Has(parent, Traits.Diet) ==> r == Traits.Herbivore
  {
    var h := if Traits.Has(parent, Traits.Herbivore) then Traits.Herbivore else {};
    var c := if Traits.Has(parent, Traits.Carnivore) then Traits.Carnivore else {};
    var e := if Traits.Has(parent, Traits.Carrion) then Traits.Carrion else {};
    var result := h + c + e;
    assert Traits.Diet == {1, 2, 3};
    assert Traits.Has(parent, Traits.Herbivore) <==> 1 in parent;
    assert Traits.Has(parent, Traits.Carnivore) <==> 2 in parent;
    assert Traits.Has(parent, Traits.Carrion) <==> 3 in parent;
    if !Traits.Has(result, Traits.Herbivore) && !Traits.Has(result, Traits.Carnivore) && !Traits.Has(result, Traits.Carrion) then
      Traits.Add(result, Traits.Herbivore)
    else result
  }

  /** Asexual inheritance is sexual inheritance from a parent paired with itself and every coin heads. */
  lemma AsexualIsSelfMating(parent: Traits.Trait, pick: nat)
    ensures InheritTraitsAsexual(parent) == InheritTraits(parent, parent, Draws(true, true, true, pick))
  {
    assert Traits.Add(parent, parent) == parent;
    if Traits.Has(parent, Traits.Diet) {
      AllHeadsKeepsUnion(parent, parent, pick);
    }
  }
}
