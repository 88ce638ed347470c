/**
 * Energy allocation (systems/allocation.go): each living organism gets a
 * target cell count from its diet and energy ratio, and an allocation mode
 * (Survive, Grow, Breed or Store) from its energy, size, breeding cooldown
 * and whether a threat is near. The nearby-food and nearby-threat searches
 * are taken as inputs.
 */
module Allocation {
  import Traits

  /** The four allocation modes, in the order of their display names. */
  datatype Mode = Survive | Grow | Breed | Store

  /** Target cell counts never exceed this. */
  const MaxTargetCells: nat := 10

  /**
   * calculateTargetCells: flora grow with energy (2, 4, 6 or 8 cells),
   * carnivores stay lean (3 to 5, the top size only with food nearby),
   * herbivores 3 to 6, carrion eaters 4; capped at 10.
   */
  function CalculateTargetCells(t: Traits.Trait, energyRatio: real, foodNearby: bool, isFlora: bool): (r: nat)
    ensures 2 <= r <= MaxTargetCells
    ensures isFlora ==> r % 2 == 0 && r <= 8
    ensures !isFlora ==> 3 <= r <= 6
    ensures !isFlora && Traits.Has(t, Traits.Carnivore) ==> r <= 5 && (r == 5 <==> energyRatio > 0.6 && foodNearby)
  {
    var base :=
      if isFlora then
        (if energyRatio > 0.7 then 8 else if energyRatio > 0.5 then 6 else if energyRatio > 0.3 then 4 else 2)
      else if Traits.Has(t, Traits.Carnivore) then
        (if energyRatio > 0.6 && foodNearby then 5 else if energyRatio > 0.4 then 4 else 3)
      else if Traits.Has(t, Traits.Herbivore) then
        (if energyRatio > 0.6 then 6 else if energyRatio > 0.4 then 4 else 3)
      else 4;
    if base < MaxTargetCells then base else MaxTargetCells
  }

  /** More energy never shrinks the target, the rest of the situation being equal. */
  lemma TargetCellsMonotone(t: Traits.Trait, e1: real, e2: real, foodNearby: bool, isFlora: bool)
    requires e1 <= e2
    ensures CalculateTargetCells(t, e1, foodNearby, isFlora) <= CalculateTargetCells(t, e2, foodNearby, isFlora)
  {
  }

  /** Survive: critically low energy, or a threat near while energy is below 40%. */
  predicate MustSurvive(energyRatio: real, threatNearby: bool)
  {
    energyRatio < 0.2 || (threatNearby && energyRatio < 0.4)
  }

  /** Only fauna off breeding cooldown may breed. */
  predicate CanBreed(isFlora: bool, breedingCooldown: int)
  {
    !isFlora && breedingCooldown == 0
  }

  /**
   * determineMode: Survive when MustSurvive; otherwise Breed for a ready
   * organism with a cell and over 35% energy; otherwise Grow below target
   * size with over 35% energy; otherwise Breed for a ready organism over
   * 60% energy at target size; otherwise Store.
   */
  function DetermineMode(cellCount: int, targetCells: int, energyRatio: real, breedingCooldown: int,
                         threatNearby: bool, isFlora: bool): (r: Mode)
    ensures r == Survive <==> MustSurvive(energyRatio, threatNearby)
    ensures r == Breed <==>
      !MustSurvive(energyRatio, threatNearby) && CanBreed(isFlora, breedingCooldown) &&
      ((cellCount >= 1 && energyRatio > 0.35) || (cellCount >= targetCells && energyRatio > 0.6))
    ensures r == Grow <==>
      !MustSurvive(energyRatio, threatNearby) && cellCount < targetCells && energyRatio > 0.35 &&
      !(CanBreed(isFlora, breedingCooldown) && cellCount >= 1)
    ensures isFlora ==> r != Breed
  {
    if energyRatio < 0.2 then Survive
    else if threatNearby && energyRatio < 0.4 then Survive
    else
      var canBreed := !isFlora && breedingCooldown == 0;
      if !isFlora && canBreed && cellCount >= 1 && energyRatio > 0.35 then Breed
      else if cellCount < targetCells && energyRatio > 0.35 then Grow
      else if cellCount >= targetCells then
        (if !isFlora && canBreed && energyRatio > 0.6 then Breed else Store)
      else Store
  }

  /** Whatever the inputs, an organism put in Breed mode is fauna off cooldown with energy above 35%. */
  lemma BreedNeedsReadiness(cellCount: int, targetCells: int, energyRatio: real, breedingCooldown: int,
                            threatNearby: bool, isFlora: bool)
    requires DetermineMode(cellCount, targetCells, energyRatio, breedingCooldown, threatNearby, isFlora) == Breed
    ensures !isFlora && breedingCooldown == 0 && energyRatio > 0.35
  {
  }

  /** The per-organism result of an allocation pass. */
  datatype Allocated = Allocated(targetCells: nat, mode: Mode)

  /**
   * One organism's update: the target is computed first and the mode reads
   * it back; flora neither look for food nor perceive threats.
   */
  function UpdateOrganism(t: Traits.Trait, energy: real, maxEnergy: real, cellCount: int, breedingCooldown: int,
                          foodNearby: bool, threatNearby: bool): (r: Allocated)
    requires maxEnergy != 0.0
    ensures Traits.IsFlora(t) ==> r.mode != Breed && r.targetCells % 2 == 0
    ensures r.mode == Breed ==> cellCount >= 1
    ensures r.mode == Grow ==> cellCount < r.targetCells
  {
    var ratio := energy / maxEnergy;
    var isFlora := Traits.IsFlora(t);
    var food := if isFlora then false else foodNearby;
    var threat := if isFlora then false else threatNearby;
    var target := CalculateTargetCells(t, ratio, food, isFlora);
    Allocated(target, DetermineMode(cellCount, target, ratio, breedingCooldown, threat, isFlora))
  }
}
