/**
 * Capability matching (neural/capability.go): how edible a target is to an
 * eater, how much of that survives the target's armour, the nutrition
 * power law, and the threat another organism poses.
 *
 * Digestive spectrum runs from 0 (herbivore) to 1 (carnivore); composition
 * from 0 (fauna) to 1 (flora). An eater matches a target when the two sum
 * to 1.
 */
module Capability {
  import opened SimMath

  /** The nutrition power-law exponent, CompatK. */
  const CompatK: nat := 3

  /** Edibility: 1 at a perfect match, falling off linearly with the mismatch, floored at 0. */
  function Edibility(eaterSpectrum: real, targetComposition: real): (r: real)
    ensures 0.0 <= r <= 1.0
    ensures r == 1.0 <==> eaterSpectrum + targetComposition == 1.0
    ensures r == 0.0 <==> Abs(eaterSpectrum + targetComposition - 1.0) >= 1.0
    ensures Abs(eaterSpectrum + targetComposition - 1.0) <= 1.0 ==>
      r + Abs(eaterSpectrum + targetComposition - 1.0) == 1.0
  {
    Clamp01(1.0 - Abs(eaterSpectrum + targetComposition - 1.0))
  }

  /** Edibility depends only on the sum, so the two roles may be swapped. */
  lemma EdibilitySymmetric(a: real, b: real)
    ensures Edibility(a, b) == Edibility(b, a)
  {
    assert a + b == b + a;
  }

  /** Penetration: edibility left after armour, within [0, 1]; feeding is possible iff it is positive. */
  function Penetration(edibility: real, targetArmor: real): (r: real)
    ensures 0.0 <= r <= 1.0
    ensures r > 0.0 <==> edibility > targetArmor
    ensures 0.0 <= edibility - targetArmor <= 1.0 ==> r + targetArmor == edibility
    ensures edibility - targetArmor > 1.0 ==> r == 1.0
  {
    Clamp01(edibility - targetArmor)
  }

  /** More armour never lets more through. */
  lemma PenetrationAntitone(edibility: real, a1: real, a2: real)
    requires a1 <= a2
    ensures Penetration(edibility, a2) <= Penetration(edibility, a1)
  {
  }

  /** math.Pow(x, CompatK) with CompatK = 3. */
  function Cube(x: real): (r: real)
    ensures 0.0 < x <= 1.0 ==> 0.0 < r <= x
    ensures x == 1.0 ==> r == 1.0
  {
    assert x > 0.0 ==> x * x > 0.0;
    assert x > 0.0 ==> x * x * x > 0.0;
    assert 0.0 < x <= 1.0 ==> x * x <= x;
    assert 0.0 < x <= 1.0 ==> x * x * x <= x * x;
    x * x * x
  }

  lemma CubeLe(p: real, q: real)
    requires 0.0 < p <= q
    ensures p * p * p <= q * q * q
  {
    assert p * p <= p * q <= q * q;
    assert p * p * p <= q * q * p;
    assert q * q * p <= q * q * q;
  }

  /** NutritionMultiplier: penetration to the power CompatK, and 0 when nothing penetrates. */
  function NutritionMultiplier(penetration: real): (r: real)
    ensures penetration <= 0.0 ==> r == 0.0
    ensures 0.0 < penetration <= 1.0 ==> 0.0 < r <= penetration
    ensures penetration == 1.0 ==> r == 1.0
  {
    if penetration <= 0.0 then 0.0 else Cube(penetration)
  }

  /** Specialists gain more: the multiplier grows with penetration. */
  lemma NutritionMonotone(p: real, q: real)
    requires 0.0 <= p <= q
    ensures NutritionMultiplier(p) <= NutritionMultiplier(q)
  {
    if p > 0.0 {
      CubeLe(p, q);
    }
  }

  /** ThreatLevel: how well they can eat me, from their spectrum against my composition and armour. */
  function ThreatLevel(theirSpectrum: real, myComposition: real, myArmor: real): (r: real)
    ensures 0.0 <= r <= 1.0
    ensures r > 0.0 <==> Edibility(theirSpectrum, myComposition) > myArmor
    ensures myArmor >= 1.0 ==> r == 0.0
  {
    Penetration(Edibility(theirSpectrum, myComposition), myArmor)
  }

  /** More armour never makes me more threatened. */
  lemma ThreatAntitoneInArmor(theirSpectrum: real, myComposition: real, a1: real, a2: real)
    requires a1 <= a2
    ensures ThreatLevel(theirSpectrum, myComposition, a2) <= ThreatLevel(theirSpectrum, myComposition, a1)
  {
    PenetrationAntitone(Edibility(theirSpectrum, myComposition), a1, a2);
  }
}
