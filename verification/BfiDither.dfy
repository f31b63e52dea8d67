// DitheringDistributer: splits one mass into portions by weight and loses none of it.
module BfiDither {
  import opened Arithmetic
  import opened BfiProbability

  /** BlockMass -=, saturating at zero. */
  function SubtractMass(a: nat, b: nat): nat
    requires a <= MAX64 && b <= MAX64
  {
    var diff := (a - b + TWO64) % TWO64;
    if diff > a then 0 else diff
  }

  /** BlockMass +=, saturating at full. */
  function AddMass(a: nat, b: nat): (r: nat)
    requires a <= MAX64 && b <= MAX64
    ensures r == Min(MAX64, a + b)
  {
    var sum := (a + b) % TWO64;
    if sum < a then MAX64 else sum
  }

  lemma ScaledBound(mass: nat, n: nat, product: nat)
    requires mass <= MAX64 && n <= DENOMINATOR && product == mass * n
    ensures Scale(mass, n, DENOMINATOR) <= mass
    ensures n == DENOMINATOR ==> Scale(mass, n, DENOMINATOR) == mass
    ensures Scale(mass, n, DENOMINATOR) == product / DENOMINATOR
  {
    hide Scale;
    ScaleIsExact(mass, n, DENOMINATOR, product);
    MultiplyMonotone(n, DENOMINATOR, mass);
  }

  /** The part of a mass due to a weight out of the remaining weight: never more than the mass,
      and all of it for the last weight. */
  function Portion(mass: nat, weight: nat, rem: nat): (r: nat)
    requires mass <= MAX64 && 0 < weight <= rem <= MAX32
    ensures r <= mass
    ensures weight == rem ==> r == mass
  {
    ProbabilityRounds(weight, rem);
    ScaledBound(mass, Probability(weight, rem), mass * Probability(weight, rem));
    Scale(mass, Probability(weight, rem), DENOMINATOR)
  }

  /** A portion is the exact share up to one unit and one part in 2^32 of the mass. */
  lemma PortionIsProportional(mass: nat, weight: nat, rem: nat)
    requires mass <= MAX64 && 0 < weight <= rem <= MAX32
    ensures TWO32 * Portion(mass, weight, rem) * rem <= TWO32 * mass * weight + mass * rem
    ensures TWO32 * mass * weight <= TWO32 * (Portion(mass, weight, rem) + 1) * rem + mass * rem
  {
    ProbabilityRounds(weight, rem);
    var n := Probability(weight, rem);
    hide Scale, Probability;
    ScaledBound(mass, n, mass * n);
    ShareArithmetic(mass, weight, rem, n, mass * n, Portion(mass, weight, rem));
  }

  lemma ShareArithmetic(mass: nat, weight: nat, rem: nat, n: nat, product: nat, taken: nat)
    requires product == mass * n && taken == product / DENOMINATOR && rem > 0
    requires 2 * weight * DENOMINATOR <= 2 * n * rem + rem && 2 * n * rem <= 2 * weight * DENOMINATOR + rem
    ensures TWO32 * taken * rem <= TWO32 * mass * weight + mass * rem
    ensures TWO32 * mass * weight <= TWO32 * (taken + 1) * rem + mass * rem
  {
    // taken * D <= mass * n < (taken + 1) * D, times rem
    var share := n * rem;
    assert taken * DENOMINATOR <= product < (taken + 1) * DENOMINATOR;
    assert product * rem == mass * share by { assert mass * n * rem == mass * (n * rem); }
    assert taken * DENOMINATOR * rem <= product * rem by { MultiplyMonotone(taken * DENOMINATOR, product, rem); }
    assert product * rem <= (taken + 1) * DENOMINATOR * rem by {
      MultiplyMonotone(product, (taken + 1) * DENOMINATOR, rem);
    }
    // 2 * share lies within rem of 2 * weight * D, times mass
    assert mass * (2 * share) <= mass * (2 * weight * DENOMINATOR + rem) by {
      MultiplyMonotone(2 * share, 2 * weight * DENOMINATOR + rem, mass);
    }
    assert mass * (2 * weight * DENOMINATOR) <= mass * (2 * share + rem) by {
      MultiplyMonotone(2 * weight * DENOMINATOR, 2 * share + rem, mass);
    }
    Distribute(mass, weight, rem, share, taken);
  }

  lemma Distribute(mass: nat, weight: nat, rem: nat, share: nat, taken: nat)
    ensures mass * (2 * share) == 2 * (mass * share)
    ensures mass * (2 * weight * DENOMINATOR + rem) == TWO32 * mass * weight + mass * rem
    ensures mass * (2 * weight * DENOMINATOR) == TWO32 * mass * weight
    ensures mass * (2 * share + rem) == 2 * (mass * share) + mass * rem
    ensures 2 * (taken * DENOMINATOR * rem) == TWO32 * taken * rem
    ensures 2 * ((taken + 1) * DENOMINATOR * rem) == TWO32 * (taken + 1) * rem
  {
  }

  function Sum(s: seq<nat>): nat {
    if s == [] then 0 else s[0] + Sum(s[1..])
  }

  predicate AllPositive(s: seq<nat>) {
    forall k :: 0 <= k < |s| ==> s[k] > 0
  }

  /** What repeated takeMass returns: each portion is taken of what the earlier ones left. */
  function Portions(mass: nat, weights: seq<nat>): (r: seq<nat>)
    requires mass <= MAX64 && AllPositive(weights) && Sum(weights) <= MAX32
    ensures |r| == |weights|
  {
    if weights == [] then []
    else
      var taken := Portion(mass, weights[0], Sum(weights));
      [taken] + Portions(mass - taken, weights[1..])
  }

  /** No mass is lost: the portions of a non-empty distribution sum to exactly the mass. */
  lemma {:induction false} PortionsConserve(mass: nat, weights: seq<nat>)
    requires mass <= MAX64 && AllPositive(weights) && Sum(weights) <= MAX32
    ensures Sum(Portions(mass, weights)) == if weights == [] then 0 else mass
  {
    if weights != [] {
      var taken := Portion(mass, weights[0], Sum(weights));
      hide Portion;
      PortionsConserve(mass - taken, weights[1..]);
      assert Portions(mass, weights)[1..] == Portions(mass - taken, weights[1..]);
      if weights[1..] != [] { assert Sum(weights[1..]) >= weights[1] > 0; }
    }
  }

  class DitheringDistributer {
    var remWeight: nat
    var remMass: nat

    constructor (total: nat, mass: nat)
      ensures remWeight == total && remMass == mass
    {
      remWeight, remMass := total, mass;
    }

    method TakeMass(weight: nat) returns (taken: nat)
      requires 0 < weight <= remWeight <= MAX32 && remMass <= MAX64
      modifies this
      ensures taken == Portion(old(remMass), weight, old(remWeight)) <= old(remMass)
      ensures remWeight == old(remWeight) - weight && remMass == old(remMass) - taken
      ensures remWeight == 0 ==> remMass == 0
    {
      hide Portion;
      taken := Portion(remMass, weight, remWeight);
      remWeight := remWeight - weight;
      remMass := SubtractMass(remMass, taken);
    }
  }
}
