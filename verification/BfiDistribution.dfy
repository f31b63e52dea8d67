// Distribution: a list of weights with a 64-bit running total, normalised to 32 bits.
module BfiDistribution {
  import opened Arithmetic
  import opened BfiDither
  import opened BfiWeights
  import opened BfiCombine
  import opened BfiScaling
  import opened BfiRoom

  /** After is what becomes of the combined weights c: a lone one counts as one, several are shifted
      right together when their 64-bit total does not fit 32 bits. */
  ghost predicate IsNormalized(before: seq<Weight>, c: seq<Weight>, after: seq<Weight>) {
    var shift := ShiftFor(TotalAmount(before) % TWO64, TotalAmount(before) > MAX64);
    if before == [] then after == []
    else
      && IsCombination(before, c) && c != []
      && after == (if |c| == 1 then [c[0].(amount := 1)] else if shift == 0 then c else ScaledWeights(c, shift))
  }

  class Distribution {
    var weights: seq<Weight>
    var total: nat
    var didOverflow: bool

    /** The running total is the true sum modulo 2^64, which has overflowed at most once. */
    ghost predicate Valid()
      reads this
    {
      && (forall k :: 0 <= k < |weights| ==> 0 < weights[k].amount <= MAX64)
      && total == TotalAmount(weights) % TWO64
      && (didOverflow <==> TotalAmount(weights) > MAX64)
      && TotalAmount(weights) < 2 * TWO64
    }

    constructor ()
      ensures Valid() && weights == []
    {
      weights, total, didOverflow := [], 0, false;
    }

    method Add(node: nat, amount: nat, kind: DistType)
      requires Valid() && 0 < amount <= MAX64
      requires !(didOverflow && total + amount > MAX64)      // "unexpected repeated overflow"
      modifies this
      ensures Valid() && weights == old(weights) + [Weight(kind, node, amount)]
    {
      TotalAppend(weights, [Weight(kind, node, amount)]);
      assert TotalAmount([Weight(kind, node, amount)]) == amount by { assert [Weight(kind, node, amount)][1..] == []; }
      AddWraps(TotalAmount(weights), amount);
      hide TotalAmount;
      var newTotal := (total + amount) % TWO64;
      var isOverflow := newTotal < total;
      didOverflow := didOverflow || isOverflow;
      total := newTotal;
      weights := weights + [Weight(kind, node, amount)];
    }

    /** Afterwards there is one positive weight per target, each the rounded share of the combined
        weight c it comes from, and the total is their exact sum. It fits 32 bits exactly when the
        amounts going to each target, saturated, rounded and counted at least once, do. */
    method Normalize() returns (ghost c: seq<Weight>)
      requires Valid() && Proper(weights)
      modifies this
      ensures IsNormalized(old(weights), c, weights) && total == TotalAmount(weights)
      ensures DistinctTargets(weights) && forall t :: HasTarget(weights, t) <==> HasTarget(old(weights), t)
      ensures AllPositive(Amounts(weights))
      ensures total <= MAX32 <==> Fits(old(weights))
    {
      hide IsCombination, Scaled, ShiftFor, Proper, Demand, Targets, HalfFor;
      c := weights;
      if weights == [] {
        return;
      }
      if |weights| > 1 {
        weights := CombineWeights(weights);
      } else {
        DistinctIsCombined(weights);
      }
      c := weights;
      CombinationIsPositive(old(weights), c);
      CombinationCount(old(weights), c);
      if |weights| == 1 {
        total := 1;
        weights := [weights[0].(amount := 1)];
        SameTargets(c, weights);
        return;
      }
      CombinationTotal(old(weights), c);
      var shift := ShiftFor(total, didOverflow);
      Unshifted(total, didOverflow);
      if shift == 0 {
        return;
      }
      ScaleAll(shift);
      SameTargets(c, weights);
      ScaledIsPositive(c, shift);
      ScaledFits(old(weights), c, shift);
    }

    /** Shift every weight and recompute the total by accumulation. */
    method ScaleAll(shift: nat)
      modifies this`weights, this`total
      ensures weights == ScaledWeights(old(weights), shift) && total == TotalAmount(weights)
    {
      hide Scaled;
      ghost var c := weights;
      ghost var r := ScaledWeights(c, shift);
      total := 0;
      for k := 0 to |weights|
        invariant |weights| == |c| && weights == r[..k] + c[k..]
        invariant total == TotalAmount(r[..k])
      {
        ScaleStep(c, r, k);
        var w := weights[k].(amount := Scaled(weights[k].amount, shift));
        weights := weights[k := w];
        total := total + w.amount;
      }
      assert r[..|c|] == r;
    }
  }

  lemma ScaleStep(c: seq<Weight>, r: seq<Weight>, k: nat)
    requires |c| == |r| && k < |c|
    ensures (r[..k] + c[k..])[k] == c[k]
    ensures (r[..k] + c[k..])[k := r[k]] == r[..k + 1] + c[k + 1..]
    ensures TotalAmount(r[..k + 1]) == TotalAmount(r[..k]) + r[k].amount
  {
    assert r[..k + 1] == r[..k] + [r[k]];
    TotalAppend(r[..k], [r[k]]);
  }

  lemma ScaledIsPositive(c: seq<Weight>, shift: nat)
    requires AllPositive(Amounts(c)) && shift > 0
    ensures AllPositive(Amounts(ScaledWeights(c, shift)))
  {
    hide ShiftRightAndRound;
    forall k | 0 <= k < |c| ensures ScaledWeights(c, shift)[k].amount > 0 {}
  }

  /** A wrapped 64-bit sum is smaller than its first operand, and only a wrapped one. */
  lemma AddWraps(sum: nat, amount: nat)
    requires amount <= MAX64
    ensures (sum % TWO64 + amount) % TWO64 == (sum + amount) % TWO64
    ensures (sum % TWO64 + amount) % TWO64 < sum % TWO64 <==> sum % TWO64 + amount > MAX64
  {
  }

  lemma CombinationIsPositive(ws: seq<Weight>, c: seq<Weight>)
    requires Proper(ws) && ws != [] && IsCombination(ws, c)
    ensures c != [] && AllPositive(Amounts(c))
  {
    assert HasTarget(ws, ws[0].target);
    assert HasTarget(c, ws[0].target);
    forall k | 0 <= k < |c| ensures c[k].amount > 0 {
      AmountToPositive(ws, c[k].target);
      assert HasTarget(c, c[k].target);
    }
  }

  lemma SameTargets(a: seq<Weight>, b: seq<Weight>)
    requires |a| == |b| && forall k :: 0 <= k < |a| ==> a[k].target == b[k].target
    ensures forall t :: HasTarget(a, t) <==> HasTarget(b, t)
    ensures DistinctTargets(a) ==> DistinctTargets(b)
  {
    forall t ensures HasTarget(a, t) <==> HasTarget(b, t) {
      if HasTarget(a, t) { var k :| 0 <= k < |a| && a[k].target == t; assert b[k].target == t; }
      if HasTarget(b, t) { var k :| 0 <= k < |b| && b[k].target == t; assert a[k].target == t; }
    }
  }
}
