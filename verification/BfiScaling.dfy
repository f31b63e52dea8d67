// Scaling combined weights down so that their total fits 32 bits.
module BfiScaling {
  import opened Arithmetic
  import opened BfiDither
  import opened BfiWeights
  import opened BfiCombine

  // ------------------------------------------------------------- shifting

  /** 64 minus countLeadingZeros. */
  function BitLength(n: nat): nat {
    if n == 0 then 0 else 1 + BitLength(n / 2)
  }

  lemma {:induction false} BitLengthBounds(n: nat)
    requires n > 0
    ensures Pow2(BitLength(n) - 1) <= n < Pow2(BitLength(n))
  {
    if n > 1 { BitLengthBounds(n / 2); }
  }

  function ShiftRight(n: nat, k: nat): nat {
    if k == 0 then n else ShiftRight(n, k - 1) / 2
  }

  lemma {:induction false} ShiftRightDivides(n: nat, k: nat) returns (rem: nat)
    ensures n == ShiftRight(n, k) * Pow2(k) + rem && rem < Pow2(k)
  {
    if k == 0 {
      rem := 0;
    } else {
      var r := ShiftRightDivides(n, k - 1);
      var q, h := ShiftRight(n, k - 1), Pow2(k - 1);
      rem := q % 2 * h + r;
      assert q * h == q / 2 * (2 * h) + q % 2 * h by { assert q == q / 2 * 2 + q % 2; HalveProduct(q / 2, q % 2, h); }
      if q % 2 == 0 { assert q % 2 * h == 0; } else { assert q % 2 * h == h; }
    }
  }

  lemma HalveProduct(a: nat, b: nat, h: nat)
    ensures (a * 2 + b) * h == a * (2 * h) + b * h
  {
  }

  /** Shift right and add the last bit shifted out. */
  function ShiftRightAndRound(n: nat, shift: nat): nat {
    if shift == 0 then n else ShiftRight(n, shift) + ShiftRight(n, shift - 1) % 2
  }

  /** This is division by the power of two, rounded to nearest with halves up. */
  lemma ShiftRounds(n: nat, shift: nat)
    requires shift > 0
    ensures Pow2(shift) * ShiftRightAndRound(n, shift) <= n + Pow2(shift - 1)
    ensures n + Pow2(shift - 1) < Pow2(shift) * ShiftRightAndRound(n, shift) + Pow2(shift)
  {
    var h, q := Pow2(shift - 1), ShiftRight(n, shift - 1);
    var rem := ShiftRightDivides(n, shift - 1);
    RoundingArithmetic(n, q, h, rem);
  }

  lemma RoundingArithmetic(n: nat, q: nat, h: nat, rem: nat)
    requires n == q * h + rem && rem < h
    ensures 2 * h * (q / 2 + q % 2) <= n + h < 2 * h * (q / 2 + q % 2) + 2 * h
  {
    var q2 := q / 2;
    if q % 2 == 0 {
      assert q * h == 2 * h * q2 by { assert q == 2 * q2; }
    } else {
      assert q * h == 2 * h * q2 + h by { assert q == 2 * q2 + 1; }
      assert 2 * h * (q2 + 1) == 2 * h * q2 + 2 * h;
    }
  }

  /** What a weight becomes: never below one. */
  function Scaled(amount: nat, shift: nat): nat {
    if ShiftRightAndRound(amount, shift) < 1 then 1 else ShiftRightAndRound(amount, shift)
  }

  // --------------------------------------------------------- distributions

  function Amounts(ws: seq<Weight>): seq<nat> {
    seq(|ws|, k requires 0 <= k < |ws| => ws[k].amount)
  }

  lemma {:induction false} TotalIsSum(ws: seq<Weight>)
    ensures TotalAmount(ws) == Sum(Amounts(ws))
  {
    if ws != [] {
      TotalIsSum(ws[1..]);
      assert Amounts(ws)[1..] == Amounts(ws[1..]);
    }
  }

  lemma {:induction false} TotalAppend(a: seq<Weight>, b: seq<Weight>)
    ensures TotalAmount(a + b) == TotalAmount(a) + TotalAmount(b)
  {
    if a == [] { assert a + b == b; } else { assert (a + b)[1..] == a[1..] + b; TotalAppend(a[1..], b); }
  }

  function Without(ws: seq<Weight>, t: nat): seq<Weight> {
    if ws == [] then [] else (if ws[0].target == t then [] else [ws[0]]) + Without(ws[1..], t)
  }

  lemma {:induction false} WithoutAmounts(ws: seq<Weight>, t: nat)
    ensures TotalAmount(ws) == AmountTo(ws, t) + TotalAmount(Without(ws, t))
    ensures forall x :: x != t ==> AmountTo(Without(ws, t), x) == AmountTo(ws, x)
  {
    if ws != [] {
      WithoutAmounts(ws[1..], t);
      assert Without(ws, t) == (if ws[0].target == t then [] else [ws[0]]) + Without(ws[1..], t);
      if ws[0].target != t { assert Without(ws, t)[1..] == Without(ws[1..], t); }
      else { assert Without(ws, t) == Without(ws[1..], t); }
    }
  }

  /** Entries for distinct targets, each of at most the amount going there, total at most the whole;
      and exactly the whole when each is exact and no target is left out. */
  lemma {:induction false} DistinctTotals(ws: seq<Weight>, r: seq<Weight>)
    requires DistinctTargets(r) && forall k :: 0 <= k < |r| ==> r[k].amount <= AmountTo(ws, r[k].target)
    ensures TotalAmount(r) <= TotalAmount(ws)
    ensures (forall k :: 0 <= k < |r| ==> r[k].amount == AmountTo(ws, r[k].target))
            && (forall x :: !HasTarget(r, x) ==> AmountTo(ws, x) == 0)
            ==> TotalAmount(r) == TotalAmount(ws)
    decreases |r|
  {
    if r == [] {
      if forall x :: !HasTarget(r, x) ==> AmountTo(ws, x) == 0 { NothingTotals(ws); }
    } else {
      var t, ws', r' := r[0].target, Without(ws, r[0].target), r[1..];
      WithoutAmounts(ws, t);
      forall k | 0 <= k < |r'| ensures r'[k].target != t && r'[k].amount <= AmountTo(ws', r'[k].target) {
        assert r'[k] == r[k + 1];
      }
      assert DistinctTargets(r');
      DistinctTotals(ws', r');
      if (forall k :: 0 <= k < |r| ==> r[k].amount == AmountTo(ws, r[k].target))
         && (forall x :: !HasTarget(r, x) ==> AmountTo(ws, x) == 0)
      {
        forall k | 0 <= k < |r'| ensures r'[k].amount == AmountTo(ws', r'[k].target) { assert r'[k] == r[k + 1]; }
        forall x | !HasTarget(r', x) ensures AmountTo(ws', x) == 0 {
          if x == t { WithoutItself(ws, t); } else { HasTargetTail(r, x); }
        }
      }
    }
  }

  lemma HasTargetTail(r: seq<Weight>, x: nat)
    requires r != [] && r[0].target != x
    ensures HasTarget(r, x) <==> HasTarget(r[1..], x)
  {
    if HasTarget(r, x) { var k :| 0 <= k < |r| && r[k].target == x; assert r[1..][k - 1].target == x; }
    if HasTarget(r[1..], x) { var k :| 0 <= k < |r[1..]| && r[1..][k].target == x; assert r[k + 1].target == x; }
  }

  lemma {:induction false} WithoutItself(ws: seq<Weight>, t: nat)
    ensures AmountTo(Without(ws, t), t) == 0
  {
    if ws != [] {
      WithoutItself(ws[1..], t);
      if ws[0].target != t { assert Without(ws, t)[1..] == Without(ws[1..], t); }
      else { assert Without(ws, t) == Without(ws[1..], t); }
    }
  }

  lemma {:induction false} NothingTotals(ws: seq<Weight>)
    requires forall x :: AmountTo(ws, x) == 0
    ensures TotalAmount(ws) == 0
    decreases |ws|
  {
    if ws != [] {
      assert AmountTo(ws, ws[0].target) == ws[0].amount + AmountTo(ws[1..], ws[0].target);
      forall x ensures AmountTo(ws[1..], x) == 0 { assert AmountTo(ws, x) == 0; }
      NothingTotals(ws[1..]);
    }
  }

  /** Combining never increases the total, and keeps it when the true sum fits 64 bits. */
  lemma CombinationTotal(ws: seq<Weight>, r: seq<Weight>)
    requires Proper(ws) && IsCombination(ws, r)
    ensures TotalAmount(r) <= TotalAmount(ws)
    ensures TotalAmount(ws) <= MAX64 ==> TotalAmount(r) == TotalAmount(ws)
  {
    DistinctTotals(ws, r);
    if TotalAmount(ws) <= MAX64 {
      forall k | 0 <= k < |r| ensures r[k].amount == AmountTo(ws, r[k].target) {
        WithoutAmounts(ws, r[k].target);
      }
      forall x | !HasTarget(r, x) ensures AmountTo(ws, x) == 0 {
        AmountToZero(ws, x);
      }
    }
  }

  /** Saturation happens only after the 64-bit total has overflowed. */
  lemma SaturationNeedsOverflow(ws: seq<Weight>, t: nat)
    requires AmountTo(ws, t) > MAX64
    ensures TotalAmount(ws) > MAX64
  {
    WithoutAmounts(ws, t);
  }

  // ------------------------------------------------------------ normalizing

  /** How far to shift right so that the total fits 32 bits: one more than needed. */
  function ShiftFor(total: nat, didOverflow: bool): nat {
    if didOverflow then 33 else if total > MAX32 then (LongTotal(total); BitLength(total) - 31) else 0
  }

  lemma LongTotal(total: nat)
    requires total > MAX32
    ensures BitLength(total) >= 33
  {
    Pow2Values();
    BitLengthBounds(total);
    if BitLength(total) < 33 { Pow2Monotone(BitLength(total), 32); }
  }

  /** The total is shifted to exactly 31 bits. */
  lemma ShiftLeavesRoom(total: nat)
    requires total > MAX32
    ensures ShiftFor(total, false) > 0
    ensures Pow2(30) * Pow2(ShiftFor(total, false)) <= total < Pow2(31) * Pow2(ShiftFor(total, false))
  {
    LongTotal(total);
    BitLengthBounds(total);
    Pow2Add(31, BitLength(total) - 31);
    Pow2Add(30, BitLength(total) - 31);
  }

  function ScaledWeights(ws: seq<Weight>, shift: nat): (r: seq<Weight>)
    ensures |r| == |ws|
  {
    seq(|ws|, k requires 0 <= k < |ws| => ws[k].(amount := Scaled(ws[k].amount, shift)))
  }

  lemma Unshifted(total: nat, didOverflow: bool)
    ensures ShiftFor(total, didOverflow) == 0 <==> !didOverflow && total <= MAX32
  {
    if total > MAX32 { ShiftLeavesRoom(total); }
  }
}
