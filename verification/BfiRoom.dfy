// When the weights of a distribution, scaled down, still fit 32 bits: exactly, by the weights given, and
// exactly, by their sum and number of targets alone.
module BfiRoom {
  import opened Arithmetic
  import opened BfiProbability
  import opened BfiDither
  import opened BfiWeights
  import opened BfiCombine
  import opened BfiScaling

  /** An amount rounded to the nearest multiple of twice half, and counted at least once. */
  function RoundedShare(amount: nat, half: nat): (r: nat)
    requires half > 0
    ensures r >= 1
  {
    if (amount + half) / (2 * half) < 1 then 1 else (amount + half) / (2 * half)
  }

  function RoundedTotal(c: seq<Weight>, half: nat): nat
    requires half > 0
  {
    if c == [] then 0 else RoundedShare(c[0].amount, half) + RoundedTotal(c[1..], half)
  }

  /** The same for weights not yet combined: one share per target, of the saturated sum going there. */
  function Demand(ws: seq<Weight>, half: nat): nat
    requires half > 0
    decreases |ws|
  {
    if ws == [] then 0
    else
      var t := ws[0].target;
      WithoutShorter(ws[1..], t);
      RoundedShare(Min(MAX64, AmountTo(ws, t)), half) + Demand(Without(ws, t), half)
  }

  lemma WithoutShorter(ws: seq<Weight>, t: nat)
    ensures |Without(ws, t)| <= |ws|
  {
  }

  /** Half the unit that amounts are rounded to when their true sum does not fit 32 bits. */
  function HalfFor(sum: nat): (half: nat)
    requires MAX32 < sum
    ensures half > 0
  {
    if sum > MAX64 then TWO32 else (Unshifted(sum, false); Pow2(ShiftFor(sum, false) - 1))
  }

  /** Does the total of the weights fit 32 bits after normalizing? */
  ghost predicate Fits(ws: seq<Weight>) {
    TotalAmount(ws) <= MAX32 || |Targets(ws)| <= 1 || Demand(ws, HalfFor(TotalAmount(ws))) <= MAX32
  }

  /** The same told by the true sum and the number of targets alone. */
  predicate Roomy(sum: nat, n: nat) {
    || sum <= MAX32
    || n <= 1
    || if sum > MAX64 then n <= 0x8000_0000 && sum + (n - 1) * (2 * TWO32) < 2 * TWO64 + n - 2
       else n < TWO32 && sum < (TWO32 - n) * (2 * HalfFor(sum)) + HalfFor(sum) + n - 1
  }

  // -------------------------------------------------- shares and scaling

  lemma ScaledIsShare(amount: nat, shift: nat)
    requires shift > 0
    ensures Scaled(amount, shift) == RoundedShare(amount, Pow2(shift - 1))
  {
    var half, s := Pow2(shift - 1), ShiftRightAndRound(amount, shift);
    ShiftRounds(amount, shift);
    DivideUnique(amount + half, 2 * half, s, amount + half - 2 * half * s);
  }

  lemma {:induction false} ScaledTotal(c: seq<Weight>, shift: nat)
    requires shift > 0
    ensures TotalAmount(ScaledWeights(c, shift)) == RoundedTotal(c, Pow2(shift - 1))
  {
    hide RoundedShare, Scaled, Pow2;
    if c != [] {
      ScaledTotal(c[1..], shift);
      assert ScaledWeights(c, shift)[1..] == ScaledWeights(c[1..], shift);
      ScaledIsShare(c[0].amount, shift);
    }
  }

  // ----------------------------------------------- demand of a combination

  lemma {:induction false} RoundedTotalRemove(c: seq<Weight>, i: nat, half: nat)
    requires i < |c| && half > 0
    ensures RoundedTotal(c, half) == RoundedShare(c[i].amount, half) + RoundedTotal(Removed(c, i), half)
  {
    hide RoundedShare;
    var r := Removed(c, i);
    if i == 0 {
      assert r == c[1..];
    } else {
      RoundedTotalRemove(c[1..], i - 1, half);
      assert r[0] == c[0] && r[1..] == Removed(c[1..], i - 1);
    }
  }

  function Removed(c: seq<Weight>, i: nat): (r: seq<Weight>)
    requires i < |c|
    ensures |r| == |c| - 1
  {
    c[..i] + c[i + 1..]
  }

  lemma RemovedAt(c: seq<Weight>, i: nat, k: nat)
    requires i < |c| && k < |c| - 1
    ensures Removed(c, i)[k] == c[if k < i then k else k + 1]
  {
  }

  lemma RemovedTargets(c: seq<Weight>, i: nat, x: nat)
    requires i < |c| && DistinctTargets(c)
    ensures HasTarget(Removed(c, i), x) <==> x != c[i].target && HasTarget(c, x)
  {
    var r := Removed(c, i);
    if HasTarget(r, x) {
      var k: nat :| k < |r| && r[k].target == x;
      RemovedAt(c, i, k);
      assert c[if k < i then k else k + 1].target == x;
    }
    if x != c[i].target && HasTarget(c, x) {
      var j: nat :| j < |c| && c[j].target == x;
      RemovedAt(c, i, if j < i then j else j - 1);
      assert r[if j < i then j else j - 1].target == x;
    }
  }

  lemma RemoveCombined(ws: seq<Weight>, c: seq<Weight>, i: nat)
    requires IsCombination(ws, c) && i < |c|
    ensures IsCombination(Without(ws, c[i].target), Removed(c, i))
  {
    var t, r := c[i].target, Removed(c, i);
    var rest := Without(ws, t);
    WithoutAmounts(ws, t);
    assert DistinctTargets(r) by {
      forall a: nat, b: nat | a < b < |r| ensures r[a].target != r[b].target {
        RemovedAt(c, i, a);
        RemovedAt(c, i, b);
      }
    }
    forall k: nat | k < |r|
      ensures r[k].amount == Min(MAX64, AmountTo(rest, r[k].target)) && HasKind(rest, r[k].target, r[k].kind)
    {
      RemovedAt(c, i, k);
      var j := if k < i then k else k + 1;
      assert c[j].target != t && HasKind(ws, c[j].target, c[j].kind);
      WithoutKinds(ws, t, c[j].target, c[j].kind);
    }
    forall x ensures HasTarget(r, x) <==> HasTarget(rest, x) {
      hide HasTarget;
      RemovedTargets(c, i, x);
      WithoutTargets(ws, t, x);
    }
  }

  lemma {:induction false} WithoutTargets(ws: seq<Weight>, t: nat, x: nat)
    ensures HasTarget(Without(ws, t), x) <==> x != t && HasTarget(ws, x)
  {
    if ws != [] {
      WithoutTargets(ws[1..], t, x);
      var head, rest := if ws[0].target == t then [] else [ws[0]], Without(ws[1..], t);
      ConcatTargets(head, rest, x);
      ConcatTargets([ws[0]], ws[1..], x);
      assert ws == [ws[0]] + ws[1..];
      assert HasTarget([ws[0]], x) <==> ws[0].target == x by { assert [ws[0]][0].target == ws[0].target; }
      assert head != [] ==> head[0].target == ws[0].target;
    }
  }

  lemma ConcatTargets(a: seq<Weight>, b: seq<Weight>, x: nat)
    ensures HasTarget(a + b, x) <==> HasTarget(a, x) || HasTarget(b, x)
  {
    if HasTarget(a, x) { var k :| 0 <= k < |a| && a[k].target == x; assert (a + b)[k].target == x; }
    if HasTarget(b, x) { var k :| 0 <= k < |b| && b[k].target == x; assert (a + b)[|a| + k].target == x; }
  }

  lemma {:induction false} WithoutKinds(ws: seq<Weight>, t: nat, x: nat, kind: DistType)
    requires x != t && HasKind(ws, x, kind)
    ensures HasKind(Without(ws, t), x, kind)
  {
    var k :| 0 <= k < |ws| && ws[k].target == x && ws[k].kind == kind;
    var head, rest := if ws[0].target == t then [] else [ws[0]], Without(ws[1..], t);
    if k == 0 {
      assert Without(ws, t)[0] == ws[0];
    } else {
      assert ws[1..][k - 1].target == x;
      WithoutKinds(ws[1..], t, x, kind);
      var j :| 0 <= j < |rest| && rest[j].target == x && rest[j].kind == kind;
      assert Without(ws, t)[|head| + j] == rest[j];
    }
  }

  /** However the weights were combined, the rounded total is their demand. */
  lemma {:induction false} DemandOfCombination(ws: seq<Weight>, c: seq<Weight>, half: nat)
    requires IsCombination(ws, c) && half > 0
    ensures RoundedTotal(c, half) == Demand(ws, half)
    decreases |ws|
  {
    hide RoundedShare;
    if ws == [] {
      FirstTarget(c);
    } else {
      var t := ws[0].target;
      assert HasTarget(ws, t);
      assert HasTarget(c, t);
      var i :| 0 <= i < |c| && c[i].target == t;
      WithoutShorter(ws[1..], t);
      RoundedTotalRemove(c, i, half);
      RemoveCombined(ws, c, i);
      DemandOfCombination(Without(ws, t), Removed(c, i), half);
    }
  }

  lemma FirstTarget(c: seq<Weight>)
    ensures c != [] ==> HasTarget(c, c[0].target)
  {
  }

  /** Scaled or not, several targets fit exactly when their demand does. */
  lemma ScaledFits(ws: seq<Weight>, c: seq<Weight>, shift: nat)
    requires Proper(ws) && IsCombination(ws, c) && |c| > 1 && TotalAmount(ws) < 2 * TWO64
    requires shift == ShiftFor(TotalAmount(ws) % TWO64, TotalAmount(ws) > MAX64) > 0
    ensures TotalAmount(ScaledWeights(c, shift)) <= MAX32 <==> Fits(ws)
  {
    var sum := TotalAmount(ws);
    Unshifted(sum % TWO64, sum > MAX64);
    assert sum > MAX32;
    if sum > MAX64 { Pow2Values(); }
    assert HalfFor(sum) == Pow2(shift - 1);
    CombinationCount(ws, c);
    ScaledTotal(c, shift);
    DemandOfCombination(ws, c, HalfFor(sum));
  }

  // ------------------------------------------------------- room suffices

  /** The entries that count more than once. */
  function Bigs(c: seq<Weight>, half: nat): nat
    requires half > 0
  {
    if c == [] then 0 else (if RoundedShare(c[0].amount, half) >= 2 then 1 else 0) + Bigs(c[1..], half)
  }

  /** A share of f costs at least f units less a half, a share of one at least one. */
  lemma ShareCosts(amount: nat, half: nat)
    requires amount > 0 && half > 0
    ensures var f := RoundedShare(amount, half);
            if f >= 2 then amount + half >= f * (2 * half) else f == 1
  {
    DivisionIs(amount + half, 2 * half);
  }

  lemma {:induction false} SumBound(c: seq<Weight>, half: nat)
    requires half > 0 && AllPositive(Amounts(c))
    ensures Bigs(c, half) <= |c| <= RoundedTotal(c, half)
    ensures Bigs(c, half) == 0 ==> RoundedTotal(c, half) == |c|
    ensures TotalAmount(c) + |c| * (2 * half) >= RoundedTotal(c, half) * (2 * half) + Bigs(c, half) * half
            + |c| - Bigs(c, half)
  {
    if c != [] {
      var a, rest := c[0].amount, c[1..];
      assert a == Amounts(c)[0];
      forall k | 0 <= k < |rest| ensures Amounts(rest)[k] > 0 { assert Amounts(rest)[k] == Amounts(c)[k + 1]; }
      ShareCosts(a, half);
      hide RoundedShare;
      SumBound(rest, half);
      AddCost(a, RoundedShare(a, half), TotalAmount(rest), RoundedTotal(rest, half), Bigs(rest, half), |rest|, half);
    }
  }

  lemma AddCost(a: nat, f: nat, sum: nat, total: nat, bigs: nat, n: nat, half: nat)
    requires a > 0 && (if f >= 2 then a + half >= f * (2 * half) else f == 1)
    requires sum + n * (2 * half) >= total * (2 * half) + bigs * half + n - bigs
    ensures var m := bigs + (if f >= 2 then 1 else 0);
            a + sum + (n + 1) * (2 * half) >= (f + total) * (2 * half) + m * half + n + 1 - m
  {
    var b := 2 * half;
    assert (n + 1) * b == n * b + b && (f + total) * b == f * b + total * b;
    assert (bigs + 1) * half == bigs * half + half;
  }

  lemma {:induction false} BigsBound(c: seq<Weight>)
    requires forall k :: 0 <= k < |c| ==> c[k].amount <= MAX64
    ensures RoundedTotal(c, TWO32) + Bigs(c, TWO32) <= |c| + Bigs(c, TWO32) * 0x8000_0000
  {
    if c != [] { BigsBound(c[1..]); }
  }

  lemma EnoughRoom(sum: nat, n: nat, part: nat, total: nat, bigs: nat, half: nat)
    requires MAX32 < sum && half == HalfFor(sum) && 1 < n && Roomy(sum, n) && part <= sum
    requires bigs <= n <= total && part + n * (2 * half) >= total * (2 * half) + bigs * half + n - bigs
    requires bigs == 0 ==> total == n
    requires sum > MAX64 ==> total + bigs <= n + bigs * 0x8000_0000
    ensures total <= MAX32
  {
    if sum > MAX64 { HalfOfOverflow(sum); }
    hide HalfFor;
    if total > MAX32 {
      MultiplyMonotone(TWO32, total, 2 * half);
      if sum > MAX64 {
        assert bigs >= 2;
        OverflowArithmetic(sum, n, part, bigs);
      } else {
        assert bigs >= 1;
        ShiftArithmetic(sum, n, part, bigs, half);
      }
    }
  }

  lemma OverflowArithmetic(sum: nat, n: nat, part: nat, bigs: nat)
    requires 2 <= bigs <= n && part <= sum && part + n * (2 * TWO32) >= TWO32 * (2 * TWO32) + bigs * TWO32 + n - bigs
    ensures sum + (n - 1) * (2 * TWO32) >= 2 * TWO64 + n - 2
  {
  }

  lemma ShiftArithmetic(sum: nat, n: nat, part: nat, bigs: nat, half: nat)
    requires 1 <= bigs <= n < TWO32 && half > 0
    requires part <= sum && part + n * (2 * half) >= TWO32 * (2 * half) + bigs * half + n - bigs
    ensures sum >= (TWO32 - n) * (2 * half) + half + n - 1
  {
    var b := 2 * half;
    assert (TWO32 - n) * b == TWO32 * b - n * b;
    MultiplyMonotone(1, bigs, half - 1);
    assert bigs * half - bigs == bigs * (half - 1);
  }

  /** Up to 2^31 targets always leave room for a sum of 64 bits. */
  lemma FewTargetsAreRoomy(sum: nat, n: nat)
    requires sum <= MAX64 && n <= 0x8000_0000
    ensures Roomy(sum, n)
  {
    if sum > MAX32 && n > 1 {
      ShiftLeavesRoom(sum);
      var half := HalfFor(sum);
      assert Pow2(ShiftFor(sum, false)) == 2 * half;
      Pow2Values();
      hide HalfFor, Pow2;
      MultiplyMonotone(0x8000_0000, TWO32 - n, 2 * half);
    }
  }

  /** Whatever the weights are, room for their sum and number of targets is enough. */
  lemma RoomSuffices(ws: seq<Weight>)
    requires Proper(ws) && Roomy(TotalAmount(ws), |Targets(ws)|)
    ensures Fits(ws)
  {
    var sum, n := TotalAmount(ws), |Targets(ws)|;
    if sum <= MAX32 || n <= 1 { return; }
    var half := HalfFor(sum);
    hide Roomy, HalfFor;
    var c := SomeCombination(ws);
    CombinationTotal(ws, c);
    CombinationCount(ws, c);
    DemandOfCombination(ws, c, half);
    SumBound(c, half);
    hide IsCombination, Demand, RoundedTotal, Bigs;
    if sum > MAX64 {
      assert half == TWO32 by { HalfOfOverflow(sum); }
      BigsBound(c);
    }
    EnoughRoom(sum, n, TotalAmount(c), RoundedTotal(c, half), Bigs(c, half), half);
  }

  lemma HalfOfOverflow(sum: nat)
    requires sum > MAX64
    ensures HalfFor(sum) == TWO32
  {
  }

  lemma {:induction false} SomeCombination(ws: seq<Weight>) returns (c: seq<Weight>)
    requires Proper(ws)
    ensures IsCombination(ws, c)
  {
    var table := SomeTable(ws);
    c := TableEntries(table);
    TableIsCombination(ws, table, c);
  }

  lemma {:induction false} SomeTable(ws: seq<Weight>) returns (table: map<nat, Weight>)
    requires Proper(ws)
    ensures TableFor(ws, table)
  {
    if ws == [] {
      table := map[];
    } else {
      var n := |ws| - 1;
      ProperPrefix(ws, n);
      table := SomeTable(ws[..n]);
      assert ws == ws[..n] + [ws[n]];
      TableStep(ws[..n], ws[n], table);
      var w := ws[n];
      table := table[w.target := CombineWeight(if w.target in table then table[w.target] else NO_WEIGHT, w)];
    }
  }

  lemma {:induction false} TableEntries(table: map<nat, Weight>) returns (c: seq<Weight>)
    requires forall t :: t in table ==> table[t].target == t
    ensures DistinctTargets(c)
    ensures forall w :: w in c <==> w.target in table && table[w.target] == w
    decreases |table|
  {
    if table == map[] {
      c := [];
    } else {
      var t :| t in table;
      var smaller := table - {t};
      assert smaller.Keys == table.Keys - {t};
      c := TableEntries(smaller);
      assert forall k :: 0 <= k < |c| ==> c[k] in c;
      c := [table[t]] + c;
    }
  }

  lemma CombinationCount(ws: seq<Weight>, c: seq<Weight>)
    requires Proper(ws) && IsCombination(ws, c)
    ensures |c| == |Targets(ws)| && AllPositive(Amounts(c)) && forall k :: 0 <= k < |c| ==> c[k].amount <= MAX64
  {
    forall k | 0 <= k < |c| ensures c[k].amount > 0 {
      assert HasTarget(c, c[k].target);
      AmountToPositive(ws, c[k].target);
    }
    CountTargets(c);
    forall t ensures t in Targets(c) <==> t in Targets(ws) {
      TargetsAre(c, t);
      TargetsAre(ws, t);
    }
    assert Targets(c) == Targets(ws);
  }

  lemma {:induction false} CountTargets(ws: seq<Weight>)
    requires DistinctTargets(ws)
    ensures |Targets(ws)| == |ws|
  {
    if ws != [] {
      var rest := ws[1..];
      assert ws == [ws[0]] + rest;
      assert DistinctTargets(rest);
      CountTargets(rest);
      assert Targets(ws) == {ws[0].target} + Targets(rest);
    }
  }

  // --------------------------------------------------- room is needed

  /** An amount of any size going to one target. */
  function Chunks(t: nat, amount: nat): (r: seq<Weight>)
    requires amount > 0
    ensures r != [] && forall k :: 0 <= k < |r| ==> r[k].kind == Local && r[k].target == t && 0 < r[k].amount <= MAX64
    ensures TotalAmount(r) == amount && AmountTo(r, t) == amount
  {
    if amount <= MAX64 then [Weight(Local, t, amount)]
    else
      var rest := Chunks(t, amount - MAX64);
      assert ([Weight(Local, t, MAX64)] + rest)[1..] == rest;
      [Weight(Local, t, MAX64)] + rest
  }

  /** One unit for each of k targets from t on. */
  function Ones(t: nat, k: nat): seq<Weight>
    decreases k
  {
    if k == 0 then [] else [Weight(Local, t, 1)] + Ones(t + 1, k - 1)
  }

  lemma {:induction false} OnesAre(t: nat, k: nat)
    ensures |Ones(t, k)| == k && TotalAmount(Ones(t, k)) == k
    ensures forall j :: 0 <= j < k ==> Ones(t, k)[j] == Weight(Local, t + j, 1)
    ensures Plain(Ones(t, k), t, t + k)
    decreases k
  {
    if k > 0 {
      OnesAre(t + 1, k - 1);
      assert Ones(t, k)[1..] == Ones(t + 1, k - 1);
    }
  }

  lemma {:induction false} WithoutOthers(a: seq<Weight>, b: seq<Weight>, t: nat)
    requires forall k :: 0 <= k < |a| ==> a[k].target == t
    requires forall k :: 0 <= k < |b| ==> b[k].target != t
    ensures Without(a + b, t) == b
    decreases |a| + |b|
  {
    if a != [] {
      assert (a + b)[1..] == a[1..] + b;
      WithoutOthers(a[1..], b, t);
    } else if b != [] {
      assert a + b == b && [] + b[1..] == b[1..];
      WithoutOthers([], b[1..], t);
    }
  }

  /** Local weights to targets in a range. */
  predicate Plain(ws: seq<Weight>, lo: nat, hi: nat) {
    forall k :: 0 <= k < |ws| ==> ws[k].kind == Local && 0 < ws[k].amount <= MAX64 && lo <= ws[k].target < hi
  }

  lemma PlainConcat(a: seq<Weight>, b: seq<Weight>, lo: nat, mid: nat, hi: nat)
    requires lo <= mid <= hi && Plain(a, lo, mid) && Plain(b, mid, hi)
    ensures Plain(a + b, lo, hi) && Proper(a + b)
  {
  }

  lemma DemandStep(ws: seq<Weight>, t: nat, half: nat)
    requires half > 0 && ws != [] && ws[0].target == t
    ensures Demand(ws, half) == RoundedShare(Min(MAX64, AmountTo(ws, t)), half) + Demand(Without(ws, t), half)
  {
    hide RoundedShare, AmountTo;
  }

  predicate AllTo(a: seq<Weight>, t: nat) {
    forall k :: 0 <= k < |a| ==> a[k].target == t
  }

  predicate NoneTo(b: seq<Weight>, t: nat) {
    forall k :: 0 <= k < |b| ==> b[k].target != t
  }

  lemma SplitParts(a: seq<Weight>, b: seq<Weight>, t: nat)
    requires a != [] && AllTo(a, t) && NoneTo(b, t)
    ensures Without(a + b, t) == b && AmountTo(a + b, t) == AmountTo(a, t) && (a + b)[0].target == t
  {
    assert !HasTarget(b, t);
    hide Without, AmountTo, HasTarget;
    WithoutOthers(a, b, t);
    AmountToAppend(a, b, t);
    AmountToZero(b, t);
  }

  lemma SplitDemand(a: seq<Weight>, b: seq<Weight>, t: nat, half: nat)
    requires half > 0 && a != [] && AllTo(a, t) && NoneTo(b, t)
    ensures Demand(a + b, half) == RoundedShare(Min(MAX64, AmountTo(a, t)), half) + Demand(b, half)
  {
    hide RoundedShare, Without, AmountTo, Demand, AllTo, NoneTo;
    SplitParts(a, b, t);
    DemandStep(a + b, t, half);
  }

  lemma SplitTargets(a: seq<Weight>, b: seq<Weight>, t: nat)
    requires a != [] && AllTo(a, t) && NoneTo(b, t)
    ensures |Targets(a + b)| == 1 + |Targets(b)|
  {
    forall x ensures x in Targets(a + b) <==> x in {t} + Targets(b) {
      TargetsAre(a + b, x);
      TargetsAre(b, x);
      ConcatTargets(a, b, x);
      if x == t { assert a[0].target == t; }
    }
    assert Targets(a + b) == {t} + Targets(b);
    TargetsAre(b, t);
  }

  /** Weights to one target, and weights to later ones. */
  lemma DemandSplits(a: seq<Weight>, b: seq<Weight>, t: nat, hi: nat, half: nat)
    requires half > 0 && a != [] && t < hi && Plain(a, t, t + 1) && Plain(b, t + 1, hi)
    ensures Demand(a + b, half) == RoundedShare(Min(MAX64, AmountTo(a, t)), half) + Demand(b, half)
    ensures |Targets(a + b)| == 1 + |Targets(b)| && Plain(a + b, t, hi) && Proper(a + b)
    ensures TotalAmount(a + b) == TotalAmount(a) + TotalAmount(b)
  {
    PlainConcat(a, b, t, t + 1, hi);
    TotalAppend(a, b);
    SplitTargets(a, b, t);
    SplitDemand(a, b, t, half);
  }

  lemma {:induction false} OnesDemand(t: nat, k: nat, half: nat)
    requires half > 0
    ensures Demand(Ones(t, k), half) >= k && |Targets(Ones(t, k))| == k
    decreases k
  {
    if k > 0 {
      OnesDemand(t + 1, k - 1, half);
      OnesAre(t + 1, k - 1);
      hide RoundedShare;
      DemandSplits([Weight(Local, t, 1)], Ones(t + 1, k - 1), t, t + k, half);
    }
  }

  /** One target with most of the sum, and one unit for each of k others. */
  function OneBig(x: nat, k: nat): seq<Weight>
    requires x > 0
  {
    Chunks(0, x) + Ones(1, k)
  }

  lemma OneBigIs(x: nat, k: nat, half: nat)
    requires x > 0 && half > 0
    ensures var ws := OneBig(x, k);
            && Proper(ws) && TotalAmount(ws) == x + k && |Targets(ws)| == k + 1
            && Demand(ws, half) >= RoundedShare(Min(MAX64, x), half) + k
  {
    var a, b := Chunks(0, x), Ones(1, k);
    OnesAre(1, k);
    OnesDemand(1, k, half);
    assert Plain(a, 0, 1);
    hide RoundedShare, Demand, Chunks, Ones, Plain, Proper, TotalAmount, AmountTo, Targets;
    DemandSplits(a, b, 0, k + 1, half);
  }

  /** Two targets with most of the sum, and one unit for each of k others. */
  function TwoBig(x: nat, y: nat, k: nat): seq<Weight>
    requires x > 0 && y > 0
  {
    Chunks(0, x) + (Chunks(1, y) + Ones(2, k))
  }

  lemma TwoBigIs(x: nat, y: nat, k: nat, half: nat)
    requires x > 0 && y > 0 && half > 0
    ensures var ws := TwoBig(x, y, k);
            && Proper(ws) && TotalAmount(ws) == x + y + k && |Targets(ws)| == k + 2
            && Demand(ws, half) >= RoundedShare(Min(MAX64, x), half) + RoundedShare(Min(MAX64, y), half) + k
  {
    var a, b, c := Chunks(0, x), Chunks(1, y), Ones(2, k);
    OnesAre(2, k);
    OnesDemand(2, k, half);
    assert Plain(a, 0, 1) && Plain(b, 1, 2);
    hide RoundedShare, Demand, Chunks, Ones, Plain, Proper, TotalAmount, AmountTo, Targets;
    DemandSplits(b, c, 1, k + 2, half);
    DemandSplits(a, b + c, 0, k + 2, half);
  }

  /** Just enough to count as 2^31 units of 2^33. */
  const ALMOST: nat := TWO64 - TWO32

  lemma ShareAtLeast(amount: nat, half: nat, f: nat)
    requires half > 0 && amount + half >= f * (2 * half)
    ensures RoundedShare(amount, half) >= f
  {
    QuotientAtLeast(amount + half, 2 * half, f);
  }

  lemma BigShare(sum: nat, n: nat, half: nat)
    requires MAX32 < sum < 2 * TWO64 && 1 < n <= sum && half == HalfFor(sum) && !Roomy(sum, n)
    requires sum > MAX64 ==> n > 0x8000_0000
    ensures RoundedShare(Min(MAX64, sum - (n - 1)), half) + n - 1 > MAX32
  {
    var amount := Min(MAX64, sum - (n - 1));
    if n < TWO32 {
      if sum > MAX64 {
        HalfOfOverflow(sum);
        hide HalfFor, RoundedShare, Roomy;
        ShareAtLeast(amount, half, 0x8000_0000);
      } else {
        assert sum >= (TWO32 - n) * (2 * half) + half + n - 1;
        hide HalfFor, RoundedShare, Roomy;
        assert (TWO32 - n + 1) * (2 * half) == (TWO32 - n) * (2 * half) + 2 * half;
        ShareAtLeast(amount, half, TWO32 - n + 1);
      }
    }
  }

  lemma TwoShares(sum: nat, n: nat)
    requires MAX64 < sum < 2 * TWO64 && 2 <= n <= 0x8000_0000 && sum + (n - 1) * (2 * TWO32) >= 2 * TWO64 + n - 2
    ensures sum >= ALMOST + n
    ensures RoundedShare(Min(MAX64, ALMOST), TWO32) + RoundedShare(Min(MAX64, sum - ALMOST - (n - 2)), TWO32)
            + n - 2 > MAX32
  {
    hide RoundedShare;
    ShareAtLeast(ALMOST, TWO32, 0x8000_0000);
    ShareAtLeast(Min(MAX64, sum - ALMOST - (n - 2)), TWO32, 0x8000_0000 - n + 2);
  }

  /** Without room, some weights with that sum and that many targets do not fit: the condition is exact. */
  lemma RoomIsNeeded(sum: nat, n: nat) returns (ws: seq<Weight>)
    requires n <= sum < 2 * TWO64 && !Roomy(sum, n)
    ensures Proper(ws) && TotalAmount(ws) == sum && |Targets(ws)| == n && !Fits(ws)
  {
    hide RoundedShare, OneBig, TwoBig, Demand, Proper, Targets, TotalAmount;
    var half := HalfFor(sum);
    if sum > MAX64 && n <= 0x8000_0000 {
      HalfOfOverflow(sum);
      TwoShares(sum, n);
      var rest := sum - ALMOST - (n - 2);
      TwoBigIs(ALMOST, rest, n - 2, half);
      ws := TwoBig(ALMOST, rest, n - 2);
    } else {
      OneBigIs(sum - (n - 1), n - 1, half);
      BigShare(sum, n, half);
      ws := OneBig(sum - (n - 1), n - 1);
    }
  }
}
