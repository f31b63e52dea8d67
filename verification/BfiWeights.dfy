// Collecting the weights of edges, and combining those that lead to the same target:
// by sorting and compacting in place, or through a hash table.
module BfiWeights {
  import opened Arithmetic
  import opened BfiProbability

  datatype DistType = Local | Exit | Backedge

  datatype Weight = Weight(kind: DistType, target: nat, amount: nat)

  // -------------------------------------------------------- specification

  /** The total amount going to a target, unbounded. */
  function AmountTo(ws: seq<Weight>, t: nat): nat {
    if ws == [] then 0 else (if ws[0].target == t then ws[0].amount else 0) + AmountTo(ws[1..], t)
  }

  function TotalAmount(ws: seq<Weight>): nat {
    if ws == [] then 0 else ws[0].amount + TotalAmount(ws[1..])
  }

  predicate HasTarget(ws: seq<Weight>, t: nat) {
    exists k :: 0 <= k < |ws| && ws[k].target == t
  }

  predicate HasKind(ws: seq<Weight>, t: nat, kind: DistType) {
    exists k :: 0 <= k < |ws| && ws[k].target == t && ws[k].kind == kind
  }

  /** Amounts are non-zero 64-bit numbers, and edges to one target are of one kind. */
  ghost predicate Proper(ws: seq<Weight>) {
    && (forall k :: 0 <= k < |ws| ==> 0 < ws[k].amount <= MAX64)
    && (forall i, j :: 0 <= i < |ws| && 0 <= j < |ws| && ws[i].target == ws[j].target ==> ws[i].kind == ws[j].kind)
  }

  ghost predicate DistinctTargets(r: seq<Weight>) {
    forall i, j :: 0 <= i < j < |r| ==> r[i].target != r[j].target
  }

  /** One weight per target of ws, with the saturated sum of its amounts. */
  ghost predicate IsCombination(ws: seq<Weight>, r: seq<Weight>) {
    && DistinctTargets(r)
    && (forall t :: HasTarget(r, t) <==> HasTarget(ws, t))
    && (forall k :: 0 <= k < |r| ==>
          r[k].amount == Min(MAX64, AmountTo(ws, r[k].target)) && HasKind(ws, r[k].target, r[k].kind))
  }

  lemma {:induction false} AmountToAppend(a: seq<Weight>, b: seq<Weight>, t: nat)
    ensures AmountTo(a + b, t) == AmountTo(a, t) + AmountTo(b, t)
  {
    if a == [] {
      assert a + b == b;
    } else {
      assert (a + b)[1..] == a[1..] + b;
      AmountToAppend(a[1..], b, t);
    }
  }

  lemma {:induction false} AmountToPositive(ws: seq<Weight>, t: nat)
    requires forall k :: 0 <= k < |ws| ==> ws[k].amount > 0
    ensures AmountTo(ws, t) > 0 <==> HasTarget(ws, t)
  {
    if ws != [] {
      AmountToPositive(ws[1..], t);
      if HasTarget(ws, t) && ws[0].target != t {
        var k :| 0 <= k < |ws| && ws[k].target == t;
        assert ws[1..][k - 1].target == t;
      }
      if HasTarget(ws[1..], t) {
        var k :| 0 <= k < |ws[1..]| && ws[1..][k].target == t;
        assert ws[k + 1].target == t;
      }
    }
  }

  function RemoveAt(s: seq<Weight>, i: nat): (r: seq<Weight>)
    requires i < |s|
    ensures multiset(s) == multiset{s[i]} + multiset(r) && |r| == |s| - 1
    ensures forall w :: w in r ==> w in s
  {
    assert s == s[..i] + ([s[i]] + s[i + 1..]);
    s[..i] + s[i + 1..]
  }

  /** The amount to a target does not depend on the order of the weights. */
  lemma {:induction false} AmountToPermuted(a: seq<Weight>, b: seq<Weight>, t: nat)
    requires multiset(a) == multiset(b)
    ensures AmountTo(a, t) == AmountTo(b, t)
    decreases |a|
  {
    if a == [] {
      assert |multiset(b)| == |multiset(a)| == 0;
    } else {
      assert a[0] in multiset(a);
      var k :| 0 <= k < |b| && b[k] == a[0];
      var b' := RemoveAt(b, k);
      assert a == [a[0]] + a[1..];
      assert multiset(a) == multiset{a[0]} + multiset(a[1..]);
      assert b == b[..k] + ([b[k]] + b[k + 1..]);
      assert multiset(a[1..]) == multiset(a) - multiset{a[0]} == multiset(b');
      AmountToPermuted(a[1..], b', t);
      AmountToAppend(b[..k], b[k + 1..], t);
      AmountToAppend(b[..k], [b[k]] + b[k + 1..], t);
      AmountToAppend([b[k]], b[k + 1..], t);
      AmountToAppend([a[0]], a[1..], t);
    }
  }

  lemma PermutedTargets(a: seq<Weight>, b: seq<Weight>)
    requires multiset(a) == multiset(b)
    ensures forall t :: HasTarget(a, t) <==> HasTarget(b, t)
    ensures forall t, kind :: HasKind(a, t, kind) <==> HasKind(b, t, kind)
    ensures Proper(a) ==> Proper(b)
  {
    forall w ensures w in a <==> w in b { assert w in a <==> w in multiset(a); assert w in b <==> w in multiset(b); }
    forall t ensures HasTarget(a, t) <==> HasTarget(b, t) {
      if HasTarget(a, t) { var k :| 0 <= k < |a| && a[k].target == t; assert a[k] in b; }
      if HasTarget(b, t) { var k :| 0 <= k < |b| && b[k].target == t; assert b[k] in a; }
    }
    forall t, kind ensures HasKind(a, t, kind) <==> HasKind(b, t, kind) {
      if HasKind(a, t, kind) { var k :| 0 <= k < |a| && a[k].target == t && a[k].kind == kind; assert a[k] in b; }
      if HasKind(b, t, kind) { var k :| 0 <= k < |b| && b[k].target == t && b[k].kind == kind; assert b[k] in a; }
    }
    if Proper(a) {
      forall k | 0 <= k < |b| ensures 0 < b[k].amount <= MAX64 { assert b[k] in a; }
      forall i, j | 0 <= i < |b| && 0 <= j < |b| && b[i].target == b[j].target ensures b[i].kind == b[j].kind {
        assert b[i] in a && b[j] in a;
      }
    }
  }

  lemma OneKindPerTarget(ws: seq<Weight>, t: nat, k1: DistType, k2: DistType)
    requires Proper(ws) && HasKind(ws, t, k1) && HasKind(ws, t, k2)
    ensures k1 == k2
  {
    var i :| 0 <= i < |ws| && ws[i].target == t && ws[i].kind == k1;
    var j :| 0 <= j < |ws| && ws[j].target == t && ws[j].kind == k2;
  }

  lemma DistinctCount(r: seq<Weight>, w: Weight)
    requires DistinctTargets(r)
    ensures multiset(r)[w] == if w in r then 1 else 0
  {
    if w in r {
      var k :| 0 <= k < |r| && r[k] == w;
      assert r == r[..k] + ([r[k]] + r[k + 1..]);
      assert w !in r[..k] && w !in r[k + 1..];
    }
  }

  /** Whatever the order of the entries and the route taken, the combined weights are the same. */
  lemma CombinationsAgree(ws: seq<Weight>, ws': seq<Weight>, r: seq<Weight>, r': seq<Weight>)
    requires multiset(ws) == multiset(ws') && Proper(ws)
    requires IsCombination(ws, r) && IsCombination(ws', r')
    ensures multiset(r) == multiset(r')
  {
    PermutedTargets(ws, ws');
    forall w ensures multiset(r)[w] == multiset(r')[w] {
      DistinctCount(r, w);
      DistinctCount(r', w);
      if w in r { CombinedEntry(ws, ws', r, r', w); }
      if w in r' { PermutedTargets(ws', ws); CombinedEntry(ws', ws, r', r, w); }
    }
  }

  lemma CombinedEntry(ws: seq<Weight>, ws': seq<Weight>, r: seq<Weight>, r': seq<Weight>, w: Weight)
    requires multiset(ws) == multiset(ws') && Proper(ws)
    requires IsCombination(ws, r) && IsCombination(ws', r') && w in r
    ensures w in r'
  {
    PermutedTargets(ws, ws');
    var k :| 0 <= k < |r| && r[k] == w;
    assert HasTarget(r, w.target);
    assert HasTarget(r', w.target);
    var j :| 0 <= j < |r'| && r'[j].target == w.target;
    AmountToPermuted(ws, ws', w.target);
    OneKindPerTarget(ws, w.target, w.kind, r'[j].kind);
    assert r'[j] == w;
  }

  // ------------------------------------------------------------ combining

  /** combineWeight: the 64-bit sum, saturated when it wraps around. */
  function CombineWeight(w: Weight, other: Weight): Weight {
    if w.amount == 0 then other
    else
      var sum := (w.amount + other.amount) % TWO64;
      if w.amount > sum then w.(amount := MAX64) else w.(amount := sum)
  }

  lemma CombineSaturates(w: Weight, other: Weight)
    requires 0 < w.amount <= MAX64 && 0 < other.amount <= MAX64
    ensures CombineWeight(w, other) == w.(amount := Min(MAX64, w.amount + other.amount))
  {
  }

  ghost predicate Sorted(ws: seq<Weight>) {
    forall i, j :: 0 <= i < j < |ws| ==> ws[i].target <= ws[j].target
  }

  lemma {:induction false} SmallestTarget(ws: seq<Weight>) returns (i: nat)
    requires ws != []
    ensures i < |ws| && forall j :: 0 <= j < |ws| ==> ws[i].target <= ws[j].target
  {
    if |ws| == 1 {
      i := 0;
    } else {
      var k := SmallestTarget(ws[1..]);
      assert forall j :: 1 <= j < |ws| ==> ws[j] == ws[1..][j - 1];
      i := if ws[0].target <= ws[k + 1].target then 0 else k + 1;
    }
  }

  ghost predicate AllBelow(r: seq<Weight>, todo: seq<Weight>) {
    forall i, j :: 0 <= i < |r| && 0 <= j < |todo| ==> r[i].target <= todo[j].target
  }

  predicate Smallest(ws: seq<Weight>, i: nat) {
    i < |ws| && forall j :: 0 <= j < |ws| ==> ws[i].target <= ws[j].target
  }

  lemma SelectionStep(r: seq<Weight>, todo: seq<Weight>, i: nat)
    requires Sorted(r) && AllBelow(r, todo) && Smallest(todo, i)
    ensures Sorted(r + [todo[i]]) && AllBelow(r + [todo[i]], RemoveAt(todo, i))
  {
    var rest := RemoveAt(todo, i);
    forall j | 0 <= j < |rest|
      ensures todo[i].target <= rest[j].target && (forall k :: 0 <= k < |r| ==> r[k].target <= rest[j].target)
    {
      assert rest[j] in todo;
    }
  }

  /** std::sort by target: weights to the same target may come in any order. */
  method SortByTarget(ws: seq<Weight>) returns (r: seq<Weight>)
    ensures Sorted(r) && multiset(r) == multiset(ws)
  {
    hide Sorted, AllBelow;
    r := [];
    var todo := ws;
    assert Sorted(r) && AllBelow(r, todo) by { SortingStarts(ws); }
    while todo != []
      invariant multiset(r) + multiset(todo) == multiset(ws)
      invariant Sorted(r) && AllBelow(r, todo)
      decreases |todo|
    {
      ghost var first := SmallestTarget(todo);
      assert Smallest(todo, first);
      var i :| 0 <= i < |todo| && Smallest(todo, i);
      SelectionStep(r, todo, i);
      r := r + [todo[i]];
      todo := RemoveAt(todo, i);
    }
  }

  lemma SortingStarts(ws: seq<Weight>)
    ensures Sorted([]) && AllBelow([], ws)
  {
  }
}
