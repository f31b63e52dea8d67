// The two routes of combineWeights, each against the specification of a combination.
module BfiCombine {
  import opened Arithmetic
  import opened BfiProbability
  import opened BfiWeights

  // ------------------------------------------- sorting and compacting in place

  /** Positions i to l of s all lead to one target. */
  ghost predicate SameTargetRun(s: seq<Weight>, i: nat, l: nat) {
    i < l <= |s| && forall k :: i <= k < l ==> s[k].target == s[i].target
  }

  lemma {:induction false} RunAmount(s: seq<Weight>, i: nat, l: nat, t: nat)
    requires i <= l < |s| && s[l].target == t
    ensures AmountTo(s[i..l + 1], t) == AmountTo(s[i..l], t) + s[l].amount
  {
    assert s[i..l + 1] == s[i..l] + [s[l]];
    AmountToAppend(s[i..l], [s[l]], t);
  }

  lemma TargetPrefix(s: seq<Weight>, i: nat, l: nat, t: nat)
    requires i <= l <= |s|
    ensures HasTarget(s[..l], t) <==> HasTarget(s[..i], t) || HasTarget(s[i..l], t)
  {
    if HasTarget(s[..i], t) {
      var k :| 0 <= k < i && s[..i][k].target == t;
      assert s[..l][k].target == t;
    }
    if HasTarget(s[i..l], t) {
      var k :| 0 <= k < l - i && s[i..l][k].target == t;
      assert s[..l][i + k].target == t;
    }
    if HasTarget(s[..l], t) {
      var k :| 0 <= k < l && s[..l][k].target == t;
      if k < i { assert s[..i][k].target == t; } else { assert s[i..l][k - i].target == t; }
    }
  }

  /** A finished run adds one entry to the combination of what came before it. */
  lemma CombineRun(s: seq<Weight>, i: nat, l: nat, r: seq<Weight>, w: Weight)
    requires Proper(s) && SameTargetRun(s, i, l)
    requires IsCombination(s[..i], r) && !HasTarget(s[..i], s[i].target)
    requires w == s[i].(amount := Min(MAX64, AmountTo(s[i..l], s[i].target)))
    ensures IsCombination(s[..l], r + [w])
  {
    var t, r' := s[i].target, r + [w];
    assert s[..l] == s[..i] + s[i..l];
    forall x ensures HasTarget(s[i..l], x) <==> x == t {
      assert s[i..l][0].target == t;
    }
    forall x ensures HasTarget(r', x) <==> HasTarget(s[..l], x) {
      TargetPrefix(s, i, l, x);
      if HasTarget(r, x) { var k :| 0 <= k < |r| && r[k].target == x; assert r'[k].target == x; }
      if x == t { assert r'[|r|].target == t; }
      if HasTarget(r', x) && x != t { var k :| 0 <= k < |r'| && r'[k].target == x; assert r[k].target == x; }
    }
    forall k | 0 <= k < |r'|
      ensures r'[k].amount == Min(MAX64, AmountTo(s[..l], r'[k].target)) && HasKind(s[..l], r'[k].target, r'[k].kind)
    {
      AmountToAppend(s[..i], s[i..l], r'[k].target);
      if k < |r| {
        assert HasTarget(r, r[k].target);
        AmountToZero(s[i..l], r[k].target);
        var j :| 0 <= j < i && s[..i][j].target == r[k].target && s[..i][j].kind == r[k].kind;
        assert s[..l][j].target == r[k].target && s[..l][j].kind == r[k].kind;
      } else {
        AmountToZero(s[..i], t);
        assert s[..l][i].target == t && s[..l][i].kind == w.kind;
      }
    }
    forall k | 0 <= k < |r| ensures r[k].target != t { assert HasTarget(r, r[k].target); }
  }

  lemma {:induction false} AmountToZero(ws: seq<Weight>, t: nat)
    requires !HasTarget(ws, t)
    ensures AmountTo(ws, t) == 0
  {
    if ws != [] {
      assert ws[0].target != t;
      forall k | 0 <= k < |ws[1..]| ensures ws[1..][k].target != t { assert ws[k + 1].target != t; }
      AmountToZero(ws[1..], t);
    }
  }

  /** The compaction loop: O writes behind I and L read ahead, in one list. */
  method CompactInPlace(s: seq<Weight>) returns (weights: seq<Weight>)
    requires Sorted(s) && Proper(s)
    ensures IsCombination(s, weights)
  {
    weights := s;
    var o, i, l := 0, 0, 0;
    while i != |s|
      invariant o <= i == l <= |s| == |weights|
      invariant weights[i..] == s[i..]
      invariant IsCombination(s[..i], weights[..o])
      invariant i < |s| ==> !HasTarget(s[..i], s[i].target)
      decreases |s| - i
    {
      ghost var done := weights[..o];
      assert weights[i] == weights[i..][0] == s[i];
      weights := weights[o := weights[i]];
      l := l + 1;
      assert s[i..l] == [s[i]];
      while l != |s| && weights[i].target == weights[l].target
        invariant SameTargetRun(s, i, l) && |weights| == |s|
        invariant weights[..o] == done && weights[l..] == s[l..]
        invariant weights[i].target == s[i].target
        invariant weights[o] == s[i].(amount := Min(MAX64, AmountTo(s[i..l], s[i].target)))
        invariant AmountTo(s[i..l], s[i].target) > 0
        decreases |s| - l
      {
        assert weights[l] == weights[l..][0] == s[l];
        RunAmount(s, i, l, s[i].target);
        CombineSaturates(weights[o], weights[l]);
        weights := weights[o := CombineWeight(weights[o], weights[l])];
        l := l + 1;
      }
      if l < |s| {
        assert weights[l] == weights[l..][0] == s[l];
        NextRunIsNew(s, i, l);
      }
      CombineRun(s, i, l, done, weights[o]);
      assert weights[..o + 1] == done + [weights[o]];
      o, i := o + 1, l;
    }
    weights := weights[..o];
    assert s[..|s|] == s;
  }

  lemma NextRunIsNew(s: seq<Weight>, i: nat, l: nat)
    requires Sorted(s) && i < l < |s| && SameTargetRun(s, i, l) && s[i].target != s[l].target
    ensures !HasTarget(s[..l], s[l].target)
  {
    forall k | 0 <= k < l ensures s[..l][k].target != s[l].target {
      if k < i { assert s[k].target <= s[i].target < s[l].target; }
    }
  }

  method CombineWeightsBySorting(weights: seq<Weight>) returns (r: seq<Weight>)
    requires Proper(weights)
    ensures IsCombination(weights, r)
  {
    var s := SortByTarget(weights);
    PermutedTargets(weights, s);
    r := CompactInPlace(s);
    CombinationOfPermuted(weights, s, r);
  }

  lemma CombinationOfPermuted(ws: seq<Weight>, s: seq<Weight>, r: seq<Weight>)
    requires multiset(ws) == multiset(s) && IsCombination(s, r)
    ensures IsCombination(ws, r)
  {
    PermutedTargets(ws, s);
    forall k | 0 <= k < |r| ensures AmountTo(ws, r[k].target) == AmountTo(s, r[k].target) {
      AmountToPermuted(ws, s, r[k].target);
    }
  }

  // ------------------------------------------------------------ hashing

  /** A default-constructed weight, which an entry of the hash table starts as. */
  const NO_WEIGHT := Weight(Local, MAX32, 0)

  function Targets(ws: seq<Weight>): set<nat> {
    set w | w in ws :: w.target
  }

  lemma TargetsAre(ws: seq<Weight>, t: nat)
    ensures t in Targets(ws) <==> HasTarget(ws, t)
  {
    if t in Targets(ws) {
      var w :| w in ws && w.target == t;
      var k :| 0 <= k < |ws| && ws[k] == w;
    }
    if HasTarget(ws, t) {
      var k :| 0 <= k < |ws| && ws[k].target == t;
      assert ws[k] in ws;
    }
  }

  lemma {:induction false} TargetsCount(ws: seq<Weight>)
    ensures |Targets(ws)| <= |ws|
  {
    if ws != [] {
      TargetsCount(ws[1..]);
      assert ws == [ws[0]] + ws[1..];
      assert Targets(ws) == {ws[0].target} + Targets(ws[1..]);
    }
  }

  /** As many targets as weights means no target occurs twice. */
  lemma {:induction false} FullCountIsDistinct(ws: seq<Weight>)
    requires |Targets(ws)| == |ws|
    ensures DistinctTargets(ws)
  {
    if ws != [] {
      var rest := ws[1..];
      TargetsCount(rest);
      assert ws == [ws[0]] + rest;
      assert Targets(ws) == {ws[0].target} + Targets(rest);
      assert ws[0].target !in Targets(rest);
      FullCountIsDistinct(rest);
      hide DistinctTargets, Targets;
      DistinctCons(ws);
    }
  }

  lemma DistinctCons(ws: seq<Weight>)
    requires ws != [] && DistinctTargets(ws[1..]) && ws[0].target !in Targets(ws[1..])
    ensures DistinctTargets(ws)
  {
    var rest := ws[1..];
    forall i, j | 0 <= i < j < |ws| ensures ws[i].target != ws[j].target {
      assert ws[j] == rest[j - 1] && ws[j].target in Targets(rest);
      if i > 0 { assert ws[i] == rest[i - 1]; }
    }
  }

  /** With distinct targets a list is its own combination. */
  lemma DistinctIsCombined(ws: seq<Weight>)
    requires Proper(ws) && DistinctTargets(ws)
    ensures IsCombination(ws, ws)
  {
    forall k | 0 <= k < |ws|
      ensures ws[k].amount == Min(MAX64, AmountTo(ws, ws[k].target)) && HasKind(ws, ws[k].target, ws[k].kind)
    {
      var t := ws[k].target;
      assert ws == ws[..k] + ([ws[k]] + ws[k + 1..]);
      AmountToAppend(ws[..k], [ws[k]] + ws[k + 1..], t);
      AmountToAppend([ws[k]], ws[k + 1..], t);
      AmountToZero(ws[..k], t);
      AmountToZero(ws[k + 1..], t);
    }
  }

  /** The table holds the combination of a prefix. */
  ghost predicate TableFor(ws: seq<Weight>, table: map<nat, Weight>) {
    && (forall t :: t in table <==> HasTarget(ws, t))
    && (forall t :: t in table ==>
          table[t].target == t && table[t].amount == Min(MAX64, AmountTo(ws, t)) && HasKind(ws, t, table[t].kind))
  }

  lemma TableStep(ws: seq<Weight>, w: Weight, table: map<nat, Weight>)
    requires Proper(ws + [w]) && TableFor(ws, table)
    ensures var entry := if w.target in table then table[w.target] else NO_WEIGHT;
            TableFor(ws + [w], table[w.target := CombineWeight(entry, w)])
  {
    var ws', t := ws + [w], w.target;
    var entry := if t in table then table[t] else NO_WEIGHT;
    var table' := table[t := CombineWeight(entry, w)];
    assert ws'[|ws|] == w;
    forall k | 0 <= k < |ws| ensures 0 < ws[k].amount <= MAX64 { assert ws'[k] == ws[k]; }
    AmountToPositive(ws, t);
    if t in table { CombineSaturates(entry, w); }
    forall x ensures HasTarget(ws', x) <==> HasTarget(ws, x) || x == t {
      if HasTarget(ws, x) { var k :| 0 <= k < |ws| && ws[k].target == x; assert ws'[k].target == x; }
      if HasTarget(ws', x) && x != t { var k :| 0 <= k < |ws'| && ws'[k].target == x; assert ws[k].target == x; }
    }
    forall x | x in table'
      ensures table'[x].target == x && table'[x].amount == Min(MAX64, AmountTo(ws', x))
              && HasKind(ws', x, table'[x].kind)
    {
      AmountToAppend(ws, [w], x);
      if x in table {
        var k :| 0 <= k < |ws| && ws[k].target == x && ws[k].kind == table[x].kind;
        assert ws'[k].target == x && ws'[k].kind == table[x].kind;
      }
      if x == t && t !in table { AmountToZero(ws, t); }
    }
  }

  /** The table's values, in whatever order its entries come. */
  method TableValues(table: map<nat, Weight>) returns (r: seq<Weight>)
    requires forall t :: t in table ==> table[t].target == t
    ensures DistinctTargets(r)
    ensures forall w :: w in r <==> w.target in table && table[w.target] == w
  {
    r := [];
    var todo := table.Keys;
    while todo != {}
      invariant todo <= table.Keys && DistinctTargets(r)
      invariant forall w :: w in r <==> w.target in table && table[w.target] == w && w.target !in todo
    {
      var t :| t in todo;
      todo := todo - {t};
      assert forall k :: 0 <= k < |r| ==> r[k] in r && r[k].target != t;
      r := r + [table[t]];
    }
  }

  lemma TableIsCombination(ws: seq<Weight>, table: map<nat, Weight>, r: seq<Weight>)
    requires TableFor(ws, table) && DistinctTargets(r)
    requires forall w :: w in r <==> w.target in table && table[w.target] == w
    ensures IsCombination(ws, r)
  {
    forall t ensures HasTarget(r, t) <==> HasTarget(ws, t) {
      if t in table {
        assert table[t] in r;
        var k :| 0 <= k < |r| && r[k] == table[t];
        assert r[k].target == t;
      }
      if HasTarget(r, t) { var k :| 0 <= k < |r| && r[k].target == t; assert r[k] in r; }
    }
    forall k | 0 <= k < |r|
      ensures r[k].amount == Min(MAX64, AmountTo(ws, r[k].target)) && HasKind(ws, r[k].target, r[k].kind)
    {
      assert r[k] in r;
    }
  }

  method CombineWeightsByHashing(weights: seq<Weight>) returns (r: seq<Weight>)
    requires Proper(weights)
    ensures IsCombination(weights, r)
  {
    var combined: map<nat, Weight> := map[];
    for k := 0 to |weights|
      invariant TableFor(weights[..k], combined)
    {
      var w := weights[k];
      assert weights[..k + 1] == weights[..k] + [w];
      ProperPrefix(weights, k + 1);
      TableStep(weights[..k], w, combined);
      var entry := if w.target in combined then combined[w.target] else NO_WEIGHT;
      combined := combined[w.target := CombineWeight(entry, w)];
    }
    assert weights[..|weights|] == weights;
    if |weights| == |combined| {
      assert combined.Keys == Targets(weights) by {
        forall t ensures t in combined <==> t in Targets(weights) { TargetsAre(weights, t); }
      }
      assert |combined| == |combined.Keys|;
      FullCountIsDistinct(weights);
      DistinctIsCombined(weights);
      return weights;
    }
    r := TableValues(combined);
    TableIsCombination(weights, combined, r);
  }

  lemma ProperPrefix(ws: seq<Weight>, k: nat)
    requires Proper(ws) && k <= |ws|
    ensures Proper(ws[..k])
  {
  }

  /** A hash table for many successors, sorting for few. */
  method CombineWeights(weights: seq<Weight>) returns (r: seq<Weight>)
    requires Proper(weights)
    ensures IsCombination(weights, r)
  {
    if |weights| > 128 {
      r := CombineWeightsByHashing(weights);
    } else {
      r := CombineWeightsBySorting(weights);
    }
  }
}
