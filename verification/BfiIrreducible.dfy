// Irreducible regions: the explicit graph, and the headers chosen for one of its
// strongly connected components.
module BfiIrreducible {

  type Edge = (nat, nat)

  // ------------------------------------------------------- the edge lists

  /** Sources of the edges into v, newest first. */
  function SourcesOf(added: seq<Edge>, v: nat): seq<nat> {
    if added == [] then []
    else
      var (n, e) := (|added| - 1, added[|added| - 1]);
      (if e.1 == v then [e.0] else []) + SourcesOf(added[..n], v)
  }

  /** Targets of the edges out of u, oldest first. */
  function TargetsOf(added: seq<Edge>, u: nat): seq<nat> {
    if added == [] then []
    else
      var (n, e) := (|added| - 1, added[|added| - 1]);
      TargetsOf(added[..n], u) + (if e.0 == u then [e.1] else [])
  }

  lemma {:induction false} SourcesAndTargets(added: seq<Edge>, u: nat, v: nat)
    ensures u in SourcesOf(added, v) <==> (u, v) in added
    ensures v in TargetsOf(added, u) <==> (u, v) in added
  {
    if added != [] {
      var n := |added| - 1;
      SourcesAndTargets(added[..n], u, v);
      assert added == added[..n] + [added[n]];
    }
  }

  /** A node's list: the sources of its in-edges, then the targets of its out-edges. */
  ghost predicate ListsEdges(edges: seq<nat>, numIn: nat, added: seq<Edge>, v: nat) {
    numIn <= |edges| && edges[..numIn] == SourcesOf(added, v) && edges[numIn..] == TargetsOf(added, v)
  }

  lemma ListsOneMore(edges: seq<nat>, numIn: nat, added: seq<Edge>, v: nat, irr: nat, succ: nat, edges': seq<nat>,
                     numIn': nat)
    requires ListsEdges(edges, numIn, added, v)
    requires edges' == (if v == succ then [irr] else []) + edges + (if v == irr then [succ] else [])
    requires numIn' == if v == succ then numIn + 1 else numIn
    ensures ListsEdges(edges', numIn', added + [(irr, succ)], v)
  {
    var more := added + [(irr, succ)];
    assert more[..|added|] == added;
    assert edges'[..numIn'] == (if v == succ then [irr] else []) + edges[..numIn];
    assert edges'[numIn'..] == edges[numIn..] + (if v == irr then [succ] else []);
  }

  class IrreducibleGraph {
    var edges: map<nat, seq<nat>>       // for each node, its predecessors and then its successors
    var numIn: map<nat, nat>
    ghost var added: seq<Edge>

    ghost predicate Valid()
      reads this
    {
      && edges.Keys == numIn.Keys
      && (forall e :: e in added ==> e.0 in edges && e.1 in edges)
      && (forall v :: v in edges ==> ListsEdges(edges[v], numIn[v], added, v))
    }

    function Preds(v: nat): seq<nat>
      requires Valid() && v in edges
      reads this
    {
      edges[v][..numIn[v]]
    }

    function Succs(v: nat): seq<nat>
      requires Valid() && v in edges
      reads this
    {
      edges[v][numIn[v]..]
    }

    constructor (nodes: seq<nat>)
      ensures Valid() && added == [] && forall v :: v in edges <==> v in nodes
    {
      edges := map v | v in nodes :: [];
      numIn := map v | v in nodes :: 0;
      added := [];
    }

    /** Edges back to a header of the outer loop and edges leaving the graph are dropped; every
        other edge is in the successor list of its source and the predecessor list of its target. */
    method AddEdge(irr: nat, succ: nat, outerHeaders: seq<nat>)
      requires Valid() && irr in edges
      modifies this
      ensures Valid() && edges.Keys == old(edges.Keys)
      ensures added == if succ in outerHeaders || succ !in old(edges) then old(added) else old(added) + [(irr, succ)]
    {
      if succ in outerHeaders { return; }
      if succ !in edges { return; }
      ghost var e0, n0, a0 := edges, numIn, added;
      edges := edges[irr := edges[irr] + [succ]];
      edges := edges[succ := [irr] + edges[succ]];
      numIn := numIn[succ := numIn[succ] + 1];
      added := added + [(irr, succ)];
      forall v | v in edges ensures ListsEdges(edges[v], numIn[v], added, v) {
        ListsOneMore(e0[v], n0[v], a0, v, irr, succ, edges[v], numIn[v]);
      }
    }

    /** The two lists of a node describe the same edges. */
    lemma PredsMatchSuccs(u: nat, v: nat)
      requires Valid() && u in edges && v in edges
      ensures u in Preds(v) <==> v in Succs(u)
    {
      SourcesAndTargets(added, u, v);
    }
  }

  // ------------------------------------------------- what a header is

  type PredMap = map<nat, seq<nat>>

  predicate IsEdge(preds: PredMap, u: nat, v: nat) {
    v in preds && u in preds[v]
  }

  /** Some edge into v comes from outside the component. */
  ghost predicate Entered(preds: PredMap, scc: seq<nat>, v: nat) {
    exists u: nat :: IsEdge(preds, u, v) && u !in scc
  }

  /** Some edge into v goes against the node order, and does not come from an entry. */
  ghost predicate Inverted(preds: PredMap, scc: seq<nat>, v: nat) {
    exists u: nat :: IsEdge(preds, u, v) && u >= v && u in scc && !Entered(preds, scc, u)
  }

  ghost predicate IsHeader(preds: PredMap, scc: seq<nat>, v: nat) {
    v in scc && (Entered(preds, scc, v) || Inverted(preds, scc, v))
  }

  ghost predicate IsOther(preds: PredMap, scc: seq<nat>, v: nat) {
    v in scc && !IsHeader(preds, scc, v)
  }

  predicate Distinct(s: seq<nat>) {
    forall i, j :: 0 <= i < j < |s| ==> s[i] != s[j]
  }

  predicate Increasing(s: seq<nat>) {
    forall i, j :: 0 <= i < j < |s| ==> s[i] < s[j]
  }

  ghost predicate Headers(preds: PredMap, scc: seq<nat>, headers: seq<nat>, others: seq<nat>) {
    && Increasing(headers) && (forall v :: v in headers <==> IsHeader(preds, scc, v))
    && Increasing(others) && (forall v :: v in others <==> IsOther(preds, scc, v))
  }

  ghost predicate IsIrreducible(preds: PredMap, scc: seq<nat>) {
    exists a, b :: a != b && a in scc && b in scc && Entered(preds, scc, a) && Entered(preds, scc, b)
  }

  /** A closed walk inside the component. */
  ghost predicate IsCycle(preds: PredMap, scc: seq<nat>, p: seq<nat>) {
    && |p| >= 2 && p[0] == p[|p| - 1]
    && (forall k :: 0 <= k < |p| ==> p[k] in scc)
    && (forall k :: 0 <= k < |p| - 1 ==> IsEdge(preds, p[k], p[k + 1]))
  }

  // ------------------------------------------------------- the main results

  /** Edges between others go up in the node order. */
  lemma OthersGoUp(preds: PredMap, scc: seq<nat>, headers: seq<nat>, others: seq<nat>, u: nat, v: nat)
    requires Headers(preds, scc, headers, others) && u in others && v in others && IsEdge(preds, u, v)
    ensures u < v
  {
    assert IsOther(preds, scc, u) && IsOther(preds, scc, v);
    assert !Inverted(preds, scc, v);
  }

  lemma {:induction false} OthersWalkUp(preds: PredMap, scc: seq<nat>, headers: seq<nat>, others: seq<nat>,
                                        p: seq<nat>, n: nat)
    requires Headers(preds, scc, headers, others) && 0 < n < |p|
    requires forall k :: 0 <= k <= n ==> p[k] in others
    requires forall k :: 0 <= k < n ==> IsEdge(preds, p[k], p[k + 1])
    ensures p[0] < p[n]
  {
    hide Headers;
    OthersGoUp(preds, scc, headers, others, p[n - 1], p[n]);
    if n > 1 { OthersWalkUp(preds, scc, headers, others, p, n - 1); }
  }

  /** Every cycle inside the component passes through a chosen header. */
  lemma CyclesPassHeaders(preds: PredMap, scc: seq<nat>, headers: seq<nat>, others: seq<nat>, p: seq<nat>)
    requires Headers(preds, scc, headers, others) && IsCycle(preds, scc, p)
    ensures exists k :: 0 <= k < |p| && p[k] in headers
  {
    if forall k :: 0 <= k < |p| ==> p[k] !in headers {
      forall k | 0 <= k < |p| ensures p[k] in others {
        assert !IsHeader(preds, scc, p[k]);
        assert IsOther(preds, scc, p[k]);
      }
      OthersWalkUp(preds, scc, headers, others, p, |p| - 1);
    }
  }

  /** Headers and others split the component, and every node entered from outside is a header. */
  lemma HeadersPartition(preds: PredMap, scc: seq<nat>, headers: seq<nat>, others: seq<nat>, v: nat)
    requires Headers(preds, scc, headers, others)
    ensures v in scc <==> v in headers || v in others
    ensures !(v in headers && v in others)
    ensures v in scc && Entered(preds, scc, v) ==> v in headers
  {
    assert v in headers <==> IsHeader(preds, scc, v);
    assert v in others <==> IsOther(preds, scc, v);
  }

  /** A node of the component is left among the others exactly when all its predecessors are in the component, and
      each of them is earlier or is itself entered from outside. */
  lemma OthersIff(preds: PredMap, scc: seq<nat>, headers: seq<nat>, others: seq<nat>, v: nat)
    requires Headers(preds, scc, headers, others) && v in scc
    ensures v in others
            <==> forall u: nat :: IsEdge(preds, u, v) ==>
                   u in scc && (u < v || exists w: nat :: IsEdge(preds, w, u) && w !in scc)
  {
    assert v in others <==> IsOther(preds, scc, v);
    forall u: nat ensures Entered(preds, scc, u) <==> exists w: nat :: IsEdge(preds, w, u) && w !in scc {}
  }

  lemma {:induction false} IncreasingIsUnique(a: seq<nat>, b: seq<nat>)
    requires Increasing(a) && Increasing(b) && forall v: nat :: v in a <==> v in b
    ensures a == b
  {
    HasFirst(a);
    HasFirst(b);
    if a != [] {
      assert a[0] in b;
      assert b[0] in a;
      assert a[0] == b[0];
      forall v: nat ensures v in a[1..] <==> v in b[1..] {
        assert v in a <==> v in b;
        assert a == [a[0]] + a[1..] && b == [b[0]] + b[1..];
      }
      IncreasingIsUnique(a[1..], b[1..]);
      assert a == [a[0]] + a[1..] && b == [b[0]] + b[1..];
    }
  }

  lemma HasFirst(s: seq<nat>)
    ensures s != [] ==> exists v: nat :: v in s
  {
    if s != [] { assert s[0] in s; }
  }

  /** The outcome does not depend on the order in which the component is listed. */
  lemma OrderDoesNotMatter(preds: PredMap, scc: seq<nat>, scc': seq<nat>,
                           headers: seq<nat>, others: seq<nat>, headers': seq<nat>, others': seq<nat>)
    requires Headers(preds, scc, headers, others) && Headers(preds, scc', headers', others')
    requires forall v: nat :: v in scc <==> v in scc'
    ensures headers == headers' && others == others'
  {
    forall v ensures Entered(preds, scc, v) <==> Entered(preds, scc', v) {
      if Entered(preds, scc, v) { var u :| IsEdge(preds, u, v) && u !in scc; assert u !in scc'; }
      if Entered(preds, scc', v) { var u :| IsEdge(preds, u, v) && u !in scc'; assert u !in scc; }
    }
    forall v: nat ensures v in headers <==> v in headers' { SameHeader(preds, scc, scc', v); }
    forall v: nat ensures v in others <==> v in others' { SameHeader(preds, scc, scc', v); }
    IncreasingIsUnique(headers, headers');
    IncreasingIsUnique(others, others');
  }

  lemma SameHeader(preds: PredMap, scc: seq<nat>, scc': seq<nat>, v: nat)
    requires forall v: nat :: v in scc <==> v in scc'
    requires forall v :: Entered(preds, scc, v) <==> Entered(preds, scc', v)
    ensures IsHeader(preds, scc, v) <==> IsHeader(preds, scc', v)
  {
    hide Entered;
  }

  // ------------------------------------------------------------ the search

  /** std::sort on nodes. */
  method SortNodes(s: seq<nat>) returns (r: seq<nat>)
    requires Distinct(s)
    ensures Increasing(r) && forall v :: v in r <==> v in s
  {
    r := [];
    for k := 0 to |s|
      invariant Increasing(r) && forall v :: v in r <==> v in s[..k]
    {
      var i := 0;
      while i < |r| && r[i] < s[k]
        invariant 0 <= i <= |r| && forall j :: 0 <= j < i ==> r[j] < s[k]
      {
        i := i + 1;
      }
      assert s[..k + 1] == s[..k] + [s[k]];
      assert s[k] !in s[..k];
      assert r == r[..i] + r[i..];
      r := r[..i] + [s[k]] + r[i..];
    }
    assert s[..|s|] == s;
  }

  /** Is there a predecessor outside the component? */
  method HasOutsidePred(preds: seq<nat>, inScc: map<nat, bool>) returns (found: bool)
    ensures found <==> exists i :: 0 <= i < |preds| && preds[i] !in inScc
  {
    for i := 0 to |preds|
      invariant forall j :: 0 <= j < i ==> preds[j] in inScc
    {
      if preds[i] in inScc { continue; }
      return true;
    }
    return false;
  }

  /** Is there a predecessor that is neither earlier nor an entry? */
  method HasInvertedPred(preds: seq<nat>, inScc: map<nat, bool>, v: nat) returns (found: bool)
    ensures found <==> exists i :: 0 <= i < |preds| && preds[i] >= v && !(preds[i] in inScc && inScc[preds[i]])
  {
    for i := 0 to |preds|
      invariant forall j :: 0 <= j < i ==> preds[j] < v || (preds[j] in inScc && inScc[preds[j]])
    {
      if preds[i] < v { continue; }
      if preds[i] in inScc && inScc[preds[i]] { continue; }
      return true;
    }
    return false;
  }

  ghost function EnteredAmong(preds: PredMap, scc: seq<nat>, s: seq<nat>): (r: seq<nat>)
    ensures |r| <= |s| && forall v :: v in r <==> v in s && Entered(preds, scc, v)
  {
    if s == [] then []
    else
      var (n, v) := (|s| - 1, s[|s| - 1]);
      assert s == s[..n] + [v];
      EnteredAmong(preds, scc, s[..n]) + (if Entered(preds, scc, v) then [v] else [])
  }

  lemma NoneEntered(preds: PredMap, scc: seq<nat>)
    ensures EnteredAmong(preds, scc, []) == []
  {
  }

  lemma {:induction false} AllEntered(preds: PredMap, scc: seq<nat>, s: seq<nat>)
    requires |EnteredAmong(preds, scc, s)| == |s|
    ensures forall v :: v in s ==> Entered(preds, scc, v)
  {
    if s != [] {
      hide Entered;
      var n := |s| - 1;
      assert s == s[..n] + [s[n]];
      AllEntered(preds, scc, s[..n]);
    }
  }

  ghost predicate EntriesMarked(preds: PredMap, scc: seq<nat>, inScc: map<nat, bool>) {
    && (forall v :: v in inScc <==> v in scc)
    && (forall v :: v in inScc ==> (inScc[v] <==> Entered(preds, scc, v)))
  }

  lemma FoundIsEntered(preds: PredMap, scc: seq<nat>, inScc: map<nat, bool>, v: nat, found: bool)
    requires v in preds && forall u :: u in inScc <==> u in scc
    requires found <==> exists i :: 0 <= i < |preds[v]| && preds[v][i] !in inScc
    ensures found <==> Entered(preds, scc, v)
  {
    if found {
      var i :| 0 <= i < |preds[v]| && preds[v][i] !in inScc;
      assert IsEdge(preds, preds[v][i], v);
    }
    if Entered(preds, scc, v) {
      var u: nat :| IsEdge(preds, u, v) && u !in scc;
      var i :| 0 <= i < |preds[v]| && preds[v][i] == u;
    }
  }

  lemma NextEntered(preds: PredMap, scc: seq<nat>, k: nat)
    requires Distinct(scc) && k < |scc|
    ensures forall v :: v in scc[..k + 1] <==> v in scc[..k] || v == scc[k]
    ensures scc[k] !in scc[..k]
    ensures EnteredAmong(preds, scc, scc[..k + 1])
            == EnteredAmong(preds, scc, scc[..k]) + (if Entered(preds, scc, scc[k]) then [scc[k]] else [])
  {
    assert scc[..k + 1] == scc[..k] + [scc[k]] && scc[..k + 1][..k] == scc[..k];
  }

  /** The first pass: mark the entries of the component, and list them. */
  method MarkEntries(preds: PredMap, scc: seq<nat>) returns (inScc: map<nat, bool>, headers: seq<nat>)
    requires Distinct(scc) && forall v :: v in scc ==> v in preds
    ensures EntriesMarked(preds, scc, inScc) && headers == EnteredAmong(preds, scc, scc) && Distinct(headers)
  {
    hide Entered, EnteredAmong;
    inScc := map v | v in scc :: false;
    headers := [];
    assert scc[..|scc|] == scc;
    assert EnteredAmong(preds, scc, []) == [] by { NoneEntered(preds, scc); }
    for k := 0 to |scc|
      invariant forall v :: v in inScc <==> v in scc
      invariant forall v :: v in inScc ==> (inScc[v] <==> v in scc[..k] && Entered(preds, scc, v))
      invariant headers == EnteredAmong(preds, scc, scc[..k]) && Distinct(headers)
    {
      var v := scc[k];
      NextEntered(preds, scc, k);
      var found := HasOutsidePred(preds[v], inScc);
      FoundIsEntered(preds, scc, inScc, v, found);
      if found {
        inScc := inScc[v := true];
        headers := headers + [v];
      }
    }
  }

  /** Entries come first, then further headers in the order of the map's iteration; both lists are
      sorted at the end. */
  method FindIrreducibleHeaders(preds: PredMap, scc: seq<nat>) returns (headers: seq<nat>, others: seq<nat>)
    requires Distinct(scc) && (forall v :: v in scc ==> v in preds) && IsIrreducible(preds, scc)
    ensures Headers(preds, scc, headers, others)
  {
    hide Entered, Inverted, IsIrreducible, EnteredAmong, IsHeader, IsOther, EntriesMarked;
    var inScc: map<nat, bool>;
    inScc, headers := MarkEntries(preds, scc);
    others := [];
    EntriesExist(preds, scc, headers);
    if |headers| == |scc| {
      EveryNodeIsHeader(preds, scc);
      headers := SortNodes(headers);
      return;
    }
    headers, others := ExtraHeaders(preds, scc, inScc, headers);
    headers := SortNodes(headers);
    others := SortNodes(others);
  }

  lemma EntriesExist(preds: PredMap, scc: seq<nat>, entries: seq<nat>)
    requires IsIrreducible(preds, scc) && entries == EnteredAmong(preds, scc, scc)
    ensures entries != []
  {
    var a :| a in scc && Entered(preds, scc, a);
    assert a in entries;
  }

  lemma EveryNodeIsHeader(preds: PredMap, scc: seq<nat>)
    requires |EnteredAmong(preds, scc, scc)| == |scc|
    ensures forall v :: v in EnteredAmong(preds, scc, scc) <==> IsHeader(preds, scc, v)
    ensures forall v :: !IsOther(preds, scc, v)
  {
    AllEntered(preds, scc, scc);
    hide Entered, Inverted;
  }

  /** The second pass, over the nodes that are not entries. */
  method ExtraHeaders(preds: PredMap, scc: seq<nat>, inScc: map<nat, bool>, entries: seq<nat>)
    returns (headers: seq<nat>, others: seq<nat>)
    requires Distinct(scc) && (forall v :: v in scc ==> v in preds)
    requires EntriesMarked(preds, scc, inScc) && entries != [] && Distinct(entries)
    requires forall v :: v in entries <==> v in scc && Entered(preds, scc, v)
    ensures Distinct(headers) && forall v :: v in headers <==> IsHeader(preds, scc, v)
    ensures Distinct(others) && forall v :: v in others <==> IsOther(preds, scc, v)
  {
    headers, others := entries, [];
    for k := 0 to |scc|
      invariant headers != [] && Distinct(headers) && Distinct(others)
      invariant forall v :: v in headers <==> v in entries || (v in scc[..k] && IsHeader(preds, scc, v))
      invariant forall v :: v in others <==> v in scc[..k] && IsOther(preds, scc, v)
    {
      var v := scc[k];
      assert scc[..k + 1] == scc[..k] + [v] && v !in scc[..k];
      if inScc[v] { continue; }
      var found := HasInvertedPred(preds[v], inScc, v);
      FoundIsInverted(preds, scc, inScc, v, found);
      hide IsOther, IsHeader, Entered, Inverted;
      if found {
        headers := headers + [v];
      }
      if headers[|headers| - 1] == v { continue; }
      others := others + [v];
    }
    assert scc[..|scc|] == scc;
  }

  lemma FoundIsInverted(preds: PredMap, scc: seq<nat>, inScc: map<nat, bool>, v: nat, found: bool)
    requires EntriesMarked(preds, scc, inScc) && v in scc && v in preds && !inScc[v]
    requires found <==>
             exists i :: 0 <= i < |preds[v]| && preds[v][i] >= v && !(preds[v][i] in inScc && inScc[preds[v][i]])
    ensures found <==> IsHeader(preds, scc, v)
    ensures !Entered(preds, scc, v) && (IsOther(preds, scc, v) <==> !IsHeader(preds, scc, v))
  {
    if found {
      var i :| 0 <= i < |preds[v]| && preds[v][i] >= v && !(preds[v][i] in inScc && inScc[preds[v][i]]);
      assert IsEdge(preds, preds[v][i], v);
      assert preds[v][i] in scc;
      assert Inverted(preds, scc, v);
    }
    if Inverted(preds, scc, v) {
      var u: nat :| IsEdge(preds, u, v) && u >= v && u in scc && !Entered(preds, scc, u);
      var i :| 0 <= i < |preds[v]| && preds[v][i] == u;
    }
  }
}
