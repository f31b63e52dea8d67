// Where attributes come from: each one a node ends up with has been handed down a chain
// from a node that had it in the graph.
module CflOrigin {
  import opened CflGraph
  import opened CflReach
  import opened CflGrammar
  import opened CflAttrs

  /** x passes its attributes to y: y is a further dereference of the same value, or the path grammar
      joins y to x. */
  ghost predicate Passes(g: Graph, m: Mem, x: Node, y: Node) {
    HasNode(g, x) && HasNode(g, y) && ((x.val == y.val && x.level < y.level) || (x != y && Joined(g, m, y, x)))
  }

  ghost predicate IsChain(g: Graph, m: Mem, chain: seq<Node>) {
    forall i, j :: 0 <= i && j == i + 1 && j < |chain| ==> Passes(g, m, chain[i], chain[j])
  }

  ghost predicate LeadsFrom(g: Graph, m: Mem, chain: seq<Node>, n: Node, k: nat) {
    && chain != [] && chain[|chain| - 1] == n && IsChain(g, m, chain)
    && HasNode(g, chain[0]) && k in Info(g, chain[0]).attr
  }

  ghost predicate HasOrigin(g: Graph, m: Mem, n: Node, k: nat) {
    exists chain :: LeadsFrom(g, m, chain, n, k)
  }

  lemma OriginPasses(g: Graph, m: Mem, x: Node, y: Node, k: nat)
    requires HasOrigin(g, m, x, k) && Passes(g, m, x, y)
    ensures HasOrigin(g, m, y, k)
  {
    hide Passes;
    var chain :| LeadsFrom(g, m, chain, x, k);
    assert LeadsFrom(g, m, chain + [y], y, k);
  }

  lemma {:induction false} ChainCarries(g: Graph, r: Reach, m: Mem, p: Attrs, chain: seq<Node>, n: Node, k: nat)
    requires Least(g, r, m) && AttrClosed(g, r, p) && LeadsFrom(g, m, chain, n, k)
    ensures (n, k) in p
    decreases |chain|
  {
    if |chain| > 1 {
      var x, shorter := chain[|chain| - 2], chain[..|chain| - 1];
      assert LeadsFrom(g, m, shorter, x, k);
      ChainCarries(g, r, m, p, shorter, x, k);
      assert Passes(g, m, x, n);
      if x.val != n.val || x.level >= n.level {
        RecordedIffJoined(g, r, m, n, x);
        var q :| Triple(n, x, q) in r;
        assert Triple(n, x, q).to == x;
      }
    }
  }

  /** A node has an attribute exactly when such a chain leads to it from a node that had it. */
  lemma AttrsHaveOrigins(g: Graph, r: Reach, m: Mem, p: Attrs, n: Node, k: nat)
    requires Least(g, r, m) && InGraph(g, r) && AttrLeast(g, r, p)
    ensures (n, k) in p <==> HasOrigin(g, m, n, k)
  {
    if HasOrigin(g, m, n, k) {
      var chain :| LeadsFrom(g, m, chain, n, k);
      ChainCarries(g, r, m, p, chain, n, k);
    }
    var p' := set x | x in p && HasOrigin(g, m, x.0, x.1);
    assert AttrClosed(g, r, p') by {
      forall x, j | HasNode(g, x) && j in Info(g, x).attr ensures (x, j) in p' { assert LeadsFrom(g, m, [x], x, j); }
      forall t, j | t in r && (t.to, j) in p' ensures (t.from, j) in p' {
        RecordedIffJoined(g, r, m, t.from, t.to);
        assert Triple(t.from, t.to, t.state) in r;
        OriginPasses(g, m, t.to, t.from, j);
      }
      forall x, d, j | HasNode(g, x) && HasNode(g, d) && d.val == x.val && d.level > x.level && (x, j) in p'
        ensures (d, j) in p'
      {
        OriginPasses(g, m, x, d, j);
      }
    }
  }
}
