// Propagating attributes over the finished reachability relation.
module CflAttrs {
  import opened CflGraph
  import opened CflReach

  type Attrs = set<(Node, nat)>

  // ------------------------------------------------------ the specification

  ghost predicate HasOwnAttrs(g: Graph, p: Attrs) {
    forall n, k :: HasNode(g, n) && k in Info(g, n).attr ==> (n, k) in p
  }

  /** Attributes flow to everything a node is reachable from. */
  ghost predicate FlowsToAliases(r: Reach, p: Attrs) {
    forall t, k :: t in r && (t.to, k) in p ==> (t.from, k) in p
  }

  /** Attributes flow to every lower dereference level. */
  ghost predicate FlowsDown(g: Graph, p: Attrs) {
    forall n, d, k :: HasNode(g, n) && HasNode(g, d) && d.val == n.val && d.level > n.level && (n, k) in p ==>
        (d, k) in p
  }

  ghost predicate AttrClosed(g: Graph, r: Reach, p: Attrs) {
    HasOwnAttrs(g, p) && FlowsToAliases(r, p) && FlowsDown(g, p)
  }

  ghost predicate AttrForced(g: Graph, r: Reach, p: Attrs) {
    forall p' :: AttrClosed(g, r, p') ==> p <= p'
  }

  ghost predicate AttrLeast(g: Graph, r: Reach, p: Attrs) {
    AttrClosed(g, r, p) && AttrForced(g, r, p)
  }

  // ------------------------------------------------------ the state in memory

  class AliasAttrMap {
    var attrMap: map<Node, set<nat>>

    ghost predicate Has(n: Node, k: nat)
      reads this
    {
      n in attrMap && k in attrMap[n]
    }

    ghost function Pairs(): (p: Attrs)
      reads this
      ensures forall n, k: nat :: (n, k) in p <==> Has(n, k)
    {
      set n, k | n in attrMap && k in attrMap[n] :: (n, k)
    }

    constructor ()
      ensures Pairs() == {} && attrMap == map[]
    {
      attrMap := map[];
    }

    method Add(n: Node, attr: set<nat>) returns (changed: bool)
      modifies this
      ensures Pairs() == old(Pairs()) + Pair(n, attr)
      ensures changed <==> !(Pair(n, attr) <= old(Pairs()))
      ensures attrMap.Keys == old(attrMap.Keys) + {n}
    {
      var oldAttr := if n in attrMap then attrMap[n] else {};
      var newAttr := oldAttr + attr;
      attrMap := attrMap[n := newAttr];
      changed := oldAttr != newAttr;
      forall x, k ensures Has(x, k) <==> old(Has(x, k)) || (x == n && k in attr) {}
      if !changed {
        forall k | k in attr ensures (n, k) in old(Pairs()) { assert k in oldAttr; }
      } else {
        var k :| k in newAttr && k !in oldAttr;
        assert (n, k) in Pair(n, attr) && !old(Has(n, k));
      }
    }

    method GetAttrs(n: Node) returns (attr: set<nat>)
      ensures forall k :: k in attr <==> (n, k) in Pairs()
    {
      attr := if n in attrMap then attrMap[n] else {};
      forall k ensures k in attr <==> (n, k) in Pairs() { assert (n, k) in Pairs() <==> Has(n, k); }
    }
  }

  ghost function Pair(n: Node, attr: set<nat>): Attrs {
    set k | k in attr :: (n, k)
  }

  // -------------------------------------------------------------- one node

  /** Nothing that n has still has to move to a neighbour of n. */
  ghost predicate Clean(g: Graph, r: Reach, p: Attrs, n: Node) {
    && (forall t, k :: t in r && t.to == n && (n, k) in p ==> (t.from, k) in p)
    && (HasNode(g, Below(n)) ==> forall k :: (n, k) in p ==> (Below(n), k) in p)
  }

  /** The only nodes whose attributes differ are listed. */
  ghost predicate OnlyChanged(p: Attrs, p': Attrs, changed: seq<Node>) {
    p <= p' && forall n, k :: (n, k) in p' && (n, k) !in p ==> n in changed
  }

  method PropagateToAliases(dst: Node, attr: set<nat>, g: Graph, reach: ReachabilitySet, attrs: AliasAttrMap)
    returns (changed: seq<Node>)
    requires InGraph(g, reach.Triples()) && Pair(dst, attr) <= attrs.Pairs()
    requires AttrForced(g, reach.Triples(), attrs.Pairs())
    modifies attrs
    ensures AttrForced(g, reach.Triples(), attrs.Pairs())
    ensures OnlyChanged(old(attrs.Pairs()), attrs.Pairs(), changed) && dst !in changed
    ensures changed != [] ==> old(attrs.Pairs()) < attrs.Pairs()
    ensures forall t, k :: t in reach.Triples() && t.to == dst && k in attr ==> (t.from, k) in attrs.Pairs()
    ensures forall n :: n in changed ==> HasNode(g, n)
    ensures attrs.attrMap.Keys <= old(attrs.attrMap.Keys) + Nodes(g)
    ensures old(attrs.attrMap.Keys) <= attrs.attrMap.Keys
  {
    ghost var r, p0 := reach.Triples(), attrs.Pairs();
    var sources, order := SourcesOf(dst, reach);
    changed := [];
    for i := 0 to |order|
      invariant AttrForced(g, r, attrs.Pairs())
      invariant OnlyChanged(p0, attrs.Pairs(), changed) && dst !in changed
      invariant changed != [] ==> p0 < attrs.Pairs()
      invariant forall j :: 0 <= j < i ==> Pair(order[j], attr) <= attrs.Pairs()
      invariant forall n :: n in changed ==> HasNode(g, n)
      invariant attrs.attrMap.Keys <= old(attrs.attrMap.Keys) + Nodes(g)
      invariant old(attrs.attrMap.Keys) <= attrs.attrMap.Keys
    {
      var src := order[i];
      ghost var p1 := attrs.Pairs();
      assert src in order;
      assert exists q :: Triple(src, dst, q) in r;
      var isNew := attrs.Add(src, attr);
      AttrForcedFlow(g, r, p1, src, dst, attr);
      InNodes(g, src);
      if isNew {
        changed := changed + [src];
      }
    }
    forall t, k | t in r && t.to == dst && k in attr ensures (t.from, k) in attrs.Pairs() {
      assert (t.from, k) in Pair(t.from, attr);
    }
  }

  lemma InNodes(g: Graph, n: Node)
    ensures HasNode(g, n) <==> n in Nodes(g)
  {
    assert n == Node(n.val, n.level);
  }

  lemma AttrForcedFlow(g: Graph, r: Reach, p: Attrs, src: Node, dst: Node, attr: set<nat>)
    requires AttrForced(g, r, p) && Pair(dst, attr) <= p && (exists q :: Triple(src, dst, q) in r)
    ensures AttrForced(g, r, p + Pair(src, attr))
  {
    var q :| Triple(src, dst, q) in r;
    forall p' | AttrClosed(g, r, p') ensures p + Pair(src, attr) <= p' {
      forall k | k in attr ensures (src, k) in p' {
        assert (dst, k) in Pair(dst, attr);
        assert Triple(src, dst, q).to == dst;
      }
    }
  }

  lemma AttrForcedDown(g: Graph, r: Reach, p: Attrs, n: Node, d: Node, attr: set<nat>)
    requires AttrForced(g, r, p) && Pair(n, attr) <= p
    requires HasNode(g, n) && HasNode(g, d) && d.val == n.val && d.level > n.level
    ensures AttrForced(g, r, p + Pair(d, attr))
  {
    forall p' | AttrClosed(g, r, p') ensures p + Pair(d, attr) <= p' {
      forall k | k in attr ensures (d, k) in p' { assert (n, k) in Pair(n, attr); }
    }
  }

  /** The walk to the levels below stops at the first level it changes: that level will carry on. */
  method PropagateBelow(dst: Node, attr: set<nat>, g: Graph, ghost r: Reach, attrs: AliasAttrMap)
    returns (changed: seq<Node>)
    requires HasNode(g, dst) && Pair(dst, attr) <= attrs.Pairs() && AttrForced(g, r, attrs.Pairs())
    modifies attrs
    ensures AttrForced(g, r, attrs.Pairs())
    ensures OnlyChanged(old(attrs.Pairs()), attrs.Pairs(), changed) && dst !in changed
    ensures changed != [] ==> old(attrs.Pairs()) < attrs.Pairs()
    ensures HasNode(g, Below(dst)) ==> Pair(Below(dst), attr) <= attrs.Pairs()
    ensures forall n :: n in changed ==> HasNode(g, n)
    ensures attrs.attrMap.Keys <= old(attrs.attrMap.Keys) + Nodes(g)
    ensures old(attrs.attrMap.Keys) <= attrs.attrMap.Keys
  {
    ghost var p0 := attrs.Pairs();
    changed := [];
    var below := NodeBelow(g, dst);
    while below.Some?
      invariant AttrForced(g, r, attrs.Pairs()) && attrs.Pairs() == p0
      invariant below.Some? ==> HasNode(g, below.value) && below.value.val == dst.val && below.value.level > dst.level
      invariant below == NodeBelow(g, dst) || Pair(Below(dst), attr) <= p0
      invariant attrs.attrMap.Keys <= old(attrs.attrMap.Keys) + Nodes(g)
      invariant old(attrs.attrMap.Keys) <= attrs.attrMap.Keys
      decreases if below.Some? then |g.values[dst.val]| - below.value.level else 0
    {
      InNodes(g, below.value);
      var isNew := attrs.Add(below.value, attr);
      AttrForcedDown(g, r, p0, dst, below.value, attr);
      if isNew {
        changed := [below.value];
        break;
      }
      assert attrs.Pairs() == p0;
      below := NodeBelow(g, below.value);
    }
  }

  /** One entry of the work list. */
  method ProcessAttrs(dst: Node, g: Graph, reach: ReachabilitySet, attrs: AliasAttrMap) returns (changed: seq<Node>)
    requires InGraph(g, reach.Triples()) && HasNode(g, dst)
    requires AttrForced(g, reach.Triples(), attrs.Pairs())
    modifies attrs
    ensures AttrForced(g, reach.Triples(), attrs.Pairs())
    ensures OnlyChanged(old(attrs.Pairs()), attrs.Pairs(), changed)
    ensures changed != [] ==> old(attrs.Pairs()) < attrs.Pairs()
    ensures Clean(g, reach.Triples(), attrs.Pairs(), dst)
    ensures forall n :: n in changed ==> HasNode(g, n)
    ensures attrs.attrMap.Keys <= old(attrs.attrMap.Keys) + Nodes(g)
    ensures old(attrs.attrMap.Keys) <= attrs.attrMap.Keys
  {
    hide AttrForced;
    var attr := attrs.GetAttrs(dst);
    changed := [];
    if attr == {} {
      return;
    }
    changed := PropagateToAliases(dst, attr, g, reach, attrs);
    var more := PropagateBelow(dst, attr, g, reach.Triples(), attrs);
    forall k | (dst, k) in attrs.Pairs() ensures k in attr {}
    forall k | k in attr && HasNode(g, Below(dst)) ensures (Below(dst), k) in attrs.Pairs() {
      assert (Below(dst), k) in Pair(Below(dst), attr);
    }
    changed := changed + more;
  }

  // --------------------------------------------------------------- the loop

  ghost function Bits(g: Graph): set<nat> {
    set v, i, k | v in g.values && 0 <= i < |g.values[v]| && k in g.values[v][i].attr :: k
  }

  ghost function AttrUniverse(g: Graph): Attrs {
    set n, k | n in Nodes(g) && k in Bits(g) :: (n, k)
  }

  lemma AttrsAreBounded(g: Graph, r: Reach, p: Attrs)
    requires InGraph(g, r) && AttrForced(g, r, p)
    ensures p <= AttrUniverse(g)
  {
    var u := AttrUniverse(g);
    forall n, k | HasNode(g, n) && k in Info(g, n).attr ensures (n, k) in u { InNodes(g, n); }
    forall t, k | t in r && (t.to, k) in u ensures (t.from, k) in u { InNodes(g, t.from); }
    forall n, d, k | HasNode(g, n) && HasNode(g, d) && d.val == n.val && d.level > n.level && (n, k) in u
      ensures (d, k) in u
    {
      InNodes(g, d);
    }
  }

  ghost predicate AllCleanBut(g: Graph, r: Reach, p: Attrs, pending: set<Node>) {
    forall n :: HasNode(g, n) && n !in pending ==> Clean(g, r, p, n)
  }

  /** A clean node stays clean while only others change, and a changed node is pending. */
  lemma CleanAfter(g: Graph, r: Reach, p: Attrs, p': Attrs, todo: seq<Node>, s: seq<Node>, changed: seq<Node>)
    requires todo != [] && AllCleanBut(g, r, p, ElemSet(todo) + ElemSet(s))
    requires OnlyChanged(p, p', changed) && Clean(g, r, p', todo[0])
    ensures AllCleanBut(g, r, p', ElemSet(todo[1..]) + ElemSet(s + changed))
  {
    forall n | HasNode(g, n) && n !in ElemSet(todo[1..]) + ElemSet(s + changed) ensures Clean(g, r, p', n) {
      if n != todo[0] {
        assert n !in ElemSet(todo);
        assert Clean(g, r, p, n);
        forall k ensures (n, k) in p' <==> (n, k) in p {}
      }
    }
  }

  /** With every node clean, one level down at a time reaches every level. */
  lemma {:induction false} CleanFlowsDown(g: Graph, r: Reach, p: Attrs, n: Node, d: Node, k: nat)
    requires AllCleanBut(g, r, p, {})
    requires HasNode(g, n) && HasNode(g, d) && d.val == n.val && d.level > n.level && (n, k) in p
    ensures (d, k) in p
    decreases d.level - n.level
  {
    assert HasNode(g, Below(n));
    assert Clean(g, r, p, n);
    if Below(n) != d { CleanFlowsDown(g, r, p, Below(n), d, k); }
  }

  method InitializeAttrs(g: Graph, ghost r: Reach, attrs: AliasAttrMap) returns (work: seq<Node>)
    requires attrs.Pairs() == {} && attrs.attrMap == map[]
    modifies attrs
    ensures HasOwnAttrs(g, attrs.Pairs()) && AttrForced(g, r, attrs.Pairs())
    ensures ElemSet(work) == Nodes(g) == attrs.attrMap.Keys
  {
    work := [];
    var todo := g.values.Keys;
    while todo != {}
      invariant todo <= g.values.Keys
      invariant forall n, k :: HasNode(g, n) && n.val !in todo && k in Info(g, n).attr ==> (n, k) in attrs.Pairs()
      invariant AttrForced(g, r, attrs.Pairs())
      invariant forall n :: n in work <==> HasNode(g, n) && n.val !in todo
      invariant ElemSet(work) == attrs.attrMap.Keys
    {
      var v :| v in todo;
      for i := 0 to |g.values[v]|
        invariant forall n, k ::
                    HasNode(g, n) && (n.val !in todo || (n.val == v && n.level < i)) && k in Info(g, n).attr ==>
                    (n, k) in attrs.Pairs()
        invariant AttrForced(g, r, attrs.Pairs())
        invariant forall n :: n in work <==> HasNode(g, n) && (n.val !in todo || (n.val == v && n.level < i))
        invariant ElemSet(work) == attrs.attrMap.Keys
      {
        ghost var p := attrs.Pairs();
        var node := Node(v, i);
        var isNew := attrs.Add(node, g.values[v][i].attr);
        work := work + [node];
        forall k | k in Info(g, node).attr ensures (node, k) in attrs.Pairs() {
          assert (node, k) in Pair(node, Info(g, node).attr);
        }
        AttrForcedOwn(g, r, p, node);
      }
      todo := todo - {v};
    }
    forall n ensures n in work <==> n in Nodes(g) { InNodes(g, n); }
  }

  lemma AttrForcedOwn(g: Graph, r: Reach, p: Attrs, n: Node)
    requires AttrForced(g, r, p) && HasNode(g, n)
    ensures AttrForced(g, r, p + Pair(n, Info(g, n).attr))
  {
  }

  /** One pass over the work list. */
  method AttrRound(work: seq<Node>, g: Graph, reach: ReachabilitySet, attrs: AliasAttrMap) returns (next: seq<Node>)
    requires InGraph(g, reach.Triples()) && AttrForced(g, reach.Triples(), attrs.Pairs())
    requires AllCleanBut(g, reach.Triples(), attrs.Pairs(), ElemSet(work))
    requires (forall n :: n in work ==> HasNode(g, n)) && attrs.attrMap.Keys == Nodes(g)
    modifies attrs
    ensures AttrForced(g, reach.Triples(), attrs.Pairs())
    ensures AllCleanBut(g, reach.Triples(), attrs.Pairs(), ElemSet(next))
    ensures (forall n :: n in next ==> HasNode(g, n)) && attrs.attrMap.Keys == Nodes(g)
    ensures old(attrs.Pairs()) <= attrs.Pairs() && (next != [] ==> old(attrs.Pairs()) < attrs.Pairs())
  {
    hide AttrForced;
    ghost var r, p0 := reach.Triples(), attrs.Pairs();
    next := [];
    for i := 0 to |work|
      invariant p0 <= attrs.Pairs() && (next != [] ==> p0 < attrs.Pairs())
      invariant AttrForced(g, r, attrs.Pairs())
      invariant AllCleanBut(g, r, attrs.Pairs(), ElemSet(work[i..]) + ElemSet(next))
      invariant forall n :: n in next ==> HasNode(g, n)
      invariant attrs.attrMap.Keys == Nodes(g)
    {
      ghost var p1 := attrs.Pairs();
      var changed := ProcessAttrs(work[i], g, reach, attrs);
      CleanAfter(g, r, p1, attrs.Pairs(), work[i..], next, changed);
      next := next + changed;
    }
  }

  /** What is clean everywhere and holds the nodes' own attributes is closed. */
  lemma CleanIsClosed(g: Graph, r: Reach, p: Attrs)
    requires InGraph(g, r) && HasOwnAttrs(g, p) && AllCleanBut(g, r, p, {})
    ensures AttrClosed(g, r, p)
  {
    forall n, d, k | HasNode(g, n) && HasNode(g, d) && d.val == n.val && d.level > n.level && (n, k) in p
      ensures (d, k) in p
    {
      CleanFlowsDown(g, r, p, n, d, k);
    }
    forall t, k | t in r && (t.to, k) in p ensures (t.from, k) in p { assert Clean(g, r, p, t.to); }
  }

  /** The result is the least assignment of attributes that holds the nodes' own and is closed
      under flow to aliases and to all lower levels, although each walk down breaks at the first
      level it changes. */
  method BuildAttrMap(g: Graph, reach: ReachabilitySet) returns (attrs: AliasAttrMap)
    requires WellFormed(g) && InGraph(g, reach.Triples())
    ensures fresh(attrs) && AttrLeast(g, reach.Triples(), attrs.Pairs())
    ensures attrs.attrMap.Keys == Nodes(g)
  {
    hide AttrForced;
    ghost var r := reach.Triples();
    attrs := new AliasAttrMap();
    var work := InitializeAttrs(g, r, attrs);
    forall n ensures HasNode(g, n) <==> n in ElemSet(work) { InNodes(g, n); }
    forall n | n in work ensures HasNode(g, n) { assert n in ElemSet(work); }
    while work != []
      invariant fresh(attrs) && reach.Triples() == r
      invariant HasOwnAttrs(g, attrs.Pairs()) && AttrForced(g, r, attrs.Pairs())
      invariant AllCleanBut(g, r, attrs.Pairs(), ElemSet(work))
      invariant forall n :: n in work ==> HasNode(g, n)
      invariant attrs.attrMap.Keys == Nodes(g)
      decreases AttrUniverse(g) - attrs.Pairs(), |work|
    {
      var next := AttrRound(work, g, reach, attrs);
      AttrsAreBounded(g, r, attrs.Pairs());
      work := next;
    }
    CleanIsClosed(g, r, attrs.Pairs());
  }
}
