// What the analysis answers: per-value alias lists, and mayAlias.
module CflQuery {
  import opened Options
  import opened CflGraph
  import opened CflReach
  import opened CflGrammar
  import opened CflSolver
  import opened CflAttrs
  import opened CflOrigin

  // --------------------------------------------- states are not symmetric

  const U := Node(0, 0)
  const V := Node(1, 0)
  const X := Node(2, 0)

  /** V is assigned to U and to X, and X back to V. */
  const CYCLE := Graph(map[
    0 := [NodeInfo([], [V], {})],
    1 := [NodeInfo([U, X], [X], {})],
    2 := [NodeInfo([V], [V], {})]])

  lemma CycleNodes()
    ensures forall n :: HasNode(CYCLE, n) <==> n == U || n == V || n == X
  {
  }

  lemma CycleEdges()
    ensures forall a, b :: Edge(CYCLE, a, b) <==> (a == V && b == U) || (a == V && b == X) || (a == X && b == V)
    ensures WellFormed(CYCLE)
  {
    CycleNodes();
    assert Info(CYCLE, U) == NodeInfo([], [V], {});
    assert Info(CYCLE, V) == NodeInfo([U, X], [X], {});
    assert Info(CYCLE, X) == NodeInfo([V], [V], {});
  }

  lemma ReadWriteFromU(r: Reach, m: Mem)
    requires Closed(CYCLE, r, m)
    ensures Triple(U, V, FlowToReadWrite) in r
  {
    CycleEdges();
    hide Edge;
    assert Edge(CYCLE, V, U) && Edge(CYCLE, V, X) && Edge(CYCLE, X, V);
    assert Triple(U, V, FlowFromReadOnly) in r;
    assert Processed(CYCLE, r, m, Triple(U, V, FlowFromReadOnly));
    assert Triple(U, X, FlowToReadWrite) in r;
    assert Processed(CYCLE, r, m, Triple(U, X, FlowToReadWrite));
  }

  lemma BackToV(x: Node, l: Letter, y: Node)
    requires (x == U || x == X) && HopAllowed(CYCLE, {}, x, l, y)
    ensures y == V
  {
    CycleEdges();
  }

  lemma OneHopFromV(p: Path)
    requires IsPath(CYCLE, {}, V, p) && Avoids(p, V)
    ensures |p| <= 1
  {
    CycleEdges();
    hide Edge;
    if |p| >= 2 {
      assert HopAllowed(CYCLE, {}, NodeAt(V, p, 0), p[0].letter, p[0].node);
      BackToV(NodeAt(V, p, 1), p[1].letter, p[1].node);
    }
  }

  /** Only reachability with states ignored is symmetric. On an assignment cycle a path may have
      to return to its start to mix reads and writes, and such triples are dropped: here V is
      reached from U in the read-write state, but U from V is not. */
  lemma StatesAreNotSymmetric(r: Reach, m: Mem)
    requires Least(CYCLE, r, m)
    ensures WellFormed(CYCLE)
    ensures Triple(U, V, FlowToReadWrite) in r && Triple(V, U, FlowToReadWrite) !in r
  {
    CycleEdges();
    ReadWriteFromU(r, m);
    CycleNodes();
    hide Edge, HasNode;
    forall a, b ensures (a, b) !in m { MemoryAliasIffRecordedAbove(CYCLE, r, m, a, b); }
    forall p ensures p !in m { assert p == (p.0, p.1); }
    assert m == {};
    var t := Triple(V, U, FlowToReadWrite);
    forall p: Path ensures !Spells(CYCLE, m, t, p) {
      if Spells(CYCLE, m, t, p) { OneHopFromV(p); }
    }
    RecordedIffSpelled(CYCLE, r, m, t);
  }

  // ---------------------------------------------------------- the answers

  /** An alias and its offset; None is the unknown offset. */
  datatype OffsetValue = OffsetValue(val: Value, offset: Option<int>)

  datatype FunctionInfo = FunctionInfo(aliasMap: map<Value, seq<OffsetValue>>, attrMap: map<Value, set<nat>>)

  const ATTR_ESCAPED: nat := 0
  const ATTR_UNKNOWN: nat := 1
  const ATTR_CALLER: nat := 3
  const INT64_MAX: int := 0x7FFF_FFFF_FFFF_FFFF

  predicate HasUnknownOrCaller(attr: set<nat>) {
    ATTR_UNKNOWN in attr || ATTR_CALLER in attr
  }

  predicate IsGlobalOrArg(attr: set<nat>) {
    attr - {ATTR_ESCAPED, ATTR_UNKNOWN, ATTR_CALLER} != {}
  }

  /** The entries of an alias list for one value: the range equal_range finds in the sorted list. */
  function EntriesFor(list: seq<OffsetValue>, v: Value): (r: seq<OffsetValue>)
    ensures r != [] <==> exists i :: 0 <= i < |list| && list[i].val == v
    ensures forall e :: e in r ==> e in list && e.val == v
  {
    if list == [] then []
    else
      assert forall i :: 1 <= i < |list| ==> list[i] == list[1..][i - 1];
      if list[0].val == v then [list[0]] + EntriesFor(list[1..], v) else EntriesFor(list[1..], v)
  }

  /** Ranges [offset, offset + lhsSize) and [0, rhsSize), with the conservative answers first. */
  predicate EntryOverlaps(e: OffsetValue, lhsSize: nat, rhsSize: nat) {
    match e.offset
    case None => true
    case Some(start) =>
      lhsSize > INT64_MAX || rhsSize > INT64_MAX || (start + lhsSize > 0 && start < rhsSize)
  }

  /** A size of None is the unknown size. */
  predicate MayAlias(info: FunctionInfo, lhs: Value, lhsSize: Option<nat>, rhs: Value, rhsSize: Option<nat>) {
    if lhs !in info.attrMap || rhs !in info.attrMap then true
    else
      var a, b := info.attrMap[lhs], info.attrMap[rhs];
      if HasUnknownOrCaller(a) then b != {}
      else if HasUnknownOrCaller(b) then a != {}
      else if IsGlobalOrArg(a) then IsGlobalOrArg(b)
      else if IsGlobalOrArg(b) then IsGlobalOrArg(a)
      else
        lhs in info.aliasMap
        && var range := EntriesFor(info.aliasMap[lhs], rhs);
           range != []
           && (lhsSize.None? || rhsSize.None?
               || exists e :: e in range && EntryOverlaps(e, lhsSize.value, rhsSize.value))
  }

  /** The alias lists are the recorded pairs of top-level values, all at unknown offsets. */
  ghost predicate ListsAliases(info: FunctionInfo, r: Reach) {
    && (forall v :: v in info.aliasMap ==> forall e :: e in info.aliasMap[v] ==> e.offset == None)
    && (forall v, w :: Recorded(r, Node(w, 0), Node(v, 0)) <==>
          v in info.aliasMap && OffsetValue(w, None) in info.aliasMap[v])
  }

  method PopulateAliasMap(reach: ReachabilitySet) returns (aliasMap: map<Value, seq<OffsetValue>>)
    ensures ListsAliases(FunctionInfo(aliasMap, map[]), reach.Triples())
  {
    ghost var r := reach.Triples();
    aliasMap := map[];
    var todo := reach.reachMap.Keys;
    while todo != {}
      invariant todo <= reach.reachMap.Keys
      invariant forall v :: v in aliasMap ==> forall e :: e in aliasMap[v] ==> e.offset == None
      invariant forall v :: v in aliasMap ==> Node(v, 0) in reach.reachMap && Node(v, 0) !in todo
      invariant forall v, w :: Node(v, 0) !in todo ==>
                  (Recorded(r, Node(w, 0), Node(v, 0)) <==> v in aliasMap && OffsetValue(w, None) in aliasMap[v])
    {
      var to :| to in todo;
      todo := todo - {to};
      if to.level == 0 {
        var list := ListTopLevel(to, reach);
        aliasMap := aliasMap[to.val := list];
      }
      assert forall v :: Node(v, 0) == to ==> to.level == 0 && v == to.val;
    }
    forall v, w | Node(v, 0) !in reach.reachMap ensures !Recorded(r, Node(w, 0), Node(v, 0)) {
      forall q ensures Triple(Node(w, 0), Node(v, 0), q) !in r { assert !reach.Has(Triple(Node(w, 0), Node(v, 0), q)); }
    }
  }

  method ListTopLevel(to: Node, reach: ReachabilitySet) returns (list: seq<OffsetValue>)
    ensures forall e :: e in list ==> e.offset == None
    ensures forall w :: OffsetValue(w, None) in list <==> Recorded(reach.Triples(), Node(w, 0), to)
  {
    var sources, order := SourcesOf(to, reach);
    list := [];
    for i := 0 to |order|
      invariant forall e :: e in list ==> e.offset == None
      invariant forall w :: OffsetValue(w, None) in list <==> Node(w, 0) in order[..i]
    {
      if order[i].level == 0 {
        list := list + [OffsetValue(order[i].val, None)];
      }
      assert order[..i + 1] == order[..i] + [order[i]];
    }
    assert order[..|order|] == order;
    forall w ensures Node(w, 0) in order <==> Recorded(reach.Triples(), Node(w, 0), to) {
      if Recorded(reach.Triples(), Node(w, 0), to) {
        var q :| Triple(Node(w, 0), to, q) in reach.Triples();
        assert Triple(Node(w, 0), to, q).to == to;
      }
    }
  }

  /** Every value with a node is known; only the top level's attributes matter. */
  ghost predicate ListsAttrs(info: FunctionInfo, g: Graph, p: Attrs) {
    && info.attrMap.Keys == g.values.Keys
    && forall v, k :: v in info.attrMap ==> (k in info.attrMap[v] <==> (Node(v, 0), k) in p)
  }

  ghost function ValuesOf(nodes: set<Node>): set<Value> {
    set n | n in nodes :: n.val
  }

  lemma ValuesOfNodes(g: Graph)
    requires WellFormed(g)
    ensures ValuesOf(Nodes(g)) == g.values.Keys
  {
    forall v | v in g.values ensures v in ValuesOf(Nodes(g)) {
      InNodes(g, Node(v, 0));
      assert Node(v, 0).val == v;
    }
    forall v | v in ValuesOf(Nodes(g)) ensures v in g.values {
      var n :| n in Nodes(g) && n.val == v;
      InNodes(g, n);
    }
  }

  method PopulateAttrMap(g: Graph, attrs: AliasAttrMap) returns (attrMap: map<Value, set<nat>>)
    requires WellFormed(g) && attrs.attrMap.Keys == Nodes(g)
    ensures ListsAttrs(FunctionInfo(map[], attrMap), g, attrs.Pairs())
  {
    attrMap := map[];
    var todo := attrs.attrMap.Keys;
    ghost var done: set<Node> := {};
    while todo != {}
      invariant todo + done == attrs.attrMap.Keys && todo !! done
      invariant attrMap.Keys == ValuesOf(done)
      invariant forall v :: v in attrMap ==> attrMap[v] == if Node(v, 0) in done then attrs.attrMap[Node(v, 0)] else {}
    {
      var n :| n in todo;
      todo, done := todo - {n}, done + {n};
      var attr := if n.val in attrMap then attrMap[n.val] else {};
      attrMap := attrMap[n.val := if n.level == 0 then attr + attrs.attrMap[n] else attr];
      assert ValuesOf(done) == ValuesOf(done - {n}) + {n.val};
    }
    ValuesOfNodes(g);
    forall v, k: nat | v in attrMap ensures k in attrMap[v] <==> (Node(v, 0), k) in attrs.Pairs() {
      InNodes(g, Node(v, 0));
      assert (Node(v, 0), k) in attrs.Pairs() <==> attrs.Has(Node(v, 0), k);
    }
  }

  /** With unknown offsets only, an alias list answers whether the pair is recorded. */
  lemma ListAnswers(info: FunctionInfo, r: Reach, v: Value, w: Value, vSize: Option<nat>, wSize: Option<nat>)
    requires ListsAliases(info, r)
    ensures (v in info.aliasMap
             && var range := EntriesFor(info.aliasMap[v], w);
                range != []
                && (vSize.None? || wSize.None?
                    || exists e :: e in range && EntryOverlaps(e, vSize.value, wSize.value)))
            <==> Recorded(r, Node(w, 0), Node(v, 0))
  {
    if v in info.aliasMap {
      var list := info.aliasMap[v];
      var range := EntriesFor(list, w);
      if range != [] {
        assert range[0] in range && range[0] in list && range[0] == OffsetValue(w, None);
        if vSize.Some? && wSize.Some? { assert EntryOverlaps(range[0], vSize.value, wSize.value); }
      } else {
        assert forall i :: 0 <= i < |list| ==> list[i].val != w;
      }
    }
  }

  /** mayAlias does not depend on the order of its arguments, although it searches the alias
      list of the first one only. */
  lemma MayAliasIsSymmetric(info: FunctionInfo, g: Graph, r: Reach, m: Mem,
                            v: Value, vSize: Option<nat>, w: Value, wSize: Option<nat>)
    requires Least(g, r, m) && ListsAliases(info, r)
    ensures MayAlias(info, v, vSize, w, wSize) == MayAlias(info, w, wSize, v, vSize)
  {
    RecordedIsSymmetric(g, r, m, Node(v, 0), Node(w, 0));
    ListAnswers(info, r, v, w, vSize, wSize);
    ListAnswers(info, r, w, v, wSize, vSize);
  }

  predicate Local(info: FunctionInfo, v: Value) {
    v in info.attrMap && !HasUnknownOrCaller(info.attrMap[v]) && !IsGlobalOrArg(info.attrMap[v])
  }

  /** For two distinct values the analysis knows to be local, the answer is exactly whether
      a path of the alias grammar joins them. */
  lemma MayAliasIffJoined(info: FunctionInfo, g: Graph, r: Reach, m: Mem,
                          v: Value, vSize: Option<nat>, w: Value, wSize: Option<nat>)
    requires Least(g, r, m) && ListsAliases(info, r)
    requires v != w && Local(info, v) && Local(info, w)
    ensures MayAlias(info, v, vSize, w, wSize) <==> Joined(g, m, Node(v, 0), Node(w, 0))
  {
    RecordedIsSymmetric(g, r, m, Node(v, 0), Node(w, 0));
    RecordedIffJoined(g, r, m, Node(v, 0), Node(w, 0));
    ListAnswers(info, r, v, w, vSize, wSize);
  }

  // ------------------------------------------- the answer, for all values

  /** A value of unknown origin (bit 1), or from the caller (bit 3). */
  ghost predicate Tainted(p: Attrs, v: Value) {
    (Node(v, 0), 1) in p || (Node(v, 0), 3) in p
  }

  /** A global or an argument: any bit but those two and that of an escaped value (bit 0). */
  ghost predicate FromOutside(p: Attrs, v: Value) {
    exists k: nat :: k != 0 && k != 1 && k != 3 && (Node(v, 0), k) in p
  }

  ghost predicate Marked(p: Attrs, v: Value) {
    exists k: nat :: (Node(v, 0), k) in p
  }

  /** What the attributes and the grammar say of two values. */
  ghost predicate MeetsOrUnknown(g: Graph, m: Mem, p: Attrs, v: Value, w: Value) {
    if v !in g.values || w !in g.values then true
    else if Tainted(p, v) || Tainted(p, w) then Marked(p, v) && Marked(p, w)
    else if FromOutside(p, v) || FromOutside(p, w) then FromOutside(p, v) && FromOutside(p, w)
    else v != w && Joined(g, m, Node(v, 0), Node(w, 0))
  }

  lemma AttrsTell(info: FunctionInfo, g: Graph, p: Attrs, v: Value)
    requires ListsAttrs(info, g, p) && v in g.values
    ensures v in info.attrMap
    ensures HasUnknownOrCaller(info.attrMap[v]) <==> Tainted(p, v)
    ensures IsGlobalOrArg(info.attrMap[v]) <==> FromOutside(p, v)
    ensures info.attrMap[v] != {} <==> Marked(p, v)
  {
    var attr := info.attrMap[v];
    if IsGlobalOrArg(attr) {
      var k :| k in attr - {ATTR_ESCAPED, ATTR_UNKNOWN, ATTR_CALLER};
      assert (Node(v, 0), k) in p;
    }
    if FromOutside(p, v) {
      var k: nat :| k != 0 && k != 1 && k != 3 && (Node(v, 0), k) in p;
      assert k in attr - {ATTR_ESCAPED, ATTR_UNKNOWN, ATTR_CALLER};
    }
    if attr != {} {
      var k :| k in attr;
      assert (Node(v, 0), k) in p;
    }
    if Marked(p, v) {
      var k: nat :| (Node(v, 0), k) in p;
      assert k in attr;
    }
  }

  /** Every answer: for values the analysis has not seen, for tainted ones, for those from outside, and for local ones
      by the grammar. */
  lemma MayAliasIff(info: FunctionInfo, g: Graph, r: Reach, m: Mem, p: Attrs,
                    v: Value, vSize: Option<nat>, w: Value, wSize: Option<nat>)
    requires Least(g, r, m) && ListsAliases(info, r) && ListsAttrs(info, g, p)
    ensures MayAlias(info, v, vSize, w, wSize) <==> MeetsOrUnknown(g, m, p, v, w)
  {
    if v in g.values && w in g.values {
      AttrsTell(info, g, p, v);
      AttrsTell(info, g, p, w);
      hide Least, ListsAliases, ListsAttrs, HasUnknownOrCaller, IsGlobalOrArg, Tainted, FromOutside, Marked, Joined;
      assert Tainted(p, v) ==> Marked(p, v) by { TaintedIsMarked(p, v); }
      assert Tainted(p, w) ==> Marked(p, w) by { TaintedIsMarked(p, w); }
      ListAnswers(info, r, v, w, vSize, wSize);
      RecordedIsSymmetric(g, r, m, Node(v, 0), Node(w, 0));
      if v != w { RecordedIffJoined(g, r, m, Node(v, 0), Node(w, 0)); } else { NotWithItself(g, r, m, Node(v, 0)); }
    }
  }

  lemma TaintedIsMarked(p: Attrs, v: Value)
    ensures Tainted(p, v) ==> Marked(p, v)
  {
  }

  lemma NotWithItself(g: Graph, r: Reach, m: Mem, n: Node)
    requires Least(g, r, m)
    ensures !Recorded(r, n, n)
  {
    NoSelfPairs(g, r, m);
    forall q ensures Triple(n, n, q) !in r { assert Triple(n, n, q).from == Triple(n, n, q).to; }
  }

  // ------------------------------------------------------- known offsets

  predicate HasByte(start: int, size: nat, x: int) { start <= x < start + size }

  /** Two ranges share a byte. */
  ghost predicate ShareByte(start: int, size: nat, start': int, size': nat) {
    exists x :: HasByte(start, size, x) && HasByte(start', size', x)
  }

  /** For known sizes an entry at a known offset overlaps exactly when the two ranges share a byte; an unknown
      offset and sizes beyond a signed 64-bit number always overlap. */
  lemma EntryOverlapsIff(e: OffsetValue, lhsSize: nat, rhsSize: nat)
    requires lhsSize > 0 && rhsSize > 0
    ensures EntryOverlaps(e, lhsSize, rhsSize)
            <==> e.offset == None || lhsSize > 0x7FFF_FFFF_FFFF_FFFF || rhsSize > 0x7FFF_FFFF_FFFF_FFFF
                 || ShareByte(e.offset.value, lhsSize, 0, rhsSize)
  {
    if e.offset.Some? {
      var x := if e.offset.value > 0 then e.offset.value else 0;
      if e.offset.value + lhsSize > 0 && e.offset.value < rhsSize {
        assert HasByte(e.offset.value, lhsSize, x) && HasByte(0, rhsSize, x);
      }
    }
  }

  /** For any alias lists: two local values may alias exactly when the first one's list has an entry for the second
      that overlaps it, or has one at all when a size is unknown. */
  lemma LocalQueryIff(info: FunctionInfo, v: Value, vSize: Option<nat>, w: Value, wSize: Option<nat>)
    requires Local(info, v) && Local(info, w)
    ensures MayAlias(info, v, vSize, w, wSize)
            <==> v in info.aliasMap
                 && exists i :: 0 <= i < |info.aliasMap[v]| && info.aliasMap[v][i].val == w
                                && (vSize.None? || wSize.None?
                                    || EntryOverlaps(info.aliasMap[v][i], vSize.value, wSize.value))
  {
    if v in info.aliasMap {
      var list := info.aliasMap[v];
      EntriesAreAll(list, w);
      var range := EntriesFor(list, w);
      if MayAlias(info, v, vSize, w, wSize) {
        var e :| e in range && (vSize.None? || wSize.None? || EntryOverlaps(e, vSize.value, wSize.value));
        var i :| 0 <= i < |list| && list[i] == e;
      }
      if i :| 0 <= i < |list| && list[i].val == w
              && (vSize.None? || wSize.None? || EntryOverlaps(list[i], vSize.value, wSize.value))
      {
        assert list[i] in range;
      }
    }
  }

  lemma {:induction false} EntriesAreAll(list: seq<OffsetValue>, w: Value)
    ensures forall e :: e in EntriesFor(list, w) <==> e in list && e.val == w
  {
    if list != [] {
      EntriesAreAll(list[1..], w);
      forall e ensures e in EntriesFor(list, w) <==> e in list && e.val == w {
        assert e in list <==> e == list[0] || e in list[1..];
        assert EntriesFor(list, w)
            == (if list[0].val == w then [list[0]] + EntriesFor(list[1..], w) else EntriesFor(list[1..], w));
      }
    }
  }

  /** buildInfoFrom, once the graph is there. */
  method BuildInfoFrom(g: Graph) returns (info: FunctionInfo, ghost r: Reach, ghost m: Mem, ghost p: Attrs)
    requires WellFormed(g)
    ensures Least(g, r, m) && InGraph(g, r) && AttrLeast(g, r, p)
    ensures ListsAliases(info, r) && ListsAttrs(info, g, p)
    ensures forall v, vSize, w, wSize :: MayAlias(info, v, vSize, w, wSize) == MayAlias(info, w, wSize, v, vSize)
    ensures forall v, vSize, w, wSize :: MayAlias(info, v, vSize, w, wSize) <==> MeetsOrUnknown(g, m, p, v, w)
    ensures forall n, k: nat :: (n, k) in p <==> HasOrigin(g, m, n, k)
  {
    hide Least, AttrLeast, MayAlias, HasOrigin;
    var reach, mem;
    ghost var log;
    reach, mem, log := Solve(g);
    r, m := reach.Triples(), mem.Pairs();
    var attrs := BuildAttrMap(g, reach);
    p := attrs.Pairs();
    var aliasMap := PopulateAliasMap(reach);
    var attrMap := PopulateAttrMap(g, attrs);
    info := FunctionInfo(aliasMap, attrMap);
    forall v, vSize, w, wSize ensures MayAlias(info, v, vSize, w, wSize) == MayAlias(info, w, wSize, v, vSize) {
      MayAliasIsSymmetric(info, g, r, m, v, vSize, w, wSize);
    }
    hide MeetsOrUnknown;
    forall v, vSize, w, wSize ensures MayAlias(info, v, vSize, w, wSize) <==> MeetsOrUnknown(g, m, p, v, w) {
      MayAliasIff(info, g, r, m, p, v, vSize, w, wSize);
    }
    forall n, k: nat ensures (n, k) in p <==> HasOrigin(g, m, n, k) { AttrsHaveOrigins(g, r, m, p, n, k); }
  }
}
