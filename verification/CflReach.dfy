// The reachability worklist of the Andersen-style CFL alias analysis: a relation of
// (from, to, state) triples and a relation of memory aliases grown together.
module CflReach {
  import opened Options
  import opened CflGraph

  datatype MatchState =
    | FlowFromReadOnly
    | FlowFromMemAliasNoReadWrite
    | FlowFromMemAliasReadOnly
    | FlowToWriteOnly
    | FlowToReadWrite
    | FlowToMemAliasWriteOnly
    | FlowToMemAliasReadWrite

  datatype Triple = Triple(from: Node, to: Node, state: MatchState)

  type Reach = set<Triple>
  type Mem = set<(Node, Node)>

  // --------------------------------------------------------- transitions

  /** Where an assignment edge leads. */
  function AssignNext(q: MatchState): MatchState {
    match q
    case FlowFromReadOnly => FlowToReadWrite
    case FlowFromMemAliasNoReadWrite => FlowToWriteOnly
    case FlowFromMemAliasReadOnly => FlowToReadWrite
    case FlowToWriteOnly => FlowToWriteOnly
    case FlowToReadWrite => FlowToReadWrite
    case FlowToMemAliasWriteOnly => FlowToWriteOnly
    case FlowToMemAliasReadWrite => FlowToReadWrite
  }

  /** Where a reverse assignment edge leads; none once an assignment has been taken. */
  function ReverseNext(q: MatchState): Option<MatchState> {
    match q
    case FlowFromReadOnly => Some(FlowFromReadOnly)
    case FlowFromMemAliasNoReadWrite => Some(FlowFromReadOnly)
    case FlowFromMemAliasReadOnly => Some(FlowFromReadOnly)
    case _ => None
  }

  /** Where a memory alias leads; none right after another one. */
  function MemNext(q: MatchState): Option<MatchState> {
    match q
    case FlowFromReadOnly => Some(FlowFromMemAliasReadOnly)
    case FlowToWriteOnly => Some(FlowToMemAliasWriteOnly)
    case FlowToReadWrite => Some(FlowToMemAliasReadWrite)
    case _ => None
  }

  // ------------------------------------------------------ the specification

  ghost predicate HasAssign(g: Graph, r: Reach, t: Triple) {
    forall y :: Edge(g, t.to, y) && y != t.from ==> Triple(t.from, y, AssignNext(t.state)) in r
  }

  ghost predicate HasReverse(g: Graph, r: Reach, t: Triple) {
    ReverseNext(t.state).Some? ==>
      forall y :: Edge(g, y, t.to) && y != t.from ==> Triple(t.from, y, ReverseNext(t.state).value) in r
  }

  ghost predicate HasMem(r: Reach, m: Mem, t: Triple) {
    MemNext(t.state).Some? ==>
      forall b :: (t.to, b) in m && b != t.from ==> Triple(t.from, b, MemNext(t.state).value) in r
  }

  predicate HasBelow(g: Graph, m: Mem, t: Triple) {
    HasNode(g, Below(t.from)) && HasNode(g, Below(t.to)) ==> (Below(t.from), Below(t.to)) in m
  }

  /** Every transition out of t has been made. */
  ghost predicate Processed(g: Graph, r: Reach, m: Mem, t: Triple) {
    HasAssign(g, r, t) && HasReverse(g, r, t) && HasMem(r, m, t) && HasBelow(g, m, t)
  }

  ghost predicate HasInitial(g: Graph, r: Reach) {
    forall x, y :: Edge(g, x, y) && x != y ==>
      Triple(y, x, FlowFromReadOnly) in r && Triple(x, y, FlowToWriteOnly) in r
  }

  ghost predicate HasMemStart(r: Reach, m: Mem) {
    forall a, b :: (a, b) in m && a != b ==> Triple(a, b, FlowFromMemAliasNoReadWrite) in r
  }

  /** r and m are closed under the transition rules. */
  ghost predicate Closed(g: Graph, r: Reach, m: Mem) {
    HasInitial(g, r) && HasMemStart(r, m) && forall t :: t in r ==> Processed(g, r, m, t)
  }

  /** r and m hold nothing that some closed pair does without. */
  ghost predicate Forced(g: Graph, r: Reach, m: Mem) {
    forall r', m' :: Closed(g, r', m') ==> r <= r' && m <= m'
  }

  /** The least pair of relations closed under the rules. */
  ghost predicate Least(g: Graph, r: Reach, m: Mem) {
    Closed(g, r, m) && Forced(g, r, m)
  }

  // ---------------------------------------------------- one forced triple

  lemma ForcedAssign(g: Graph, r: Reach, m: Mem, t: Triple, y: Node)
    requires Forced(g, r, m) && t in r && Edge(g, t.to, y) && y != t.from
    ensures Forced(g, r + {Triple(t.from, y, AssignNext(t.state))}, m)
  {
    forall r', m' | Closed(g, r', m') ensures r + {Triple(t.from, y, AssignNext(t.state))} <= r' {
      assert t in r' && Processed(g, r', m', t);
    }
  }

  lemma ForcedReverse(g: Graph, r: Reach, m: Mem, t: Triple, y: Node)
    requires Forced(g, r, m) && t in r && Edge(g, y, t.to) && y != t.from && ReverseNext(t.state).Some?
    ensures Forced(g, r + {Triple(t.from, y, ReverseNext(t.state).value)}, m)
  {
    forall r', m' | Closed(g, r', m') ensures r + {Triple(t.from, y, ReverseNext(t.state).value)} <= r' {
      assert t in r' && Processed(g, r', m', t);
    }
  }

  lemma ForcedMem(g: Graph, r: Reach, m: Mem, t: Triple, b: Node)
    requires Forced(g, r, m) && t in r && (t.to, b) in m && b != t.from && MemNext(t.state).Some?
    ensures Forced(g, r + {Triple(t.from, b, MemNext(t.state).value)}, m)
  {
    forall r', m' | Closed(g, r', m') ensures r + {Triple(t.from, b, MemNext(t.state).value)} <= r' {
      assert t in r' && Processed(g, r', m', t);
    }
  }

  lemma ForcedBelow(g: Graph, r: Reach, m: Mem, t: Triple)
    requires Forced(g, r, m) && t in r && t.from != t.to && HasNode(g, Below(t.from)) && HasNode(g, Below(t.to))
    ensures var a, b := Below(t.from), Below(t.to);
            Forced(g, r + {Triple(a, b, FlowFromMemAliasNoReadWrite)}, m + {(a, b)})
  {
    var a, b := Below(t.from), Below(t.to);
    forall r', m' | Closed(g, r', m')
      ensures r + {Triple(a, b, FlowFromMemAliasNoReadWrite)} <= r' && m + {(a, b)} <= m'
    {
      assert t in r' && Processed(g, r', m', t);
    }
  }

  lemma ForcedInitial(g: Graph, r: Reach, m: Mem, x: Node, y: Node)
    requires Forced(g, r, m) && Edge(g, x, y) && x != y
    ensures Forced(g, r + {Triple(y, x, FlowFromReadOnly), Triple(x, y, FlowToWriteOnly)}, m)
  {
    forall r', m' | Closed(g, r', m')
      ensures r + {Triple(y, x, FlowFromReadOnly), Triple(x, y, FlowToWriteOnly)} <= r'
    {}
  }

  // ------------------------------------------------------ the state in memory

  /** A state set comes into being with its first state. */
  type StateSet = s: set<MatchState> | s != {} witness {FlowFromReadOnly}

  /** ReachabilitySet: for each node the nodes it is reachable from, with the states. */
  class ReachabilitySet {
    var reachMap: map<Node, map<Node, StateSet>>

    ghost predicate Has(t: Triple)
      reads this
    {
      t.to in reachMap && t.from in reachMap[t.to] && t.state in reachMap[t.to][t.from]
    }

    ghost function Triples(): (r: Reach)
      reads this
      ensures forall t :: t in r <==> Has(t)
    {
      set to, from, q | to in reachMap && from in reachMap[to] && q in reachMap[to][from] :: Triple(from, to, q)
    }

    constructor ()
      ensures Triples() == {}
    {
      reachMap := map[];
    }

    method Insert(from: Node, to: Node, state: MatchState) returns (isNew: bool)
      requires from != to
      modifies this
      ensures Triples() == old(Triples()) + {Triple(from, to, state)}
      ensures isNew <==> Triple(from, to, state) !in old(Triples())
    {
      var sources: map<Node, StateSet> := if to in reachMap then reachMap[to] else map[];
      var states: set<MatchState> := if from in sources then sources[from] else {};
      isNew := state !in states;
      var grown: StateSet := states + {state};
      reachMap := reachMap[to := sources[from := grown]];
      forall t ensures Has(t) <==> old(Has(t)) || t == Triple(from, to, state) {}
    }
  }

  /** AliasMemSet: the memory aliases of each node. */
  class AliasMemSet {
    var memMap: map<Node, set<Node>>

    ghost predicate Has(a: Node, b: Node)
      reads this
    {
      a in memMap && b in memMap[a]
    }

    ghost function Pairs(): (m: Mem)
      reads this
      ensures forall a, b :: (a, b) in m <==> Has(a, b)
    {
      set a, b | a in memMap && b in memMap[a] :: (a, b)
    }

    constructor ()
      ensures Pairs() == {}
    {
      memMap := map[];
    }

    /** Top-level values are never memory aliases. */
    method Insert(a: Node, b: Node) returns (isNew: bool)
      requires a.level > 0 && b.level > 0
      modifies this
      ensures Pairs() == old(Pairs()) + {(a, b)}
      ensures isNew <==> (a, b) !in old(Pairs())
    {
      var aliases := if a in memMap then memMap[a] else {};
      isNew := b !in aliases;
      memMap := memMap[a := aliases + {b}];
      forall x, y ensures Has(x, y) <==> old(Has(x, y)) || (x == a && y == b) {}
    }
  }

  class WorkList {
    var items: seq<Triple>

    constructor ()
      ensures items == []
    {
      items := [];
    }
  }

  ghost predicate Distinct(s: seq<Triple>) {
    forall i, j :: 0 <= i < j < |s| ==> s[i] != s[j]
  }

  ghost function Elems(s: seq<Triple>): set<Triple> {
    set t | t in s
  }

  /** Exactly the triples new in r' have been appended to the work list, each once. */
  ghost predicate Enqueued(r: Reach, r': Reach, items: seq<Triple>, items': seq<Triple>) {
    && r <= r' && items <= items'
    && Elems(items'[|items|..]) == r' - r && Distinct(items'[|items|..])
  }

  lemma EnqueuedNothing(r: Reach, items: seq<Triple>)
    ensures Enqueued(r, r, items, items)
  {
  }

  lemma EnqueuedThen(r0: Reach, r1: Reach, r2: Reach, s0: seq<Triple>, s1: seq<Triple>, s2: seq<Triple>)
    requires Enqueued(r0, r1, s0, s1) && Enqueued(r1, r2, s1, s2)
    ensures Enqueued(r0, r2, s0, s2)
  {
    var a, b, c := s1[|s0|..], s2[|s1|..], s2[|s0|..];
    assert c == a + b;
    forall t ensures t in c <==> t in r2 - r0 {
      assert t in c <==> t in a || t in b;
      assert t in a <==> t in Elems(a);
      assert t in b <==> t in Elems(b);
    }
    forall i, j | 0 <= i < j < |c| ensures c[i] != c[j] {
      if i < |a| <= j {
        assert a[i] in Elems(a) && b[j - |a|] in Elems(b);
      }
    }
  }

  method Propagate(from: Node, to: Node, state: MatchState, reach: ReachabilitySet, work: WorkList)
    modifies reach, work
    ensures reach.Triples() == old(reach.Triples()) + (if from == to then {} else {Triple(from, to, state)})
    ensures Enqueued(old(reach.Triples()), reach.Triples(), old(work.items), work.items)
  {
    if from == to {
      return;
    }
    var isNew := reach.Insert(from, to, state);
    if isNew {
      work.items := work.items + [Triple(from, to, state)];
    }
  }

  /** The triples a list of targets gives rise to; self pairs are dropped. */
  ghost function Onward(from: Node, targets: set<Node>, state: MatchState): Reach {
    set y | y in targets && y != from :: Triple(from, y, state)
  }

  ghost function ElemSet(s: seq<Node>): (r: set<Node>)
    ensures forall y :: y in r <==> y in s
  {
    set y | y in s
  }

  lemma NothingOnward(from: Node, targets: seq<Node>, state: MatchState)
    ensures Onward(from, ElemSet(targets[..0]), state) == {}
  {
  }

  lemma OneMoreOnward(from: Node, targets: seq<Node>, i: nat, state: MatchState)
    requires i < |targets|
    ensures Onward(from, ElemSet(targets[..i + 1]), state)
         == Onward(from, ElemSet(targets[..i]), state)
            + (if from == targets[i] then {} else {Triple(from, targets[i], state)})
  {
    assert ElemSet(targets[..i + 1]) == ElemSet(targets[..i]) + {targets[i]};
  }

  method PropagateAll(from: Node, targets: seq<Node>, state: MatchState, reach: ReachabilitySet, work: WorkList)
    modifies reach, work
    ensures reach.Triples() == old(reach.Triples()) + Onward(from, ElemSet(targets), state)
    ensures Enqueued(old(reach.Triples()), reach.Triples(), old(work.items), work.items)
  {
    hide Enqueued, Onward;
    ghost var r0, s0 := reach.Triples(), work.items;
    EnqueuedNothing(r0, s0);
    NothingOnward(from, targets, state);
    for i := 0 to |targets|
      invariant reach.Triples() == r0 + Onward(from, ElemSet(targets[..i]), state)
      invariant Enqueued(r0, reach.Triples(), s0, work.items)
    {
      ghost var r1, s1 := reach.Triples(), work.items;
      Propagate(from, targets[i], state, reach, work);
      EnqueuedThen(r0, r1, reach.Triples(), s0, s1, work.items);
      OneMoreOnward(from, targets, i, state);
    }
    assert targets[..|targets|] == targets;
  }

  /** A set in some order: the order of a hash table's entries is nobody's business. */
  method SomeOrder(s: set<Node>) returns (order: seq<Node>)
    ensures ElemSet(order) == s
  {
    var todo := s;
    order := [];
    while todo != {}
      invariant todo <= s && ElemSet(order) == s - todo
    {
      var x :| x in todo;
      todo := todo - {x};
      order := order + [x];
    }
  }

  lemma ForcedUnion(g: Graph, r: Reach, m: Mem, more: Reach)
    requires Forced(g, r, m)
    requires forall x :: x in more ==> Forced(g, r + {x}, m)
    ensures Forced(g, r + more, m)
  {
    forall r', m' | Closed(g, r', m') ensures r + more <= r' {
      forall x | x in more ensures x in r' { assert x in r + {x}; }
    }
  }

  /** The relation stays inside the graph and off the diagonal. */
  ghost predicate InGraph(g: Graph, r: Reach) {
    forall t :: t in r ==> HasNode(g, t.from) && HasNode(g, t.to) && t.from != t.to
  }

  ghost predicate MemInGraph(g: Graph, m: Mem) {
    forall a, b :: (a, b) in m ==> HasNode(g, a) && HasNode(g, b) && a != b
  }

  // ------------------------------------------------------- one work item

  method NextAssignState(item: Triple, g: Graph, state: MatchState, reach: ReachabilitySet, work: WorkList)
    requires HasNode(g, item.to)
    modifies reach, work
    ensures reach.Triples() == old(reach.Triples()) + Onward(item.from, ElemSet(Info(g, item.to).edges), state)
    ensures Enqueued(old(reach.Triples()), reach.Triples(), old(work.items), work.items)
  {
    PropagateAll(item.from, Info(g, item.to).edges, state, reach, work);
  }

  method NextRevAssignState(item: Triple, g: Graph, state: MatchState, reach: ReachabilitySet, work: WorkList)
    requires HasNode(g, item.to)
    modifies reach, work
    ensures reach.Triples() == old(reach.Triples()) + Onward(item.from, ElemSet(Info(g, item.to).reverseEdges), state)
    ensures Enqueued(old(reach.Triples()), reach.Triples(), old(work.items), work.items)
  {
    PropagateAll(item.from, Info(g, item.to).reverseEdges, state, reach, work);
  }

  ghost function MemTargets(m: Mem, n: Node): set<Node> {
    set p | p in m && p.0 == n :: p.1
  }

  method NextMemState(item: Triple, state: MatchState, reach: ReachabilitySet, mem: AliasMemSet, work: WorkList)
    modifies reach, work
    ensures reach.Triples() == old(reach.Triples()) + Onward(item.from, MemTargets(mem.Pairs(), item.to), state)
    ensures Enqueued(old(reach.Triples()), reach.Triples(), old(work.items), work.items)
  {
    ghost var targets := MemTargets(mem.Pairs(), item.to);
    if item.to in mem.memMap {
      assert mem.memMap[item.to] == targets by {
        forall b ensures b in mem.memMap[item.to] <==> b in targets {
          assert mem.Has(item.to, b) <==> (item.to, b) in mem.Pairs();
        }
      }
      var order := SomeOrder(mem.memMap[item.to]);
      PropagateAll(item.from, order, state, reach, work);
    } else {
      forall b ensures b !in targets { assert mem.Has(item.to, b) <==> (item.to, b) in mem.Pairs(); }
      EnqueuedNothing(reach.Triples(), work.items);
      assert Onward(item.from, targets, state) == {};
    }
  }

  /** What the switch over an item's state adds. */
  ghost function Steps(g: Graph, m: Mem, t: Triple): Reach
    requires HasNode(g, t.to)
  {
    Onward(t.from, ElemSet(Info(g, t.to).edges), AssignNext(t.state))
    + (if ReverseNext(t.state).Some?
       then Onward(t.from, ElemSet(Info(g, t.to).reverseEdges), ReverseNext(t.state).value) else {})
    + (if MemNext(t.state).Some? then Onward(t.from, MemTargets(m, t.to), MemNext(t.state).value) else {})
  }

  /** The state machine. */
  method WalkStateMachine(item: Triple, g: Graph, reach: ReachabilitySet, mem: AliasMemSet, work: WorkList)
    requires HasNode(g, item.to)
    modifies reach, work
    ensures reach.Triples() == old(reach.Triples()) + Steps(g, mem.Pairs(), item)
    ensures Enqueued(old(reach.Triples()), reach.Triples(), old(work.items), work.items)
  {
    hide Enqueued;
    ghost var r0, s0 := reach.Triples(), work.items;
    match item.state {
      case FlowFromReadOnly =>
        NextRevAssignState(item, g, FlowFromReadOnly, reach, work);
        ghost var r1, s1 := reach.Triples(), work.items;
        NextAssignState(item, g, FlowToReadWrite, reach, work);
        ghost var r2, s2 := reach.Triples(), work.items;
        NextMemState(item, FlowFromMemAliasReadOnly, reach, mem, work);
        EnqueuedThen(r0, r1, r2, s0, s1, s2);
        EnqueuedThen(r0, r2, reach.Triples(), s0, s2, work.items);
      case FlowFromMemAliasNoReadWrite =>
        NextRevAssignState(item, g, FlowFromReadOnly, reach, work);
        ghost var r1, s1 := reach.Triples(), work.items;
        NextAssignState(item, g, FlowToWriteOnly, reach, work);
        EnqueuedThen(r0, r1, reach.Triples(), s0, s1, work.items);
      case FlowFromMemAliasReadOnly =>
        NextRevAssignState(item, g, FlowFromReadOnly, reach, work);
        ghost var r1, s1 := reach.Triples(), work.items;
        NextAssignState(item, g, FlowToReadWrite, reach, work);
        EnqueuedThen(r0, r1, reach.Triples(), s0, s1, work.items);
      case FlowToWriteOnly =>
        NextAssignState(item, g, FlowToWriteOnly, reach, work);
        ghost var r1, s1 := reach.Triples(), work.items;
        NextMemState(item, FlowToMemAliasWriteOnly, reach, mem, work);
        EnqueuedThen(r0, r1, reach.Triples(), s0, s1, work.items);
      case FlowToReadWrite =>
        NextAssignState(item, g, FlowToReadWrite, reach, work);
        ghost var r1, s1 := reach.Triples(), work.items;
        NextMemState(item, FlowToMemAliasReadWrite, reach, mem, work);
        EnqueuedThen(r0, r1, reach.Triples(), s0, s1, work.items);
      case FlowToMemAliasWriteOnly =>
        NextAssignState(item, g, FlowToWriteOnly, reach, work);
      case FlowToMemAliasReadWrite =>
        NextAssignState(item, g, FlowToReadWrite, reach, work);
    }
  }

  /** What a new memory alias (a, b) adds: the alias itself, and everything that has reached a. */
  ghost function AliasSteps(r: Reach, a: Node, b: Node): Reach {
    {Triple(a, b, FlowFromMemAliasNoReadWrite)}
    + set t | t in r && t.to == a && MemNext(t.state).Some? && t.from != b :: Triple(t.from, b, MemNext(t.state).value)
  }

  method MemAliasPropagate(src: Node, states: set<MatchState>, fromState: MatchState, toState: MatchState,
                           b: Node, reach: ReachabilitySet, work: WorkList)
    modifies reach, work
    ensures reach.Triples() == old(reach.Triples())
            + (if fromState in states && src != b then {Triple(src, b, toState)} else {})
    ensures Enqueued(old(reach.Triples()), reach.Triples(), old(work.items), work.items)
  {
    if fromState in states {
      Propagate(src, b, toState, reach, work);
    } else {
      EnqueuedNothing(reach.Triples(), work.items);
    }
  }

  /** Part of AliasSteps due to sources in a set. */
  ghost function AliasStepsFrom(r: Reach, a: Node, b: Node, sources: set<Node>): Reach {
    set t | t in r && t.to == a && t.from in sources && MemNext(t.state).Some? && t.from != b ::
        Triple(t.from, b, MemNext(t.state).value)
  }

  /** The three lambdas of one iteration: what one source of a contributes to b. */
  method PropagateFromSource(src: Node, states: set<MatchState>, a: Node, b: Node, ghost r: Reach,
                             reach: ReachabilitySet, work: WorkList)
    requires forall q :: q in states <==> Triple(src, a, q) in r
    modifies reach, work
    ensures reach.Triples() == old(reach.Triples()) + AliasStepsFrom(r, a, b, {src})
    ensures Enqueued(old(reach.Triples()), reach.Triples(), old(work.items), work.items)
  {
    hide Enqueued;
    ghost var r0, s0 := reach.Triples(), work.items;
    MemAliasPropagate(src, states, FlowFromReadOnly, FlowFromMemAliasReadOnly, b, reach, work);
    ghost var r1, s1 := reach.Triples(), work.items;
    MemAliasPropagate(src, states, FlowToWriteOnly, FlowToMemAliasWriteOnly, b, reach, work);
    ghost var r2, s2 := reach.Triples(), work.items;
    MemAliasPropagate(src, states, FlowToReadWrite, FlowToMemAliasReadWrite, b, reach, work);
    EnqueuedThen(r0, r1, r2, s0, s1, s2);
    EnqueuedThen(r0, r2, reach.Triples(), s0, s2, work.items);
    AliasStepsOfOne(r, a, b, src, states);
  }

  lemma AliasStepsOfOne(r: Reach, a: Node, b: Node, src: Node, states: set<MatchState>)
    requires forall q :: q in states <==> Triple(src, a, q) in r
    ensures AliasStepsFrom(r, a, b, {src})
         == (if FlowFromReadOnly in states && src != b then {Triple(src, b, FlowFromMemAliasReadOnly)} else {})
            + (if FlowToWriteOnly in states && src != b then {Triple(src, b, FlowToMemAliasWriteOnly)} else {})
            + (if FlowToReadWrite in states && src != b then {Triple(src, b, FlowToMemAliasReadWrite)} else {})
  {
    var one := AliasStepsFrom(r, a, b, {src});
    forall x ensures x in one <==>
        (src != b && ((FlowFromReadOnly in states && x == Triple(src, b, FlowFromMemAliasReadOnly))
                   || (FlowToWriteOnly in states && x == Triple(src, b, FlowToMemAliasWriteOnly))
                   || (FlowToReadWrite in states && x == Triple(src, b, FlowToMemAliasReadWrite))))
    {
      if src != b {
        if FlowFromReadOnly in states && x == Triple(src, b, FlowFromMemAliasReadOnly) {
          assert Triple(src, a, FlowFromReadOnly) in r;
        }
        if FlowToWriteOnly in states && x == Triple(src, b, FlowToMemAliasWriteOnly) {
          assert Triple(src, a, FlowToWriteOnly) in r;
        }
        if FlowToReadWrite in states && x == Triple(src, b, FlowToMemAliasReadWrite) {
          assert Triple(src, a, FlowToReadWrite) in r;
        }
      }
    }
  }

  /** The loop over everything that has reached a. Its entries do not change meanwhile, since a != b. */
  method PropagateSources(sources: map<Node, StateSet>, order: seq<Node>, a: Node, b: Node,
                          reach: ReachabilitySet, work: WorkList)
    requires a != b
    requires forall src :: src in order ==> src in sources
    requires forall src, q :: src in sources ==> (q in sources[src] <==> Triple(src, a, q) in reach.Triples())
    modifies reach, work
    ensures reach.Triples() == old(reach.Triples()) + AliasStepsFrom(old(reach.Triples()), a, b, ElemSet(order))
    ensures Enqueued(old(reach.Triples()), reach.Triples(), old(work.items), work.items)
  {
    hide Enqueued, AliasStepsFrom;
    ghost var r0, s0 := reach.Triples(), work.items;
    EnqueuedNothing(r0, s0);
    AliasStepsUnion(r0, a, b, {}, {});
    assert ElemSet(order[..0]) == {};
    for i := 0 to |order|
      invariant reach.Triples() == r0 + AliasStepsFrom(r0, a, b, ElemSet(order[..i]))
      invariant Enqueued(r0, reach.Triples(), s0, work.items)
    {
      ghost var r1, s1 := reach.Triples(), work.items;
      PropagateFromSource(order[i], sources[order[i]], a, b, r0, reach, work);
      EnqueuedThen(r0, r1, reach.Triples(), s0, s1, work.items);
      assert ElemSet(order[..i + 1]) == ElemSet(order[..i]) + {order[i]};
      AliasStepsUnion(r0, a, b, ElemSet(order[..i]), {order[i]});
    }
    assert order[..|order|] == order;
  }

  /** A new memory alias (a, b). */
  method PropagateNewAlias(a: Node, b: Node, reach: ReachabilitySet, work: WorkList)
    requires a != b
    modifies reach, work
    ensures reach.Triples() == old(reach.Triples()) + AliasSteps(old(reach.Triples()), a, b)
    ensures Enqueued(old(reach.Triples()), reach.Triples(), old(work.items), work.items)
  {
    hide Enqueued, AliasSteps, AliasStepsFrom;
    ghost var r0, s0 := reach.Triples(), work.items;
    Propagate(a, b, FlowFromMemAliasNoReadWrite, reach, work);
    ghost var r1, s1 := reach.Triples(), work.items;
    var sources, order := SourcesOf(a, reach);
    PropagateSources(sources, order, a, b, reach, work);
    EnqueuedThen(r0, r1, reach.Triples(), s0, s1, work.items);
    forall t | t in r0 && t.to == a ensures t.from in ElemSet(order) { assert t in r1; }
    AliasStepsAll(r0, a, b, ElemSet(order));
  }

  lemma AliasStepsUnion(r: Reach, a: Node, b: Node, s: set<Node>, s': set<Node>)
    ensures AliasStepsFrom(r, a, b, s + s') == AliasStepsFrom(r, a, b, s) + AliasStepsFrom(r, a, b, s')
    ensures AliasStepsFrom(r, a, b, {}) == {}
  {
  }

  lemma AliasStepsAll(r: Reach, a: Node, b: Node, sources: set<Node>)
    requires a != b
    requires forall t :: t in r && t.to == a ==> t.from in sources
    ensures var r1 := r + {Triple(a, b, FlowFromMemAliasNoReadWrite)};
            r1 + AliasStepsFrom(r1, a, b, sources) == r + AliasSteps(r, a, b)
  {
    var r1 := r + {Triple(a, b, FlowFromMemAliasNoReadWrite)};
    assert AliasStepsFrom(r1, a, b, sources) == AliasStepsFrom(r, a, b, sources);
    forall x | x in AliasSteps(r, a, b) && x !in r1 ensures x in AliasStepsFrom(r, a, b, sources) {}
  }

  /** reachableValueAliases(a), as a snapshot in some order. */
  method SourcesOf(a: Node, reach: ReachabilitySet) returns (sources: map<Node, StateSet>, order: seq<Node>)
    ensures forall src :: src in order <==> src in sources
    ensures forall src, q :: src in sources ==> (q in sources[src] <==> Triple(src, a, q) in reach.Triples())
    ensures forall t :: t in reach.Triples() && t.to == a ==> t.from in order
    ensures forall src :: src in order ==> exists q :: Triple(src, a, q) in reach.Triples()
  {
    sources := if a in reach.reachMap then reach.reachMap[a] else map[];
    order := SomeOrder(sources.Keys);
    forall src ensures src in order <==> src in sources { assert src in ElemSet(order) <==> src in sources.Keys; }
    forall src, q | src in sources ensures q in sources[src] <==> Triple(src, a, q) in reach.Triples() {
      assert reach.Has(Triple(src, a, q)) <==> Triple(src, a, q) in reach.Triples();
    }
    forall t | t in reach.Triples() && t.to == a ensures t.from in order { assert reach.Has(t); }
    forall src | src in order ensures exists q :: Triple(src, a, q) in reach.Triples() {
      var q :| q in sources[src];
      assert reach.Has(Triple(src, a, q));
    }
  }
}
