// The worklist loop: it terminates at the least pair of relations closed under the
// rules, whatever the order of items, and enqueues each triple exactly once.
module CflSolver {
  import opened CflGraph
  import opened CflReach

  /** What holds between any two work items. */
  ghost predicate Consistent(g: Graph, r: Reach, m: Mem) {
    InGraph(g, r) && MemInGraph(g, m) && HasMemStart(r, m) && Forced(g, r, m)
  }

  /** Triples that were processed stay processed. */
  ghost predicate KeepsProcessed(g: Graph, r: Reach, m: Mem, r': Reach, m': Mem) {
    forall t :: t in r && Processed(g, r, m, t) ==> Processed(g, r', m', t)
  }

  lemma StepsAreForced(g: Graph, r: Reach, m: Mem, t: Triple)
    requires WellFormed(g) && Consistent(g, r, m) && t in r
    ensures Consistent(g, r + Steps(g, m, t), m)
  {
    var more := Steps(g, m, t);
    forall x | x in more
      ensures Forced(g, r + {x}, m)
      ensures HasNode(g, x.from) && HasNode(g, x.to) && x.from != x.to
    {
      if x in Onward(t.from, ElemSet(Info(g, t.to).edges), AssignNext(t.state)) {
        assert Edge(g, t.to, x.to);
        ForcedAssign(g, r, m, t, x.to);
      } else if ReverseNext(t.state).Some?
                && x in Onward(t.from, ElemSet(Info(g, t.to).reverseEdges), ReverseNext(t.state).value) {
        assert Edge(g, x.to, t.to);
        ForcedReverse(g, r, m, t, x.to);
      } else {
        assert (t.to, x.to) in m;
        ForcedMem(g, r, m, t, x.to);
      }
    }
    ForcedUnion(g, r, m, more);
  }

  lemma StepsProcess(g: Graph, r: Reach, m: Mem, t: Triple)
    requires WellFormed(g) && InGraph(g, r) && t in r && HasBelow(g, m, t)
    ensures Processed(g, r + Steps(g, m, t), m, t)
    ensures KeepsProcessed(g, r, m, r + Steps(g, m, t), m)
  {
    var r' := r + Steps(g, m, t);
    forall y | Edge(g, t.to, y) && y != t.from ensures Triple(t.from, y, AssignNext(t.state)) in r' {
      assert y in ElemSet(Info(g, t.to).edges);
    }
    if ReverseNext(t.state).Some? {
      forall y | Edge(g, y, t.to) && y != t.from ensures Triple(t.from, y, ReverseNext(t.state).value) in r' {
        assert y in Info(g, t.to).reverseEdges;
        assert y in ElemSet(Info(g, t.to).reverseEdges);
      }
    }
    if MemNext(t.state).Some? {
      forall b | (t.to, b) in m && b != t.from ensures Triple(t.from, b, MemNext(t.state).value) in r' {
        assert (t.to, b).1 in MemTargets(m, t.to);
      }
    }
  }

  lemma AliasStepsAreForced(g: Graph, r: Reach, m: Mem, t: Triple)
    requires Consistent(g, r, m) && t in r && HasNode(g, Below(t.from)) && HasNode(g, Below(t.to))
    ensures var a, b := Below(t.from), Below(t.to);
            Consistent(g, r + AliasSteps(r, a, b), m + {(a, b)})
  {
    var a, b := Below(t.from), Below(t.to);
    var m' := m + {(a, b)};
    ForcedBelow(g, r, m, t);
    assert Forced(g, r, m') by {
      forall r1, m1 | Closed(g, r1, m1) ensures r <= r1 && m' <= m1 {}
    }
    var more := AliasSteps(r, a, b);
    forall x | x in more
      ensures Forced(g, r + {x}, m')
      ensures HasNode(g, x.from) && HasNode(g, x.to) && x.from != x.to
    {
      if x != Triple(a, b, FlowFromMemAliasNoReadWrite) {
        var s :| s in r && s.to == a && MemNext(s.state).Some? && s.from != b
            && x == Triple(s.from, b, MemNext(s.state).value);
        ForcedMem(g, r, m', s, b);
      }
    }
    ForcedUnion(g, r, m', more);
  }

  lemma AliasStepsProcess(g: Graph, r: Reach, m: Mem, a: Node, b: Node)
    ensures KeepsProcessed(g, r, m, r + AliasSteps(r, a, b), m + {(a, b)})
  {
    var r', m' := r + AliasSteps(r, a, b), m + {(a, b)};
    forall t | t in r && Processed(g, r, m, t) ensures Processed(g, r', m', t) {
      if MemNext(t.state).Some? {
        forall c | (t.to, c) in m' && c != t.from ensures Triple(t.from, c, MemNext(t.state).value) in r' {
          if (t.to, c) !in m {
            assert t.to == a && c == b;
            assert Triple(t.from, b, MemNext(t.state).value) in AliasSteps(r, a, b);
          }
        }
      }
    }
  }

  /** The first half of processWorkListItem: a value alias may make a memory alias one level down. */
  method AddMemoryAlias(item: Triple, g: Graph, reach: ReachabilitySet, mem: AliasMemSet, work: WorkList)
    requires Consistent(g, reach.Triples(), mem.Pairs()) && item in reach.Triples()
    modifies reach, mem, work
    ensures Consistent(g, reach.Triples(), mem.Pairs())
    ensures HasBelow(g, mem.Pairs(), item)
    ensures old(mem.Pairs()) <= mem.Pairs()
    ensures KeepsProcessed(g, old(reach.Triples()), old(mem.Pairs()), reach.Triples(), mem.Pairs())
    ensures Enqueued(old(reach.Triples()), reach.Triples(), old(work.items), work.items)
  {
    hide Consistent, Processed;
    ghost var r0, m0 := reach.Triples(), mem.Pairs();
    var fromBelow := NodeBelow(g, item.from);
    var toBelow := NodeBelow(g, item.to);
    EnqueuedNothing(r0, work.items);
    if fromBelow.Some? && toBelow.Some? {
      var isNew := mem.Insert(fromBelow.value, toBelow.value);
      if isNew {
        ItemsAreProper(g, r0, m0, item);
        PropagateNewAlias(fromBelow.value, toBelow.value, reach, work);
        AliasStepsAreForced(g, r0, m0, item);
        AliasStepsProcess(g, r0, m0, fromBelow.value, toBelow.value);
      } else {
        assert mem.Pairs() == m0;
      }
    }
  }

  lemma ItemsAreProper(g: Graph, r: Reach, m: Mem, t: Triple)
    requires Consistent(g, r, m) && t in r
    ensures t.from != t.to && HasNode(g, t.from) && HasNode(g, t.to)
  {
  }

  method ProcessWorkListItem(item: Triple, g: Graph, reach: ReachabilitySet, mem: AliasMemSet, work: WorkList)
    requires WellFormed(g) && Consistent(g, reach.Triples(), mem.Pairs()) && item in reach.Triples()
    modifies reach, mem, work
    ensures Consistent(g, reach.Triples(), mem.Pairs())
    ensures Processed(g, reach.Triples(), mem.Pairs(), item)
    ensures KeepsProcessed(g, old(reach.Triples()), old(mem.Pairs()), reach.Triples(), mem.Pairs())
    ensures Enqueued(old(reach.Triples()), reach.Triples(), old(work.items), work.items)
  {
    hide Processed, Forced, HasMemStart;
    ghost var r0, s0 := reach.Triples(), work.items;
    AddMemoryAlias(item, g, reach, mem, work);
    ghost var r1, m1, s1 := reach.Triples(), mem.Pairs(), work.items;
    WalkStateMachine(item, g, reach, mem, work);
    StepsAreForced(g, r1, m1, item);
    StepsProcess(g, r1, m1, item);
    EnqueuedThen(r0, r1, reach.Triples(), s0, s1, work.items);
  }

  // ------------------------------------------------------------ the loop

  const ALL_STATES: set<MatchState> := {
    FlowFromReadOnly, FlowFromMemAliasNoReadWrite, FlowFromMemAliasReadOnly, FlowToWriteOnly,
    FlowToReadWrite, FlowToMemAliasWriteOnly, FlowToMemAliasReadWrite }

  /** Everything the relation could ever hold. */
  ghost function Universe(g: Graph): Reach {
    set a, b, q | a in Nodes(g) && b in Nodes(g) && q in ALL_STATES :: Triple(a, b, q)
  }

  lemma StateInAll(q: MatchState)
    ensures q in ALL_STATES
  {
    match q {
      case FlowFromReadOnly => case FlowFromMemAliasNoReadWrite => case FlowFromMemAliasReadOnly =>
      case FlowToWriteOnly => case FlowToReadWrite => case FlowToMemAliasWriteOnly => case FlowToMemAliasReadWrite =>
    }
  }

  lemma ReachIsBounded(g: Graph, r: Reach)
    requires InGraph(g, r)
    ensures r <= Universe(g)
  {
    forall t | t in r ensures t in Universe(g) {
      assert t.from == Node(t.from.val, t.from.level) && t.from in Nodes(g);
      assert t.to == Node(t.to.val, t.to.level) && t.to in Nodes(g);
      StateInAll(t.state);
    }
  }

  /** Everything not waiting has been processed. */
  ghost predicate OnlyPending(g: Graph, r: Reach, m: Mem, pending: set<Triple>) {
    pending <= r && forall t :: t in r && t !in pending ==> Processed(g, r, m, t)
  }

  ghost predicate InitialFrom(g: Graph, r: Reach, x: Node) {
    forall y :: Edge(g, x, y) && x != y ==> Triple(y, x, FlowFromReadOnly) in r && Triple(x, y, FlowToWriteOnly) in r
  }

  /** The two triples of an assignment edge. */
  ghost function EdgeTriples(x: Node, y: Node): Reach {
    if x == y then {} else {Triple(y, x, FlowFromReadOnly), Triple(x, y, FlowToWriteOnly)}
  }

  lemma EdgeTriplesAreForced(g: Graph, r: Reach, x: Node, y: Node)
    requires WellFormed(g) && Consistent(g, r, {}) && Edge(g, x, y)
    ensures Consistent(g, r + EdgeTriples(x, y), {})
  {
    if x != y { ForcedInitial(g, r, {}, x, y); }
  }

  method InitializeNode(x: Node, g: Graph, reach: ReachabilitySet, work: WorkList)
    requires WellFormed(g) && HasNode(g, x) && Consistent(g, reach.Triples(), {})
    modifies reach, work
    ensures Consistent(g, reach.Triples(), {}) && InitialFrom(g, reach.Triples(), x)
    ensures Enqueued(old(reach.Triples()), reach.Triples(), old(work.items), work.items)
  {
    hide Enqueued, Consistent, WellFormed;
    ghost var r0, s0 := reach.Triples(), work.items;
    EnqueuedNothing(r0, s0);
    var edges := Info(g, x).edges;
    for i := 0 to |edges|
      invariant Consistent(g, reach.Triples(), {})
      invariant forall j :: 0 <= j < i ==> EdgeTriples(x, edges[j]) <= reach.Triples()
      invariant Enqueued(r0, reach.Triples(), s0, work.items)
    {
      ghost var r1, s1 := reach.Triples(), work.items;
      Propagate(edges[i], x, FlowFromReadOnly, reach, work);
      ghost var r2, s2 := reach.Triples(), work.items;
      Propagate(x, edges[i], FlowToWriteOnly, reach, work);
      EnqueuedThen(r0, r1, r2, s0, s1, s2);
      EnqueuedThen(r0, r2, reach.Triples(), s0, s2, work.items);
      EdgeTriplesAreForced(g, r1, x, edges[i]);
      assert reach.Triples() == r1 + EdgeTriples(x, edges[i]);
    }
  }

  /** Values come in any order, their levels in turn. */
  method InitializeWorkList(work: WorkList, reach: ReachabilitySet, g: Graph)
    requires WellFormed(g) && reach.Triples() == {} && work.items == []
    modifies reach, work
    ensures Consistent(g, reach.Triples(), {}) && HasInitial(g, reach.Triples())
    ensures Enqueued({}, reach.Triples(), [], work.items)
  {
    assert Consistent(g, {}, {});
    hide Enqueued, Consistent;
    EnqueuedNothing({}, []);
    var todo := g.values.Keys;
    while todo != {}
      invariant todo <= g.values.Keys
      invariant Consistent(g, reach.Triples(), {})
      invariant forall x :: HasNode(g, x) && x.val !in todo ==> InitialFrom(g, reach.Triples(), x)
      invariant Enqueued({}, reach.Triples(), [], work.items)
    {
      var v :| v in todo;
      for i := 0 to |g.values[v]|
        invariant Consistent(g, reach.Triples(), {})
        invariant forall x :: HasNode(g, x) && (x.val !in todo || (x.val == v && x.level < i)) ==>
                  InitialFrom(g, reach.Triples(), x)
        invariant Enqueued({}, reach.Triples(), [], work.items)
      {
        ghost var r1, s1 := reach.Triples(), work.items;
        InitializeNode(Node(v, i), g, reach, work);
        EnqueuedThen({}, r1, reach.Triples(), [], s1, work.items);
        EnqueuedGrows(r1, reach.Triples(), s1, work.items);
      }
      todo := todo - {v};
    }
    forall x, y | Edge(g, x, y) && x != y
      ensures Triple(y, x, FlowFromReadOnly) in reach.Triples() && Triple(x, y, FlowToWriteOnly) in reach.Triples()
    {
      assert InitialFrom(g, reach.Triples(), x);
    }
  }

  lemma EnqueuedGrows(r: Reach, r': Reach, s: seq<Triple>, s': seq<Triple>)
    requires Enqueued(r, r', s, s')
    ensures r <= r'
  {
  }

  /** One round: every item of the current list, new ones going to the next list. */
  method ProcessRound(items: seq<Triple>, g: Graph, reach: ReachabilitySet, mem: AliasMemSet, next: WorkList)
    requires WellFormed(g) && Consistent(g, reach.Triples(), mem.Pairs()) && next.items == []
    requires OnlyPending(g, reach.Triples(), mem.Pairs(), Elems(items))
    modifies reach, mem, next
    ensures Consistent(g, reach.Triples(), mem.Pairs())
    ensures OnlyPending(g, reach.Triples(), mem.Pairs(), Elems(next.items))
    ensures Enqueued(old(reach.Triples()), reach.Triples(), [], next.items)
  {
    hide Consistent, Processed;
    ghost var r0 := reach.Triples();
    EnqueuedNothing(r0, []);
    for i := 0 to |items|
      invariant Consistent(g, reach.Triples(), mem.Pairs())
      invariant OnlyPending(g, reach.Triples(), mem.Pairs(), Elems(items[i..]) + Elems(next.items))
      invariant Enqueued(r0, reach.Triples(), [], next.items)
    {
      ghost var r1, m1, s1 := reach.Triples(), mem.Pairs(), next.items;
      assert items[i] in Elems(items[i..]);
      ProcessWorkListItem(items[i], g, reach, mem, next);
      EnqueuedThen(r0, r1, reach.Triples(), [], s1, next.items);
      PendingAfterItem(g, r1, m1, reach.Triples(), mem.Pairs(), items[i..], s1, next.items);
    }
  }

  lemma PendingAfterItem(g: Graph, r: Reach, m: Mem, r': Reach, m': Mem, todo: seq<Triple>, s: seq<Triple>,
                         s': seq<Triple>)
    requires todo != [] && OnlyPending(g, r, m, Elems(todo) + Elems(s))
    requires KeepsProcessed(g, r, m, r', m') && Processed(g, r', m', todo[0]) && Enqueued(r, r', s, s')
    ensures OnlyPending(g, r', m', Elems(todo[1..]) + Elems(s'))
  {
    hide Processed;
    assert s' == s + s'[|s|..];
    forall t ensures t in Elems(s') <==> t in Elems(s) || t in r' - r {
      assert t in r' - r <==> t in Elems(s'[|s|..]);
    }
    forall t | t in r' && t !in Elems(todo[1..]) + Elems(s') ensures Processed(g, r', m', t) {
      if t != todo[0] {
        assert t !in Elems(todo);
        assert Processed(g, r, m, t);
      }
    }
  }

  /** The solver. Its result is the least pair of relations closed under the rules, and the
      log of everything ever enqueued holds each triple of the result once. */
  method Solve(g: Graph) returns (reach: ReachabilitySet, mem: AliasMemSet, ghost log: seq<Triple>)
    requires WellFormed(g)
    ensures Least(g, reach.Triples(), mem.Pairs())
    ensures InGraph(g, reach.Triples()) && MemInGraph(g, mem.Pairs())
    ensures Distinct(log) && Elems(log) == reach.Triples()
  {
    hide Processed, Forced;
    reach := new ReachabilitySet();
    mem := new AliasMemSet();
    var work := new WorkList();
    var next := new WorkList();
    InitializeWorkList(work, reach, g);
    log := work.items;
    assert log[0..] == log;
    while work.items != []
      invariant fresh(reach) && fresh(mem) && fresh(work) && fresh(next) && work != next
      invariant next.items == []
      invariant Consistent(g, reach.Triples(), mem.Pairs()) && HasInitial(g, reach.Triples())
      invariant OnlyPending(g, reach.Triples(), mem.Pairs(), Elems(work.items))
      invariant Distinct(log) && Elems(log) == reach.Triples()
      decreases Universe(g) - reach.Triples(), |work.items|
    {
      ghost var r0 := reach.Triples();
      ProcessRound(work.items, g, reach, mem, next);
      ReachIsBounded(g, reach.Triples());
      LogGrows(r0, reach.Triples(), log, next.items);
      log := log + next.items;
      work, next := next, work;
      next.items := [];
    }
  }

  lemma LogGrows(r: Reach, r': Reach, log: seq<Triple>, items: seq<Triple>)
    requires Distinct(log) && Elems(log) == r && Enqueued(r, r', [], items)
    ensures Distinct(log + items) && Elems(log + items) == r'
    ensures items != [] ==> r < r'
  {
    assert items[0..] == items;
    assert Elems(items) == r' - r;
    forall i, j | 0 <= i < j < |log + items| ensures (log + items)[i] != (log + items)[j] {
      if i < |log| <= j { assert log[i] in Elems(log) && items[j - |log|] in Elems(items); }
    }
    forall t ensures t in Elems(log + items) <==> t in r' { assert t in r' <==> t in Elems(log) || t in Elems(items); }
    if items != [] { assert items[0] in Elems(items); }
  }
}
