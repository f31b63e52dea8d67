// A whole pass over a loop or a function: from the full mass at the start to backedges, exits and
// nodes without successors.
module BfiMassPass {
  import opened Arithmetic
  import opened BfiDither
  import opened BfiWeights
  import opened BfiCombine
  import opened BfiScaling
  import opened BfiRoom
  import opened BfiDistribution
  import opened BfiMassFlow

  /** The weights collected for the successors of each node. */
  type Successors = nat -> seq<Weight>

  predicate DistinctNodes(s: seq<nat>) {
    forall i, j :: 0 <= i < j < |s| ==> s[i] != s[j]
  }

  predicate InRange(nodes: seq<nat>, n: nat) {
    forall k :: 0 <= k < |nodes| ==> nodes[k] < n
  }

  function MassOf(working: seq<nat>, nodes: seq<nat>): nat
    requires InRange(nodes, |working|)
  {
    if nodes == [] then 0 else working[nodes[0]] + MassOf(working, nodes[1..])
  }

  /** The mass still to be passed on, and the mass that has left. */
  function Moving(s: Sinks, nodes: seq<nat>): nat
    requires InRange(nodes, |s.working|)
  {
    MassOf(s.working, nodes) + Sum(s.backedge) + SumExits(s.exits)
  }

  /** The mass that ends at nodes without successors. */
  function MassAtLeaves(working: seq<nat>, nodes: seq<nat>, succ: Successors): nat
    requires InRange(nodes, |working|)
  {
    if nodes == [] then 0
    else (if succ(nodes[0]) == [] then working[nodes[0]] else 0) + MassAtLeaves(working, nodes[1..], succ)
  }

  /** Weights that can be distributed to nodes that come later. */
  ghost predicate Forward(s: Sinks, headers: seq<nat>, later: seq<nat>, ws: seq<Weight>) {
    && Proper(ws) && TotalAmount(ws) < 2 * TWO64 && Fits(ws)
    && forall k :: 0 <= k < |ws| ==> Deliverable(s, headers, ws[k]) && (ws[k].kind == Local ==> ws[k].target in later)
  }

  ghost predicate ForwardFrom(s: Sinks, headers: seq<nat>, order: seq<nat>, succ: Successors, i: nat) {
    forall j :: i <= j < |order| ==> Forward(s, headers, order[j + 1..], succ(order[j]))
  }

  /** What addToDist admits goes on to a node that comes later, headers first and members in node order: only a
      node's edge to itself does not. */
  lemma AdmittedGoesOn(headers: seq<nat>, members: seq<nat>, contained: nat -> bool, i: nat, t: nat)
    requires i < |headers + members| && DistinctNodes(headers + members) && Increasing(members)
    requires (contained(t) ==> t in headers + members) && t != (headers + members)[i]
    requires KindOf(headers, contained, t) == Local && !Aborts(headers, contained, (headers + members)[i], t)
    ensures t in (headers + members)[i + 1..]
  {
    var order := headers + members;
    var j :| 0 <= j < |members| && members[j] == t;
    if i >= |headers| {
      var k := i - |headers|;
      assert members[k] == order[i];
      assert order[i] !in headers by {
        forall h | 0 <= h < |headers| ensures headers[h] != order[i] { assert order[h] == headers[h]; }
      }
      assert k < j;
    }
    assert order[i + 1..][|headers| + j - (i + 1)] == t;
  }

  /** The edges of node i of the order are admitted: none is given up on, none leads from the node to itself unless
      to a header, and none leaves the function. */
  ghost predicate Admitted(headers: seq<nat>, members: seq<nat>, contained: nat -> bool, resolve: nat -> nat,
                           edges: seq<(nat, nat)>, i: nat)
    requires i < |headers + members|
  {
    && SumExits(edges) <= MAX64 && |edges| < 0x8000_0000
    && forall k :: 0 <= k < |edges| ==> AdmittedEdge(headers, members, contained, resolve(edges[k].0), i)
  }

  predicate AdmittedEdge(headers: seq<nat>, members: seq<nat>, contained: nat -> bool, t: nat, i: nat)
    requires i < |headers + members|
  {
    && !Aborts(headers, contained, (headers + members)[i], t)
    && (contained(t) ==> t in headers + members)
    && match KindOf(headers, contained, t) {
         case Local => t != (headers + members)[i]
         case Backedge => true
         case Exit => headers != []
       }
  }

  /** What a node's edges come to: 32-bit probabilities of fewer than 2^31 successors never exceed 64 bits. */
  lemma {:induction false} ProbabilitiesFit(edges: seq<(nat, nat)>)
    requires |edges| < 0x8000_0000 && forall k :: 0 <= k < |edges| ==> edges[k].1 <= MAX32
    ensures SumExits(edges) <= |edges| * MAX32 <= MAX64
  {
    if edges != [] {
      var n := |edges| - 1;
      ProbabilitiesFit(edges[..n]);
    }
  }

  /** The weights that addToDist makes of admitted edges can be distributed to nodes that come later. */
  lemma AdmittedIsForward(s: Sinks, headers: seq<nat>, members: seq<nat>, contained: nat -> bool, resolve: nat -> nat,
                          edges: seq<(nat, nat)>, i: nat)
    requires i < |headers + members| && DistinctNodes(headers + members) && Increasing(members)
    requires InRange(headers + members, |s.working|) && |s.backedge| == |headers|
    requires Admitted(headers, members, contained, resolve, edges, i)
    ensures Forward(s, headers, (headers + members)[i + 1..], EdgeWeights(edges, headers, resolve, contained))
  {
    var ws, later := EdgeWeights(edges, headers, resolve, contained), (headers + members)[i + 1..];
    ExitsCanBeDistributed(edges, headers, resolve, contained);
    EdgeWeightsAre(edges, headers, resolve, contained);
    forall k | 0 <= k < |ws| ensures Deliverable(s, headers, ws[k]) && (ws[k].kind == Local ==> ws[k].target in later) {
      EdgeWeightsAt(edges, headers, resolve, contained, k);
      assert AdmittedEdge(headers, members, contained, resolve(edges[k].0), i);
      AdmittedIsDeliverable(s, headers, members, contained, i, ws[k]);
    }
  }

  lemma AdmittedIsDeliverable(s: Sinks, headers: seq<nat>, members: seq<nat>, contained: nat -> bool, i: nat, w: Weight)
    requires i < |headers + members| && DistinctNodes(headers + members) && Increasing(members)
    requires InRange(headers + members, |s.working|) && |s.backedge| == |headers|
    requires AdmittedEdge(headers, members, contained, w.target, i) && w.kind == KindOf(headers, contained, w.target)
    ensures Deliverable(s, headers, w) && (w.kind == Local ==> w.target in (headers + members)[i + 1..])
  {
    if w.kind == Local { AdmittedGoesOn(headers, members, contained, i, w.target); }
  }

  lemma {:induction false} EdgeWeightsAt(edges: seq<(nat, nat)>, headers: seq<nat>, resolve: nat -> nat,
                                         contained: nat -> bool, k: nat)
    requires k < |edges|
    ensures var ws := EdgeWeights(edges, headers, resolve, contained);
            |ws| == |edges| && ws[k] == EdgeWeight(edges[k], headers, resolve, contained)
    decreases |edges|
  {
    var n := |edges| - 1;
    if n > 0 { EdgeWeightsAt(edges[..n], headers, resolve, contained, if k < n then k else 0); }
  }

  /** The weights of every node, as addToDist makes them of its edges. */
  function WeightsOf(edges: nat -> seq<(nat, nat)>, headers: seq<nat>, resolve: nat -> nat,
                     contained: nat -> bool): Successors
  {
    (n: nat) => EdgeWeights(edges(n), headers, resolve, contained)
  }

  /** So a pass over admitted edges has what the passes below ask for. */
  lemma AdmittedPass(s: Sinks, headers: seq<nat>, members: seq<nat>, contained: nat -> bool, resolve: nat -> nat,
                     edges: nat -> seq<(nat, nat)>)
    requires DistinctNodes(headers + members) && Increasing(members)
    requires InRange(headers + members, |s.working|) && |s.backedge| == |headers|
    requires forall i: nat :: i < |headers + members| ==>
               Admitted(headers, members, contained, resolve, edges((headers + members)[i]), i)
    ensures ForwardFrom(s, headers, headers + members, WeightsOf(edges, headers, resolve, contained), 0)
  {
    var order, succ := headers + members, WeightsOf(edges, headers, resolve, contained);
    forall j | 0 <= j < |order| ensures Forward(s, headers, order[j + 1..], succ(order[j])) {
      assert Admitted(headers, members, contained, resolve, edges(order[j]), j);
      hide Forward, Admitted;
      AdmittedIsForward(s, headers, members, contained, resolve, edges(order[j]), j);
    }
  }

  // ------------------------------------------------------------- one step

  lemma {:induction false} MassOfBound(working: seq<nat>, nodes: seq<nat>, t: nat)
    requires InRange(nodes, |working|) && t in nodes
    ensures working[t] <= MassOf(working, nodes)
  {
    if t != nodes[0] { MassOfBound(working, nodes[1..], t); }
  }

  lemma {:induction false} MassOfUpdate(working: seq<nat>, nodes: seq<nat>, n: nat, x: nat)
    requires InRange(nodes, |working|) && n < |working| && n !in nodes
    ensures MassOf(working[n := x], nodes) == MassOf(working, nodes)
  {
    if nodes != [] { MassOfUpdate(working, nodes[1..], n, x); }
  }

  /** Changes confined to some nodes change the whole sum by as much as theirs. */
  lemma {:induction false} SumAndMass(w: seq<nat>, w': seq<nat>, nodes: seq<nat>)
    requires |w| == |w'| && InRange(nodes, |w|) && DistinctNodes(nodes)
    requires forall t :: 0 <= t < |w| && t !in nodes ==> w'[t] == w[t]
    ensures Sum(w') + MassOf(w, nodes) == Sum(w) + MassOf(w', nodes)
    decreases |nodes|
  {
    if nodes == [] {
      assert w == w';
    } else {
      var n, rest := nodes[0], nodes[1..];
      var w1 := w[n := w'[n]];
      assert n !in rest;
      SumUpdate(w, n, w'[n]);
      MassOfUpdate(w, rest, n, w'[n]);
      forall t | 0 <= t < |w| && t !in rest ensures w'[t] == w1[t] {
        if t != n { assert t !in nodes; }
      }
      SumAndMass(w1, w', rest);
    }
  }

  ghost predicate LocalTargetsIn(ws: seq<Weight>, nodes: seq<nat>) {
    forall k :: 0 <= k < |ws| && ws[k].kind == Local ==> ws[k].target in nodes
  }

  lemma {:induction false} DeliverAllElsewhere(s: Sinks, headers: seq<nat>, ws: seq<Weight>, mass: nat, t: nat)
    requires CanDeliver(s, headers, ws, mass) && t < |s.working|
    requires forall k :: 0 <= k < |ws| && ws[k].kind == Local ==> ws[k].target != t
    ensures var s' := DeliverAll(s, headers, ws, mass); |s'.working| == |s.working| && s'.working[t] == s.working[t]
    decreases |ws|
  {
    if ws != [] {
      PositiveTail(ws);
      var taken := Portion(mass, ws[0].amount, TotalAmount(ws));
      var s1 := Deliver(s, headers, ws[0], taken);
      hide Portion;
      assert ws[0].kind == Local ==> ws[0].target != t;
      forall k | 0 <= k < |ws[1..]| ensures Deliverable(s1, headers, ws[1..][k]) { assert ws[1..][k] == ws[k + 1]; }
      DeliverAllElsewhere(s1, headers, ws[1..], mass - taken, t);
    }
  }

  lemma {:induction false} PortionAtMost(ws: seq<Weight>, mass: nat, k: nat)
    requires mass <= MAX64 && AllPositive(Amounts(ws)) && TotalAmount(ws) <= MAX32 && k < |ws|
    ensures PortionsOf(ws, mass)[k] <= mass
    decreases |ws|
  {
    PortionsOfTail(ws, mass);
    var taken := Portion(mass, ws[0].amount, TotalAmount(ws));
    var all, rest := PortionsOf(ws, mass), PortionsOf(ws[1..], mass - taken);
    hide Portion, PortionsOf, TotalAmount;
    if k > 0 {
      PortionAtMost(ws[1..], mass - taken, k - 1);
      assert all[k] == rest[k - 1];
    }
  }

  /** While the moving mass is at most the full mass, no target can saturate. */
  lemma MovingMassFits(s: Sinks, headers: seq<nat>, n: nat, later: seq<nat>, ws: seq<Weight>, mass: nat)
    requires CanDeliver(s, headers, ws, mass) && LocalTargetsIn(ws, later)
    requires InRange([n] + later, |s.working|) && n < |s.working| && mass == s.working[n]
    requires Moving(s, [n] + later) <= MAX64
    ensures PortionsFit(s, headers, ws, mass)
  {
    assert ([n] + later)[1..] == later;
    forall k | 0 <= k < |ws| ensures Accumulator(s, headers, ws[k]) + PortionsOf(ws, mass)[k] <= MAX64 {
      PortionAtMost(ws, mass, k);
      assert Deliverable(s, headers, ws[k]);
      match ws[k].kind
      case Local => MassOfBound(s.working, later, ws[k].target);
      case Backedge => SumBounds(s.backedge, s.backedge[HeaderIndex(headers, ws[k].target)]);
      case Exit =>
    }
  }

  /** One node passes its mass on: nothing is lost from what is moving. */
  lemma StepConserves(s: Sinks, headers: seq<nat>, n: nat, later: seq<nat>, ws: seq<Weight>, mass: nat)
    requires CanDeliver(s, headers, ws, mass) && LocalTargetsIn(ws, later) && DistinctTargets(ws)
    requires DistinctNodes([n] + later) && InRange([n] + later, |s.working|)
    requires n < |s.working| && mass == s.working[n]
    requires Moving(s, [n] + later) <= MAX64
    ensures var s' := DeliverAll(s, headers, ws, mass);
            && |s'.working| == |s.working| && InRange(later, |s'.working|) && n < |s'.working| && s'.working[n] == mass
            && Moving(s', later) == (if ws == [] then MassOf(s.working, later) + Sum(s.backedge) + SumExits(s.exits)
                                     else Moving(s, [n] + later))
  {
    var s' := DeliverAll(s, headers, ws, mass);
    assert ([n] + later)[0] == n && ([n] + later)[1..] == later;
    assert n !in later by {
      forall k | 0 <= k < |later| ensures later[k] != n { assert ([n] + later)[k + 1] == later[k]; }
    }
    hide DeliverAll, MassOf, Sum, SumExits, PortionsFit;
    DeliverAllElsewhere(s, headers, ws, mass, n);
    if ws != [] {
      MovingMassFits(s, headers, n, later, ws, mass);
      DeliverAllConserves(s, headers, ws, mass);
      forall t | 0 <= t < |s.working| && t !in later ensures s'.working[t] == s.working[t] {
        DeliverAllElsewhere(s, headers, ws, mass, t);
      }
      LaterDistinct(n, later);
      SumAndMass(s.working, s'.working, later);
      MassOfFirst(s.working, n, later);
    } else {
      NothingDelivered(s, headers, mass);
    }
  }

  lemma NothingDelivered(s: Sinks, headers: seq<nat>, mass: nat)
    requires CanDeliver(s, headers, [], mass)
    ensures DeliverAll(s, headers, [], mass) == s
  {
  }

  lemma LaterDistinct(n: nat, later: seq<nat>)
    requires DistinctNodes([n] + later)
    ensures DistinctNodes(later)
  {
    var all := [n] + later;
    forall i, j | 0 <= i < j < |later| ensures later[i] != later[j] { assert all[i + 1] != all[j + 1]; }
  }

  lemma MassOfFirst(working: seq<nat>, n: nat, later: seq<nat>)
    requires InRange([n] + later, |working|) && InRange(later, |working|) && n < |working|
    ensures MassOf(working, [n] + later) == working[n] + MassOf(working, later)
  {
    assert ([n] + later)[1..] == later;
  }

  // ------------------------------------------------------------- the pass

  /** Normalizing keeps the targets, each once, with their kinds. */
  lemma NormalizedKeepsTargets(ws: seq<Weight>, c: seq<Weight>, after: seq<Weight>, nodes: seq<nat>)
    requires IsNormalized(ws, c, after) && LocalTargetsIn(ws, nodes)
    ensures DistinctTargets(after) && (after == [] <==> ws == []) && LocalTargetsIn(after, nodes)
  {
    if ws != [] {
      forall k | 0 <= k < |after| && after[k].kind == Local ensures after[k].target in nodes {
        assert after[k].target == c[k].target && after[k].kind == c[k].kind;
        var j :| 0 <= j < |ws| && ws[j].target == c[k].target && ws[j].kind == c[k].kind;
      }
    }
  }

  lemma PrefixTotal(ws: seq<Weight>, i: nat)
    requires i < |ws|
    ensures TotalAmount(ws[..i]) + ws[i].amount <= TotalAmount(ws)
    ensures ws[..i + 1] == ws[..i] + [ws[i]]
  {
    TotalAppend(ws[..i], ws[i..]);
    assert ws == ws[..i] + ws[i..] && ws[i..][0] == ws[i];
  }

  // --------------------------------------------------- the flow equations

  /** What one node sent on: its normalised weights and their portions. */
  datatype Sent = Sent(weights: seq<Weight>, portions: seq<nat>)

  predicate Matched(sent: seq<Sent>) {
    forall j :: 0 <= j < |sent| ==> |sent[j].weights| == |sent[j].portions|
  }

  /** The mass that some nodes have sent along one kind of edge to a target. */
  function Arriving(sent: seq<Sent>, kind: DistType, t: nat): nat
    requires Matched(sent)
  {
    if sent == [] then 0
    else
      var n := |sent| - 1;
      Arriving(sent[..n], kind, t) + PortionTo(sent[n].weights, sent[n].portions, kind, t)
  }

  /** The exits they have recorded, in order. */
  function Leaving(sent: seq<Sent>): seq<(nat, nat)>
    requires Matched(sent)
  {
    if sent == [] then []
    else
      var n := |sent| - 1;
      Leaving(sent[..n]) + ExitsFor(sent[n].weights, sent[n].portions)
  }

  /** Each node and each backedge slot holds what it began with and what has arrived; each exit is recorded. */
  ghost predicate Flowed(s0: Sinks, s: Sinks, headers: seq<nat>, sent: seq<Sent>) {
    && Matched(sent) && |s.working| == |s0.working| && |s.backedge| == |s0.backedge|
    && (forall t :: 0 <= t < |s0.working| ==> s.working[t] == s0.working[t] + Arriving(sent, Local, t))
    && (forall i :: 0 <= i < |s0.backedge| && IsSlot(headers, i) ==>
          s.backedge[i] == s0.backedge[i] + Arriving(sent, Backedge, headers[i]))
    && (forall i :: 0 <= i < |s0.backedge| && !IsSlot(headers, i) ==> s.backedge[i] == s0.backedge[i])
    && s.exits == s0.exits + Leaving(sent)
  }

  /** Each node in order has sent on the mass it holds, by its weights. */
  ghost predicate SentInOrder(working: seq<nat>, order: seq<nat>, succ: Successors, sent: seq<Sent>) {
    && |sent| <= |order| && InRange(order, |working|)
    && forall j :: 0 <= j < |sent| ==> SentBy(working[order[j]], succ(order[j]), sent[j])
  }

  ghost predicate SentBy(mass: nat, ws: seq<Weight>, sent: Sent) {
    && (exists c :: IsNormalized(ws, c, sent.weights))
    && mass <= MAX64 && AllPositive(Amounts(sent.weights)) && TotalAmount(sent.weights) <= MAX32
    && sent.portions == PortionsOf(sent.weights, mass)
  }

  lemma {:induction false} NoneOfKind(ws: seq<Weight>, portions: seq<nat>, kind: DistType, t: nat)
    requires |ws| == |portions| && forall k :: 0 <= k < |ws| ==> !(ws[k].kind == kind && ws[k].target == t)
    ensures PortionTo(ws, portions, kind, t) == 0
    decreases |ws|
  {
    if ws != [] { NoneOfKind(ws[1..], portions[1..], kind, t); }
  }

  /** Where the portions fit, what a target holds and its portions together do. */
  lemma Unsaturated(s: Sinks, headers: seq<nat>, ws: seq<Weight>, mass: nat, kind: DistType, t: nat)
    requires CanDeliver(s, headers, ws, mass) && DistinctTargets(ws) && PortionsFit(s, headers, ws, mass)
    requires (kind == Local && t < |s.working|) || (kind == Backedge && t in headers && |s.backedge| == |headers|)
    ensures (if kind == Local then s.working[t] else s.backedge[HeaderIndex(headers, t)])
            + PortionTo(ws, PortionsOf(ws, mass), kind, t) <= MAX64
  {
    if k :| 0 <= k < |ws| && ws[k].kind == kind && ws[k].target == t {
      OwnPortion(ws, PortionsOf(ws, mass), k);
      assert Accumulator(s, headers, ws[k]) + PortionsOf(ws, mass)[k] <= MAX64;
    } else {
      NoneOfKind(ws, PortionsOf(ws, mass), kind, t);
    }
  }

  lemma SlotOf(headers: seq<nat>, i: nat)
    requires IsSlot(headers, i)
    ensures headers[i] in headers && HeaderIndex(headers, headers[i]) == i
  {
  }

  /** One node more has sent its mass on. */
  lemma FlowedOn(s0: Sinks, s: Sinks, s': Sinks, headers: seq<nat>, sent: seq<Sent>, ws: seq<Weight>, mass: nat)
    requires Flowed(s0, s, headers, sent) && CanDeliver(s, headers, ws, mass) && DistinctTargets(ws)
    requires PortionsFit(s, headers, ws, mass) && Received(s, s', headers, ws, PortionsOf(ws, mass))
    requires |s0.backedge| == |headers| || s0.backedge == []
    ensures Flowed(s0, s', headers, sent + [Sent(ws, PortionsOf(ws, mass))])
  {
    var step := Sent(ws, PortionsOf(ws, mass));
    var more := sent + [step];
    assert more[..|more| - 1] == sent;
    hide PortionsOf, PortionsFit, CanDeliver;
    forall t | 0 <= t < |s0.working| ensures s'.working[t] == s0.working[t] + Arriving(more, Local, t) {
      Unsaturated(s, headers, ws, mass, Local, t);
    }
    forall i | 0 <= i < |s0.backedge| && IsSlot(headers, i)
      ensures s'.backedge[i] == s0.backedge[i] + Arriving(more, Backedge, headers[i])
    {
      SlotOf(headers, i);
      Unsaturated(s, headers, ws, mass, Backedge, headers[i]);
    }
    assert s.exits == s0.exits + Leaving(sent);
  }

  lemma NothingSent(s: Sinks, headers: seq<nat>, order: seq<nat>, succ: Successors)
    requires InRange(order, |s.working|)
    ensures Flowed(s, s, headers, []) && SentInOrder(s.working, order, succ, [])
  {
  }

  /** Nodes that have sent their mass keep it. */
  lemma SentStays(working: seq<nat>, working': seq<nat>, order: seq<nat>, succ: Successors, sent: seq<Sent>, step: Sent)
    requires SentInOrder(working, order, succ, sent) && |working'| == |working| && |sent| < |order|
    requires forall j :: 0 <= j <= |sent| ==> working'[order[j]] == working[order[j]]
    requires SentBy(working[order[|sent|]], succ(order[|sent|]), step)
    ensures SentInOrder(working', order, succ, sent + [step])
  {
    var more := sent + [step];
    hide SentBy;
    forall j | 0 <= j < |more| ensures SentBy(working'[order[j]], succ(order[j]), more[j]) {
      if j < |sent| { assert SentBy(working[order[j]], succ(order[j]), sent[j]); }
    }
  }

  /** What the step of a pass relies on: the weights can be delivered, and to nodes that come later. */
  lemma StepFits(s0: Sinks, s: Sinks, headers: seq<nat>, order: seq<nat>, succ: Successors, i: nat,
                 c: seq<Weight>, after: seq<Weight>)
    requires i < |order| && PassDone(s0, s, headers, order, succ, i) && order[i] < |s.working|
    requires IsNormalized(succ(order[i]), c, after) && CanDeliver(s, headers, after, s.working[order[i]])
    ensures DistinctTargets(after) && LocalTargetsIn(after, order[i + 1..])
    ensures PortionsFit(s, headers, after, s.working[order[i]])
  {
    StepIsForward(s0, s, headers, order, succ, i);
    assert LocalTargetsIn(succ(order[i]), order[i + 1..]);
    NormalizedKeepsTargets(succ(order[i]), c, after, order[i + 1..]);
    hide IsNormalized, Forward, ForwardFrom, CanDeliver, LocalTargetsIn, PortionsFit, Moving;
    MovingMassFits(s, headers, order[i], order[i + 1..], after, s.working[order[i]]);
  }

  /** The step of a pass, for the flow equations. */
  lemma StepFlows(s0: Sinks, s: Sinks, headers: seq<nat>, order: seq<nat>, succ: Successors, sent: seq<Sent>,
                  c: seq<Weight>, after: seq<Weight>) returns (more: seq<Sent>)
    requires var i := |sent|; i < |order| && PassDone(s0, s, headers, order, succ, i) && order[i] < |s.working|
    requires Flowed(s0, s, headers, sent) && SentInOrder(s.working, order, succ, sent)
    requires |s0.backedge| == |headers| || s0.backedge == []
    requires IsNormalized(succ(order[|sent|]), c, after) && CanDeliver(s, headers, after, s.working[order[|sent|]])
    ensures |more| == |sent| + 1
    ensures var s' := DeliverAll(s, headers, after, s.working[order[|sent|]]);
            Flowed(s0, s', headers, more) && SentInOrder(s'.working, order, succ, more)
  {
    var i := |sent|;
    var n, mass := order[i], s.working[order[i]];
    var s', step := DeliverAll(s, headers, after, mass), Sent(after, PortionsOf(after, mass));
    more := sent + [step];
    assert SentBy(mass, succ(n), step);
    assert DistinctNodes(order) && InRange(order, |s.working|);
    StepFits(s0, s, headers, order, succ, i, c, after);
    hide DeliverAll, IsNormalized, PassDone, CanDeliver, LocalTargetsIn, PortionsOf, PortionsFit, Flowed;
    hide Received, SentBy, SentInOrder;
    DeliveredToTargets(s, headers, after, mass);
    FlowedOn(s0, s, s', headers, sent, after, mass);
    DeliverAllShape(s, headers, after, mass);
    forall j | 0 <= j <= i ensures s'.working[order[j]] == s.working[order[j]] {
      EarlierUnchanged(s, headers, order, i, j, after, mass);
    }
    SentStays(s.working, s'.working, order, succ, sent, step);
  }

  /** The weights of a node's successors, added one by one and distributed. */
  method PropagateMassToSuccessors(info: BlockFrequencyInfo, node: nat, loop: LoopData?, ws: seq<Weight>)
    returns (ghost c: seq<Weight>, ghost after: seq<Weight>)
    requires node < |info.working| && Masses(info.working) && (loop != null ==> Masses(loop.backedgeMass))
    requires Proper(ws) && TotalAmount(ws) < 2 * TWO64 && Fits(ws)
    requires forall k :: 0 <= k < |ws| ==> Deliverable(info.Flows(loop), info.Headers(loop), ws[k])
    modifies info, loop
    ensures IsNormalized(ws, c, after)
    ensures CanDeliver(old(info.Flows(loop)), info.Headers(loop), after, old(info.working[node]))
    ensures info.Flows(loop) == DeliverAll(old(info.Flows(loop)), info.Headers(loop), after, old(info.working[node]))
  {
    hide Fits, Deliverable, IsNormalized, DeliverAll, CanDeliver, TotalAmount, Targets;
    var dist := new Distribution();
    for i := 0 to |ws|
      invariant fresh(dist) && dist.Valid() && dist.weights == ws[..i]
      modifies dist
    {
      PrefixTotal(ws, i);
      dist.Add(ws[i].target, ws[i].amount, ws[i].kind);
      assert Weight(ws[i].kind, ws[i].target, ws[i].amount) == ws[i];
    }
    assert ws[..|ws|] == ws;
    c := info.DistributeMass(node, loop, dist);
    after := dist.weights;
  }

  /** Every node in order passes its mass on. Each node, each backedge slot and each exit ends up with what it had
      and what the earlier nodes have sent it, each by its own weights and final mass. Backedges, exits and
      leaves together end up with exactly the mass that was moving at the start: nothing saturates, and nothing is
      lost. */
  method PropagateInOrder(info: BlockFrequencyInfo, loop: LoopData?, order: seq<nat>, succ: Successors)
    returns (ghost sent: seq<Sent>)
    requires InRange(order, |info.working|) && DistinctNodes(order)
    requires Masses(info.working) && (loop != null ==> Masses(loop.backedgeMass))
    requires loop != null ==> |loop.backedgeMass| == |loop.headers|
    requires ForwardFrom(info.Flows(loop), info.Headers(loop), order, succ, 0)
    requires Moving(info.Flows(loop), order) <= MAX64
    modifies info, loop
    ensures |info.working| == old(|info.working|)
    ensures Flowed(old(info.Flows(loop)), info.Flows(loop), info.Headers(loop), sent)
    ensures |sent| == |order| && SentInOrder(info.working, order, succ, sent)
    ensures var s := info.Flows(loop);
            MassAtLeaves(s.working, order, succ) + Sum(s.backedge) + SumExits(s.exits)
                == old(Moving(info.Flows(loop), order))
  {
    hide Moving, MassAtLeaves, ForwardFrom, DeliverAll, Masses, Flowed, SentInOrder, IsNormalized, CanDeliver, PassDone;
    ghost var s0 := info.Flows(loop);
    NothingDone(s0, info.Headers(loop), order, succ);
    sent := [];
    NothingSent(s0, info.Headers(loop), order, succ);
    for i := 0 to |order|
      invariant |info.working| == |s0.working|
      invariant Masses(info.working) && (loop != null ==> Masses(loop.backedgeMass))
      invariant PassDone(s0, info.Flows(loop), info.Headers(loop), order, succ, i)
      invariant |sent| == i && Flowed(s0, info.Flows(loop), info.Headers(loop), sent)
      invariant SentInOrder(info.working, order, succ, sent)
    {
      ghost var s := info.Flows(loop);
      StepIsForward(s0, s, info.Headers(loop), order, succ, i);
      ghost var c, after := PropagateMassToSuccessors(info, order[i], loop, succ(order[i]));
      DeliverAllKeepsMasses(s, info.Headers(loop), after, s.working[order[i]]);
      StepDone(s0, s, info.Headers(loop), order, succ, i, c, after);
      sent := StepFlows(s0, s, info.Headers(loop), order, succ, sent, c, after);
    }
    EverythingDone(s0, info.Flows(loop), info.Headers(loop), order, succ);
  }

  /** After i nodes: their leaves and what still moves make up what moved at the start. */
  ghost predicate PassDone(s0: Sinks, s: Sinks, headers: seq<nat>, order: seq<nat>, succ: Successors, i: nat)
    requires i <= |order|
  {
    && InRange(order, |s0.working|) && InRange(order, |s.working|) && DistinctNodes(order)
    && ForwardFrom(s, headers, order, succ, i)
    && InRange(order[..i], |s.working|) && InRange(order[i..], |s.working|)
    && MassAtLeaves(s.working, order[..i], succ) + Moving(s, order[i..]) == Moving(s0, order) <= MAX64
  }

  lemma NothingDone(s: Sinks, headers: seq<nat>, order: seq<nat>, succ: Successors)
    requires InRange(order, |s.working|) && DistinctNodes(order) && ForwardFrom(s, headers, order, succ, 0)
    requires Moving(s, order) <= MAX64
    ensures PassDone(s, s, headers, order, succ, 0)
  {
    assert order[0..] == order && order[..0] == [];
  }

  lemma StepIsForward(s0: Sinks, s: Sinks, headers: seq<nat>, order: seq<nat>, succ: Successors, i: nat)
    requires i < |order| && PassDone(s0, s, headers, order, succ, i)
    ensures Forward(s, headers, order[i + 1..], succ(order[i])) && order[i] < |s.working|
    ensures order[i..] == [order[i]] + order[i + 1..]
    ensures DistinctNodes(order[i..]) && Moving(s, order[i..]) <= MAX64
  {
  }

  lemma {:induction false} DeliverAllKeepsMasses(s: Sinks, headers: seq<nat>, ws: seq<Weight>, mass: nat)
    requires CanDeliver(s, headers, ws, mass)
    ensures var s' := DeliverAll(s, headers, ws, mass);
            && Masses(s'.working) && Masses(s'.backedge) && |s'.working| == |s.working|
            && forall v :: Deliverable(s', headers, v) <==> Deliverable(s, headers, v)
    decreases |ws|
  {
    if ws != [] {
      PositiveTail(ws);
      var taken := Portion(mass, ws[0].amount, TotalAmount(ws));
      var s1 := Deliver(s, headers, ws[0], taken);
      hide Portion;
      forall k | 0 <= k < |ws[1..]| ensures Deliverable(s1, headers, ws[1..][k]) { assert ws[1..][k] == ws[k + 1]; }
      DeliverAllKeepsMasses(s1, headers, ws[1..], mass - taken);
    }
  }

  lemma ForwardStays(s: Sinks, s': Sinks, headers: seq<nat>, order: seq<nat>, succ: Successors, i: nat)
    requires ForwardFrom(s, headers, order, succ, i)
    requires forall v :: Deliverable(s', headers, v) <==> Deliverable(s, headers, v)
    ensures ForwardFrom(s', headers, order, succ, i + 1)
  {
    hide Deliverable;
    forall j | i + 1 <= j < |order| ensures Forward(s', headers, order[j + 1..], succ(order[j])) {
      assert Forward(s, headers, order[j + 1..], succ(order[j]));
    }
  }

  lemma {:induction false} LeavesUnchanged(w: seq<nat>, w': seq<nat>, nodes: seq<nat>, succ: Successors)
    requires InRange(nodes, |w|) && |w'| == |w| && forall k :: 0 <= k < |nodes| ==> w'[nodes[k]] == w[nodes[k]]
    ensures MassAtLeaves(w', nodes, succ) == MassAtLeaves(w, nodes, succ)
  {
    if nodes != [] {
      forall k | 0 <= k < |nodes[1..]| ensures w'[nodes[1..][k]] == w[nodes[1..][k]] {
        assert nodes[1..][k] == nodes[k + 1];
      }
      LeavesUnchanged(w, w', nodes[1..], succ);
    }
  }

  lemma {:induction false} LeavesAppend(w: seq<nat>, nodes: seq<nat>, n: nat, succ: Successors)
    requires InRange(nodes, |w|) && InRange(nodes + [n], |w|) && n < |w|
    ensures MassAtLeaves(w, nodes + [n], succ) == MassAtLeaves(w, nodes, succ) + (if succ(n) == [] then w[n] else 0)
  {
    if nodes == [] {
      assert ([] + [n])[1..] == [];
    } else {
      assert (nodes + [n])[1..] == nodes[1..] + [n];
      LeavesAppend(w, nodes[1..], n, succ);
    }
  }

  lemma StepDone(s0: Sinks, s: Sinks, headers: seq<nat>, order: seq<nat>, succ: Successors, i: nat,
                 c: seq<Weight>, after: seq<Weight>)
    requires i < |order| && PassDone(s0, s, headers, order, succ, i) && order[i] < |s.working|
    requires IsNormalized(succ(order[i]), c, after) && CanDeliver(s, headers, after, s.working[order[i]])
    ensures PassDone(s0, DeliverAll(s, headers, after, s.working[order[i]]), headers, order, succ, i + 1)
  {
    var n, later, ws := order[i], order[i + 1..], succ(order[i]);
    var mass := s.working[n];
    var s' := DeliverAll(s, headers, after, mass);
    StepIsForward(s0, s, headers, order, succ, i);
    assert LocalTargetsIn(ws, later);
    NormalizedKeepsTargets(ws, c, after, later);
    DeliverAllKeepsMasses(s, headers, after, mass);
    ForwardStays(s, s', headers, order, succ, i);
    StepLeaves(s, s', headers, order, succ, i, after, mass);
    hide DeliverAll, IsNormalized, Forward, ForwardFrom, CanDeliver, MassAtLeaves, LocalTargetsIn;
    StepConserves(s, headers, n, later, after, mass);
    MassOfFirst(s.working, n, later);
    assert Moving(s, order[i..]) == Moving(s, [n] + later);
  }

  /** The leaves among the nodes done so far: only the last one can be new. */
  lemma StepLeaves(s: Sinks, s': Sinks, headers: seq<nat>, order: seq<nat>, succ: Successors, i: nat,
                   ws: seq<Weight>, mass: nat)
    requires CanDeliver(s, headers, ws, mass) && i < |order| && DistinctNodes(order) && InRange(order, |s.working|)
    requires LocalTargetsIn(ws, order[i + 1..]) && s' == DeliverAll(s, headers, ws, mass)
    requires InRange(order[..i], |s.working|)
    ensures |s'.working| == |s.working| && s'.working[order[i]] == s.working[order[i]]
    ensures InRange(order, |s'.working|) && InRange(order[..i + 1], |s'.working|)
    ensures MassAtLeaves(s'.working, order[..i + 1], succ)
         == MassAtLeaves(s.working, order[..i], succ) + (if succ(order[i]) == [] then s.working[order[i]] else 0)
  {
    hide DeliverAll, MassAtLeaves, CanDeliver;
    DeliverAllShape(s, headers, ws, mass);
    assert order[..i + 1] == order[..i] + [order[i]];
    forall k | 0 <= k <= i ensures s'.working[order[k]] == s.working[order[k]] {
      EarlierUnchanged(s, headers, order, i, k, ws, mass);
    }
    LeavesUnchanged(s.working, s'.working, order[..i], succ);
    LeavesAppend(s'.working, order[..i], order[i], succ);
  }

  lemma DeliverAllShape(s: Sinks, headers: seq<nat>, ws: seq<Weight>, mass: nat)
    requires CanDeliver(s, headers, ws, mass)
    ensures |DeliverAll(s, headers, ws, mass).working| == |s.working|
  {
    DeliverAllKeepsMasses(s, headers, ws, mass);
  }

  lemma EarlierUnchanged(s: Sinks, headers: seq<nat>, order: seq<nat>, i: nat, k: nat, ws: seq<Weight>, mass: nat)
    requires CanDeliver(s, headers, ws, mass) && k <= i < |order| && DistinctNodes(order) && order[k] < |s.working|
    requires LocalTargetsIn(ws, order[i + 1..])
    ensures var s' := DeliverAll(s, headers, ws, mass);
            |s'.working| == |s.working| && s'.working[order[k]] == s.working[order[k]]
  {
    forall j | 0 <= j < |ws| && ws[j].kind == Local ensures ws[j].target != order[k] {
      var l :| 0 <= l < |order[i + 1..]| && order[i + 1..][l] == ws[j].target;
      assert order[i + 1..][l] == order[i + 1 + l];
    }
    DeliverAllElsewhere(s, headers, ws, mass, order[k]);
  }

  lemma EverythingDone(s0: Sinks, s: Sinks, headers: seq<nat>, order: seq<nat>, succ: Successors)
    requires PassDone(s0, s, headers, order, succ, |order|)
    ensures InRange(order, |s.working|) && InRange(order, |s0.working|)
    ensures MassAtLeaves(s.working, order, succ) + Sum(s.backedge) + SumExits(s.exits) == Moving(s0, order)
  {
    assert order[..|order|] == order && order[|order|..] == [];
  }

  // ---------------------------------------------------------- one loop

  /** The portions of the full mass for so many even weights. */
  function EvenShares(n: nat): (r: seq<nat>)
    requires n <= MAX32
    ensures |r| == n
  {
    EvenWeights(n);
    Portions(MAX64, Ones(n))
  }

  function Ones(n: nat): seq<nat> { if n == 0 then [] else [1] + Ones(n - 1) }

  lemma {:induction false} EvenWeights(n: nat)
    ensures |Ones(n)| == n && AllPositive(Ones(n)) && Sum(Ones(n)) == n
  {
    if n > 0 {
      EvenWeights(n - 1);
      assert Ones(n)[1..] == Ones(n - 1);
    }
  }

  /** The first of n even shares of what remains, and the others. */
  lemma EvenStep(remaining: nat, n: nat)
    requires 0 < n <= MAX32 && remaining <= MAX64
    ensures AllPositive(Ones(n)) && Sum(Ones(n)) == n && AllPositive(Ones(n - 1)) && Sum(Ones(n - 1)) == n - 1
    ensures Portions(remaining, Ones(n))
         == [Portion(remaining, 1, n)] + Portions(remaining - Portion(remaining, 1, n), Ones(n - 1))
  {
    EvenWeights(n);
    EvenWeights(n - 1);
    assert Ones(n)[1..] == Ones(n - 1) && Ones(n)[0] == 1;
  }

  /** The full mass is split evenly among the headers of an irreducible loop. */
  method SplitAmongHeaders(info: BlockFrequencyInfo, headers: seq<nat>)
    requires headers != [] && |headers| <= MAX32 && DistinctNodes(headers) && InRange(headers, |info.working|)
    requires Masses(info.working)
    modifies info
    ensures |info.working| == old(|info.working|) && InRange(headers, |info.working|) && Masses(info.working)
    ensures MassOf(info.working, headers) == MAX64
    ensures forall h :: 0 <= h < |headers| ==> info.working[headers[h]] == EvenShares(|headers|)[h]
    ensures forall t :: 0 <= t < |info.working| && t !in headers ==> info.working[t] == old(info.working[t])
  {
    hide Portion, MassOf, Portions, Ones, Sum;
    var remaining: nat := MAX64;
    ghost var w0, shares := info.working, EvenShares(|headers|);
    EvenWeights(|headers|);
    assert shares[0..] == shares;
    assert headers[..0] == [] && MassOf(w0, []) == 0 by { MassOfNothing(w0); }
    for h := 0 to |headers|
      invariant |info.working| == |w0| && Masses(info.working) && remaining <= MAX64
      invariant InRange(headers[..h], |info.working|) && MassOf(info.working, headers[..h]) + remaining == MAX64
      invariant h == |headers| ==> remaining == 0
      invariant forall t :: 0 <= t < |w0| && t !in headers ==> info.working[t] == w0[t]
      invariant AllPositive(Ones(|headers| - h)) && Sum(Ones(|headers| - h)) == |headers| - h
      invariant shares[h..] == Portions(remaining, Ones(|headers| - h))
      invariant forall k :: 0 <= k < h ==> info.working[headers[k]] == shares[k]
    {
      EvenStep(remaining, |headers| - h);
      assert shares[h] == shares[h..][0] && shares[h + 1..] == shares[h..][1..];
      var mass := Portion(remaining, 1, |headers| - h);
      HeaderGets(info.working, headers, h, mass);
      info.working := info.working[headers[h] := mass];
      remaining := SubtractMass(remaining, mass);
    }
    assert headers[..|headers|] == headers;
  }

  lemma MassOfNothing(w: seq<nat>)
    ensures MassOf(w, []) == 0
  {
  }

  lemma {:induction false} MassOfAppend(w: seq<nat>, a: seq<nat>, b: seq<nat>)
    requires InRange(a, |w|) && InRange(b, |w|) && InRange(a + b, |w|)
    ensures MassOf(w, a + b) == MassOf(w, a) + MassOf(w, b)
  {
    if a == [] { assert a + b == b; } else { assert (a + b)[1..] == a[1..] + b; MassOfAppend(w, a[1..], b); }
  }

  lemma HeaderGets(w: seq<nat>, headers: seq<nat>, h: nat, mass: nat)
    requires h < |headers| && DistinctNodes(headers) && InRange(headers, |w|)
    ensures InRange(headers[..h], |w|) && InRange(headers[..h + 1], |w|)
    ensures MassOf(w[headers[h] := mass], headers[..h + 1]) == MassOf(w, headers[..h]) + mass
  {
    var w', n := w[headers[h] := mass], headers[h];
    assert headers[..h + 1] == headers[..h] + [n] && [n][1..] == [];
    MassOfAppend(w', headers[..h], [n]);
    assert n !in headers[..h];
    MassOfUpdate(w, headers[..h], n, mass);
  }

  lemma {:induction false} NoMass(w: seq<nat>, nodes: seq<nat>)
    requires InRange(nodes, |w|) && forall k :: 0 <= k < |nodes| ==> w[nodes[k]] == 0
    ensures MassOf(w, nodes) == 0
  {
    if nodes != [] {
      forall k | 0 <= k < |nodes[1..]| ensures w[nodes[1..][k]] == 0 { assert nodes[1..][k] == nodes[k + 1]; }
      NoMass(w, nodes[1..]);
    }
  }

  /** computeMassInLoop up to its scale: headers get the full mass, and all of it comes out at backedges,
      exits and nodes without successors. */
  method ComputeMassInLoop(info: BlockFrequencyInfo, loop: LoopData, members: seq<nat>, succ: Successors)
    returns (ghost start: seq<nat>, ghost sent: seq<Sent>)
    requires loop.headers != [] && |loop.headers| <= MAX32 && |loop.backedgeMass| == |loop.headers|
    requires InRange(loop.headers + members, |info.working|) && DistinctNodes(loop.headers + members)
    requires Masses(info.working) && Masses(loop.backedgeMass) && Sum(loop.backedgeMass) == 0 && loop.exits == []
    requires InRange(members, |info.working|) && forall k :: 0 <= k < |members| ==> info.working[members[k]] == 0
    requires ForwardFrom(info.Flows(loop), loop.headers, loop.headers + members, succ, 0)
    modifies info, loop
    ensures |info.working| == old(|info.working|) == |start|
    ensures InRange(loop.headers, |start|)
    ensures forall h :: 0 <= h < |loop.headers| ==> start[loop.headers[h]] == EvenShares(|loop.headers|)[h]
    ensures forall t :: 0 <= t < |start| && t !in loop.headers ==> start[t] == old(info.working[t])
    ensures Flowed(old(info.Flows(loop)).(working := start), info.Flows(loop), loop.headers, sent)
    ensures |sent| == |loop.headers + members| && SentInOrder(info.working, loop.headers + members, succ, sent)
    ensures MassAtLeaves(info.working, loop.headers + members, succ) + Sum(loop.backedgeMass) + SumExits(loop.exits)
            == MAX64
  {
    hide ForwardFrom, MassAtLeaves, MassOf, Sum, Masses, Flowed, SentInOrder, EvenShares;
    ghost var s0, w0, order := info.Flows(loop), info.working, loop.headers + members;
    HeadersAndMembers(w0, loop.headers, members);
    if |loop.headers| > 1 {
      SplitAmongHeaders(info, loop.headers);
    } else {
      StartFull(w0, loop.headers[0]);
      info.working := info.working[loop.headers[0] := MAX64];
      assert loop.headers == [loop.headers[0]];
      OneShare();
    }
    start := info.working;
    StartsWithFullMass(w0, info.working, loop.headers, members);
    SameShapeForward(s0, info.Flows(loop), loop.headers, order, succ);
    sent := PropagateInOrder(info, loop, loop.headers + members, succ);
  }

  lemma OneShare()
    ensures EvenShares(1) == [MAX64]
  {
    EvenStep(MAX64, 1);
  }

  lemma HeadersAndMembers(w: seq<nat>, headers: seq<nat>, members: seq<nat>)
    requires InRange(headers + members, |w|) && DistinctNodes(headers + members)
    ensures InRange(headers, |w|) && InRange(members, |w|) && DistinctNodes(headers)
    ensures forall k :: 0 <= k < |members| ==> members[k] !in headers
  {
    var all := headers + members;
    forall k | 0 <= k < |headers| ensures headers[k] < |w| { assert all[k] == headers[k]; }
    forall k | 0 <= k < |members| ensures members[k] < |w| && members[k] !in headers {
      assert all[|headers| + k] == members[k];
      forall i | 0 <= i < |headers| ensures headers[i] != members[k] { assert all[i] == headers[i]; }
    }
    forall i, j | 0 <= i < j < |headers| ensures headers[i] != headers[j] { assert all[i] != all[j]; }
  }

  lemma StartFull(w: seq<nat>, n: nat)
    requires n < |w| && Masses(w)
    ensures Masses(w[n := MAX64]) && MassOf(w[n := MAX64], [n]) == MAX64
  {
    assert [n][1..] == [];
  }

  lemma StartsWithFullMass(w0: seq<nat>, w: seq<nat>, headers: seq<nat>, members: seq<nat>)
    requires |w| == |w0| && InRange(headers, |w|) && InRange(members, |w|) && InRange(headers + members, |w|)
    requires forall k :: 0 <= k < |members| ==> members[k] !in headers && w0[members[k]] == 0
    requires MassOf(w, headers) == MAX64
    requires forall t :: 0 <= t < |w| && t !in headers ==> w[t] == w0[t]
    ensures MassOf(w, headers + members) == MAX64
  {
    MassOfAppend(w, headers, members);
    NoMass(w, members);
  }

  lemma SameShapeForward(s: Sinks, s': Sinks, headers: seq<nat>, order: seq<nat>, succ: Successors)
    requires ForwardFrom(s, headers, order, succ, 0) && |s'.working| == |s.working| && |s'.backedge| == |s.backedge|
    ensures ForwardFrom(s', headers, order, succ, 0)
  {
    forall j | 0 <= j < |order| ensures Forward(s', headers, order[j + 1..], succ(order[j])) {
      assert Forward(s, headers, order[j + 1..], succ(order[j]));
    }
  }

  /** tryToComputeMassInFunction: the entry gets the full mass, and all of it ends at nodes without successors. */
  method ComputeMassInFunction(info: BlockFrequencyInfo, others: seq<nat>, succ: Successors)
    returns (ghost sent: seq<Sent>)
    requires InRange([0] + others, |info.working|) && DistinctNodes([0] + others) && Masses(info.working)
    requires InRange(others, |info.working|) && forall k :: 0 <= k < |others| ==> info.working[others[k]] == 0
    requires ForwardFrom(info.Flows(null), [], [0] + others, succ, 0)
    modifies info
    ensures |info.working| == old(|info.working|)
    ensures 0 < old(|info.working|)
    ensures Flowed(Sinks(old(info.working)[0 := MAX64], [], []), info.Flows(null), [], sent)
    ensures |sent| == |[0] + others| && SentInOrder(info.working, [0] + others, succ, sent)
    ensures MassAtLeaves(info.working, [0] + others, succ) == MAX64
  {
    hide ForwardFrom, MassAtLeaves, MassOf, Masses, Flowed, SentInOrder;
    ghost var s0, w0, order := info.Flows(null), info.working, [0] + others;
    HeadersAndMembers(w0, [0], others);
    assert order[0] == 0;
    StartFull(w0, 0);
    info.working := info.working[0 := MAX64];
    StartsWithFullMass(w0, info.working, [0], others);
    SameShapeForward(s0, info.Flows(null), [], order, succ);
    sent := PropagateInOrder(info, null, [0] + others, succ);
  }
}
