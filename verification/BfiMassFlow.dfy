// Where distributed mass goes: to local nodes, to the backedge slots of the loop
// being processed, and to its exits.
module BfiMassFlow {
  import opened Arithmetic
  import opened BfiProbability
  import opened BfiDither
  import opened BfiWeights
  import opened BfiCombine
  import opened BfiScaling
  import opened BfiRoom
  import opened BfiDistribution

  // -------------------------------------------------------- specification

  /** Everything mass can flow into. */
  datatype Sinks = Sinks(working: seq<nat>, backedge: seq<nat>, exits: seq<(nat, nat)>)

  function SumExits(exits: seq<(nat, nat)>): nat {
    if exits == [] then 0 else exits[|exits| - 1].1 + SumExits(exits[..|exits| - 1])
  }

  function TotalMass(s: Sinks): nat {
    Sum(s.working) + Sum(s.backedge) + SumExits(s.exits)
  }

  /** The position of a header among the sorted headers. */
  function HeaderIndex(headers: seq<nat>, b: nat): (i: nat)
    requires b in headers
    ensures i < |headers| && headers[i] == b && forall j :: 0 <= j < i ==> headers[j] != b
  {
    if headers[0] == b then 0 else 1 + HeaderIndex(headers[1..], b)
  }

  predicate Masses(s: seq<nat>) {
    forall k :: 0 <= k < |s| ==> s[k] <= MAX64
  }

  /** A weight has somewhere to send its mass: backedges go to headers of an outer loop. */
  predicate Deliverable(s: Sinks, headers: seq<nat>, w: Weight) {
    match w.kind
    case Local => w.target < |s.working|
    case Backedge => w.target in headers && |s.backedge| == |headers|
    case Exit => headers != []
  }

  function Deliver(s: Sinks, headers: seq<nat>, w: Weight, taken: nat): (s': Sinks)
    requires Masses(s.working) && Masses(s.backedge) && taken <= MAX64 && Deliverable(s, headers, w)
    ensures Masses(s'.working) && Masses(s'.backedge)
    ensures forall v :: Deliverable(s', headers, v) <==> Deliverable(s, headers, v)
  {
    match w.kind
    case Local => s.(working := s.working[w.target := AddMass(s.working[w.target], taken)])
    case Backedge =>
      var i := HeaderIndex(headers, w.target);
      s.(backedge := s.backedge[i := AddMass(s.backedge[i], taken)])
    case Exit => s.(exits := s.exits + [(w.target, taken)])
  }

  /** Each weight in turn takes its portion of the mass the earlier ones left. */
  function DeliverAll(s: Sinks, headers: seq<nat>, ws: seq<Weight>, mass: nat): Sinks
    requires Masses(s.working) && Masses(s.backedge) && mass <= MAX64
    requires AllPositive(Amounts(ws)) && TotalAmount(ws) <= MAX32
    requires forall k :: 0 <= k < |ws| ==> Deliverable(s, headers, ws[k])
    decreases |ws|
  {
    if ws == [] then s
    else
      PositiveTail(ws);
      var taken := Portion(mass, ws[0].amount, TotalAmount(ws));
      DeliverAll(Deliver(s, headers, ws[0], taken), headers, ws[1..], mass - taken)
  }

  lemma PositiveTail(ws: seq<Weight>)
    requires ws != [] && AllPositive(Amounts(ws))
    ensures AllPositive(Amounts(ws[1..])) && 0 < ws[0].amount <= TotalAmount(ws)
    ensures ws[1..] != [] ==> TotalAmount(ws[1..]) > 0
  {
    assert ws[0].amount == Amounts(ws)[0];
    forall k | 0 <= k < |ws[1..]| ensures Amounts(ws[1..])[k] > 0 { assert Amounts(ws[1..])[k] == Amounts(ws)[k + 1]; }
    if ws[1..] != [] { assert ws[1..][0].amount == Amounts(ws[1..])[0]; }
  }

  // --------------------------------------------------------- conservation

  lemma {:induction false} SumUpdate(s: seq<nat>, i: nat, v: nat)
    requires i < |s|
    ensures Sum(s[i := v]) + s[i] == Sum(s) + v
  {
    if i > 0 {
      assert s[i := v][1..] == s[1..][i - 1 := v];
      SumUpdate(s[1..], i - 1, v);
    } else {
      assert s[i := v][1..] == s[1..];
    }
  }

  /** What a weight's target holds before it gets its portion; an exit starts a new entry. */
  function Accumulator(s: Sinks, headers: seq<nat>, w: Weight): nat
    requires Deliverable(s, headers, w)
  {
    match w.kind
    case Local => s.working[w.target]
    case Backedge => s.backedge[HeaderIndex(headers, w.target)]
    case Exit => 0
  }

  ghost predicate CanDeliver(s: Sinks, headers: seq<nat>, ws: seq<Weight>, mass: nat) {
    && Masses(s.working) && Masses(s.backedge) && mass <= MAX64
    && AllPositive(Amounts(ws)) && TotalAmount(ws) <= MAX32
    && forall k :: 0 <= k < |ws| ==> Deliverable(s, headers, ws[k])
  }

  /** The portion of each weight, as repeated takeMass gives them. */
  function PortionsOf(ws: seq<Weight>, mass: nat): (r: seq<nat>)
    requires mass <= MAX64 && AllPositive(Amounts(ws)) && TotalAmount(ws) <= MAX32
    ensures |r| == |ws|
  {
    TotalIsSum(ws);
    Portions(mass, Amounts(ws))
  }

  /** No target saturates when it gets its own portion. */
  ghost predicate PortionsFit(s: Sinks, headers: seq<nat>, ws: seq<Weight>, mass: nat)
    requires CanDeliver(s, headers, ws, mass)
  {
    forall k :: 0 <= k < |ws| ==> Accumulator(s, headers, ws[k]) + PortionsOf(ws, mass)[k] <= MAX64
  }

  lemma PortionsOfTail(ws: seq<Weight>, mass: nat)
    requires mass <= MAX64 && AllPositive(Amounts(ws)) && TotalAmount(ws) <= MAX32 && ws != []
    ensures AllPositive(Amounts(ws[1..])) && 0 < ws[0].amount <= TotalAmount(ws)
    ensures var taken := Portion(mass, ws[0].amount, TotalAmount(ws));
            PortionsOf(ws, mass) == [taken] + PortionsOf(ws[1..], mass - taken)
    ensures ws[1..] == [] ==> Portion(mass, ws[0].amount, TotalAmount(ws)) == mass
  {
    PositiveTail(ws);
    TotalIsSum(ws);
    assert Amounts(ws)[1..] == Amounts(ws[1..]) && Amounts(ws)[0] == ws[0].amount;
    if ws[1..] == [] { assert TotalAmount(ws) == ws[0].amount; }
  }

  lemma DeliverAdds(s: Sinks, headers: seq<nat>, w: Weight, taken: nat)
    requires Masses(s.working) && Masses(s.backedge) && taken <= MAX64 && Deliverable(s, headers, w)
    ensures TotalMass(Deliver(s, headers, w, taken)) == TotalMass(s) + Min(taken, MAX64 - Accumulator(s, headers, w))
  {
    match w.kind
    case Local => SumUpdate(s.working, w.target, AddMass(s.working[w.target], taken));
    case Backedge =>
      var i := HeaderIndex(headers, w.target);
      SumUpdate(s.backedge, i, AddMass(s.backedge[i], taken));
    case Exit =>
      var exits := s.exits + [(w.target, taken)];
      assert exits[..|exits| - 1] == s.exits;
  }

  lemma DeliverElsewhere(s: Sinks, headers: seq<nat>, w: Weight, taken: nat, v: Weight)
    requires Masses(s.working) && Masses(s.backedge) && taken <= MAX64
    requires Deliverable(s, headers, w) && Deliverable(s, headers, v) && v.target != w.target
    ensures Accumulator(Deliver(s, headers, w, taken), headers, v) == Accumulator(s, headers, v)
  {
  }

  /** Never more mass arrives than is distributed, and exactly as much arrives in local nodes, backedge
      slots and exits when no target saturates by its own portion, and only then. */
  lemma {:induction false} DeliverAllConserves(s: Sinks, headers: seq<nat>, ws: seq<Weight>, mass: nat)
    requires CanDeliver(s, headers, ws, mass) && DistinctTargets(ws) && ws != []
    ensures TotalMass(DeliverAll(s, headers, ws, mass)) <= TotalMass(s) + mass
    ensures TotalMass(DeliverAll(s, headers, ws, mass)) == TotalMass(s) + mass <==> PortionsFit(s, headers, ws, mass)
    decreases |ws|
  {
    PortionsOfTail(ws, mass);
    var taken, rest := Portion(mass, ws[0].amount, TotalAmount(ws)), ws[1..];
    hide Portion, TotalMass, PortionsOf, Accumulator, TotalAmount;
    DeliverAdds(s, headers, ws[0], taken);
    var s' := Deliver(s, headers, ws[0], taken);
    var portions := PortionsOf(ws, mass);
    assert portions[0] == taken;
    if rest != [] {
      RestCanDeliver(s, headers, ws, mass, s', taken);
      DeliverAllConserves(s', headers, rest, mass - taken);
      FitsHeadAndTail(s, headers, ws, mass, s', taken);
    }
  }

  lemma RestCanDeliver(s: Sinks, headers: seq<nat>, ws: seq<Weight>, mass: nat, s': Sinks, taken: nat)
    requires CanDeliver(s, headers, ws, mass) && DistinctTargets(ws) && ws != [] && taken <= mass
    requires s' == Deliver(s, headers, ws[0], taken)
    ensures CanDeliver(s', headers, ws[1..], mass - taken) && DistinctTargets(ws[1..])
  {
    PositiveTail(ws);
    forall k | 0 <= k < |ws[1..]| ensures Deliverable(s', headers, ws[1..][k]) { assert ws[1..][k] == ws[k + 1]; }
  }

  lemma FitsHeadAndTail(s: Sinks, headers: seq<nat>, ws: seq<Weight>, mass: nat, s': Sinks, taken: nat)
    requires CanDeliver(s, headers, ws, mass) && DistinctTargets(ws) && ws != [] && taken <= mass
    requires s' == Deliver(s, headers, ws[0], taken) && CanDeliver(s', headers, ws[1..], mass - taken)
    requires PortionsOf(ws, mass) == [taken] + PortionsOf(ws[1..], mass - taken)
    ensures PortionsFit(s, headers, ws, mass) <==>
            Accumulator(s, headers, ws[0]) + taken <= MAX64 && PortionsFit(s', headers, ws[1..], mass - taken)
  {
    hide PortionsOf, Deliver;
    var rest, p, q := ws[1..], PortionsOf(ws, mass), PortionsOf(ws[1..], mass - taken);
    forall k | 0 <= k < |rest|
      ensures Accumulator(s', headers, rest[k]) + q[k] == Accumulator(s, headers, ws[k + 1]) + p[k + 1]
    {
      assert rest[k] == ws[k + 1] && q[k] == p[k + 1];
      DeliverElsewhere(s, headers, ws[0], taken, ws[k + 1]);
    }
    if PortionsFit(s, headers, ws, mass) {
      assert Accumulator(s, headers, ws[0]) + p[0] <= MAX64;
      forall k | 0 <= k < |rest| ensures Accumulator(s', headers, rest[k]) + q[k] <= MAX64 {
        assert Accumulator(s, headers, ws[k + 1]) + p[k + 1] <= MAX64;
      }
    }
    if Accumulator(s, headers, ws[0]) + taken <= MAX64 && PortionsFit(s', headers, rest, mass - taken) {
      forall k | 0 <= k < |ws| ensures Accumulator(s, headers, ws[k]) + p[k] <= MAX64 {
        if k > 0 { assert Accumulator(s', headers, rest[k - 1]) + q[k - 1] <= MAX64; }
      }
    }
  }

  // ------------------------------------------------- who receives what

  /** The portions that weights of a kind send to a target. */
  function PortionTo(ws: seq<Weight>, portions: seq<nat>, kind: DistType, t: nat): nat
    requires |ws| == |portions|
  {
    if ws == [] then 0
    else (if ws[0].kind == kind && ws[0].target == t then portions[0] else 0)
         + PortionTo(ws[1..], portions[1..], kind, t)
  }

  /** The exits recorded for some portions, in order. */
  function ExitsFor(ws: seq<Weight>, portions: seq<nat>): seq<(nat, nat)>
    requires |ws| == |portions|
  {
    if ws == [] then []
    else (if ws[0].kind == Exit then [(ws[0].target, portions[0])] else []) + ExitsFor(ws[1..], portions[1..])
  }

  /** A slot belongs to the first header that it stands for. */
  predicate IsSlot(headers: seq<nat>, i: nat) {
    i < |headers| && forall j :: 0 <= j < i ==> headers[j] != headers[i]
  }

  ghost predicate NodesReceived(w: seq<nat>, w': seq<nat>, ws: seq<Weight>, portions: seq<nat>)
    requires |ws| == |portions|
  {
    |w'| == |w| && forall t :: 0 <= t < |w| ==> w'[t] == Min(MAX64, w[t] + PortionTo(ws, portions, Local, t))
  }

  ghost predicate SlotsReceived(b: seq<nat>, b': seq<nat>, headers: seq<nat>, ws: seq<Weight>, portions: seq<nat>)
    requires |ws| == |portions|
  {
    && |b'| == |b|
    && (forall i :: 0 <= i < |b| && IsSlot(headers, i) ==>
          b'[i] == Min(MAX64, b[i] + PortionTo(ws, portions, Backedge, headers[i])))
    && (forall i :: 0 <= i < |b| && !IsSlot(headers, i) ==> b'[i] == b[i])
  }

  /** Each node, each backedge slot and each exit has received its own portions, and nothing else. */
  ghost predicate Received(s: Sinks, s': Sinks, headers: seq<nat>, ws: seq<Weight>, portions: seq<nat>)
    requires |ws| == |portions|
  {
    && NodesReceived(s.working, s'.working, ws, portions)
    && SlotsReceived(s.backedge, s'.backedge, headers, ws, portions)
    && s'.exits == s.exits + ExitsFor(ws, portions)
  }

  lemma NothingReceived(s: Sinks, headers: seq<nat>)
    requires Masses(s.working) && Masses(s.backedge)
    ensures Received(s, s, headers, [], [])
  {
  }

  lemma NodesFirst(w: seq<nat>, w': seq<nat>, ws: seq<Weight>, portions: seq<nat>)
    requires |ws| == |portions| && ws != [] && Masses(w) && portions[0] <= MAX64
    requires ws[0].kind == Local ==> ws[0].target < |w|
    requires NodesReceived(if ws[0].kind == Local then w[ws[0].target := AddMass(w[ws[0].target], portions[0])] else w,
                           w', ws[1..], portions[1..])
    ensures NodesReceived(w, w', ws, portions)
  {
    var w1 := if ws[0].kind == Local then w[ws[0].target := AddMass(w[ws[0].target], portions[0])] else w;
    forall t | 0 <= t < |w| ensures w'[t] == Min(MAX64, w[t] + PortionTo(ws, portions, Local, t)) {
      assert w'[t] == Min(MAX64, w1[t] + PortionTo(ws[1..], portions[1..], Local, t));
    }
  }

  lemma SlotsFirst(b: seq<nat>, b': seq<nat>, headers: seq<nat>, ws: seq<Weight>, portions: seq<nat>)
    requires |ws| == |portions| && ws != [] && Masses(b) && portions[0] <= MAX64
    requires ws[0].kind == Backedge ==> ws[0].target in headers && |b| == |headers|
    requires SlotsReceived(if ws[0].kind == Backedge then SlotTaken(b, headers, ws[0].target, portions[0]) else b,
                           b', headers, ws[1..], portions[1..])
    ensures SlotsReceived(b, b', headers, ws, portions)
  {
    var b1 := if ws[0].kind == Backedge then SlotTaken(b, headers, ws[0].target, portions[0]) else b;
    forall i | 0 <= i < |b| && IsSlot(headers, i)
      ensures b'[i] == Min(MAX64, b[i] + PortionTo(ws, portions, Backedge, headers[i]))
    {
      assert b'[i] == Min(MAX64, b1[i] + PortionTo(ws[1..], portions[1..], Backedge, headers[i]));
    }
    if ws[0].kind == Backedge { assert IsSlot(headers, HeaderIndex(headers, ws[0].target)); }
  }

  function SlotTaken(b: seq<nat>, headers: seq<nat>, t: nat, taken: nat): (b': seq<nat>)
    requires Masses(b) && taken <= MAX64 && t in headers && |b| == |headers|
    ensures |b'| == |b|
  {
    var i := HeaderIndex(headers, t);
    b[i := AddMass(b[i], taken)]
  }

  /** One weight more at the front. */
  lemma ReceivedFirst(s: Sinks, s': Sinks, headers: seq<nat>, ws: seq<Weight>, portions: seq<nat>)
    requires |ws| == |portions| && ws != [] && Masses(s.working) && Masses(s.backedge) && portions[0] <= MAX64
    requires Deliverable(s, headers, ws[0])
    requires Received(Deliver(s, headers, ws[0], portions[0]), s', headers, ws[1..], portions[1..])
    ensures Received(s, s', headers, ws, portions)
  {
    DeliverParts(s, headers, ws[0], portions[0]);
    hide NodesReceived, SlotsReceived, PortionTo, HeaderIndex, Deliver, ExitsFor, SlotTaken;
    NodesFirst(s.working, s'.working, ws, portions);
    SlotsFirst(s.backedge, s'.backedge, headers, ws, portions);
    ExitsFirst(s.exits, s'.exits, ws, portions);
  }

  lemma DeliverParts(s: Sinks, headers: seq<nat>, w: Weight, taken: nat)
    requires Masses(s.working) && Masses(s.backedge) && taken <= MAX64 && Deliverable(s, headers, w)
    ensures var s1 := Deliver(s, headers, w, taken);
            && s1.working == (if w.kind == Local then s.working[w.target := AddMass(s.working[w.target], taken)]
                              else s.working)
            && s1.backedge == (if w.kind == Backedge then SlotTaken(s.backedge, headers, w.target, taken)
                               else s.backedge)
            && s1.exits == s.exits + (if w.kind == Exit then [(w.target, taken)] else [])
  {
  }

  lemma ExitsFirst(exits: seq<(nat, nat)>, exits': seq<(nat, nat)>, ws: seq<Weight>, portions: seq<nat>)
    requires |ws| == |portions| && ws != []
    requires exits' == exits + (if ws[0].kind == Exit then [(ws[0].target, portions[0])] else [])
                       + ExitsFor(ws[1..], portions[1..])
    ensures exits' == exits + ExitsFor(ws, portions)
  {
    var first := if ws[0].kind == Exit then [(ws[0].target, portions[0])] else [];
    Concatenated(exits, first, ExitsFor(ws[1..], portions[1..]));
  }

  lemma Concatenated(a: seq<(nat, nat)>, b: seq<(nat, nat)>, c: seq<(nat, nat)>)
    ensures a + b + c == a + (b + c)
  {
  }

  /** Each weight's portion goes where its kind and target say. */
  lemma {:induction false} DeliveredToTargets(s: Sinks, headers: seq<nat>, ws: seq<Weight>, mass: nat)
    requires CanDeliver(s, headers, ws, mass)
    ensures Received(s, DeliverAll(s, headers, ws, mass), headers, ws, PortionsOf(ws, mass))
    decreases |ws|
  {
    if ws == [] {
      NothingReceived(s, headers);
    } else {
      var taken, portions := DeliverAllStep(s, headers, ws, mass);
      var rest := ws[1..];
      CanDeliverRest(s, headers, ws, mass, taken);
      assert Masses(s.working) && Masses(s.backedge) && taken <= MAX64;
      hide Portion, PortionsOf, Received, Deliverable, DeliverAll, Deliver, CanDeliver, TotalAmount, Amounts;
      var s1 := Deliver(s, headers, ws[0], taken);
      DeliveredToTargets(s1, headers, rest, mass - taken);
      ReceivedFirst(s, DeliverAll(s1, headers, rest, mass - taken), headers, ws, portions);
    }
  }

  lemma DeliverAllStep(s: Sinks, headers: seq<nat>, ws: seq<Weight>, mass: nat) returns (taken: nat, portions: seq<nat>)
    requires CanDeliver(s, headers, ws, mass) && ws != []
    ensures taken <= mass && portions == PortionsOf(ws, mass) && |portions| == |ws| && portions[0] == taken
    ensures CanDeliver(Deliver(s, headers, ws[0], taken), headers, ws[1..], mass - taken)
    ensures portions[1..] == PortionsOf(ws[1..], mass - taken)
    ensures DeliverAll(s, headers, ws, mass)
         == DeliverAll(Deliver(s, headers, ws[0], taken), headers, ws[1..], mass - taken)
  {
    PortionsOfTail(ws, mass);
    taken, portions := Portion(mass, ws[0].amount, TotalAmount(ws)), PortionsOf(ws, mass);
    CanDeliverRest(s, headers, ws, mass, taken);
    hide Portion, PortionsOf, Deliver;
  }

  lemma CanDeliverRest(s: Sinks, headers: seq<nat>, ws: seq<Weight>, mass: nat, taken: nat)
    requires CanDeliver(s, headers, ws, mass) && ws != [] && taken <= mass
    ensures Deliverable(s, headers, ws[0])
    ensures CanDeliver(Deliver(s, headers, ws[0], taken), headers, ws[1..], mass - taken)
  {
    PositiveTail(ws);
    var s1 := Deliver(s, headers, ws[0], taken);
    forall k | 0 <= k < |ws[1..]| ensures Deliverable(s1, headers, ws[1..][k]) { assert ws[1..][k] == ws[k + 1]; }
  }

  /** With distinct targets each weight's target gets its own portion, and other nodes get none. */
  lemma {:induction false} OwnPortion(ws: seq<Weight>, portions: seq<nat>, k: nat)
    requires |ws| == |portions| && DistinctTargets(ws) && k < |ws|
    ensures PortionTo(ws, portions, ws[k].kind, ws[k].target) == portions[k]
    decreases |ws|
  {
    if k == 0 {
      NoPortion(ws[1..], portions[1..], ws[0].kind, ws[0].target);
    } else {
      assert ws[k] == ws[1..][k - 1] && portions[k] == portions[1..][k - 1];
      OwnPortion(ws[1..], portions[1..], k - 1);
    }
  }

  lemma {:induction false} NoPortion(ws: seq<Weight>, portions: seq<nat>, kind: DistType, t: nat)
    requires |ws| == |portions| && forall k :: 0 <= k < |ws| ==> ws[k].target != t
    ensures PortionTo(ws, portions, kind, t) == 0
    decreases |ws|
  {
    if ws != [] { NoPortion(ws[1..], portions[1..], kind, t); }
  }

  // ------------------------------------------------------------ the state

  class LoopData {
    const headers: seq<nat>             // Nodes up to NumHeaders
    var backedgeMass: seq<nat>
    var exits: seq<(nat, nat)>

    constructor (headers: seq<nat>)
      ensures this.headers == headers && |backedgeMass| == |headers| && exits == []
      ensures Masses(backedgeMass)
    {
      this.headers := headers;
      backedgeMass := seq(|headers|, _ => 0);
      exits := [];
    }
  }

  class BlockFrequencyInfo {
    var working: seq<nat>               // the mass of each node's representative

    ghost function Flows(loop: LoopData?): Sinks
      reads this, loop
    {
      if loop == null then Sinks(working, [], []) else Sinks(working, loop.backedgeMass, loop.exits)
    }

    ghost function Headers(loop: LoopData?): seq<nat> {
      if loop == null then [] else loop.headers
    }

    ghost predicate CanDistribute(loop: LoopData?, dist: Distribution)
      reads this, loop, dist
    {
      && dist.Valid() && Proper(dist.weights) && Fits(dist.weights)
      && Masses(working) && (loop != null ==> Masses(loop.backedgeMass))
      && forall k :: 0 <= k < |dist.weights| ==> Deliverable(Flows(loop), Headers(loop), dist.weights[k])
    }

    constructor (working: seq<nat>)
      ensures this.working == working
    {
      this.working := working;
    }

    /** One weight's portion, by the kind of its edge. */
    method DeliverOne(w: Weight, taken: nat, loop: LoopData?)
      requires Masses(working) && (loop != null ==> Masses(loop.backedgeMass)) && taken <= MAX64
      requires Deliverable(Flows(loop), Headers(loop), w)
      modifies this, loop
      ensures Flows(loop) == Deliver(old(Flows(loop)), Headers(loop), w, taken)
    {
      if w.kind == Local {
        working := working[w.target := AddMass(working[w.target], taken)];
        return;
      }
      if w.kind == Backedge {
        var i := HeaderIndex(loop.headers, w.target);
        loop.backedgeMass := loop.backedgeMass[i := AddMass(loop.backedgeMass[i], taken)];
        return;
      }
      loop.exits := loop.exits + [(w.target, taken)];
    }

    /** takeMass and delivery for each weight in turn. */
    method DeliverPortions(ws: seq<Weight>, total: nat, mass: nat, loop: LoopData?)
      requires AllPositive(Amounts(ws)) && total == TotalAmount(ws) <= MAX32 && mass <= MAX64
      requires Masses(working) && (loop != null ==> Masses(loop.backedgeMass))
      requires forall k :: 0 <= k < |ws| ==> Deliverable(Flows(loop), Headers(loop), ws[k])
      modifies this, loop
      ensures Flows(loop) == DeliverAll(old(Flows(loop)), Headers(loop), ws, mass)
    {
      hide Portion, Deliver, Deliverable;
      ghost var s0, headers := Flows(loop), Headers(loop);
      var d := new DitheringDistributer(total, mass);
      assert ws[0..] == ws;
      for k := 0 to |ws|
        invariant Masses(working) && (loop != null ==> Masses(loop.backedgeMass))
        invariant d.remMass <= MAX64 && d.remWeight == TotalAmount(ws[k..]) <= MAX32
        invariant AllPositive(Amounts(ws[k..]))
        invariant forall j :: k <= j < |ws| ==> Deliverable(Flows(loop), headers, ws[j])
        invariant DeliverAll(Flows(loop), headers, ws[k..], d.remMass) == DeliverAll(s0, headers, ws, mass)
      {
        PositiveTail(ws[k..]);
        assert ws[k..][0] == ws[k] && ws[k..][1..] == ws[k + 1..];
        var taken := d.TakeMass(ws[k].amount);
        DeliverOne(ws[k], taken, loop);
      }
    }

    /** takeMass for each header in turn, replacing its mass. */
    method AssignPortions(ws: seq<Weight>, total: nat, mass: nat)
      requires AllPositive(Amounts(ws)) && total == TotalAmount(ws) <= MAX32 && mass <= MAX64
      requires forall k :: 0 <= k < |ws| ==> ws[k].target < |working|
      modifies this
      ensures working == AssignAll(old(working), ws, mass)
    {
      hide Portion;
      ghost var w0 := working;
      var d := new DitheringDistributer(total, mass);
      assert ws[0..] == ws;
      for k := 0 to |ws|
        invariant |working| == |w0|
        invariant d.remMass <= MAX64 && d.remWeight == TotalAmount(ws[k..]) <= MAX32
        invariant AllPositive(Amounts(ws[k..]))
        invariant AssignAll(working, ws[k..], d.remMass) == AssignAll(w0, ws, mass)
      {
        PositiveTail(ws[k..]);
        assert ws[k..][0] == ws[k] && ws[k..][1..] == ws[k + 1..];
        var taken := d.TakeMass(ws[k].amount);
        working := working[ws[k].target := taken];
      }
    }

    /** The loop's full mass is split among the headers that have backedge mass: together they
        hold exactly the full mass afterwards, and nothing else changes. */
    method AdjustLoopHeaderMass(loop: LoopData) returns (ghost c: seq<Weight>, ghost ws: seq<Weight>)
      requires |loop.headers| == |loop.backedgeMass| <= 0x8000_0000 && Increasing(loop.headers)
      requires Sum(loop.backedgeMass) <= MAX64 && forall k :: 0 <= k < |loop.headers| ==> loop.headers[k] < |working|
      modifies this
      ensures IsNormalized(HeaderWeights(loop.headers, loop.backedgeMass), c, ws)
      ensures AllPositive(Amounts(ws)) && TotalAmount(ws) <= MAX32 && DistinctTargets(ws)
      ensures forall t :: HasTarget(ws, t) <==> HasBackedgeMass(loop.headers, loop.backedgeMass, t)
      ensures |working| == |old(working)| && forall k :: 0 <= k < |ws| ==> ws[k].target < |working|
      ensures working == AssignAll(old(working), ws, MAX64)
      ensures forall k :: 0 <= k < |ws| ==> working[ws[k].target] == PortionsOf(ws, MAX64)[k]
      ensures ws != [] ==> MassAt(working, ws) == MAX64
      ensures forall t :: 0 <= t < |working| && !HasTarget(ws, t) ==> working[t] == old(working[t])
    {
      hide HeaderWeights, TotalAmount, Sum, Fits, IsCombination, Proper, ShiftFor, ScaledWeights, AssignAll, MassAt;
      hide HasTarget, DistinctTargets, HasBackedgeMass, Increasing, IsNormalized;
      HeaderWeightsAre(loop.headers, loop.backedgeMass, |working|);
      var dist := CollectHeaders(loop);
      ghost var before, w0 := dist.weights, working;
      c := dist.Normalize();
      ws := dist.weights;
      NormalizedHeaders(before, ws, dist.total, |w0|);
      AssignPortions(dist.weights, dist.total, MAX64);
      AssignAllConserves(w0, ws, MAX64);
      forall k | 0 <= k < |ws| ensures working[ws[k].target] == PortionsOf(ws, MAX64)[k] {
        AssignedPortion(w0, ws, MAX64, k);
      }
      forall t | 0 <= t < |w0| && !HasTarget(ws, t) ensures working[t] == w0[t] {
        AssignAllElsewhere(w0, ws, MAX64, t);
      }
    }

    method CollectHeaders(loop: LoopData) returns (dist: Distribution)
      requires |loop.headers| == |loop.backedgeMass| && Sum(loop.backedgeMass) <= MAX64
      ensures fresh(dist) && dist.Valid() && dist.weights == HeaderWeights(loop.headers, loop.backedgeMass)
    {
      hide HeaderWeights, TotalAmount, Sum;
      dist := new Distribution();
      var n := |loop.headers|;
      assert loop.headers[..n] == loop.headers && loop.backedgeMass[..n] == loop.backedgeMass;
      NoHeaderWeights();
      for h := 0 to n
        invariant fresh(dist) && dist.Valid()
        invariant dist.weights == HeaderWeights(loop.headers[..h], loop.backedgeMass[..h])
      {
        HeaderWeightsStep(loop.headers, loop.backedgeMass, h);
        var mass := loop.backedgeMass[h];
        if mass > 0 {
          dist.Add(loop.headers[h], mass, Local);
        }
      }
    }

    /** Every portion goes to its own target, and across local nodes, backedge slots and exits exactly
        the source's mass is added when no target saturates by its own portion, and only then. */
    method DistributeMass(source: nat, loop: LoopData?, dist: Distribution) returns (ghost c: seq<Weight>)
      requires CanDistribute(loop, dist) && source < |working|
      modifies this, loop, dist
      ensures IsNormalized(old(dist.weights), c, dist.weights)
      ensures CanDeliver(old(Flows(loop)), Headers(loop), dist.weights, old(working[source]))
      ensures Flows(loop) == DeliverAll(old(Flows(loop)), Headers(loop), dist.weights, old(working[source]))
      ensures Received(old(Flows(loop)), Flows(loop), Headers(loop), dist.weights,
                       PortionsOf(dist.weights, old(working[source])))
      ensures old(dist.weights) != [] ==>
                (TotalMass(Flows(loop)) == old(TotalMass(Flows(loop))) + old(working[source])
                 <==> PortionsFit(old(Flows(loop)), Headers(loop), dist.weights, old(working[source])))
    {
      hide Fits, PortionsFit, TotalMass, DeliverAll, Deliverable, IsNormalized, Proper, Received;
      var mass := working[source];
      ghost var s0, before := Flows(loop), dist.weights;
      c := dist.Normalize();
      Normalized(s0, Headers(loop), before, c, dist.weights, dist.total);
      DeliverPortions(dist.weights, dist.total, mass, loop);
      DeliveredToTargets(s0, Headers(loop), dist.weights, mass);
      if before != [] {
        DeliverAllConserves(s0, Headers(loop), dist.weights, mass);
      }
    }
  }

  // ------------------------------------------------------ aiming weights

  /** The kind of edge to a node: back to a header of the outer loop, out of it, or within. */
  function KindOf(headers: seq<nat>, contained: nat -> bool, t: nat): DistType {
    if t in headers then Backedge else if !contained(t) then Exit else Local
  }

  function AtLeastOne(amount: nat): nat { if amount == 0 then 1 else amount }

  /** A local edge against the node order can only come from a header. */
  predicate Aborts(headers: seq<nat>, contained: nat -> bool, pred: nat, t: nat) {
    KindOf(headers, contained, t) == Local && t < pred && pred !in headers
  }

  ghost predicate WellAimed(headers: seq<nat>, contained: nat -> bool, ws: seq<Weight>) {
    forall k :: 0 <= k < |ws| ==> ws[k].kind == KindOf(headers, contained, ws[k].target) && 0 < ws[k].amount <= MAX64
  }

  /** Equal targets have equal kinds. */
  lemma WellAimedIsProper(headers: seq<nat>, contained: nat -> bool, ws: seq<Weight>)
    requires WellAimed(headers, contained, ws)
    ensures Proper(ws)
  {
    forall w | w in ws ensures w.kind == KindOf(headers, contained, w.target) && 0 < w.amount <= MAX64 {
      var k :| 0 <= k < |ws| && ws[k] == w;
    }
  }

  /** addToDist: the node a successor resolves to, and whether the outer loop contains it, are given. */
  method AddToDist(dist: Distribution, headers: seq<nat>, pred: nat, succ: nat, weight: nat,
                   resolve: nat -> nat, contained: nat -> bool) returns (ok: bool)
    requires dist.Valid() && weight <= MAX64
    requires !(dist.didOverflow && dist.total + AtLeastOne(weight) > MAX64)
    modifies dist
    ensures dist.Valid()
    ensures var t := resolve(succ);
            && (ok <==> t in headers || !contained(t) || t >= pred || pred in headers)
            && dist.weights == old(dist.weights)
               + (if ok then [Weight(if t in headers then Backedge else if contained(t) then Local else Exit, t,
                                     if weight == 0 then 1 else weight)]
                  else [])
  {
    var amount := if weight == 0 then 1 else weight;
    var resolved := resolve(succ);
    if resolved in headers {
      dist.Add(resolved, amount, Backedge);
      return true;
    }
    if !contained(resolved) {
      dist.Add(resolved, amount, Exit);
      return true;
    }
    if resolved < pred {
      if pred !in headers {
        return false;
      }
    }
    dist.Add(resolved, amount, Local);
    return true;
  }

  /** The weights for edges with what is said of each: successors with probabilities, or the exits of a packaged
      loop with masses. */
  function EdgeWeights(exits: seq<(nat, nat)>, headers: seq<nat>, resolve: nat -> nat,
                       contained: nat -> bool): seq<Weight> {
    if exits == [] then []
    else
      var n := |exits| - 1;
      EdgeWeights(exits[..n], headers, resolve, contained) + [EdgeWeight(exits[n], headers, resolve, contained)]
  }

  function EdgeWeight(exit: (nat, nat), headers: seq<nat>, resolve: nat -> nat, contained: nat -> bool): Weight {
    Weight(KindOf(headers, contained, resolve(exit.0)), resolve(exit.0), AtLeastOne(exit.1))
  }

  lemma {:induction false} EdgeWeightsAre(exits: seq<(nat, nat)>, headers: seq<nat>, resolve: nat -> nat,
      contained: nat -> bool)
    requires SumExits(exits) <= MAX64
    ensures var ws := EdgeWeights(exits, headers, resolve, contained);
            && |ws| == |exits| && WellAimed(headers, contained, ws)
            && TotalAmount(ws) <= SumExits(exits) + |exits|
  {
    if exits != [] {
      var n := |exits| - 1;
      EdgeWeightsAre(exits[..n], headers, resolve, contained);
      var w := EdgeWeight(exits[n], headers, resolve, contained);
      TotalAppend(EdgeWeights(exits[..n], headers, resolve, contained), [w]);
      assert [w][1..] == [];
    }
  }

  lemma {:induction false} SumExitsPrefix(exits: seq<(nat, nat)>, n: nat)
    requires n <= |exits|
    ensures SumExits(exits[..n]) <= SumExits(exits)
    decreases |exits|
  {
    if n < |exits| {
      assert exits[..|exits| - 1][..n] == exits[..n];
      SumExitsPrefix(exits[..|exits| - 1], n);
    } else {
      assert exits[..n] == exits;
    }
  }

  /** The weights of a packaged loop's exits are what mass can be distributed by: one kind per target,
      and room in 32 bits, when the exits carry at most the full mass. */
  lemma ExitsCanBeDistributed(exits: seq<(nat, nat)>, headers: seq<nat>, resolve: nat -> nat, contained: nat -> bool)
    requires SumExits(exits) <= MAX64 && |exits| < 0x8000_0000
    ensures var ws := EdgeWeights(exits, headers, resolve, contained);
            Proper(ws) && Fits(ws)
  {
    var ws := EdgeWeights(exits, headers, resolve, contained);
    EdgeWeightsAre(exits, headers, resolve, contained);
    WellAimedIsProper(headers, contained, ws);
    TargetsCount(ws);
    ExitsAreRoomy(TotalAmount(ws), |exits|, |Targets(ws)|);
    RoomSuffices(ws);
  }

  lemma ExitsAreRoomy(sum: nat, exits: nat, n: nat)
    requires sum <= MAX64 + exits && n <= exits < 0x8000_0000
    ensures Roomy(sum, n)
  {
    if sum <= MAX64 { FewTargetsAreRoomy(sum, n); }
  }

  lemma AddedIs(edge: (nat, nat), headers: seq<nat>, pred: nat, resolve: nat -> nat, contained: nat -> bool)
    ensures var t := resolve(edge.0);
            && (Aborts(headers, contained, pred, t)
                <==> t !in headers && contained(t) && t < pred && pred !in headers)
            && EdgeWeight(edge, headers, resolve, contained)
               == Weight(if t in headers then Backedge else if contained(t) then Local else Exit, t,
                         if edge.1 == 0 then 1 else edge.1)
  {
  }

  /** Copy the exits of a packaged loop, by their masses. */
  method AddLoopSuccessorsToDist(exits: seq<(nat, nat)>, headers: seq<nat>, header: nat, dist: Distribution,
                                 resolve: nat -> nat, contained: nat -> bool) returns (ok: bool)
    requires dist.Valid() && dist.weights == [] && SumExits(exits) <= MAX64 && |exits| < 0x8000_0000
    modifies dist
    ensures dist.Valid()
    ensures ok <==> forall k :: 0 <= k < |exits| ==> !Aborts(headers, contained, header, resolve(exits[k].0))
    ensures ok ==> dist.weights == EdgeWeights(exits, headers, resolve, contained)
    ensures ok ==> Proper(dist.weights) && Fits(dist.weights)
  {
    hide Proper, Fits, TotalAmount, Aborts, KindOf, Targets, EdgeWeight;
    for i := 0 to |exits|
      invariant dist.Valid() && dist.weights == EdgeWeights(exits[..i], headers, resolve, contained)
      invariant forall k :: 0 <= k < i ==> !Aborts(headers, contained, header, resolve(exits[k].0))
    {
      assert exits[..i + 1][..i] == exits[..i];
      SumExitsPrefix(exits, i);
      SumExitsPrefix(exits, i + 1);
      EdgeWeightsAre(exits[..i], headers, resolve, contained);
      AddedIs(exits[i], headers, header, resolve, contained);
      var added := AddToDist(dist, headers, header, exits[i].0, exits[i].1, resolve, contained);
      if !added {
        return false;
      }
    }
    assert exits[..|exits|] == exits;
    ExitsCanBeDistributed(exits, headers, resolve, contained);
    return true;
  }

  // -------------------------------------------------- irreducible headers

  /** The weights adjustLoopHeaderMass collects: the headers with some backedge mass. */
  function HeaderWeights(headers: seq<nat>, masses: seq<nat>): seq<Weight>
    requires |headers| == |masses|
  {
    if headers == [] then []
    else
      var n := |headers| - 1;
      HeaderWeights(headers[..n], masses[..n]) + LastWeight(headers[n], masses[n])
  }

  predicate Increasing(s: seq<nat>) {
    forall i, j :: 0 <= i < j < |s| ==> s[i] < s[j]
  }

  ghost predicate HasBackedgeMass(headers: seq<nat>, masses: seq<nat>, t: nat)
    requires |headers| == |masses|
  {
    exists h :: 0 <= h < |headers| && headers[h] == t && masses[h] > 0
  }

  lemma {:induction false} SumAppend(a: seq<nat>, b: seq<nat>)
    ensures Sum(a + b) == Sum(a) + Sum(b)
  {
    if a == [] { assert a + b == b; } else { assert (a + b)[1..] == a[1..] + b; SumAppend(a[1..], b); }
  }

  lemma NoHeaderWeights()
    ensures HeaderWeights([], []) == []
  {
  }

  function LastWeight(header: nat, mass: nat): seq<Weight> {
    if mass > 0 then [Weight(Local, header, mass)] else []
  }

  lemma {:induction false} HeaderWeightsSum(headers: seq<nat>, masses: seq<nat>)
    requires |headers| == |masses|
    ensures TotalAmount(HeaderWeights(headers, masses)) == Sum(masses)
    ensures |HeaderWeights(headers, masses)| <= |headers|
  {
    if headers != [] {
      var n := |headers| - 1;
      var hs, ms := headers[..n], masses[..n];
      HeaderWeightsSum(hs, ms);
      var last := LastWeight(headers[n], masses[n]);
      TotalAppend(HeaderWeights(hs, ms), last);
      assert masses == ms + [masses[n]];
      SumAppend(ms, [masses[n]]);
      assert [masses[n]][1..] == [] && (last != [] ==> last[1..] == []);
    }
  }

  /** Every collected weight belongs to a header with that backedge mass, in the headers' order. */
  lemma {:induction false} HeaderWeightsComeFrom(headers: seq<nat>, masses: seq<nat>)
    requires |headers| == |masses| && Increasing(headers)
    ensures var ws := HeaderWeights(headers, masses);
            && (forall k :: 0 <= k < |ws| ==> ws[k].kind == Local && ws[k].amount > 0 && ws[k].amount in masses
                                              && HasBackedgeMass(headers, masses, ws[k].target))
            && DistinctTargets(ws)
  {
    if headers != [] {
      var n := |headers| - 1;
      var hs, ms := headers[..n], masses[..n];
      HeaderWeightsComeFrom(hs, ms);
      var ws0, ws := HeaderWeights(hs, ms), HeaderWeights(headers, masses);
      forall k | 0 <= k < |ws|
        ensures ws[k].kind == Local && ws[k].amount > 0 && ws[k].amount in masses
        ensures HasBackedgeMass(headers, masses, ws[k].target)
        ensures k < |ws0| ==> ws[k].target < headers[n]
      {
        if k < |ws0| {
          assert ws[k] == ws0[k];
          var h :| 0 <= h < n && hs[h] == ws0[k].target && ms[h] > 0;
          assert headers[h] == ws[k].target && masses[h] > 0;
        } else {
          assert ws[k] == Weight(Local, headers[n], masses[n]);
        }
      }
    }
  }

  lemma {:induction false} HeaderWeightsCover(headers: seq<nat>, masses: seq<nat>, t: nat)
    requires |headers| == |masses| && HasBackedgeMass(headers, masses, t)
    ensures HasTarget(HeaderWeights(headers, masses), t)
  {
    var n := |headers| - 1;
    var hs, ms := headers[..n], masses[..n];
    var ws0, ws := HeaderWeights(hs, ms), HeaderWeights(headers, masses);
    var h :| 0 <= h < |headers| && headers[h] == t && masses[h] > 0;
    if h < n {
      assert hs[h] == t && ms[h] > 0;
      HeaderWeightsCover(hs, ms, t);
      var k :| 0 <= k < |ws0| && ws0[k].target == t;
      assert ws[k].target == t;
    } else {
      assert ws[|ws0|].target == t;
    }
  }

  lemma HeaderWeightsAre(headers: seq<nat>, masses: seq<nat>, n: nat)
    requires |headers| == |masses| && Increasing(headers)
    requires Sum(masses) <= MAX64 && forall h :: 0 <= h < |headers| ==> headers[h] < n
    ensures var ws := HeaderWeights(headers, masses);
            && Proper(ws) && DistinctTargets(ws) && |ws| <= |headers| && TotalAmount(ws) == Sum(masses)
            && (forall t :: HasTarget(ws, t) <==> HasBackedgeMass(headers, masses, t))
            && (forall t: nat :: HasTarget(ws, t) ==> t < n)
  {
    var ws := HeaderWeights(headers, masses);
    HeaderWeightsSum(headers, masses);
    HeaderWeightsComeFrom(headers, masses);
    forall t ensures HasTarget(ws, t) <==> HasBackedgeMass(headers, masses, t) {
      if HasBackedgeMass(headers, masses, t) { HeaderWeightsCover(headers, masses, t); }
    }
    forall m | m in masses ensures m <= MAX64 { SumBounds(masses, m); }
  }

  lemma {:induction false} SumBounds(s: seq<nat>, m: nat)
    requires m in s
    ensures m <= Sum(s)
  {
    if m != s[0] { SumBounds(s[1..], m); }
  }

  /** One more header: its weight is appended when it has mass, and the total stays in 64 bits. */
  lemma HeaderWeightsStep(headers: seq<nat>, masses: seq<nat>, h: nat)
    requires |headers| == |masses| && h < |headers| && Sum(masses) <= MAX64
    ensures HeaderWeights(headers[..h + 1], masses[..h + 1])
            == HeaderWeights(headers[..h], masses[..h]) + LastWeight(headers[h], masses[h])
    ensures TotalAmount(HeaderWeights(headers[..h], masses[..h])) + masses[h] <= MAX64
  {
    var hs, ms := headers[..h + 1], masses[..h + 1];
    assert hs[..h] == headers[..h] && ms[..h] == masses[..h];
    HeaderWeightsSum(headers[..h], masses[..h]);
    assert ms == masses[..h] + [masses[h]] && [masses[h]][1..] == [];
    SumAppend(masses[..h], [masses[h]]);
    assert masses == ms + masses[h + 1..];
    SumAppend(ms, masses[h + 1..]);
  }

  /** Each portion replaces the mass of its header. */
  function AssignAll(working: seq<nat>, ws: seq<Weight>, mass: nat): (r: seq<nat>)
    requires mass <= MAX64 && AllPositive(Amounts(ws)) && TotalAmount(ws) <= MAX32
    requires forall k :: 0 <= k < |ws| ==> ws[k].target < |working|
    ensures |r| == |working|
    decreases |ws|
  {
    if ws == [] then working
    else
      PositiveTail(ws);
      var taken := Portion(mass, ws[0].amount, TotalAmount(ws));
      AssignAll(working[ws[0].target := taken], ws[1..], mass - taken)
  }

  /** The mass now at the targets of a list of weights. */
  function MassAt(working: seq<nat>, ws: seq<Weight>): nat
    requires forall k :: 0 <= k < |ws| ==> ws[k].target < |working|
  {
    if ws == [] then 0 else working[ws[0].target] + MassAt(working, ws[1..])
  }

  lemma {:induction false} AssignAllElsewhere(working: seq<nat>, ws: seq<Weight>, mass: nat, t: nat)
    requires mass <= MAX64 && AllPositive(Amounts(ws)) && TotalAmount(ws) <= MAX32
    requires forall k :: 0 <= k < |ws| ==> ws[k].target < |working|
    requires t < |working| && !HasTarget(ws, t)
    ensures AssignAll(working, ws, mass)[t] == working[t]
    decreases |ws|
  {
    if ws != [] {
      PositiveTail(ws);
      var taken := Portion(mass, ws[0].amount, TotalAmount(ws));
      hide Portion;
      HasTargetTailNone(ws, t);
      AssignAllElsewhere(working[ws[0].target := taken], ws[1..], mass - taken, t);
    }
  }

  /** Each header holds its own portion. */
  lemma {:induction false} AssignedPortion(working: seq<nat>, ws: seq<Weight>, mass: nat, k: nat)
    requires mass <= MAX64 && AllPositive(Amounts(ws)) && TotalAmount(ws) <= MAX32 && DistinctTargets(ws)
    requires k < |ws| && forall j :: 0 <= j < |ws| ==> ws[j].target < |working|
    ensures AssignAll(working, ws, mass)[ws[k].target] == PortionsOf(ws, mass)[k]
    decreases |ws|
  {
    PortionsOfTail(ws, mass);
    PositiveTail(ws);
    var taken, rest := Portion(mass, ws[0].amount, TotalAmount(ws)), ws[1..];
    var w1 := working[ws[0].target := taken];
    hide Portion, PortionsOf, TotalAmount;
    assert AssignAll(working, ws, mass) == AssignAll(w1, rest, mass - taken);
    if k == 0 {
      assert !HasTarget(rest, ws[0].target);
      AssignAllElsewhere(w1, rest, mass - taken, ws[0].target);
    } else {
      assert ws[k] == rest[k - 1];
      AssignedPortion(w1, rest, mass - taken, k - 1);
    }
  }

  lemma HasTargetTailNone(ws: seq<Weight>, t: nat)
    requires ws != [] && !HasTarget(ws, t)
    ensures ws[0].target != t && !HasTarget(ws[1..], t)
  {
    forall k | 0 <= k < |ws[1..]| ensures ws[1..][k].target != t { assert ws[k + 1].target != t; }
  }

  /** With distinct headers, what they hold afterwards is exactly the mass distributed. */
  lemma {:induction false} AssignAllConserves(working: seq<nat>, ws: seq<Weight>, mass: nat)
    requires mass <= MAX64 && AllPositive(Amounts(ws)) && TotalAmount(ws) <= MAX32
    requires DistinctTargets(ws) && forall k :: 0 <= k < |ws| ==> ws[k].target < |working|
    ensures MassAt(AssignAll(working, ws, mass), ws) == if ws == [] then 0 else mass
    decreases |ws|
  {
    if ws == [] { return; }
    PositiveTail(ws);
    var taken := Portion(mass, ws[0].amount, TotalAmount(ws));
    hide Portion;
    var rest := ws[1..];
    var w1 := working[ws[0].target := taken];
    forall k | 0 <= k < |rest| ensures rest[k].target != ws[0].target { assert rest[k] == ws[k + 1]; }
    AssignAllElsewhere(w1, rest, mass - taken, ws[0].target);
    if rest != [] { AssignAllConserves(w1, rest, mass - taken); } else { assert TotalAmount(ws) == ws[0].amount; }
  }

  /** After normalizing, every weight is still deliverable and the total fits 32 bits. */
  lemma Normalized(s: Sinks, headers: seq<nat>, before: seq<Weight>, c: seq<Weight>, after: seq<Weight>, total: nat)
    requires forall k :: 0 <= k < |before| ==> Deliverable(s, headers, before[k])
    requires IsNormalized(before, c, after)
    requires DistinctTargets(after) && forall t :: HasTarget(after, t) <==> HasTarget(before, t)
    requires total <= MAX32 <==> Fits(before)
    requires Fits(before)
    ensures forall k :: 0 <= k < |after| ==> Deliverable(s, headers, after[k])
    ensures total <= MAX32 && (before != [] ==> after != [])
  {
    forall k | 0 <= k < |after| ensures Deliverable(s, headers, after[k]) {
      var j :| 0 <= j < |before| && before[j].target == c[k].target && before[j].kind == c[k].kind;
    }
    if before != [] {
      assert HasTarget(before, before[0].target);
      assert HasTarget(after, before[0].target);
    }
  }

  lemma NormalizedHeaders(before: seq<Weight>, after: seq<Weight>, total: nat, n: nat)
    requires Proper(before) && |before| <= 0x8000_0000 && TotalAmount(before) <= MAX64
    requires forall t: nat :: HasTarget(before, t) ==> t < n
    requires DistinctTargets(after) && forall t :: HasTarget(after, t) <==> HasTarget(before, t)
    requires total <= MAX32 <==> Fits(before)
    ensures total <= MAX32 && forall k :: 0 <= k < |after| ==> after[k].target < n
  {
    TargetsCount(before);
    FewTargetsAreRoomy(TotalAmount(before), |Targets(before)|);
    RoomSuffices(before);
    forall k | 0 <= k < |after| ensures after[k].target < n {
      assert HasTarget(after, after[k].target);
    }
  }
}
