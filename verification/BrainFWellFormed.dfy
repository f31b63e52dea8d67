// Static well-formedness of the control-flow graph the compiler builds.
module BrainFWellFormed {
  import opened Options
  import opened BrainFIR

  function Targets(t: Term): set<BlockId> {
    match t
    case Br(b) => {b}
    case CondBr(_, a, b) => {a, b}
    case Ret => {}
  }

  predicate IsEdge(m: Module, p: BlockId, b: BlockId) {
    p < |m| && m[p].term.Some? && b in Targets(m[p].term.value)
  }

  predicate HasSource(phi: Phi, p: BlockId) {
    exists i :: 0 <= i < |phi.incoming| && phi.incoming[i].from == p
  }

  predicate DistinctSources(phi: Phi) {
    forall i, j :: 0 <= i < j < |phi.incoming| ==> phi.incoming[i].from != phi.incoming[j].from
  }

  /** Branches stay inside the function, and a phi has exactly one entry for each
      predecessor its block actually has. */
  ghost predicate PhisMatch(m: Module) {
    && (forall p: nat, b: nat :: IsEdge(m, p, b) ==> b < |m|)
    && (forall b :: 0 <= b < |m| && m[b].phi.Some? ==> DistinctSources(m[b].phi.value))
    && (forall b: nat, p: nat :: b < |m| && m[b].phi.Some? ==> (HasSource(m[b].phi.value, p) <==> IsEdge(m, p, b)))
  }

  ghost predicate AllTerminated(m: Module) {
    forall b :: 0 <= b < |m| ==> m[b].term.Some?
  }

  /** Instructions do not matter to the graph. */
  lemma InstsKeepPhis(m: Module, m': Module)
    requires PhisMatch(m) && |m'| == |m|
    requires forall b :: 0 <= b < |m| ==> m'[b].phi == m[b].phi && m'[b].term == m[b].term
    ensures PhisMatch(m')
  {
    forall p: nat, b: nat ensures IsEdge(m', p, b) <==> IsEdge(m, p, b) {}
  }

  lemma NoPhisMatch(m: Module)
    requires forall b :: 0 <= b < |m| ==> m[b].phi.None?
    requires forall p: nat, b: nat :: IsEdge(m, p, b) ==> b < |m|
    ensures PhisMatch(m)
  {
  }

  lemma NewBlockKeepsPhis(m: Module)
    requires PhisMatch(m)
    ensures PhisMatch(m + [Block(None, [], None)])
  {
    var m' := m + [Block(None, [], None)];
    forall p: nat, b: nat ensures IsEdge(m', p, b) <==> IsEdge(m, p, b) {}
  }

  /** A conditional branch to two blocks without phis. */
  lemma CondBranchKeepsPhis(m: Module, p: BlockId, c: Reg, a: BlockId, b: BlockId)
    requires PhisMatch(m) && p < |m| && a < |m| && b < |m| && m[p].term.None?
    requires m[a].phi.None? && m[b].phi.None?
    ensures PhisMatch(m[p := m[p].(term := Some(CondBr(c, a, b)))])
  {
    var m' := m[p := m[p].(term := Some(CondBr(c, a, b)))];
    forall x: nat, y: nat ensures IsEdge(m', x, y) <==> IsEdge(m, x, y) || (x == p && (y == a || y == b)) {}
  }

  /** A plain branch to a block without a phi. */
  lemma EndKeepsPhis(m: Module, p: BlockId, t: BlockId)
    requires PhisMatch(m) && p < |m| && t < |m| && m[p].term.None? && m[t].phi.None?
    ensures PhisMatch(m[p := m[p].(term := Some(Br(t)))])
  {
    var m' := m[p := m[p].(term := Some(Br(t)))];
    forall x: nat, y: nat ensures IsEdge(m', x, y) <==> IsEdge(m, x, y) || (x == p && y == t) {}
  }

  /** m' is m with block ins branching to a new last-but-one block, which has a phi
      naming ins, and a new empty last block. */
  ghost predicate LoopOpened(m: Module, m': Module, ins: BlockId, head: Reg, phi: Reg)
    requires ins < |m|
  {
    && |m'| == |m| + 2
    && (forall k :: 0 <= k < |m| && k != ins ==> m'[k] == m[k])
    && m'[ins] == m[ins].(term := Some(Br(|m|)))
    && m'[|m|] == Block(Some(Phi(phi, [Incoming(head, ins)])), [], None)
    && m'[|m| + 1] == Block(None, [], None)
  }

  lemma OpeningKeepsPhis(m: Module, m': Module, ins: BlockId, head: Reg, phi: Reg)
    requires PhisMatch(m) && ins < |m| && m[ins].term.None? && LoopOpened(m, m', ins, head, phi)
    ensures PhisMatch(m')
  {
    forall p: nat, b: nat ensures IsEdge(m', p, b) <==> IsEdge(m, p, b) || (p == ins && b == |m|) {}
    assert m'[|m|].phi.value.incoming[0].from == ins;
  }

  /** m' is m with the loop tested at t closed from block p: p branches to t, whose phi gets
      its second entry and which tests, and a new last block is the loop's exit. */
  ghost predicate LoopClosed(m: Module, m': Module, p: BlockId, head: Reg, t: BlockId, body: BlockId, x: Reg)
    requires p < |m| && t < |m| && p != t && m[t].phi.Some?
  {
    && |m'| == |m| + 1
    && (forall k :: 0 <= k < |m| && k != p && k != t ==> m'[k] == m[k])
    && m'[p] == m[p].(term := Some(Br(t)))
    && var phi := m[t].phi.value;
       && m'[t] == Block(Some(phi.(incoming := phi.incoming + [Incoming(head, p)])),
                         [Load(x, phi.dst), IcmpEq8(x + 1, x, 0)], Some(CondBr(x + 1, |m|, body)))
       && m'[|m|] == Block(Some(Phi(x + 2, [Incoming(phi.dst, t)])), [], None)
  }

  lemma ClosingKeepsPhis(m: Module, m': Module, p: BlockId, head: Reg, t: BlockId, body: BlockId, x: Reg)
    requires PhisMatch(m) && p < |m| && t < |m| && p != t && m[t].phi.Some? && body < |m|
    requires m[p].term.None? && m[t].term.None? && m[body].phi.None?
    requires LoopClosed(m, m', p, head, t, body, x)
    ensures PhisMatch(m')
  {
    forall a: nat, b: nat
      ensures IsEdge(m', a, b) <==> IsEdge(m, a, b) || (a == p && b == t) || (a == t && (b == |m| || b == body))
    {}
    var f, f' := m[t].phi.value, m'[t].phi.value;
    assert !IsEdge(m, p, t);
    assert !HasSource(f, p);
    forall i | 0 <= i < |f.incoming| ensures f.incoming[i].from != p {}
    forall a: nat ensures HasSource(f', a) <==> HasSource(f, a) || a == p {
      if HasSource(f, a) {
        var i :| 0 <= i < |f.incoming| && f.incoming[i].from == a;
        assert f'.incoming[i].from == a;
      }
      assert f'.incoming[|f.incoming|].from == p;
    }
    assert m'[|m|].phi.value.incoming[0].from == t;
  }
}
