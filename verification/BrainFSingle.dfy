// Single assignment: each register is defined at one place of the module.
module BrainFSingle {
  import opened BrainFIR
  import opened BrainFWellFormed

  /** Place 0 of a block is its phi, place k + 1 its instruction k. */
  predicate DefinedAt(m: Module, b: BlockId, place: nat, r: Reg) {
    b < |m|
    && (if place == 0 then m[b].phi.Some? && m[b].phi.value.dst == r
        else place <= |m[b].insts| && r in Dst(m[b].insts[place - 1]))
  }

  ghost predicate DefinedOnce(m: Module) {
    forall b: BlockId, k: nat, b': BlockId, k': nat, r: Reg :: DefinedAt(m, b, k, r) && DefinedAt(m, b', k', r) ==>
        b == b' && k == k'
  }

  /** Registers are defined once, and those from n on are unused. */
  ghost predicate Single(m: Module, n: Reg) {
    DefinedOnce(m) && forall b: BlockId, k: nat, r: Reg :: DefinedAt(m, b, k, r) ==> r < n
  }

  /** Every definition is an old one or that of an unused register, and the new ones are distinct. */
  lemma SingleGrows(m: Module, m': Module, n: Reg, n': Reg)
    requires Single(m, n) && n <= n'
    requires forall b: BlockId, k: nat, r: Reg :: DefinedAt(m', b, k, r) ==> DefinedAt(m, b, k, r) || n <= r < n'
    requires forall b: BlockId, k: nat, b': BlockId, k': nat, r: Reg ::
               n <= r && DefinedAt(m', b, k, r) && DefinedAt(m', b', k', r) ==> b == b' && k == k'
    ensures Single(m', n')
  {
  }

  lemma SameDefinitions(m: Module, m': Module, n: Reg, n': Reg)
    requires Single(m, n) && n <= n' && |m| <= |m'|
    requires forall b :: 0 <= b < |m| ==> SamePlaces(m[b], m'[b])
    requires forall b :: |m| <= b < |m'| ==> m'[b].phi.None? && forall i :: i in m'[b].insts ==> Dst(i) == {}
    ensures Single(m', n')
  {
    forall b: BlockId, k: nat, r: Reg | DefinedAt(m', b, k, r) ensures DefinedAt(m, b, k, r) {}
  }

  predicate SamePlaces(b: Block, b': Block) {
    b'.insts == b.insts && (if b.phi.Some? then b'.phi.Some? && b'.phi.value.dst == b.phi.value.dst else b'.phi.None?)
  }

  lemma AddedKeepsSingle(m: Module, b: BlockId, i: Inst, n: Reg, n1: Reg)
    requires Single(m, n) && b < |m| && n <= n1 && forall r :: r in Dst(i) ==> n <= r < n1
    ensures Single(m[b := m[b].(insts := m[b].insts + [i])], n1)
  {
    var m1 := m[b := m[b].(insts := m[b].insts + [i])];
    forall c: BlockId, k: nat, r: Reg | DefinedAt(m1, c, k, r)
      ensures DefinedAt(m, c, k, r) || (c == b && k == |m[b].insts| + 1 && r in Dst(i))
    {}
    forall c: BlockId, k: nat, c': BlockId, k': nat, r: Reg
      | n <= r && DefinedAt(m1, c, k, r) && DefinedAt(m1, c', k', r)
      ensures c == c' && k == k'
    {
      assert !DefinedAt(m, c, k, r) && !DefinedAt(m, c', k', r);
    }
    SingleGrows(m, m1, n, n1);
  }

  /** Three instructions defining the next registers in order, the last one or none. */
  lemma ThreeKeepSingle(m: Module, m': Module, b: BlockId, i0: Inst, i1: Inst, i2: Inst, n: Reg, n': Reg)
    requires Single(m, n) && b < |m| && |m'| == |m| && (forall k :: 0 <= k < |m| && k != b ==> m'[k] == m[k])
    requires m'[b] == m[b].(insts := m[b].insts + [i0] + [i1] + [i2])
    requires Dst(i0) == {n} && Dst(i1) == {n + 1} && n + 2 <= n' && forall r :: r in Dst(i2) ==> n + 2 <= r < n'
    ensures Single(m', n')
  {
    var m1 := m[b := m[b].(insts := m[b].insts + [i0])];
    var m2 := m1[b := m1[b].(insts := m1[b].insts + [i1])];
    assert m' == m2[b := m2[b].(insts := m2[b].insts + [i2])];
    hide Single, Dst;
    AddedKeepsSingle(m, b, i0, n, n + 1);
    AddedKeepsSingle(m1, b, i1, n + 1, n + 2);
    AddedKeepsSingle(m2, b, i2, n + 2, n');
  }

  lemma OpeningKeepsSingle(m: Module, m': Module, ins: BlockId, head: Reg, phi: Reg)
    requires Single(m, phi) && ins < |m| && LoopOpened(m, m', ins, head, phi)
    ensures Single(m', phi + 1)
  {
    forall b: BlockId, k: nat, r: Reg | DefinedAt(m', b, k, r)
      ensures DefinedAt(m, b, k, r) || (b == |m| && k == 0 && r == phi)
    {}
  }

  lemma ClosingKeepsSingle(m: Module, m': Module, p: BlockId, head: Reg, t: BlockId, body: BlockId, x: Reg)
    requires Single(m, x) && p < |m| && t < |m| && p != t && m[t].phi.Some? && m[t].insts == []
    requires LoopClosed(m, m', p, head, t, body, x)
    ensures Single(m', x + 3)
  {
    forall b: BlockId, k: nat, r: Reg | DefinedAt(m', b, k, r)
      ensures DefinedAt(m, b, k, r) || (b == t && k == 1 && r == x) || (b == t && k == 2 && r == x + 1)
              || (b == |m| && k == 0 && r == x + 2)
    {
      if b == t && k > 0 { assert m'[t].insts == [m'[t].insts[0], m'[t].insts[1]]; }
    }
    SingleGrows(m, m', x, x + 3);
  }
}
