// Definitions dominate uses: on every path of the compiled control-flow graph, a register
// is defined before it is used.
module BrainFDominance {
  import opened Options
  import opened BrainFSource
  import opened BrainFIR
  import opened BrainFLayout
  import opened BrainFSimulation
  import opened BrainFWellFormed
  import opened BrainFSingle

  function Uses(i: Inst): set<Reg> {
    match i
    case Malloc(_, _) => {}
    case Memset(p, _, _) => {p}
    case Gep(_, b, _) => {b}
    case Load(_, p) => {p}
    case Store(v, p) => {v, p}
    case Add8(_, a, _) => {a}
    case Trunc8(_, a) => {a}
    case Sext32(_, a) => {a}
    case IcmpUge(_, a, b) => {a, b}
    case IcmpUlt(_, a, b) => {a, b}
    case IcmpEq8(_, a, _) => {a}
    case Or1(_, a, b) => {a, b}
    case GetChar(_) => {}
    case PutChar(a) => {a}
    case PutsMessage => {}
    case Free(p) => {p}
  }

  function TermUses(t: Term): set<Reg> {
    if t.CondBr? then {t.cond} else {}
  }

  function PhiDst(b: Block): set<Reg> {
    if b.phi.Some? then {b.phi.value.dst} else {}
  }

  /** Registers defined before position idx of a block. */
  function DefsUpTo(b: Block, idx: nat): set<Reg>
    requires idx <= |b.insts|
  {
    if idx == 0 then PhiDst(b) else DefsUpTo(b, idx - 1) + Dst(b.insts[idx - 1])
  }

  function Defs(b: Block): set<Reg> { DefsUpTo(b, |b.insts|) }

  // ------------------------------------------------------------- the claim

  /** A path from the entry block. */
  ghost predicate IsPath(m: Module, w: seq<BlockId>) {
    && w != [] && w[0] == 0
    && (forall k :: 0 <= k < |w| ==> w[k] < |m|)
    && (forall k :: 0 <= k < |w| - 1 ==> IsEdge(m, w[k], w[k + 1]))
  }

  ghost function DefinedOn(m: Module, w: seq<BlockId>): set<Reg> {
    if w == [] then {}
    else DefinedOn(m, w[..|w| - 1]) + (if w[|w| - 1] < |m| then Defs(m[w[|w| - 1]]) else {})
  }

  /** In the last block of a path, everything used was defined on the path or earlier in the block;
      and so was what the phis of its successors take from it. */
  ghost predicate UsesDefinedAlong(m: Module, w: seq<BlockId>)
    requires IsPath(m, w)
  {
    var before, b := DefinedOn(m, w[..|w| - 1]), m[w[|w| - 1]];
    && (forall i :: 0 <= i < |b.insts| ==> Uses(b.insts[i]) <= before + DefsUpTo(b, i))
    && (b.term.Some? ==> TermUses(b.term.value) <= before + Defs(b))
    && (forall t: nat, i :: IsEdge(m, w[|w| - 1], t) && t < |m| && m[t].phi.Some? && 0 <= i < |m[t].phi.value.incoming|
                       && m[t].phi.value.incoming[i].from == w[|w| - 1]
                       ==> m[t].phi.value.incoming[i].value in before + Defs(b))
  }

  ghost predicate DefinitionsDominateUses(m: Module) {
    forall w :: IsPath(m, w) ==> UsesDefinedAlong(m, w)
  }

  /** The definition at a place of block b comes before instruction i of block u on every path there. */
  ghost predicate ComesBefore(m: Module, b: BlockId, place: nat, u: BlockId, i: nat) {
    (b == u && place <= i) || forall w :: IsPath(m, w) && w[|w| - 1] == u ==> b in w[..|w| - 1]
  }

  lemma {:induction false} DefinedInBlock(m: Module, b: BlockId, idx: nat, r: Reg)
    requires b < |m| && idx <= |m[b].insts| && r in DefsUpTo(m[b], idx)
    ensures exists place: nat :: place <= idx && DefinedAt(m, b, place, r)
  {
    if idx == 0 {
      assert DefinedAt(m, b, 0, r);
    } else if r in Dst(m[b].insts[idx - 1]) {
      assert DefinedAt(m, b, idx, r);
    } else {
      DefinedInBlock(m, b, idx - 1, r);
    }
  }

  lemma {:induction false} DefinedOnPath(m: Module, w: seq<BlockId>, r: Reg)
    requires r in DefinedOn(m, w)
    ensures exists b: BlockId, place: nat :: b in w && DefinedAt(m, b, place, r)
  {
    var n := |w| - 1;
    if r in DefinedOn(m, w[..n]) {
      DefinedOnPath(m, w[..n], r);
    } else {
      DefinedInBlock(m, w[n], |m[w[n]].insts|, r);
    }
  }

  lemma DefinedBefore(m: Module, w: seq<BlockId>, u: BlockId, i: nat, r: Reg) returns (b: BlockId, place: nat)
    requires u < |m| && i <= |m[u].insts| && r in DefinedOn(m, w) + DefsUpTo(m[u], i)
    ensures DefinedAt(m, b, place, r) && (b in w || (b == u && place <= i))
  {
    hide DefinedAt;
    if r in DefinedOn(m, w) {
      DefinedOnPath(m, w, r);
      b, place :| b in w && DefinedAt(m, b, place, r);
    } else {
      DefinedInBlock(m, u, i, r);
      b := u;
      place :| place <= i && DefinedAt(m, b, place, r);
    }
  }

  /** Position i of block u uses r: an instruction, or behind the last one the branch and the phis it feeds. */
  ghost predicate UsedAt(m: Module, u: BlockId, i: nat, r: Reg) {
    && u < |m|
    && if i < |m[u].insts| then r in Uses(m[u].insts[i])
       else i == |m[u].insts| && ((m[u].term.Some? && r in TermUses(m[u].term.value)) || FeedsPhi(m, u, r))
  }

  ghost predicate FeedsPhi(m: Module, u: BlockId, r: Reg) {
    exists t: BlockId, j: nat :: IsEdge(m, u, t) && t < |m| && m[t].phi.Some? && j < |m[t].phi.value.incoming|
                                 && m[t].phi.value.incoming[j] == Incoming(r, u)
  }

  lemma UsedIsDefined(m: Module, w: seq<BlockId>, i: nat, r: Reg)
    requires IsPath(m, w) && UsesDefinedAlong(m, w) && UsedAt(m, w[|w| - 1], i, r)
    ensures r in DefinedOn(m, w[..|w| - 1]) + DefsUpTo(m[w[|w| - 1]], i)
  {
  }

  /** With single assignment, dominance in its usual form: the one definition of a used register comes
      before the use on every path. */
  lemma UsesAreDominated(m: Module, w: seq<BlockId>, i: nat, r: Reg)
    requires DefinedOnce(m) && DefinitionsDominateUses(m) && IsPath(m, w) && UsedAt(m, w[|w| - 1], i, r)
    ensures exists b: BlockId, place: nat :: DefinedAt(m, b, place, r) && ComesBefore(m, b, place, w[|w| - 1], i)
  {
    var u := w[|w| - 1];
    assert u < |m| && i <= |m[u].insts|;
    hide UsedAt, DefsUpTo, DefinedOn, DefinedAt, UsesDefinedAlong;
    UsedIsDefined(m, w, i, r);
    var b, place := DefinedBefore(m, w[..|w| - 1], u, i, r);
    if !(b == u && place <= i) {
      forall w' | IsPath(m, w') && w'[|w'| - 1] == u ensures b in w'[..|w'| - 1] {
        UsedIsDefined(m, w', i, r);
        var b', place' := DefinedBefore(m, w'[..|w'| - 1], u, i, r);
      }
    }
    assert ComesBefore(m, b, place, u, i);
  }

  // ------------------------------------------- registers available on entry

  type Avail = map<BlockId, set<Reg>>

  predicate PhiTakes(m: Module, from: BlockId, t: BlockId, a: set<Reg>)
    requires t < |m|
  {
    m[t].phi.Some? ==>
      forall i :: 0 <= i < |m[t].phi.value.incoming| && m[t].phi.value.incoming[i].from == from
                  ==> m[t].phi.value.incoming[i].value in a
  }

  /** With a available at position idx, the rest of the block and its branches find what they need. */
  predicate TailOk(m: Module, v: Avail, b: BlockId, idx: nat, a: set<Reg>)
    requires b < |m|
    decreases if idx < |m[b].insts| then |m[b].insts| - idx else 0
  {
    if idx < |m[b].insts| then
      Uses(m[b].insts[idx]) <= a && TailOk(m, v, b, idx + 1, a + Dst(m[b].insts[idx]))
    else
      && m[b].term.Some? && TermUses(m[b].term.value) <= a
      && forall t :: t in Targets(m[b].term.value) ==> t in v && t < |m| && v[t] <= a && PhiTakes(m, b, t, a)
  }

  predicate BlockOk(m: Module, v: Avail, b: BlockId) {
    b in v && b < |m| && TailOk(m, v, b, 0, v[b] + PhiDst(m[b]))
  }

  ghost predicate Consistent(m: Module, v: Avail) {
    0 in v && v[0] == {} && forall b :: b in v ==> BlockOk(m, v, b)
  }

  lemma {:induction false} TailUses(m: Module, v: Avail, b: BlockId, a: set<Reg>, idx: nat, i: nat)
    requires b < |m| && idx <= i <= |m[b].insts| && TailOk(m, v, b, idx, a + DefsUpTo(m[b], idx))
    ensures TailOk(m, v, b, i, a + DefsUpTo(m[b], i))
    decreases i - idx
  {
    if idx < i {
      assert a + DefsUpTo(m[b], idx) + Dst(m[b].insts[idx]) == a + DefsUpTo(m[b], idx + 1);
      TailUses(m, v, b, a, idx + 1, i);
    }
  }

  /** What is available on entry was defined on every path there. */
  lemma {:induction false} AvailableIsDefined(m: Module, v: Avail, w: seq<BlockId>)
    requires Consistent(m, v) && IsPath(m, w)
    ensures var last := w[|w| - 1]; last in v && v[last] <= DefinedOn(m, w[..|w| - 1])
  {
    if |w| > 1 {
      var w0 := w[..|w| - 1];
      var p, b := w0[|w0| - 1], w[|w| - 1];
      assert IsEdge(m, p, b);
      forall k | 0 <= k < |w0| - 1 ensures IsEdge(m, w0[k], w0[k + 1]) { assert IsEdge(m, w[k], w[k + 1]); }
      AvailableIsDefined(m, v, w0);
      assert BlockOk(m, v, p);
      hide DefsUpTo;
      assert v[p] + PhiDst(m[p]) == v[p] + DefsUpTo(m[p], 0) by { NothingBefore(m[p]); }
      TailUses(m, v, p, v[p], 0, |m[p].insts|);
      assert v[b] <= v[p] + Defs(m[p]);
    }
  }

  lemma NothingBefore(b: Block)
    ensures DefsUpTo(b, 0) == PhiDst(b)
  {
  }

  lemma ConsistentDominates(m: Module, v: Avail)
    requires Consistent(m, v)
    ensures DefinitionsDominateUses(m)
  {
    forall w | IsPath(m, w) ensures UsesDefinedAlong(m, w) {
      var before, last := DefinedOn(m, w[..|w| - 1]), w[|w| - 1];
      AvailableIsDefined(m, v, w);
      assert BlockOk(m, v, last);
      var b := m[last];
      NothingBefore(b);
      forall i | 0 <= i <= |b.insts| ensures TailOk(m, v, last, i, v[last] + DefsUpTo(b, i)) {
        TailUses(m, v, last, v[last], 0, i);
      }
      forall i | 0 <= i < |b.insts| ensures Uses(b.insts[i]) <= before + DefsUpTo(b, i) {
        assert TailOk(m, v, last, i, v[last] + DefsUpTo(b, i));
      }
      assert TailOk(m, v, last, |b.insts|, v[last] + Defs(b));
    }
  }

  // ------------------------------------------- availability in compiled code

  function OpLength(checked: bool, op: Op): nat {
    if op.Move? then (if checked then 4 else 1) else 3
  }

  /** Available after n more instructions. */
  function After(insts: seq<Inst>, idx: nat, n: nat, a: set<Reg>): (r: set<Reg>)
    ensures a <= r
    decreases n
  {
    if n == 0 || idx >= |insts| then a else After(insts, idx + 1, n - 1, a + Dst(insts[idx]))
  }

  function AfterOp(checked: bool, m: Module, op: Op, p: Point, a: set<Reg>): (r: set<Reg>)
    requires p.block < |m|
    ensures a <= r
  {
    After(m[p.block].insts, p.idx, OpLength(checked, op), a)
  }

  /** The registers available on entry to each block that the code at p enters. */
  function Entered(checked: bool, m: Module, c: Code, p: Point, a: set<Reg>): Avail
    requires Follow(checked, m, c, p).Some?
    decreases c
  {
    match c
    case Done => map[]
    case Seq(op, rest) =>
      var q, a' := FollowOp(checked, m, op, p).value, AfterOp(checked, m, op, p, a);
      (if q.block == p.block then map[] else map[q.block := a']) + Entered(checked, m, rest, q, a')
    case Loop(body, rest) =>
      var t: BlockId := m[p.block].term.value.target;
      var bb: BlockId, exit: BlockId := m[t].term.value.ifFalse, m[t].term.value.ifTrue;
      var inside: set<Reg>, outside: set<Reg> := a + {m[t].phi.value.dst}, LoopExit(m, t, a);
      map[t := a][bb := inside] + Entered(checked, m, body, Point(bb, 0, m[t].phi.value.dst), inside)
      + map[exit := outside]
      + Entered(checked, m, rest, Point(exit, 0, m[exit].phi.value.dst), outside + PhiDst(m[exit]))
  }

  /** Available on entry to the exit of the loop tested at t. */
  function LoopExit(m: Module, t: BlockId, a: set<Reg>): set<Reg>
    requires t < |m| && TestBlock(m, t)
  {
    a + {m[t].phi.value.dst} + Dst(m[t].insts[0]) + Dst(m[t].insts[1])
  }

  /** The registers available where the code ends. */
  function AtEnd(checked: bool, m: Module, c: Code, p: Point, a: set<Reg>): (r: set<Reg>)
    requires Follow(checked, m, c, p).Some?
    ensures a <= r
    decreases c
  {
    match c
    case Done => a
    case Seq(op, rest) => AtEnd(checked, m, rest, FollowOp(checked, m, op, p).value, AfterOp(checked, m, op, p, a))
    case Loop(body, rest) =>
      var t := m[p.block].term.value.target;
      var exit := m[t].term.value.ifTrue;
      AtEnd(checked, m, rest, Point(exit, 0, m[exit].phi.value.dst), LoopExit(m, t, a) + PhiDst(m[exit]))
  }

  predicate Within(v: Avail, lo: BlockId, hi: BlockId) {
    forall b :: b in v ==> lo < b <= hi
  }

  predicate Part(v: Avail, whole: Avail) {
    forall b :: b in v ==> b in whole && whole[b] == v[b]
  }

  lemma FollowRises(checked: bool, m: Module, c: Code, p: Point)
    requires Follow(checked, m, c, p).Some?
    ensures Follow(checked, m, c, p).value.block >= p.block
  {
    FollowExtends(checked, m, m, 0, c, p);
  }

  lemma {:induction false} EnteredWithin(checked: bool, m: Module, c: Code, p: Point, a: set<Reg>)
    requires Follow(checked, m, c, p).Some?
    ensures Within(Entered(checked, m, c, p, a), p.block, Follow(checked, m, c, p).value.block)
    decreases c
  {
    match c
    case Done =>
    case Seq(op, rest) =>
      var q, a' := FollowOp(checked, m, op, p).value, AfterOp(checked, m, op, p, a);
      FollowOpExtends(checked, m, m, 0, op, p);
      FollowRises(checked, m, rest, q);
      EnteredWithin(checked, m, rest, q, a');
    case Loop(body, rest) =>
      LoopEnteredWithin(checked, m, c, p, a);
  }

  /** The parts of a loop occupy block ranges one after the other. */
  lemma {:induction false} LoopEnteredWithin(checked: bool, m: Module, c: Code, p: Point, a: set<Reg>)
    requires c.Loop? && Follow(checked, m, c, p).Some?
    ensures Within(Entered(checked, m, c, p, a), p.block, Follow(checked, m, c, p).value.block)
    ensures Part(LoopParts(checked, m, c, p, a), Entered(checked, m, c, p, a))
    ensures Part(BodyPart(checked, m, c, p, a), Entered(checked, m, c, p, a))
    ensures Part(RestPart(checked, m, c, p, a), Entered(checked, m, c, p, a))
    ensures forall b :: b in Entered(checked, m, c, p, a) ==>
              b in LoopParts(checked, m, c, p, a) || b in BodyPart(checked, m, c, p, a)
                  || b in RestPart(checked, m, c, p, a)
    decreases c, 0
  {
    var t := m[p.block].term.value.target;
    var bb, exit := m[t].term.value.ifFalse, m[t].term.value.ifTrue;
    var start, next := Point(bb, 0, m[t].phi.value.dst), Point(exit, 0, m[exit].phi.value.dst);
    EnteredWithin(checked, m, c.body, start, a + {m[t].phi.value.dst});
    EnteredWithin(checked, m, c.rest, next, LoopExit(m, t, a) + PhiDst(m[exit]));
    FollowRises(checked, m, c.body, start);
    FollowRises(checked, m, c.rest, next);
    var tail, hi := Follow(checked, m, c.body, start).value, Follow(checked, m, c, p).value.block;
    assert p.block < t < bb <= tail.block < exit <= hi;
    var b, r := BodyPart(checked, m, c, p, a), RestPart(checked, m, c, p, a);
    var x, y, z := a, a + {m[t].phi.value.dst}, LoopExit(m, t, a);
    var whole := Entered(checked, m, c, p, a);
    assert whole == map[t := x][bb := y] + b + map[exit := z] + r;
    assert LoopParts(checked, m, c, p, a) == map[t := x][bb := y][exit := z];
    hide Entered, BodyPart, RestPart, LoopParts;
    UnionOfRanges(p.block, t, bb, tail.block, exit, hi, x, y, z, b, r, whole);
  }

  lemma UnionOfRanges(lo: nat, t: nat, bb: nat, tail: nat, exit: nat, hi: nat, x: set<Reg>, y: set<Reg>, z: set<Reg>,
                      b: Avail, r: Avail, whole: Avail)
    requires lo < t < bb <= tail < exit <= hi && Within(b, bb, tail) && Within(r, exit, hi)
    requires whole == map[t := x][bb := y] + b + map[exit := z] + r
    ensures Within(whole, lo, hi) && Part(map[t := x][bb := y][exit := z], whole) && Part(b, whole) && Part(r, whole)
    ensures forall k :: k in whole ==> k in map[t := x][bb := y][exit := z] || k in b || k in r
  {
  }

  /** The test block, the first block of the body and the exit of a loop. */
  function LoopParts(checked: bool, m: Module, c: Code, p: Point, a: set<Reg>): Avail
    requires c.Loop? && Follow(checked, m, c, p).Some?
  {
    var t := m[p.block].term.value.target;
    map[t := a][m[t].term.value.ifFalse := a + {m[t].phi.value.dst}][m[t].term.value.ifTrue := LoopExit(m, t, a)]
  }

  function BodyPart(checked: bool, m: Module, c: Code, p: Point, a: set<Reg>): Avail
    requires c.Loop? && Follow(checked, m, c, p).Some?
  {
    var t := m[p.block].term.value.target;
    Entered(checked, m, c.body, Point(m[t].term.value.ifFalse, 0, m[t].phi.value.dst), a + {m[t].phi.value.dst})
  }

  function RestPart(checked: bool, m: Module, c: Code, p: Point, a: set<Reg>): Avail
    requires c.Loop? && Follow(checked, m, c, p).Some?
  {
    var t := m[p.block].term.value.target;
    var exit := m[t].term.value.ifTrue;
    Entered(checked, m, c.rest, Point(exit, 0, m[exit].phi.value.dst), LoopExit(m, t, a) + PhiDst(m[exit]))
  }

  // --------------------------------------------------- the map is consistent

  /** The registers of the header and the head are available. */
  predicate Fixed(cfg: Config, a: set<Reg>, head: Reg) {
    ARR in a && (cfg.checked ==> ARRMAX in a) && head in a
  }

  predicate FooterAvailable(cfg: Config, v: Avail) {
    END in v && v[END] == {ARR} && (cfg.checked ==> ABERROR in v && v[ABERROR] == {ARR})
  }

  /** Three instructions whose operands are at hand or defined by the ones before. */
  lemma ThreeOk(m: Module, v: Avail, b: BlockId, i: nat, a: set<Reg>)
    requires b < |m| && i + 3 <= |m[b].insts| && TailOk(m, v, b, i + 3, After(m[b].insts, i, 3, a))
    requires Uses(m[b].insts[i]) <= a && Uses(m[b].insts[i + 1]) <= a + Dst(m[b].insts[i])
    requires Uses(m[b].insts[i + 2]) <= a + Dst(m[b].insts[i]) + Dst(m[b].insts[i + 1])
    ensures TailOk(m, v, b, i, a)
  {
    var insts := m[b].insts;
    var a1 := a + Dst(insts[i]);
    var a2 := a1 + Dst(insts[i + 1]);
    var a3 := a2 + Dst(insts[i + 2]);
    hide Uses, Dst;
    assert After(insts, i, 3, a) == After(insts, i + 1, 2, a1) == After(insts, i + 2, 1, a2)
           == After(insts, i + 3, 0, a3);
    assert TailOk(m, v, b, i + 3, a3);
    assert TailOk(m, v, b, i + 2, a2);
    assert TailOk(m, v, b, i + 1, a1);
  }

  lemma StraightOk(cfg: Config, m: Module, v: Avail, op: Op, p: Point, a: set<Reg>)
    requires !op.Move? && FollowOp(cfg.checked, m, op, p).Some? && p.head in a
    requires TailOk(m, v, p.block, p.idx + 3, AfterOp(cfg.checked, m, op, p, a))
    ensures FollowOp(cfg.checked, m, op, p).value == p.(idx := p.idx + 3) && TailOk(m, v, p.block, p.idx, a)
  {
    hide TailOk, After;
    ThreeOk(m, v, p.block, p.idx, a);
  }

  lemma GepOk(cfg: Config, m: Module, v: Avail, op: Op, p: Point, a: set<Reg>)
    requires !cfg.checked && op.Move? && FollowOp(cfg.checked, m, op, p).Some? && p.head in a
    requires TailOk(m, v, p.block, p.idx + 1, AfterOp(cfg.checked, m, op, p, a))
    ensures FollowOp(cfg.checked, m, op, p).value.block == p.block
            && FollowOp(cfg.checked, m, op, p).value.idx == p.idx + 1
    ensures TailOk(m, v, p.block, p.idx, a)
  {
    var insts, i := m[p.block].insts, p.idx;
    assert After(insts, i, 1, a) == After(insts, i + 1, 0, a + Dst(insts[i]));
  }

  lemma FourAfter(insts: seq<Inst>, i: nat, a: set<Reg>)
    requires i + 4 <= |insts|
    ensures After(insts, i, 4, a) == After(insts, i + 1, 3, a + Dst(insts[i]))
    ensures After(insts, i, 4, a)
         == a + Dst(insts[i]) + Dst(insts[i + 1]) + Dst(insts[i + 2]) + Dst(insts[i + 3])
  {
    var a1 := a + Dst(insts[i]);
    var a2 := a1 + Dst(insts[i + 1]);
    var a3 := a2 + Dst(insts[i + 2]);
    hide Dst;
    assert After(insts, i + 1, 3, a1) == After(insts, i + 2, 2, a2) == After(insts, i + 3, 1, a3)
        == After(insts, i + 4, 0, a3 + Dst(insts[i + 3]));
  }

  /** The four instructions of a tested move. */
  lemma TestedMoveUses(m: Module, op: Op, p: Point)
    requires op.Move? && FollowOp(true, m, op, p).Some?
    ensures var insts, i, h := m[p.block].insts, p.idx, m[p.block].insts[p.idx].dst;
            && i + 4 == |insts|
            && Dst(insts[i]) == {h} && Dst(insts[i + 1]) == {h + 1} && Dst(insts[i + 2]) == {h + 2}
            && Dst(insts[i + 3]) == {h + 3}
            && Uses(insts[i]) == {p.head} && Uses(insts[i + 1]) == {h, ARRMAX} && Uses(insts[i + 2]) == {h, ARR}
            && Uses(insts[i + 3]) == {h + 1, h + 2}
    ensures m[p.block].term ==
            Some(CondBr(m[p.block].insts[p.idx].dst + 3, ABERROR, FollowOp(true, m, op, p).value.block))
    ensures FollowOp(true, m, op, p).value.block < |m| && m[FollowOp(true, m, op, p).value.block].phi.None?
  {
  }

  /** The branch at the end of a tested move. */
  lemma TestedBranchOk(cfg: Config, m: Module, v: Avail, b: BlockId, cond: Reg, q: BlockId, a: set<Reg>)
    requires cfg.checked && Footer(cfg, m) && FooterAvailable(cfg, v)
    requires b < |m| && q < |m| && m[b].term == Some(CondBr(cond, ABERROR, q)) && cond in a && ARR in a
    requires m[q].phi.None? && q in v && v[q] == a
    ensures TailOk(m, v, b, |m[b].insts|, a)
  {
  }

  lemma TailStep(m: Module, v: Avail, b: BlockId, i: nat, a: set<Reg>)
    requires b < |m| && i < |m[b].insts| && Uses(m[b].insts[i]) <= a
    ensures TailOk(m, v, b, i + 1, a + Dst(m[b].insts[i])) ==> TailOk(m, v, b, i, a)
  {
  }

  lemma TestedMoveOk(cfg: Config, m: Module, v: Avail, op: Op, p: Point, a: set<Reg>)
    requires cfg.checked && op.Move? && Footer(cfg, m) && FooterAvailable(cfg, v) && Fixed(cfg, a, p.head)
    requires FollowOp(cfg.checked, m, op, p).Some?
    requires var q := FollowOp(cfg.checked, m, op, p).value;
             q.block in v && v[q.block] == AfterOp(cfg.checked, m, op, p, a)
    ensures TailOk(m, v, p.block, p.idx, a)
  {
    var insts, i, h := m[p.block].insts, p.idx, m[p.block].insts[p.idx].dst;
    TestedMoveUses(m, op, p);
    FourAfter(insts, i, a);
    var a1, a4 := a + Dst(insts[i]), After(insts, i, 4, a);
    var q := FollowOp(true, m, op, p).value.block;
    hide After, FollowOp, Uses, Dst, Footer, FooterAvailable, TailOk;
    TestedBranchOk(cfg, m, v, p.block, h + 3, q, a4);
    TailStep(m, v, p.block, i, a);
    ThreeOk(m, v, p.block, i + 1, a1);
  }

  lemma OpOk(cfg: Config, m: Module, v: Avail, op: Op, p: Point, a: set<Reg>)
    requires Footer(cfg, m) && FooterAvailable(cfg, v) && Fixed(cfg, a, p.head)
    requires FollowOp(cfg.checked, m, op, p).Some?
    requires var q, a' := FollowOp(cfg.checked, m, op, p).value, AfterOp(cfg.checked, m, op, p, a);
             if q.block == p.block then TailOk(m, v, p.block, q.idx, a') else q.block in v && v[q.block] == a'
    ensures TailOk(m, v, p.block, p.idx, a)
  {
    hide TailOk, AfterOp;
    if !op.Move? {
      StraightOk(cfg, m, v, op, p, a);
    } else if cfg.checked {
      TestedMoveOk(cfg, m, v, op, p, a);
    } else {
      GepOk(cfg, m, v, op, p, a);
    }
  }

  /** The head is available where the code ends, and nothing is lost on the way. */
  lemma {:induction false} HeadAvailable(cfg: Config, m: Module, c: Code, p: Point, a: set<Reg>)
    requires Follow(cfg.checked, m, c, p).Some? && p.head in a
    ensures Follow(cfg.checked, m, c, p).value.head in AtEnd(cfg.checked, m, c, p, a)
    decreases c
  {
    match c
    case Done =>
    case Seq(op, rest) =>
      HeadDefined(cfg.checked, m, op, p, a);
      HeadAvailable(cfg, m, rest, FollowOp(cfg.checked, m, op, p).value, AfterOp(cfg.checked, m, op, p, a));
    case Loop(body, rest) =>
      var t := m[p.block].term.value.target;
      var exit := m[t].term.value.ifTrue;
      HeadAvailable(cfg, m, rest, Point(exit, 0, m[exit].phi.value.dst), LoopExit(m, t, a) + PhiDst(m[exit]));
  }

  lemma HeadDefined(checked: bool, m: Module, op: Op, p: Point, a: set<Reg>)
    requires FollowOp(checked, m, op, p).Some? && p.head in a
    ensures FollowOp(checked, m, op, p).value.head in AfterOp(checked, m, op, p, a)
  {
    var insts := m[p.block].insts;
    if op.Move? {
      assert After(insts, p.idx, OpLength(checked, op), a)
          == After(insts, p.idx + 1, OpLength(checked, op) - 1, a + Dst(insts[p.idx]));
    }
  }

  /** The test block of a loop, given what its neighbours need. */
  lemma TestOk(m: Module, v: Avail, t: BlockId, a: set<Reg>)
    requires t < |m| && TestBlock(m, t) && t in v && v[t] == a
    requires var bb, exit, inside := m[t].term.value.ifFalse, m[t].term.value.ifTrue, a + {m[t].phi.value.dst};
             bb in v && v[bb] == inside && exit in v && v[exit] == LoopExit(m, t, a)
    ensures BlockOk(m, v, t)
  {
    var a1 := a + PhiDst(m[t]);
    var a2 := a1 + Dst(m[t].insts[0]);
    var a3 := a2 + Dst(m[t].insts[1]);
    assert TailOk(m, v, t, 2, a3);
    assert TailOk(m, v, t, 1, a2);
  }

  /** Where control enters the loop, and where it comes back. */
  lemma EdgesOk(cfg: Config, m: Module, v: Avail, p: Point, tail: Point, a: set<Reg>, e: set<Reg>)
    requires LoopHeadAt(m, p) && p.head in a && a <= e && tail.head in e
    requires var t := m[p.block].term.value.target; LoopTailAt(m, t, tail) && t in v && v[t] == a
    ensures TailOk(m, v, p.block, p.idx, a) && TailOk(m, v, tail.block, tail.idx, e)
  {
  }

  /** Working back from where the code ends: every block it enters finds what it needs. */
  lemma {:induction false} RegionOk(cfg: Config, m: Module, v: Avail, c: Code, p: Point, a: set<Reg>)
    requires Footer(cfg, m) && FooterAvailable(cfg, v) && Fixed(cfg, a, p.head)
    requires Follow(cfg.checked, m, c, p).Some? && Part(Entered(cfg.checked, m, c, p, a), v)
    requires var q := Follow(cfg.checked, m, c, p).value;
             q.block < |m| && TailOk(m, v, q.block, q.idx, AtEnd(cfg.checked, m, c, p, a))
    ensures p.block < |m| && TailOk(m, v, p.block, p.idx, a)
    ensures forall b :: b in Entered(cfg.checked, m, c, p, a) ==> BlockOk(m, v, b)
    decreases c
  {
    match c
    case Done =>
    case Seq(op, rest) =>
      var q, a' := FollowOp(cfg.checked, m, op, p).value, AfterOp(cfg.checked, m, op, p, a);
      HeadDefined(cfg.checked, m, op, p, a);
      SeqParts(cfg.checked, m, v, op, rest, p, a);
      hide AfterOp, TailOk;
      RegionOk(cfg, m, v, rest, q, a');
      if q.block != p.block { FirstOfBlock(m, v, q, a'); }
      OpOk(cfg, m, v, op, p, a);
    case Loop(body, rest) =>
      LoopOk(cfg, m, v, c, p, a);
  }

  lemma FirstOfBlock(m: Module, v: Avail, q: Point, a: set<Reg>)
    requires q.block < |m| && q.idx == 0 && m[q.block].phi.None? && q.block in v && v[q.block] == a
    requires TailOk(m, v, q.block, 0, a)
    ensures BlockOk(m, v, q.block)
  {
    assert a + PhiDst(m[q.block]) == a;
  }

  lemma SeqParts(checked: bool, m: Module, v: Avail, op: Op, rest: Code, p: Point, a: set<Reg>)
    requires Follow(checked, m, Seq(op, rest), p).Some? && Part(Entered(checked, m, Seq(op, rest), p, a), v)
    ensures var q, a' := FollowOp(checked, m, op, p).value, AfterOp(checked, m, op, p, a);
            && Part(Entered(checked, m, rest, q, a'), v)
            && (q.block != p.block ==>
                  q.block in v && v[q.block] == a' && q.idx == 0 && q.block < |m| && m[q.block].phi.None?)
            && AtEnd(checked, m, Seq(op, rest), p, a) == AtEnd(checked, m, rest, q, a')
            && (forall b :: b in Entered(checked, m, Seq(op, rest), p, a) ==>
                  b in Entered(checked, m, rest, q, a') || (b == q.block != p.block))
  {
    var q, a' := FollowOp(checked, m, op, p).value, AfterOp(checked, m, op, p, a);
    EnteredWithin(checked, m, rest, q, a');
    var whole := Entered(checked, m, Seq(op, rest), p, a);
    forall b | b in Entered(checked, m, rest, q, a')
      ensures b in whole && whole[b] == Entered(checked, m, rest, q, a')[b]
    {}
    if q.block != p.block { assert q.block in whole && whole[q.block] == a'; }
  }

  /** What a map that holds a loop's blocks says of each of them. */
  lemma LoopOnMap(checked: bool, m: Module, v: Avail, c: Code, p: Point, a: set<Reg>)
    requires c.Loop? && Follow(checked, m, c, p).Some? && Part(Entered(checked, m, c, p, a), v)
    ensures var t := m[p.block].term.value.target;
            var bb, exit := m[t].term.value.ifFalse, m[t].term.value.ifTrue;
            && t in v && v[t] == a && bb in v && v[bb] == a + {m[t].phi.value.dst}
            && exit in v && v[exit] == LoopExit(m, t, a)
            && Part(BodyPart(checked, m, c, p, a), v) && Part(RestPart(checked, m, c, p, a), v)
            && forall b :: b in Entered(checked, m, c, p, a) ==>
                 b == t || b == bb || b == exit || b in BodyPart(checked, m, c, p, a)
                     || b in RestPart(checked, m, c, p, a)
  {
    LoopEnteredWithin(checked, m, c, p, a);
    var t := m[p.block].term.value.target;
    var bb, exit, inside := m[t].term.value.ifFalse, m[t].term.value.ifTrue, a + {m[t].phi.value.dst};
    assert t < bb < exit by {
      FollowRises(checked, m, c.body, Point(bb, 0, m[t].phi.value.dst));
    }
    var parts := LoopParts(checked, m, c, p, a);
    assert parts == map[t := a][bb := inside][exit := LoopExit(m, t, a)];
    hide Entered, Follow, BodyPart, RestPart, LoopParts;
    assert t in parts && bb in parts && exit in parts;
  }

  lemma {:induction false} LoopOk(cfg: Config, m: Module, v: Avail, c: Code, p: Point, a: set<Reg>)
    requires c.Loop? && Footer(cfg, m) && FooterAvailable(cfg, v) && Fixed(cfg, a, p.head)
    requires Follow(cfg.checked, m, c, p).Some? && Part(Entered(cfg.checked, m, c, p, a), v)
    requires var q := Follow(cfg.checked, m, c, p).value;
             q.block < |m| && TailOk(m, v, q.block, q.idx, AtEnd(cfg.checked, m, c, p, a))
    ensures p.block < |m| && TailOk(m, v, p.block, p.idx, a)
    ensures forall b :: b in Entered(cfg.checked, m, c, p, a) ==> BlockOk(m, v, b)
    decreases c, 0
  {
    var t := m[p.block].term.value.target;
    var bb, exit, inside := m[t].term.value.ifFalse, m[t].term.value.ifTrue, a + {m[t].phi.value.dst};
    var start, next := Point(bb, 0, m[t].phi.value.dst), Point(exit, 0, m[exit].phi.value.dst);
    var tail := Follow(cfg.checked, m, c.body, start).value;
    LoopOnMap(cfg.checked, m, v, c, p, a);
    hide Entered, TailOk;
    RegionOk(cfg, m, v, c.rest, next, LoopExit(m, t, a) + PhiDst(m[exit]));
    HeadAvailable(cfg, m, c.body, start, inside);
    EdgesOk(cfg, m, v, p, tail, a, AtEnd(cfg.checked, m, c.body, start, inside));
    RegionOk(cfg, m, v, c.body, start, inside);
    FirstOfBlock(m, v, start, inside);
    TestOk(m, v, t, a);
    assert BlockOk(m, v, exit);
  }

  // ------------------------------------------------------- the whole program

  predicate IsFooter(cfg: Config, b: BlockId) {
    b == END || (cfg.checked && b == ABERROR)
  }

  lemma FooterHasNoCode(cfg: Config, m: Module, c: Code, p: Point)
    requires Footer(cfg, m) && IsFooter(cfg, p.block) && p.idx == 0 && Follow(cfg.checked, m, c, p).Some?
    ensures Follow(cfg.checked, m, c, p) == Some(p) && |m[p.block].insts| == 1
  {
  }

  /** Code that ends where its block ends does not run into the footer. */
  lemma {:induction false} EnteredAvoidsFooter(cfg: Config, m: Module, c: Code, p: Point, a: set<Reg>)
    requires Footer(cfg, m) && Follow(cfg.checked, m, c, p).Some?
    requires var q := Follow(cfg.checked, m, c, p).value; q.block < |m| && q.idx == |m[q.block].insts|
    ensures forall b :: b in Entered(cfg.checked, m, c, p, a) ==> !IsFooter(cfg, b)
    decreases c
  {
    match c
    case Done =>
    case Seq(op, rest) =>
      var q := FollowOp(cfg.checked, m, op, p).value;
      EnteredAvoidsFooter(cfg, m, rest, q, AfterOp(cfg.checked, m, op, p, a));
      if q.block != p.block && IsFooter(cfg, q.block) { FooterHasNoCode(cfg, m, rest, q); }
    case Loop(body, rest) =>
      var t := m[p.block].term.value.target;
      var bb, exit := m[t].term.value.ifFalse, m[t].term.value.ifTrue;
      var start := Point(bb, 0, m[t].phi.value.dst);
      EnteredAvoidsFooter(cfg, m, body, start, a + {m[t].phi.value.dst});
      EnteredAvoidsFooter(cfg, m, rest, Point(exit, 0, m[exit].phi.value.dst), LoopExit(m, t, a) + PhiDst(m[exit]));
      if IsFooter(cfg, bb) { FooterHasNoCode(cfg, m, body, start); }
      LoopEnteredWithin(cfg.checked, m, c, p, a);
  }

  function AfterPrologue(cfg: Config): set<Reg> {
    {ARR, ARRMAX + 1} + (if cfg.checked then {ARRMAX} else {})
  }

  function WholeMap(cfg: Config, m: Module, c: Code): Avail
    requires Follow(cfg.checked, m, c, Entry(cfg)).Some?
  {
    var code := Entered(cfg.checked, m, c, Entry(cfg), AfterPrologue(cfg));
    (if cfg.checked then code[ABERROR := {ARR}] else code)[0 := {}][END := {ARR}]
  }

  lemma PrologueOk(cfg: Config, m: Module, v: Avail)
    requires m != [] && m[0].phi.None? && Prologue(cfg) <= m[0].insts && 0 in v && v[0] == {}
    requires TailOk(m, v, 0, |Prologue(cfg)|, AfterPrologue(cfg))
    ensures BlockOk(m, v, 0)
  {
    var insts := m[0].insts;
    assert forall k :: 0 <= k < |Prologue(cfg)| ==> insts[k] == Prologue(cfg)[k];
    assert {} + PhiDst(m[0]) + Dst(insts[0]) == {ARR} == {ARR} + Dst(insts[1]);
    if cfg.checked {
      assert {ARR} + Dst(insts[2]) + Dst(insts[3]) == AfterPrologue(cfg);
      assert TailOk(m, v, 0, 3, {ARR} + Dst(insts[2]));
    } else {
      assert {ARR} + Dst(insts[2]) == AfterPrologue(cfg);
    }
    assert TailOk(m, v, 0, 2, {ARR});
    assert TailOk(m, v, 0, 1, {ARR});
  }

  lemma FooterOk(cfg: Config, m: Module, v: Avail)
    requires Footer(cfg, m) && FooterAvailable(cfg, v)
    ensures BlockOk(m, v, END) && (cfg.checked ==> BlockOk(m, v, ABERROR))
  {
    assert {ARR} + PhiDst(m[END]) == {ARR} == {ARR} + Dst(m[END].insts[0]);
    assert TailOk(m, v, END, 1, {ARR});
    if cfg.checked {
      assert {ARR} + PhiDst(m[ABERROR]) == {ARR} == {ARR} + Dst(m[ABERROR].insts[0]);
      assert TailOk(m, v, ABERROR, 1, {ARR});
    }
  }

  /** In every compiled program, definitions dominate uses. */
  lemma CompiledDominates(cfg: Config, m: Module, c: Code)
    requires Compiled(cfg, m, c)
    ensures DefinitionsDominateUses(m)
  {
    var p, a, q := Entry(cfg), AfterPrologue(cfg), Follow(cfg.checked, m, c, Entry(cfg)).value;
    var code, v := Entered(cfg.checked, m, c, p, a), WholeMap(cfg, m, c);
    WholeMapIs(cfg, m, c);
    EndOk(cfg, m, v, q, AtEnd(cfg.checked, m, c, p, a));
    assert Footer(cfg, m) && m[0].phi.None? && Prologue(cfg) <= m[0].insts && q.block < |m|;
    hide Follow, Entered, TailOk, AtEnd, WholeMap, Footer, FooterAvailable, Compiled;
    RegionOk(cfg, m, v, c, p, a);
    PrologueOk(cfg, m, v);
    FooterOk(cfg, m, v);
    hide BlockOk, Prologue, AfterPrologue;
    assert Consistent(m, v);
    ConsistentDominates(m, v);
  }

  lemma EndOk(cfg: Config, m: Module, v: Avail, q: Point, e: set<Reg>)
    requires Footer(cfg, m) && FooterAvailable(cfg, v) && q.block < |m| && q.idx == |m[q.block].insts|
    requires m[q.block].term == Some(Br(END)) && ARR in e
    ensures TailOk(m, v, q.block, q.idx, e)
  {
  }

  lemma WholeMapIs(cfg: Config, m: Module, c: Code)
    requires Compiled(cfg, m, c)
    ensures var code, v := Entered(cfg.checked, m, c, Entry(cfg), AfterPrologue(cfg)), WholeMap(cfg, m, c);
            && Part(code, v) && FooterAvailable(cfg, v) && 0 in v && v[0] == {}
            && forall b :: b in v ==> b in code || b == 0 || IsFooter(cfg, b)
  {
    EnteredWithin(cfg.checked, m, c, Entry(cfg), AfterPrologue(cfg));
    EnteredAvoidsFooter(cfg, m, c, Entry(cfg), AfterPrologue(cfg));
    hide Entered, Follow;
  }
}
