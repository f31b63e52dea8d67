// Which blocks and instructions are the code of a command list: the relation
// between the (coalesced) source and a finished or growing module.
module BrainFLayout {
  import opened Options
  import opened BrainFSource
  import opened BrainFIR

  /** The fixed registers and blocks set up by the header. */
  const ARR: Reg := 0
  const ARRMAX: Reg := 1
  const END: BlockId := 1
  const ABERROR: BlockId := 2

  /** A place in the code, with the register that holds the head there. */
  datatype Point = Point(block: BlockId, idx: nat, head: Reg)

  /** APInt(32, v) read back as a signed number. */
  function Wrap32(v: int): int {
    (v + 0x8000_0000) % WORDS - 0x8000_0000
  }

  predicate ThreeInsts(b: Block, idx: nat, i0: Inst, i1: Inst, i2: Inst) {
    idx + 3 <= |b.insts| && b.insts[idx] == i0 && b.insts[idx + 1] == i1 && b.insts[idx + 2] == i2
  }

  /** Code of one command at point p; the result is the point after it. */
  function FollowOp(checked: bool, m: Module, op: Op, p: Point): Option<Point> {
    if p.block >= |m| || p.idx >= |m[p.block].insts| then None else
    var b := m[p.block];
    var first := b.insts[p.idx];
    match op
    case Read =>
      if p.idx + 1 >= |b.insts| || !first.GetChar? || !b.insts[p.idx + 1].Trunc8? then None else
      var r, t := first.dst, b.insts[p.idx + 1].dst;
      if p.head < r < t && ThreeInsts(b, p.idx, GetChar(r), Trunc8(t, r), Inst.Store(t, p.head))
      then Some(p.(idx := p.idx + 3)) else None
    case Write =>
      if p.idx + 1 >= |b.insts| || !first.Load? || !b.insts[p.idx + 1].Sext32? then None else
      var r, t := first.dst, b.insts[p.idx + 1].dst;
      if p.head < r < t && ThreeInsts(b, p.idx, Load(r, p.head), Sext32(t, r), PutChar(t))
      then Some(p.(idx := p.idx + 3)) else None
    case Change(v) =>
      if p.idx + 1 >= |b.insts| || !first.Load? || !b.insts[p.idx + 1].Add8? then None else
      var r, t := first.dst, b.insts[p.idx + 1].dst;
      if p.head < r < t && ThreeInsts(b, p.idx, Load(r, p.head), Add8(t, r, v % 256), Inst.Store(t, p.head))
      then Some(p.(idx := p.idx + 3)) else None
    case Move(v) =>
      if !first.Gep? then None else
      var h := first.dst;
      if !(p.head < h && first == Gep(h, p.head, Wrap32(v))) then None
      else if !checked then Some(Point(p.block, p.idx + 1, h))
      else if b.term.Some? && b.term.value.CondBr? && p.block < b.term.value.ifFalse < |m|
           && p.idx + 4 == |b.insts|
           && ThreeInsts(b, p.idx + 1, IcmpUge(h + 1, h, ARRMAX), IcmpUlt(h + 2, h, ARR), Or1(h + 3, h + 1, h + 2))
           && b.term == Some(CondBr(h + 3, ABERROR, b.term.value.ifFalse))
           && m[b.term.value.ifFalse].phi.None?
      then Some(Point(b.term.value.ifFalse, 0, h)) else None
  }

  /** The blocks of a loop entered from point p: its test block, its body and its exit. */
  predicate LoopHeadAt(m: Module, p: Point) {
    && p.block < |m|
    && p.idx == |m[p.block].insts|
    && m[p.block].term.Some? && m[p.block].term.value.Br?
    && p.block < m[p.block].term.value.target < |m|
    && TestBlock(m, m[p.block].term.value.target)
    && var phi := m[m[p.block].term.value.target].phi.value;
       p.head < phi.dst && phi.incoming[0] == Incoming(p.head, p.block)
  }

  predicate TestBlock(m: Module, t: BlockId)
    requires t < |m|
  {
    && m[t].phi.Some? && |m[t].phi.value.incoming| == 2
    && |m[t].insts| == 2 && m[t].insts[0].Load? && m[t].insts[1].IcmpEq8?
    && m[t].term.Some? && m[t].term.value.CondBr?
    && var x, y := m[t].insts[0].dst, m[t].insts[1].dst;
       && var ph := m[t].phi.value.dst;
       && ph < x < y
       && m[t].insts == [Load(x, ph), IcmpEq8(y, x, 0)]
       && var body, exit := m[t].term.value.ifFalse, m[t].term.value.ifTrue;
       && m[t].term.value.cond == y
       && t < body < |m| && m[body].phi.None?
       && body < exit < |m|
       && m[exit].phi.Some? && m[exit].phi.value.incoming == [Incoming(ph, t)] && ph < m[exit].phi.value.dst
  }

  /** Where control leaves the body of the loop tested at t: the second entry of the test's phi. */
  predicate LoopTailAt(m: Module, t: BlockId, q: Point)
    requires t < |m| && TestBlock(m, t)
  {
    && m[t].term.value.ifFalse <= q.block < m[t].term.value.ifTrue && q.block < |m|
    && q.idx == |m[q.block].insts|
    && m[q.block].term == Some(Br(t))
    && m[t].phi.value.incoming[1] == Incoming(q.head, q.block)
  }

  /** Code of a command list at point p; the result is the point after it. */
  function Follow(checked: bool, m: Module, c: Code, p: Point): Option<Point>
    decreases c
  {
    match c
    case Done => Some(p)
    case Seq(op, rest) =>
      (match FollowOp(checked, m, op, p)
       case None => None
       case Some(q) => Follow(checked, m, rest, q))
    case Loop(body, rest) =>
      if !LoopHeadAt(m, p) then None else
      var t := m[p.block].term.value.target;
      var phi := m[t].phi.value;
      (match Follow(checked, m, body, Point(m[t].term.value.ifFalse, 0, phi.dst))
       case None => None
       case Some(q) =>
         if !LoopTailAt(m, t, q) then None
         else var exit := m[t].term.value.ifTrue;
              Follow(checked, m, rest, Point(exit, 0, m[exit].phi.value.dst)))
  }

  function Append(c: Code, d: Code): Code {
    match c
    case Done => d
    case Seq(op, rest) => Seq(op, Append(rest, d))
    case Loop(body, rest) => Loop(body, Append(rest, d))
  }

  lemma {:induction false} FollowAppend(checked: bool, m: Module, c: Code, d: Code, p: Point)
    ensures Follow(checked, m, Append(c, d), p) ==
            match Follow(checked, m, c, p) { case None => None case Some(q) => Follow(checked, m, d, q) }
  {
    match c
    case Done =>
    case Seq(op, rest) =>
      var q := FollowOp(checked, m, op, p);
      if q.Some? { FollowAppend(checked, m, rest, d, q.value); }
    case Loop(body, rest) =>
      if LoopHeadAt(m, p) {
        var t := m[p.block].term.value.target;
        var q := Follow(checked, m, body, Point(m[t].term.value.ifFalse, 0, m[t].phi.value.dst));
        if q.Some? && LoopTailAt(m, t, q.value) {
          var exit := m[t].term.value.ifTrue;
          FollowAppend(checked, m, rest, d, Point(exit, 0, m[exit].phi.value.dst));
        }
      }
  }

  lemma {:induction false} AppendAssoc(a: Code, b: Code, c: Code)
    ensures Append(Append(a, b), c) == Append(a, Append(b, c))
  {
    match a
    case Done =>
    case Seq(op, rest) => AppendAssoc(rest, b, c);
    case Loop(body, rest) => AppendAssoc(rest, b, c);
  }

  lemma {:induction false} AppendDone(a: Code)
    ensures Append(a, Done) == a
  {
    match a
    case Done =>
    case Seq(op, rest) => AppendDone(rest);
    case Loop(body, rest) => AppendDone(rest);
  }

  /** m' is m with more code: blocks from lo on keep their phi and their instructions,
      and a terminated block does not change at all. */
  ghost predicate Extends(m: Module, m': Module, lo: nat) {
    && |m| <= |m'|
    && forall k :: lo <= k < |m| ==>
         && m[k].phi == m'[k].phi
         && m[k].insts <= m'[k].insts
         && (m[k].term.Some? ==> m'[k] == m[k])
  }

  lemma FollowOpExtends(checked: bool, m: Module, m': Module, lo: nat, op: Op, p: Point)
    requires Extends(m, m', lo) && lo <= p.block
    requires FollowOp(checked, m, op, p).Some?
    ensures FollowOp(checked, m', op, p) == FollowOp(checked, m, op, p)
    ensures FollowOp(checked, m, op, p).value.block >= p.block
    ensures FollowOp(checked, m, op, p).value.head >= p.head
  {
    var b, b' := m[p.block], m'[p.block];
    assert forall k :: 0 <= k < |b.insts| ==> b.insts[k] == b'.insts[k];
  }

  /** Code that is in place stays in place while the module grows. */
  lemma {:induction false} FollowExtends(checked: bool, m: Module, m': Module, lo: nat, c: Code, p: Point)
    requires Extends(m, m', lo) && lo <= p.block
    requires Follow(checked, m, c, p).Some?
    ensures Follow(checked, m', c, p) == Follow(checked, m, c, p)
    ensures Follow(checked, m, c, p).value.block >= p.block
    ensures Follow(checked, m, c, p).value.head >= p.head
  {
    match c
    case Done =>
    case Seq(op, rest) =>
      FollowOpExtends(checked, m, m', lo, op, p);
      FollowExtends(checked, m, m', lo, rest, FollowOp(checked, m, op, p).value);
    case Loop(body, rest) =>
      assert LoopHeadAt(m, p);
      var t := m[p.block].term.value.target;
      assert LoopHeadAt(m', p);
      var start := Point(m[t].term.value.ifFalse, 0, m[t].phi.value.dst);
      FollowExtends(checked, m, m', lo, body, start);
      var exit := m[t].term.value.ifTrue;
      FollowExtends(checked, m, m', lo, rest, Point(exit, 0, m[exit].phi.value.dst));
  }
}
