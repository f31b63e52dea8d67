// The compiler itself: a one-symbol-lookahead lexer that coalesces runs, driving a
// builder that appends to blocks, creates blocks and finishes phis in place.
module BrainFEmitter {
  import opened Options
  import opened BrainFSource
  import opened BrainFIR
  import opened BrainFLayout
  import opened BrainFSimulation
  import opened BrainFWellFormed
  import opened BrainFSingle

  datatype Symbol = SymNone | SymRead | SymWrite | SymMove | SymChange | SymLoop | SymEndLoop | SymEof

  /** abort() with a message is a status here. */
  datatype Status = Ok | ExtraClose | MissingClose

  // ------------------------------------------------- what the lexer holds

  /** The coalesced command list from position i on. */
  function CoalescedAt(text: string, i: nat): (r: Parsed)
    requires i <= |text|
    ensures r.ending.AtClose? ==> i < r.ending.next <= |text|
  {
    var r := Parse(text, i);
    Parsed(Coalesce(r.code), r.ending)
  }

  function OpOf(sym: Symbol, value: int): Op
    requires sym in {SymRead, SymWrite, SymMove, SymChange}
  {
    match sym
    case SymRead => Read
    case SymWrite => Write
    case SymMove => Move(value)
    case _ => Change(value)
  }

  /** What remains to be compiled when one symbol is pending and the input stands at pos. */
  function Pending(text: string, sym: Symbol, value: int, pos: nat): (r: Parsed)
    requires pos <= |text|
  {
    match sym
    case SymNone => CoalescedAt(text, pos)
    case SymLoop =>
      var body := CoalescedAt(text, pos);
      if body.ending.AtClose? then
        var after := CoalescedAt(text, body.ending.next);
        Parsed(Loop(body.code, after.code), after.ending)
      else Parsed(Done, Unclosed)
    case SymEndLoop => Parsed(Done, AtClose(pos))
    case SymEof => Parsed(Done, AtEof)
    case _ =>
      var after := CoalescedAt(text, pos);
      Parsed(Prepend(OpOf(sym, value), after.code), after.ending)
  }

  /** The same with a finished symbol and the one read after it. */
  function Ahead(text: string, cur: Symbol, curValue: int, next: Symbol, nextValue: int, pos: nat): Parsed
    requires pos <= |text|
  {
    if next == SymNone then Pending(text, cur, curValue, pos)
    else
      var after := Pending(text, next, nextValue, pos);
      if cur in {SymRead, SymWrite, SymMove, SymChange}
      then Parsed(Seq(OpOf(cur, curValue), after.code), after.ending) else after
  }

  predicate Repeats(sym: Symbol) {
    sym == SymNone || sym == SymMove || sym == SymChange
  }

  /** Symbol and value of a single character. */
  function Classify(c: char): (Symbol, int) {
    match c
    case '+' => (SymChange, 1)
    case '-' => (SymChange, -1)
    case '>' => (SymMove, 1)
    case '<' => (SymMove, -1)
    case ',' => (SymRead, 0)
    case '.' => (SymWrite, 0)
    case '[' => (SymLoop, 0)
    case ']' => (SymEndLoop, 0)
    case _ => (SymNone, 0)
  }

  lemma ClassifyAt(text: string, i: nat)
    requires i < |text|
    ensures CoalescedAt(text, i) == Pending(text, Classify(text[i]).0, Classify(text[i]).1, i + 1)
  {
  }

  lemma PrependTwice(sym: Symbol, v: int, w: int, c: Code)
    requires sym in {SymMove, SymChange}
    ensures Prepend(OpOf(sym, v), Prepend(OpOf(sym, w), c)) == Prepend(OpOf(sym, v + w), c)
  {
  }

  /** A run ends where the next symbol is of another kind. */
  lemma RunEnds(text: string, cur: Symbol, v: int, next: Symbol, w: int, pos: nat)
    requires pos <= |text| && cur in {SymMove, SymChange} && next != SymNone && next != cur
    ensures Prepend(OpOf(cur, v), Pending(text, next, w, pos).code)
            == Seq(OpOf(cur, v), Pending(text, next, w, pos).code)
  {
  }

  // ------------------------------------------------------- module growth

  /** From m to m' code was only added at block ins, which is where it still is added or
      else is terminated; blocks outside `except` are otherwise untouched, and every new
      block but the new insertion block is terminated. */
  ghost predicate Grown(m: Module, m': Module, ins: BlockId, ins': BlockId, except: set<BlockId>) {
    && |m| <= |m'| && ins < |m| && ins' < |m'|
    && (forall k :: 0 <= k < |m| && k != ins && k !in except ==> m'[k] == m[k])
    && m'[ins].phi == m[ins].phi && m[ins].insts <= m'[ins].insts
    && (ins' == ins || (ins' >= |m| && m'[ins].term.Some?))
    && (forall k :: |m| <= k < |m'| && k != ins' ==> m'[k].term.Some?)
  }

  lemma GrownTransitive(m0: Module, m1: Module, m2: Module, i0: BlockId, i1: BlockId, i2: BlockId, except: set<BlockId>)
    requires Grown(m0, m1, i0, i1, {}) && Grown(m1, m2, i1, i2, except)
    requires forall t :: t in except ==> t < |m0| && t != i0
    ensures Grown(m0, m2, i0, i2, except)
  {
    if i1 != i0 { assert m2[i0] == m1[i0]; }
  }

  /** m' is m with a bounds test of `head` appended to block ins, falling through to a new last block. */
  ghost predicate TestAdded(m: Module, m': Module, ins: BlockId, head: Reg, t: Reg)
    requires ins < |m|
  {
    && |m'| == |m| + 1
    && (forall k :: 0 <= k < |m| && k != ins ==> m'[k] == m[k])
    && m'[ins].phi == m[ins].phi
    && m'[ins].insts == m[ins].insts + [IcmpUge(t, head, ARRMAX), IcmpUlt(t + 1, head, ARR), Or1(t + 2, t, t + 1)]
    && m'[ins].term == Some(CondBr(t + 2, ABERROR, |m|))
    && m'[|m|] == Block(None, [], None)
  }

  lemma TestKeepsSingle(m: Module, m': Module, ins: BlockId, head: Reg, t: Reg)
    requires Single(m, t) && ins < |m| && TestAdded(m, m', ins, head, t)
    ensures Single(m', t + 3)
  {
    var i0, i1, i2 := IcmpUge(t, head, ARRMAX), IcmpUlt(t + 1, head, ARR), Or1(t + 2, t, t + 1);
    var m1 := m[ins := m[ins].(insts := m[ins].insts + [i0] + [i1] + [i2])];
    assert m1[ins].insts == m[ins].insts + [i0, i1, i2];
    hide Single;
    ThreeKeepSingle(m, m1, ins, i0, i1, i2, t, t + 3);
    SameDefinitions(m1, m', t + 3, t + 3);
  }

  /** A pointer move followed by its bounds test is the code of a checked move. */
  lemma TestedMove(m: Module, m1: Module, m2: Module, ins: BlockId, head: Reg, v: int, h: Reg)
    requires ins < |m| && head < h && m[ins].term.None?
    requires m1 == m[ins := m[ins].(insts := m[ins].insts + [Gep(h, head, Wrap32(v))])]
    requires TestAdded(m1, m2, ins, h, h + 1)
    ensures Grown(m, m2, ins, |m|, {})
    ensures FollowOp(true, m2, Move(v), Point(ins, |m[ins].insts|, head)) == Some(Point(|m|, 0, h))
  {
    var a := m[ins].insts;
    assert m2[ins].insts[|a|] == Gep(h, head, Wrap32(v));
    assert m2[ins].insts[|a| + 1] == IcmpUge(h + 1, h, ARRMAX);
    assert m2[ins].insts[|a| + 2] == IcmpUlt(h + 2, h, ARR);
    assert m2[ins].insts[|a| + 3] == Or1(h + 3, h + 1, h + 2);
  }

  /** Putting the loop together: the code of the body inside a closed loop is the code of the loop. */
  lemma LoopFollowed(checked: bool, m0: Module, m1: Module, m2: Module, ins: BlockId, head: Reg, phi: Reg,
                     body: Code, tail: Point, x: Reg)
    requires ins < |m0| && head < phi < x && m0[ins].term.None?
    requires LoopOpened(m0, m1, ins, head, phi)
    requires |m1| <= |m2| && tail.block + 1 < |m2| && tail.block > |m0|
    requires m2[ins] == m1[ins]
    requires ClosedAt(m1, m2, tail, |m0|, |m0| + 1, x)
    requires m2[|m0| + 1].phi.None?
    requires Follow(checked, m2, body, Point(|m0| + 1, 0, phi)) == Some(tail)
    ensures Follow(checked, m2, Loop(body, Done), Point(ins, |m0[ins].insts|, head)) == Some(Point(|m2| - 1, 0, x + 2))
  {
    var t := |m0|;
    assert TestBlock(m2, t);
    assert LoopTailAt(m2, t, tail);
    assert LoopHeadAt(m2, Point(ins, |m0[ins].insts|, head));
  }

  /** In m' the loop tested at t, whose body starts at block body, is closed from point tail and exits to the last
      block. */
  predicate ClosedAt(m: Module, m': Module, tail: Point, t: BlockId, body: BlockId, x: Reg)
    requires t < |m| && m[t].phi.Some? && tail.block + 1 < |m'| && t < |m'|
  {
    && tail.idx == |m'[tail.block].insts| && m'[tail.block].term == Some(Br(t))
    && var phi := m[t].phi.value;
       && m'[t] == Block(Some(phi.(incoming := phi.incoming + [Incoming(tail.head, tail.block)])),
                         [Load(x, phi.dst), IcmpEq8(x + 1, x, 0)], Some(CondBr(x + 1, |m'| - 1, body)))
       && m'[|m'| - 1] == Block(Some(Phi(x + 2, [Incoming(phi.dst, t)])), [], None)
  }

  /** One more symbol: what was emitted before stays in place, and the code of both follows. */
  lemma FollowCompose(checked: bool, m0: Module, m1: Module, m2: Module, i0: BlockId, i1: BlockId, i2: BlockId,
                      p0: Point, p1: Point, p2: Point, c: Code, d: Code)
    requires Grown(m0, m1, i0, i1, {}) && Grown(m1, m2, i1, i2, {}) && m1[i1].term.None?
    requires Follow(checked, m1, c, p0) == Some(p1) && Follow(checked, m2, d, p1) == Some(p2)
    ensures Grown(m0, m2, i0, i2, {})
    ensures Follow(checked, m2, Append(c, d), p0) == Some(p2)
  {
    GrownTransitive(m0, m1, m2, i0, i1, i2, {});
    FollowExtends(checked, m1, m2, 0, c, p0);
    FollowAppend(checked, m2, c, d, p0);
  }

  /** Closing the loop leaves its body in place. */
  lemma FollowClose(checked: bool, m0: Module, m1: Module, m2: Module, body: BlockId, t: BlockId, phi: Reg,
                    c: Code, tail: Point, x: Reg)
    requires t < body < |m0| && m0[t].phi.Some? && m0[t].phi.value.dst == phi
    requires m0[t].term.None? && m0[t].insts == []
    requires tail.block < |m1| && tail.idx == |m1[tail.block].insts| && tail.block >= body
    requires m1[tail.block].term.None?
    requires Grown(m0, m1, body, tail.block, {})
    requires LoopClosed(m1, m2, tail.block, tail.head, t, body, x)
    requires Follow(checked, m1, c, Point(body, 0, phi)) == Some(tail)
    ensures Grown(m0, m2, body, |m1|, {t})
    ensures Follow(checked, m2, c, Point(body, 0, phi)) == Some(tail)
    ensures ClosedAt(m0, m2, tail, t, body, x)
  {
    assert Grown(m1, m2, tail.block, |m1|, {t});
    GrownTransitive(m0, m1, m2, body, tail.block, |m1|, {t});
    FollowExtends(checked, m1, m2, body, c, Point(body, 0, phi));
  }

  /** In m, block t is a test block with its first phi entry and nothing else; oldbb is the loop's body. */
  predicate LoopAwaits(m: Module, phi: Reg, oldbb: BlockId, t: BlockId)
    requires t < |m| && oldbb < |m|
  {
    && m[t].phi.Some? && m[t].phi.value.dst == phi && |m[t].phi.value.incoming| == 1
    && m[t].insts == [] && m[t].term.None? && m[oldbb].phi.None?
  }

  class BrainF {
    const text: string
    const cfg: Config
    var pos: nat            // the input stream
    var blocks: Module      // the function under construction
    var insert: BlockId     // the builder's insertion point
    var curhead: Reg
    var nextReg: Reg        // registers from here on are unused

    ghost predicate Valid()
      reads this
    {
      && pos <= |text|
      && insert < |blocks| && blocks[insert].term.None?
      && ARRMAX < curhead < nextReg
      && Footer(cfg, blocks) && PhisMatch(blocks) && Single(blocks, nextReg)
    }

    ghost function Here(): Point
      requires insert < |blocks|
      reads this
    {
      Point(insert, |blocks[insert].insts|, curhead)
    }

    constructor (text: string, cfg: Config)
      ensures this.text == text && this.cfg == cfg && pos == 0 && blocks == []
    {
      this.text := text;
      this.cfg := cfg;
      pos, blocks, insert, curhead, nextReg := 0, [], 0, 0, 0;
    }

    method Fresh() returns (r: Reg)
      modifies this`nextReg
      ensures r == old(nextReg) && nextReg == r + 1
    {
      r := nextReg;
      nextReg := nextReg + 1;
    }

    method CreateBlock() returns (b: BlockId)
      modifies this`blocks
      ensures b == |old(blocks)| && blocks == old(blocks) + [Block(None, [], None)]
    {
      b := |blocks|;
      blocks := blocks + [Block(None, [], None)];
    }

    method InsertInst(b: BlockId, i: Inst)
      requires b < |blocks|
      modifies this`blocks
      ensures blocks == old(blocks)[b := old(blocks)[b].(insts := old(blocks)[b].insts + [i])]
    {
      blocks := blocks[b := blocks[b].(insts := blocks[b].insts + [i])];
    }

    method Terminate(b: BlockId, t: Term)
      requires b < |blocks|
      modifies this`blocks
      ensures blocks == old(blocks)[b := old(blocks)[b].(term := Some(t))]
    {
      blocks := blocks[b := blocks[b].(term := Some(t))];
    }

    method CreatePhi(b: BlockId) returns (r: Reg)
      requires b < |blocks|
      modifies this`blocks, this`nextReg
      ensures r == old(nextReg) && nextReg == r + 1
      ensures blocks == old(blocks)[b := old(blocks)[b].(phi := Some(Phi(r, [])))]
    {
      r := Fresh();
      blocks := blocks[b := blocks[b].(phi := Some(Phi(r, [])))];
    }

    method AddIncoming(b: BlockId, v: Reg, from: BlockId)
      requires b < |blocks| && blocks[b].phi.Some?
      modifies this`blocks
      ensures var phi := old(blocks)[b].phi.value;
              var phi' := phi.(incoming := phi.incoming + [Incoming(v, from)]);
              blocks == old(blocks)[b := old(blocks)[b].(phi := Some(phi'))]
    {
      var phi := blocks[b].phi.value;
      blocks := blocks[b := blocks[b].(phi := Some(phi.(incoming := phi.incoming + [Incoming(v, from)])))];
    }

    /** What emitting one command achieves. */
    twostate predicate Emitted(op: Op)
      requires old(insert) < |old(blocks)| && insert < |blocks|
      reads this
    {
      && Valid() && pos == old(pos)
      && old(nextReg) <= nextReg
      && Grown(old(blocks), blocks, old(insert), insert, {})
      && FollowOp(cfg.checked, blocks, op, old(Here())) == Some(Here())
    }

    method EmitRead()
      requires Valid()
      modifies this
      ensures insert < |blocks| && Emitted(Read)
    {
      hide PhisMatch, Single;
      var r := Fresh();
      InsertInst(insert, GetChar(r));
      var t := Fresh();
      InsertInst(insert, Trunc8(t, r));
      InsertInst(insert, Inst.Store(t, curhead));
      InstsKeepPhis(old(blocks), blocks);
      ThreeKeepSingle(old(blocks), blocks, insert, GetChar(r), Trunc8(t, r), Inst.Store(t, curhead), r, nextReg);
    }

    method EmitWrite()
      requires Valid()
      modifies this
      ensures insert < |blocks| && Emitted(Write)
    {
      hide PhisMatch, Single;
      var r := Fresh();
      InsertInst(insert, Load(r, curhead));
      var t := Fresh();
      InsertInst(insert, Sext32(t, r));
      InsertInst(insert, PutChar(t));
      InstsKeepPhis(old(blocks), blocks);
      ThreeKeepSingle(old(blocks), blocks, insert, Load(r, curhead), Sext32(t, r), PutChar(t), r, nextReg);
    }

    method EmitChange(value: int)
      requires Valid()
      modifies this
      ensures insert < |blocks| && Emitted(Change(value))
    {
      hide PhisMatch, Single;
      var r := Fresh();
      InsertInst(insert, Load(r, curhead));
      var t := Fresh();
      InsertInst(insert, Add8(t, r, value % 256));
      InsertInst(insert, Inst.Store(t, curhead));
      InstsKeepPhis(old(blocks), blocks);
      ThreeKeepSingle(old(blocks), blocks, insert, Load(r, curhead), Add8(t, r, value % 256),
                      Inst.Store(t, curhead), r, nextReg);
    }

    /** Compare the head with both ends of the tape and leave for the error block when it is outside. */
    method EmitBoundsTest()
      requires Valid() && cfg.checked
      modifies this`blocks, this`nextReg, this`insert
      ensures Valid() && nextReg == old(nextReg) + 3 && insert == |old(blocks)|
      ensures TestAdded(old(blocks), blocks, old(insert), curhead, old(nextReg))
    {
      hide Single;
      var test0 := Fresh();
      InsertInst(insert, IcmpUge(test0, curhead, ARRMAX));
      var test1 := Fresh();
      InsertInst(insert, IcmpUlt(test1, curhead, ARR));
      var test2 := Fresh();
      InsertInst(insert, Or1(test2, test0, test1));
      InstsKeepPhis(old(blocks), blocks);
      NewBlockKeepsPhis(blocks);
      var nextbb := CreateBlock();
      CondBranchKeepsPhis(blocks, insert, test2, ABERROR, nextbb);
      Terminate(insert, CondBr(test2, ABERROR, nextbb));
      insert := nextbb;
      TestKeepsSingle(old(blocks), blocks, old(insert), curhead, test0);
    }

    method EmitMove(value: int)
      requires Valid()
      modifies this
      ensures insert < |blocks| && Emitted(Move(value))
    {
      hide PhisMatch, Single;
      var h := Fresh();
      InsertInst(insert, Gep(h, curhead, Wrap32(value)));
      InstsKeepPhis(old(blocks), blocks);
      AddedKeepsSingle(old(blocks), insert, Gep(h, curhead, Wrap32(value)), h, nextReg);
      curhead := h;
      if cfg.checked {
        ghost var gepped := blocks;
        EmitBoundsTest();
        TestedMove(old(blocks), gepped, blocks, old(insert), old(curhead), value, h);
      }
    }

    /** The part of `[` before the loop's body. */
    method OpenLoop() returns (testbb: BlockId, bodybb: BlockId, phi: Reg)
      requires Valid()
      modifies this
      ensures Valid() && pos == old(pos)
      ensures testbb == |old(blocks)| && bodybb == insert == testbb + 1
      ensures curhead == phi == old(nextReg)
      ensures LoopOpened(old(blocks), blocks, old(insert), old(curhead), phi)
    {
      hide PhisMatch, Single;
      testbb := CreateBlock();
      Terminate(insert, Br(testbb));
      var bb := insert;
      bodybb := CreateBlock();
      insert := bodybb;
      phi := CreatePhi(testbb);
      AddIncoming(testbb, curhead, bb);
      assert blocks[testbb].phi.value.incoming == [Incoming(curhead, bb)];
      curhead := phi;
      OpeningKeepsPhis(old(blocks), blocks, bb, old(curhead), phi);
      OpeningKeepsSingle(old(blocks), blocks, bb, old(curhead), phi);
    }

    /** The test block of a loop whose body is being emitted. */
    ghost predicate LoopPending(phi: Reg, oldbb: BlockId, testbb: BlockId)
      reads this
    {
      testbb < oldbb < |blocks| && LoopAwaits(blocks, phi, oldbb, testbb)
    }

    /** What `]` does for the loop it closes. */
    method CloseLoop(phi: Reg, oldbb: BlockId, testbb: BlockId)
      requires Valid() && LoopPending(phi, oldbb, testbb) && oldbb <= insert
      requires phi <= curhead
      modifies this
      ensures Valid() && pos == old(pos) && old(nextReg) <= nextReg
      ensures insert == |old(blocks)| && curhead == old(nextReg) + 2
      ensures LoopClosed(old(blocks), blocks, old(insert), old(curhead), testbb, oldbb, old(nextReg))
    {
      hide PhisMatch, Single;
      Terminate(insert, Br(testbb));
      AddIncoming(testbb, curhead, insert);
      var tape := Fresh();
      InsertInst(testbb, Load(tape, phi));
      var test := Fresh();
      InsertInst(testbb, IcmpEq8(test, tape, 0));
      assert blocks[testbb].insts == [Load(tape, phi), IcmpEq8(test, tape, 0)];
      var bb := CreateBlock();
      Terminate(testbb, CondBr(test, bb, oldbb));
      insert := bb;
      curhead := CreatePhi(bb);
      AddIncoming(bb, phi, testbb);
      assert blocks[bb].phi.value.incoming == [Incoming(phi, testbb)];
      ClosingKeepsPhis(old(blocks), blocks, old(insert), old(curhead), testbb, oldbb, old(nextReg));
      ClosingKeepsSingle(old(blocks), blocks, old(insert), old(curhead), testbb, oldbb, old(nextReg));
    }

    /** The fixed code around the program: allocation before it, the end block and,
        with bounds checking, the error block after it. */
    method Header()
      requires blocks == [] && pos <= |text|
      modifies this
      ensures Valid() && pos == old(pos)
      ensures Here() == Entry(cfg) && insert == 0
      ensures blocks[0].phi.None? && blocks[0].insts == Prologue(cfg)
      ensures forall k :: 0 < k < |blocks| ==> blocks[k].term.Some?
    {
      hide PhisMatch;
      EmitPrologue();
      EmitFooter();
      NoPhisMatch(blocks);
      HeaderIsSingle(cfg, blocks, nextReg);
    }

    method EmitPrologue()
      requires blocks == []
      modifies this
      ensures pos == old(pos) && insert == 0 && curhead == ARRMAX + 1 && nextReg == curhead + 1
      ensures blocks == [Block(None, Prologue(cfg), None)]
    {
      insert := CreateBlock();
      InsertInst(insert, Malloc(ARR, cfg.mem));
      InsertInst(insert, Memset(ARR, 0, cfg.mem));
      if cfg.checked {
        InsertInst(insert, Gep(ARRMAX, ARR, cfg.mem));
      }
      curhead := ARRMAX + 1;
      InsertInst(insert, Gep(curhead, ARR, cfg.mem / 2));
      nextReg := curhead + 1;
      assert blocks[0].insts == Prologue(cfg);
    }

    method EmitFooter()
      requires |blocks| == 1
      modifies this`blocks
      ensures Footer(cfg, blocks) && blocks[0] == old(blocks)[0] && |blocks| == (if cfg.checked then 3 else 2)
      ensures forall k :: 0 < k < |blocks| ==> blocks[k].term.Some? && blocks[k].phi.None?
      ensures forall k :: 0 < k < |blocks| ==> Targets(blocks[k].term.value) <= {END}
    {
      var endbb := CreateBlock();
      InsertInst(endbb, Free(ARR));
      Terminate(endbb, Ret);
      assert blocks[END].insts == [Free(ARR)];
      if cfg.checked {
        var aberrorbb := CreateBlock();
        InsertInst(aberrorbb, PutsMessage);
        Terminate(aberrorbb, Br(END));
        assert blocks[ABERROR].insts == [PutsMessage];
      }
    }

    /** The character loop: extend the current run, stop at the first symbol of another kind. */
    method NextSymbol(sym: Symbol, value: int)
      returns (cur: Symbol, curValue: int, next: Symbol, nextValue: int)
      requires pos <= |text| && Repeats(sym)
      modifies this`pos
      ensures old(pos) <= pos <= |text|
      ensures Ahead(text, cur, curValue, next, nextValue, pos) == Pending(text, sym, value, old(pos))
      ensures cur != SymNone && (Repeats(cur) <==> next != SymNone)
      ensures Weight(cur, next) + 2 * (|text| - pos) < 2 + 2 * (|text| - old(pos))
      ensures sym == SymNone ==> Weight(cur, next) + 2 * (|text| - pos) <= 2 * (|text| - old(pos))
      ensures cur == SymLoop ==> pos > old(pos)
    {
      cur, curValue := sym, value;
      next, nextValue := SymNone, 0;
      var loop := true;
      while loop
        invariant old(pos) <= pos <= |text|
        invariant loop ==> next == SymNone && Repeats(cur)
        invariant loop ==> Pending(text, cur, curValue, pos) == Pending(text, sym, value, old(pos))
        invariant loop && cur != sym ==> pos > old(pos)
        invariant !loop ==> Ahead(text, cur, curValue, next, nextValue, pos) == Pending(text, sym, value, old(pos))
        invariant !loop ==> cur != SymNone && (Repeats(cur) <==> next != SymNone)
        invariant !loop ==> Weight(cur, next) + 2 * (|text| - pos) < 2 + 2 * (|text| - old(pos))
        invariant !loop && sym == SymNone ==> Weight(cur, next) + 2 * (|text| - pos) <= 2 * (|text| - old(pos))
        invariant !loop && cur == SymLoop ==> pos > old(pos)
        decreases |text| - pos, loop
      {
        if pos == |text| {
          if cur == SymNone { cur := SymEof; } else { next := SymEof; }
          loop := false;
        } else {
          ClassifyAt(text, pos);
          var (c, v) := Classify(text[pos]);
          pos := pos + 1;
          if c == SymNone {
          } else if cur == SymNone {
            cur, curValue := c, v;
            loop := Repeats(c);
          } else if c == cur {
            PrependTwice(cur, curValue, v, CoalescedAt(text, pos).code);
            curValue := curValue + v;
          } else {
            RunEnds(text, cur, curValue, c, v, pos);
            next, nextValue := c, v;
            loop := false;
          }
        }
      }
    }

    /** The code emitted since the module was m0, from point p0 in block i0, is c. */
    ghost predicate Since(m0: Module, i0: BlockId, p0: Point, c: Code)
      reads this
    {
      && insert < |blocks|
      && Grown(m0, blocks, i0, insert, {})
      && Follow(cfg.checked, blocks, c, p0) == Some(Here())
    }

    /** What compiling one pending symbol achieves: `step` is its command list. */
    twostate predicate Compiles(step: Code)
      requires old(insert) < |old(blocks)|
      reads this
    {
      && Valid() && old(pos) <= pos && old(nextReg) <= nextReg
      && Since(old(blocks), old(insert), old(Here()), step)
    }

    /** The switch over the current symbol, loops apart. */
    method EmitSymbol(cur: Symbol, curValue: int)
      requires Valid() && cur in {SymNone, SymRead, SymWrite, SymMove, SymChange}
      modifies this
      ensures pos == old(pos)
      ensures Compiles(if cur == SymNone then Done else Seq(OpOf(cur, curValue), Done))
    {
      match cur {
        case SymRead => EmitRead();
        case SymWrite => EmitWrite();
        case SymMove => EmitMove(curValue);
        case SymChange => EmitChange(curValue);
        case _ =>
      }
    }

    /** The case of an opening bracket. */
    method EmitLoop() returns (status: Status)
      requires Valid()
      modifies this
      ensures status == (if Parse(text, old(pos)).ending.AtClose? then Ok else MissingClose)
      ensures status == Ok ==>
                && pos == Parse(text, old(pos)).ending.next
                && Compiles(Loop(CoalescedAt(text, old(pos)).code, Done))
      decreases |text| - pos, 3
    {
      hide PhisMatch, Footer;
      ghost var m0 := blocks;
      var testbb, bodybb, phi := OpenLoop();
      ghost var m1 := blocks;
      ghost var tail;
      status, tail := ReadLoop(Some(phi), bodybb, testbb);
      if status == Ok {
        LoopFollowed(cfg.checked, m0, m1, blocks, old(insert), old(curhead), phi,
                     CoalescedAt(text, old(pos)).code, tail, curhead - 2);
      }
    }

    /** The switch over the current symbol, with the symbol after it pending. */
    method EmitCurrent(cur: Symbol, curValue: int, ghost next: Symbol, ghost nextValue: int)
      returns (status: Status, ghost step: Code)
      requires Valid() && cur != SymEof && cur != SymEndLoop
      requires (Repeats(cur) && cur != SymNone) <==> next != SymNone
      modifies this
      ensures var was := Ahead(text, cur, curValue, next, nextValue, old(pos));
              if status == Ok then
                && Compiles(step)
                && was.code == Append(step, Pending(text, next, nextValue, pos).code)
                && was.ending == Pending(text, next, nextValue, pos).ending
              else status == MissingClose && was.ending == Unclosed
      ensures status == Ok && cur != SymLoop ==> pos == old(pos)
      decreases |text| - pos, if cur == SymLoop then 5 else 0, 0
    {
      hide Pending, Footer, PhisMatch, Grown, Follow, Append, Parse, Coalesce;
      AheadSplits(text, cur, curValue, next, nextValue, pos);
      if cur == SymLoop {
        step := Loop(CoalescedAt(text, pos).code, Done);
        status := EmitLoop();
      } else {
        step := if cur == SymNone then Done else Seq(OpOf(cur, curValue), Done);
        status := Ok;
        EmitSymbol(cur, curValue);
      }
    }

    /** The same after code c emitted since m0. */
    method EmitAfter(cur: Symbol, curValue: int, ghost next: Symbol, ghost nextValue: int,
                     ghost m0: Module, ghost i0: BlockId, ghost p0: Point, ghost c: Code)
      returns (status: Status, ghost d: Code)
      requires Valid() && cur != SymEof && cur != SymEndLoop
      requires (Repeats(cur) && cur != SymNone) <==> next != SymNone
      requires Since(m0, i0, p0, c)
      modifies this
      ensures var was := Ahead(text, cur, curValue, next, nextValue, old(pos));
              if status == Ok then
                && Valid() && old(pos) <= pos && old(nextReg) <= nextReg && Since(m0, i0, p0, d)
                && var now := Pending(text, next, nextValue, pos);
                Append(c, was.code) == Append(d, now.code) && was.ending == now.ending
              else status == MissingClose && was.ending == Unclosed
      ensures status == Ok && cur != SymLoop ==> pos == old(pos)
      decreases |text| - pos, if cur == SymLoop then 5 else 0, 1
    {
      hide Pending, Footer, PhisMatch, Grown, Follow, Append, Parse, Coalesce, Ahead;
      ghost var step;
      d := c;
      status, step := EmitCurrent(cur, curValue, next, nextValue);
      if status == Ok {
        d := Append(c, step);
        FollowCompose(cfg.checked, m0, old(blocks), blocks, i0, old(insert), insert, p0, old(Here()), Here(), c, step);
        AppendAssoc(c, step, Pending(text, next, nextValue, pos).code);
      }
    }

    /** The closing bracket of a loop whose body, emitted since m0, is c. */
    method FinishLoop(phi: Reg, oldbb: BlockId, testbb: BlockId, ghost m0: Module, ghost c: Code)
      returns (ghost tail: Point)
      requires Valid() && testbb < oldbb < |m0| && LoopAwaits(m0, phi, oldbb, testbb)
      requires Since(m0, oldbb, Point(oldbb, 0, phi), c)
      modifies this
      ensures Valid() && pos == old(pos) && curhead >= old(nextReg) + 2
      ensures LoopFinished(m0, tail, phi, oldbb, testbb, c)
    {
      tail := Here();
      ghost var m1, x := blocks, nextReg;
      FollowExtends(cfg.checked, m1, m1, oldbb, c, Point(oldbb, 0, phi));
      CloseLoop(phi, oldbb, testbb);
      FollowClose(cfg.checked, m0, m1, blocks, oldbb, testbb, phi, c, tail, x);
    }

    /** The loop's code c has been emitted since m0 and the loop is closed from tail. */
    ghost predicate LoopFinished(m0: Module, tail: Point, phi: Reg, oldbb: BlockId, testbb: BlockId, c: Code)
      requires testbb < |m0| && m0[testbb].phi.Some?
      reads this
    {
      && Grown(m0, blocks, oldbb, insert, {testbb})
      && tail.block >= oldbb && tail.block + 1 < |blocks| && insert == |blocks| - 1
      && blocks[insert].insts == [] && curhead >= 2
      && Follow(cfg.checked, blocks, c, Point(oldbb, 0, phi)) == Some(tail)
      && ClosedAt(m0, blocks, tail, testbb, oldbb, curhead - 2)
    }

    /** The end of the program, whose code c has been emitted since m0. */
    method FinishProgram(ghost m0: Module, ghost i0: BlockId, ghost p0: Point, ghost c: Code)
      requires Valid() && Since(m0, i0, p0, c)
      modifies this`blocks
      ensures ProgramFinished(m0, i0, p0, c)
    {
      ghost var m1 := blocks;
      Terminate(insert, Br(END));
      EndKeepsPhis(m1, insert, END);
      SameDefinitions(m1, blocks, nextReg, nextReg);
      GrownTransitive(m0, m1, blocks, i0, insert, insert, {});
      FollowExtends(cfg.checked, m1, blocks, 0, c, p0);
    }

    ghost predicate ProgramFinished(m0: Module, i0: BlockId, p0: Point, c: Code)
      reads this
    {
      && Since(m0, i0, p0, c)
      && blocks[insert].term == Some(Br(END))
      && Footer(cfg, blocks) && PhisMatch(blocks) && Single(blocks, nextReg)
    }

    /** The symbol loop: everything up to the end of the enclosing loop, or of the text. */
    method EmitSymbols() returns (status: Status, cur: Symbol, ghost emitted: Code)
      requires Valid()
      modifies this
      ensures var goal := CoalescedAt(text, old(pos));
              if status == Ok then
                && Compiles(emitted) && emitted == goal.code
                && (cur == SymEof || cur == SymEndLoop)
                && goal.ending == (if cur == SymEof then AtEof else AtClose(pos))
              else status == MissingClose && goal.ending == Unclosed
      decreases |text| - pos, 1
    {
      var curValue := 0;
      cur := SymNone;
      var next, nextValue := SymNone, 0;
      ghost var goal := CoalescedAt(text, pos);
      emitted := Done;
      assert Compiles(emitted);
      assert Ahead(text, cur, curValue, next, nextValue, pos) == goal && Append(emitted, goal.code) == goal.code;
      hide Since, Grown, Follow, Footer, PhisMatch, Pending, Parse, Coalesce, Append, OpOf;
      while cur != SymEof && cur != SymEndLoop
        invariant Valid() && old(pos) <= pos && old(nextReg) <= nextReg
        invariant Since(old(blocks), old(insert), old(Here()), emitted)
        invariant (Repeats(cur) && cur != SymNone) <==> next != SymNone
        invariant goal.ending == Ahead(text, cur, curValue, next, nextValue, pos).ending
        invariant Append(emitted, Ahead(text, cur, curValue, next, nextValue, pos).code) == goal.code
        invariant cur == SymLoop ==> pos > old(pos)
        decreases Weight(cur, next) + 2 * (|text| - pos)
      {
        status, emitted := EmitAfter(cur, curValue, next, nextValue, old(blocks), old(insert), old(Here()), emitted);
        if status != Ok {
          return;
        }
        cur, curValue := next, nextValue;
        next := SymNone;
        if Repeats(cur) {
          cur, curValue, next, nextValue := NextSymbol(cur, curValue);
        }
      }
      AppendDone(emitted);
      AheadEnds(text, cur, curValue, next, nextValue, pos);
      status := Ok;
    }

    /** Compile from the current position to the end of the enclosing loop, or of the
        text. Inside a loop, `tail` is where control leaves the body. */
    method ReadLoop(phi: Option<Reg>, oldbb: BlockId, testbb: BlockId) returns (status: Status, ghost tail: Point)
      requires Valid()
      requires phi.Some? ==> LoopPending(phi.value, oldbb, testbb) && insert == oldbb
                             && blocks[oldbb].insts == [] && curhead == phi.value
      modifies this
      ensures status == (match Parse(text, old(pos)).ending
                         case AtEof => if phi.None? then Ok else MissingClose
                         case AtClose(_) => if phi.None? then ExtraClose else Ok
                         case Unclosed => MissingClose)
      ensures status == Ok && phi.None? ==>
                ProgramFinished(old(blocks), old(insert), old(Here()), CoalescedAt(text, old(pos)).code)
      ensures status == Ok && phi.Some? ==>
                && Valid() && pos == Parse(text, old(pos)).ending.next && curhead >= old(nextReg) + 2
                && LoopFinished(old(blocks), tail, phi.value, oldbb, testbb, CoalescedAt(text, old(pos)).code)
      decreases |text| - pos, 2
    {
      hide Grown, Follow, Footer, PhisMatch, LoopFinished, ProgramFinished, Parse, Coalesce;
      var last;
      ghost var emitted;
      tail := Here();
      status, last, emitted := EmitSymbols();
      if status != Ok {
        return;
      }
      if last == SymEndLoop {
        if phi.None? {
          return ExtraClose, tail;
        }
        tail := FinishLoop(phi.value, oldbb, testbb, old(blocks), emitted);
        return Ok, tail;
      }
      FinishProgram(old(blocks), old(insert), old(Here()), emitted);
      return if phi.Some? then MissingClose else Ok, tail;
    }

    /** A whole program: header, code, and the branch to the end block. */
    method ParseProgram() returns (status: Status)
      requires pos == 0 && blocks == []
      modifies this
      ensures status == (match Parse(text, 0).ending
                         case AtEof => Ok
                         case AtClose(_) => ExtraClose
                         case Unclosed => MissingClose)
      ensures status == Ok ==>
                Compiled(cfg, blocks, CoalescedAt(text, 0).code) && PhisMatch(blocks) && AllTerminated(blocks)
                && DefinedOnce(blocks)
    {
      Header();
      ghost var m0 := blocks;
      ghost var tail;
      status, tail := ReadLoop(None, 0, 0);
      if status == Ok { ProgramCompiled(cfg, m0, blocks, insert, Here(), CoalescedAt(text, 0).code); }
    }
  }

  /** The header defines the tape, its end in checked mode, and the head. */
  lemma HeaderIsSingle(cfg: Config, m: Module, n: Reg)
    requires m != [] && Footer(cfg, m) && |m| == (if cfg.checked then 3 else 2) && n == ARRMAX + 2
    requires m[0].phi.None? && m[0].insts == Prologue(cfg)
    ensures Single(m, n)
  {
    var insts := m[0].insts;
    forall b: BlockId, k: nat, r: Reg | DefinedAt(m, b, k, r)
      ensures b == 0 && r < n && k == (if r == ARR then 1 else if r == ARRMAX then 3 else |insts|)
    {
      if b == 0 {
        assert insts[0] == Malloc(ARR, cfg.mem) && insts[1] == Memset(ARR, 0, cfg.mem);
        if cfg.checked {
          assert insts == [insts[0], insts[1], Gep(ARRMAX, ARR, cfg.mem), Gep(ARRMAX + 1, ARR, cfg.mem / 2)];
        } else {
          assert insts == [insts[0], insts[1], Gep(ARRMAX + 1, ARR, cfg.mem / 2)];
        }
      }
    }
  }

  lemma ProgramCompiled(cfg: Config, m0: Module, m: Module, ins: BlockId, q: Point, c: Code)
    requires m0 != [] && m0[0].phi.None? && m0[0].insts == Prologue(cfg) && m0[0].term.None?
    requires forall k :: 0 < k < |m0| ==> m0[k].term.Some?
    requires ins < |m| && Grown(m0, m, 0, ins, {}) && Footer(cfg, m)
    requires q.block == ins && q.idx == |m[ins].insts| && m[ins].term == Some(Br(END))
    requires Follow(cfg.checked, m, c, Entry(cfg)) == Some(q)
    ensures Compiled(cfg, m, c) && AllTerminated(m)
  {
  }

  /** The symbol at hand and what is pending after it. */
  lemma AheadSplits(text: string, cur: Symbol, curValue: int, next: Symbol, nextValue: int, pos: nat)
    requires pos <= |text| && cur != SymEof && cur != SymEndLoop
    requires (Repeats(cur) && cur != SymNone) <==> next != SymNone
    ensures var here := Ahead(text, cur, curValue, next, nextValue, pos);
            if cur == SymLoop then
              var body := CoalescedAt(text, pos);
              if body.ending.AtClose? then
                var after := Pending(text, next, nextValue, body.ending.next);
                here.code == Append(Loop(body.code, Done), after.code) && here.ending == after.ending
              else here.ending == Unclosed
            else
              var after := Pending(text, next, nextValue, pos);
              && here.code == Append(if cur == SymNone then Done else Seq(OpOf(cur, curValue), Done), after.code)
              && here.ending == after.ending
  {
  }

  lemma AheadEnds(text: string, cur: Symbol, curValue: int, next: Symbol, nextValue: int, pos: nat)
    requires pos <= |text| && next == SymNone && (cur == SymEof || cur == SymEndLoop)
    ensures Ahead(text, cur, curValue, next, nextValue, pos)
         == Parsed(Done, if cur == SymEof then AtEof else AtClose(pos))
  {
  }

  /** How many more symbols are at hand. */
  function Weight(cur: Symbol, next: Symbol): nat {
    (if cur == SymEof || cur == SymEndLoop then 0 else 1) + (if next == SymNone || next == SymEof then 0 else 1)
  }
}
