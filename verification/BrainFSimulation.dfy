// The machine running compiled code does what the source does: outcome for
// outcome, and step for step where the source diverges.
module BrainFSimulation {
  import opened Options
  import opened BrainFSource
  import opened BrainFIR
  import opened BrainFLayout

  const INT_LIMIT: int := 0x8000_0000

  /** What the compiler is run with: the mode and the size of the tape. */
  datatype Config = Config(checked: bool, mem: nat)

  function Prologue(cfg: Config): seq<Inst> {
    [Malloc(ARR, cfg.mem), Memset(ARR, 0, cfg.mem)]
    + (if cfg.checked then [Gep(ARRMAX, ARR, cfg.mem)] else [])
    + [Gep(ARRMAX + 1, ARR, cfg.mem / 2)]
  }

  function Entry(cfg: Config): Point {
    Point(0, |Prologue(cfg)|, ARRMAX + 1)
  }

  predicate Footer(cfg: Config, m: Module) {
    && |m| > (if cfg.checked then 2 else 1)
    && m[END] == Block(None, [Free(ARR)], Some(Ret))
    && (cfg.checked ==> m[ABERROR] == Block(None, [PutsMessage], Some(Br(END))))
  }

  /** m is a whole compiled program with command list c between its header and its footer. */
  predicate Compiled(cfg: Config, m: Module, c: Code) {
    && Footer(cfg, m)
    && m[0].phi.None? && Prologue(cfg) <= m[0].insts
    && var q := Follow(cfg.checked, m, c, Entry(cfg));
       && q.Some? && q.value.block < |m|
       && q.value.idx == |m[q.value.block].insts|
       && m[q.value.block].term == Some(Br(END))
  }

  /** malloc answers with cfg.mem bytes whose end is still an address. */
  predicate ValidEnv(cfg: Config, env: Env) {
    |env.junk| == cfg.mem && env.base + cfg.mem < ADDRESSES && cfg.mem < INT_LIMIT
  }

  /** Every coalesced move is an int. */
  predicate MovesFit(c: Code) {
    match c
    case Done => true
    case Seq(op, rest) => (op.Move? ==> -INT_LIMIT <= op.amount < INT_LIMIT) && MovesFit(rest)
    case Loop(body, rest) => MovesFit(body) && MovesFit(rest)
  }

  // ---------------------------------------------------------- addresses

  function Addr(base: nat, head: int): nat {
    (base + head) % ADDRESSES
  }

  predicate Near(cfg: Config, head: int) {
    -INT_LIMIT <= head < cfg.mem + INT_LIMIT
  }

  /** Pointer arithmetic wraps, but one move cannot wrap a head from the tape onto the tape. */
  lemma AddrOnTape(cfg: Config, env: Env, head: int)
    requires ValidEnv(cfg, env) && Near(cfg, head)
    ensures env.base <= Addr(env.base, head) < env.base + cfg.mem <==> 0 <= head < cfg.mem
    ensures 0 <= head < cfg.mem ==> Addr(env.base, head) == env.base + head
  {
    var a := env.base + head;
    if a < 0 {
      assert Addr(env.base, head) == (a + ADDRESSES) % ADDRESSES == a + ADDRESSES;
    } else if a >= ADDRESSES {
      assert Addr(env.base, head) == (a - ADDRESSES) % ADDRESSES == a - ADDRESSES;
    }
  }

  lemma GepAddr(base: nat, head: int, v: int)
    requires -INT_LIMIT <= v < INT_LIMIT
    ensures (Addr(base, head) + Wrap32(v)) % ADDRESSES == Addr(base, head + v)
  {
    assert Wrap32(v) == v;
    var a := base + head;
    assert a == ADDRESSES * (a / ADDRESSES) + a % ADDRESSES;
    ModShift(a % ADDRESSES + v, a / ADDRESSES);
  }

  lemma ModShift(x: int, k: int)
    ensures (x + ADDRESSES * k) % ADDRESSES == x % ADDRESSES
  {
  }

  lemma SextRoundTrip(b: Byte)
    ensures Sext8To32(b) % 256 == b
  {
  }

  // ----------------------------------------------------------- matching

  function Chars(bytes: seq<Byte>): seq<Event> {
    seq(|bytes|, i requires 0 <= i < |bytes| => Char(bytes[i]))
  }

  function WorldOf(env: Env, s: State): World {
    World(Live(env.base, s.tape), s.input, Chars(s.output))
  }

  /** The machine stands at point p and sees what the source sees in state s. */
  predicate At(cfg: Config, env: Env, st: Machine, s: State, p: Point) {
    && st.Running? && st.block == p.block && st.idx == p.idx
    && Sees(cfg, env, st, s, p.head)
  }

  predicate Sees(cfg: Config, env: Env, st: Machine, s: State, head: Reg)
    requires st.Running?
  {
    && st.w == WorldOf(env, s)
    && |s.tape| == cfg.mem
    && head > ARRMAX
    && head in st.regs && st.regs[head] == Ptr(Addr(env.base, s.head))
    && ARR in st.regs && st.regs[ARR] == Ptr(env.base)
    && (cfg.checked ==> ARRMAX in st.regs && st.regs[ARRMAX] == Ptr(env.base + cfg.mem))
  }

  /** What the machine has become once the source has outcome r; q is the point after the code. */
  predicate Matches(cfg: Config, env: Env, st: Machine, r: Outcome, q: Point) {
    match r
    case OutOfFuel => st.Running?
    case Finished(s) => At(cfg, env, st, s, q) && Near(cfg, s.head)
    case Fault(s) => st.Stuck? && st.w.mem == Live(env.base, s.tape) && st.w.output == Chars(s.output)
    case Trapped(s) =>
      && st.Running? && st.block == ABERROR && st.idx == 0
      && st.w == WorldOf(env, s) && ARR in st.regs && st.regs[ARR] == Ptr(env.base)
  }

  lemma {:induction false} Run3(m: Module, env: Env, st: Machine)
    ensures Run(m, env, st, 1) == Step(m, env, st)
    ensures Run(m, env, st, 2) == Step(m, env, Step(m, env, st))
    ensures Run(m, env, st, 3) == Step(m, env, Step(m, env, Step(m, env, st)))
  {
    RunAdd(m, env, st, 1, 1);
    RunAdd(m, env, st, 2, 1);
  }

  lemma CharsAppend(a: seq<Byte>, b: Byte)
    ensures Chars(a + [b]) == Chars(a) + [Char(b)]
  {
  }

  /** What getchar answers, and what it leaves. */
  function Word(input: seq<Byte>): nat { if input == [] then WORDS - 1 else input[0] }

  function Unread(input: seq<Byte>): seq<Byte> { if input == [] then [] else input[1..] }

  /** The three instructions of a read: they get stuck exactly off live memory. */
  lemma {:induction false} ReadRuns(m: Module, env: Env, st: Machine, r: Reg, t: Reg, p: Reg)
    requires st.Running? && st.block < |m| && IsPtr(st.regs, p) && p < r < t
    requires ThreeInsts(m[st.block], st.idx, GetChar(r), Trunc8(t, r), Inst.Store(t, p))
    ensures Run(m, env, st, 3)
         == if InLive(st.w.mem, st.regs[p].addr) then
              var c := Word(st.w.input) % 256;
              Running(st.block, st.idx + 3, st.regs[r := I32(Word(st.w.input))][t := I8(c)],
                      World(Live(st.w.mem.base, st.w.mem.cells[st.regs[p].addr - st.w.mem.base := c]),
                            Unread(st.w.input), st.w.output))
            else Stuck(st.w.(input := Unread(st.w.input)))
  {
    Run3(m, env, st);
  }

  /** A machine with the world of another state and all registers up to the head sees that state. */
  lemma SeesStill(cfg: Config, env: Env, st: Machine, s: State, head: Reg, st': Machine, s': State)
    requires st.Running? && Sees(cfg, env, st, s, head) && st'.Running? && st'.w == WorldOf(env, s')
    requires |s'.tape| == |s.tape| && s'.head == s.head
    requires forall r :: r in st.regs && r <= head ==> r in st'.regs && st'.regs[r] == st.regs[r]
    ensures Sees(cfg, env, st', s', head)
  {
  }

  lemma {:induction false} SimulateRead(cfg: Config, m: Module, env: Env, p: Point, s: State, st: Machine)
    requires ValidEnv(cfg, env)
    requires FollowOp(cfg.checked, m, Read, p).Some?
    requires At(cfg, env, st, s, p) && Near(cfg, s.head)
    ensures Matches(cfg, env, Run(m, env, st, 3), ExecOp(cfg.checked, Read, s), FollowOp(cfg.checked, m, Read, p).value)
  {
    AddrOnTape(cfg, env, s.head);
    var b := m[p.block];
    var r, t := b.insts[p.idx].dst, b.insts[p.idx + 1].dst;
    assert ThreeInsts(b, p.idx, GetChar(r), Trunc8(t, r), Inst.Store(t, p.head)) && p.head < r < t;
    assert FollowOp(cfg.checked, m, Read, p) == Some(p.(idx := p.idx + 3));
    hide FollowOp, Addr, Run, Step, ValidEnv, ThreeInsts;
    ReadRuns(m, env, st, r, t, p.head);
    if OnTape(s) { ReadSees(cfg, env, st, s, p.head, r, t, Run(m, env, st, 3)); }
  }

  lemma ReadSees(cfg: Config, env: Env, st: Machine, s: State, head: Reg, r: Reg, t: Reg, st': Machine)
    requires st.Running? && Sees(cfg, env, st, s, head) && OnTape(s) && head < r < t && st'.Running?
    requires st'.regs == st.regs[r := I32(Word(s.input))][t := I8(Word(s.input) % 256)]
    requires st'.w == World(Live(env.base, s.tape[s.head := Word(s.input) % 256]), Unread(s.input), Chars(s.output))
    ensures Sees(cfg, env, st', ExecOp(cfg.checked, Read, s).s, head)
  {
    var s' := ExecOp(cfg.checked, Read, s).s;
    assert st'.w == WorldOf(env, s');
    hide WorldOf;
    SeesStill(cfg, env, st, s, head, st', s');
  }

  /** The three instructions of a write: they get stuck exactly off live memory. */
  lemma {:induction false} WriteRuns(m: Module, env: Env, st: Machine, r: Reg, t: Reg, p: Reg)
    requires st.Running? && st.block < |m| && IsPtr(st.regs, p)
    requires ThreeInsts(m[st.block], st.idx, Load(r, p), Sext32(t, r), PutChar(t))
    ensures Run(m, env, st, 3)
         == if InLive(st.w.mem, st.regs[p].addr) then
              var c := st.w.mem.cells[st.regs[p].addr - st.w.mem.base];
              Running(st.block, st.idx + 3, st.regs[r := I8(c)][t := I32(Sext8To32(c))],
                      st.w.(output := st.w.output + [Char(Sext8To32(c) % 256)]))
            else Stuck(st.w)
  {
    Run3(m, env, st);
  }

  lemma {:induction false} SimulateWrite(cfg: Config, m: Module, env: Env, p: Point, s: State, st: Machine)
    requires ValidEnv(cfg, env)
    requires FollowOp(cfg.checked, m, Write, p).Some?
    requires At(cfg, env, st, s, p) && Near(cfg, s.head)
    ensures Matches(cfg, env, Run(m, env, st, 3), ExecOp(cfg.checked, Write, s),
                    FollowOp(cfg.checked, m, Write, p).value)
  {
    AddrOnTape(cfg, env, s.head);
    var b := m[p.block];
    var r, t := b.insts[p.idx].dst, b.insts[p.idx + 1].dst;
    assert ThreeInsts(b, p.idx, Load(r, p.head), Sext32(t, r), PutChar(t)) && p.head < r < t;
    assert FollowOp(cfg.checked, m, Write, p) == Some(p.(idx := p.idx + 3));
    hide FollowOp, Addr, Run, Step, Sext8To32;
    WriteRuns(m, env, st, r, t, p.head);
    if OnTape(s) {
      SextRoundTrip(s.tape[s.head]);
      CharsAppend(s.output, s.tape[s.head]);
    }
  }

  lemma AddModulo(b: Byte, v: int)
    ensures (b + v % 256) % 256 == (b + v) % 256
  {
  }

  /** The three instructions of a change: they get stuck exactly off live memory. */
  lemma {:induction false} ChangeRuns(m: Module, env: Env, st: Machine, r: Reg, t: Reg, p: Reg, k: Byte)
    requires st.Running? && st.block < |m| && IsPtr(st.regs, p) && p < r < t
    requires ThreeInsts(m[st.block], st.idx, Load(r, p), Add8(t, r, k), Inst.Store(t, p))
    ensures Run(m, env, st, 3)
         == if InLive(st.w.mem, st.regs[p].addr) then
              var i := st.regs[p].addr - st.w.mem.base;
              var c := st.w.mem.cells[i];
              Running(st.block, st.idx + 3, st.regs[r := I8(c)][t := I8((c + k) % 256)],
                      st.w.(mem := Live(st.w.mem.base, st.w.mem.cells[i := (c + k) % 256])))
            else Stuck(st.w)
  {
    Run3(m, env, st);
  }

  lemma ChangeSees(cfg: Config, env: Env, st: Machine, s: State, head: Reg, r: Reg, t: Reg, v: int, st': Machine)
    requires st.Running? && Sees(cfg, env, st, s, head) && OnTape(s) && head < r < t && st'.Running?
    requires st'.regs == st.regs[r := I8(s.tape[s.head])][t := I8((s.tape[s.head] + v % 256) % 256)]
    requires st'.w == World(Live(env.base, s.tape[s.head := (s.tape[s.head] + v % 256) % 256]),
                            s.input, Chars(s.output))
    ensures Sees(cfg, env, st', ExecOp(cfg.checked, Change(v), s).s, head)
  {
    AddModulo(s.tape[s.head], v);
    var s' := ExecOp(cfg.checked, Change(v), s).s;
    assert st'.w == WorldOf(env, s');
    hide WorldOf;
    SeesStill(cfg, env, st, s, head, st', s');
  }

  lemma {:induction false} SimulateChange(cfg: Config, m: Module, env: Env, v: int, p: Point, s: State, st: Machine)
    requires ValidEnv(cfg, env)
    requires FollowOp(cfg.checked, m, Change(v), p).Some?
    requires At(cfg, env, st, s, p) && Near(cfg, s.head)
    ensures Matches(cfg, env, Run(m, env, st, 3), ExecOp(cfg.checked, Change(v), s),
                    FollowOp(cfg.checked, m, Change(v), p).value)
  {
    AddrOnTape(cfg, env, s.head);
    var b := m[p.block];
    var r, t := b.insts[p.idx].dst, b.insts[p.idx + 1].dst;
    assert ThreeInsts(b, p.idx, Load(r, p.head), Add8(t, r, v % 256), Inst.Store(t, p.head)) && p.head < r < t;
    assert FollowOp(cfg.checked, m, Change(v), p) == Some(p.(idx := p.idx + 3));
    hide FollowOp, Addr, Run, Step, ValidEnv, ThreeInsts;
    ChangeRuns(m, env, st, r, t, p.head, v % 256);
    if OnTape(s) { ChangeSees(cfg, env, st, s, p.head, r, t, v, Run(m, env, st, 3)); }
  }

  lemma {:induction false} SimulateGep(cfg: Config, m: Module, env: Env, v: int, p: Point, s: State, st: Machine)
    requires ValidEnv(cfg, env)
    requires FollowOp(cfg.checked, m, Move(v), p).Some?
    requires At(cfg, env, st, s, p) && -INT_LIMIT <= v < INT_LIMIT
    ensures var h := m[p.block].insts[p.idx].dst;
            At(cfg, env, Run(m, env, st, 1), s.(head := s.head + v), Point(p.block, p.idx + 1, h))
            && (!cfg.checked ==> FollowOp(cfg.checked, m, Move(v), p).value == Point(p.block, p.idx + 1, h))
  {
    GepAddr(env.base, s.head, v);
    Run3(m, env, st);
  }

  /** The registers after the three instructions of a bounds test. */
  lemma {:induction false} TestBits(m: Module, env: Env, st: Machine, h: Reg, a: nat, lo: nat, hi: nat)
    requires st.Running? && st.block < |m| && st.idx + 3 <= |m[st.block].insts| && h > ARRMAX
    requires ThreeInsts(m[st.block], st.idx,
                        IcmpUge(h + 1, h, ARRMAX), IcmpUlt(h + 2, h, ARR), Or1(h + 3, h + 1, h + 2))
    requires h in st.regs && st.regs[h] == Ptr(a) && ARR in st.regs && st.regs[ARR] == Ptr(lo)
    requires ARRMAX in st.regs && st.regs[ARRMAX] == Ptr(hi)
    ensures Run(m, env, st, 3)
         == Running(st.block, st.idx + 3, TestRegs(st.regs, h, a >= hi, a < lo), st.w)
  {
    Run3(m, env, st);
  }

  function TestRegs(regs: Regs, h: Reg, above: bool, below: bool): Regs {
    regs[h + 1 := I1(above)][h + 2 := I1(below)][h + 3 := I1(above || below)]
  }

  /** The branch taken on the outcome of the test. */
  lemma {:induction false} TestBranches(cfg: Config, m: Module, env: Env, s: State, st: Machine, h: Reg, q: BlockId)
    requires Footer(cfg, m) && cfg.checked && Near(cfg, s.head)
    requires st.Running? && st.block < |m| && st.idx == |m[st.block].insts| && Sees(cfg, env, st, s, h)
    requires m[st.block].term == Some(CondBr(h + 3, ABERROR, q)) && q < |m| && m[q].phi.None?
    requires h + 3 in st.regs && st.regs[h + 3] == I1(!OnTape(s))
    ensures Matches(cfg, env, Step(m, env, st), if OnTape(s) then Finished(s) else Trapped(s), Point(q, 0, h))
  {
  }

  /** The test emitted after a checked move compares addresses; it tells exactly whether the head is on the tape. */
  lemma {:induction false} SimulateBoundsTest(cfg: Config, m: Module, env: Env, v: int, p: Point, s: State, st: Machine)
    requires ValidEnv(cfg, env) && Footer(cfg, m) && cfg.checked
    requires FollowOp(cfg.checked, m, Move(v), p).Some?
    requires At(cfg, env, st, s, Point(p.block, p.idx + 1, m[p.block].insts[p.idx].dst)) && Near(cfg, s.head)
    requires p.head > ARRMAX
    ensures Matches(cfg, env, Run(m, env, st, 4), if OnTape(s) then Finished(s) else Trapped(s),
                    FollowOp(cfg.checked, m, Move(v), p).value)
  {
    var b := m[p.block];
    var h := b.insts[p.idx].dst;
    AddrOnTape(cfg, env, s.head);
    assert ThreeInsts(b, p.idx + 1, IcmpUge(h + 1, h, ARRMAX), IcmpUlt(h + 2, h, ARR), Or1(h + 3, h + 1, h + 2));
    assert p.idx + 4 == |b.insts| && b.term == Some(CondBr(h + 3, ABERROR, b.term.value.ifFalse)) && p.head < h;
    var q := b.term.value.ifFalse;
    assert FollowOp(cfg.checked, m, Move(v), p) == Some(Point(q, 0, h)) && q < |m| && m[q].phi.None?;
    var a := Addr(env.base, s.head);
    hide FollowOp, Addr, Run, Step, Footer, Matches;
    TestBits(m, env, st, h, a, env.base, env.base + cfg.mem);
    RunAdd(m, env, st, 3, 1);
    var st3 := Run(m, env, st, 3);
    assert Run(m, env, st3, 1) == Step(m, env, st3) by { Run3(m, env, st3); }
    TestBranches(cfg, m, env, s, st3, h, q);
  }

  lemma {:induction false} SimulateMove(cfg: Config, m: Module, env: Env, v: int, p: Point, s: State, st: Machine)
    returns (n: nat)
    requires ValidEnv(cfg, env) && Footer(cfg, m)
    requires FollowOp(cfg.checked, m, Move(v), p).Some?
    requires At(cfg, env, st, s, p) && OnTape(s) && -INT_LIMIT <= v < INT_LIMIT
    ensures Matches(cfg, env, Run(m, env, st, n), ExecOp(cfg.checked, Move(v), s),
                    FollowOp(cfg.checked, m, Move(v), p).value)
  {
    hide FollowOp, Footer, Run, Step, Addr;
    SimulateGep(cfg, m, env, v, p, s, st);
    n := 1;
    if cfg.checked {
      SimulateBoundsTest(cfg, m, env, v, p, s.(head := s.head + v), Run(m, env, st, 1));
      RunAdd(m, env, st, 1, 4);
      n := 5;
    }
  }

  lemma {:induction false} SimulateOp(cfg: Config, m: Module, env: Env, op: Op, p: Point, s: State, st: Machine)
    returns (n: nat)
    requires ValidEnv(cfg, env) && Footer(cfg, m)
    requires FollowOp(cfg.checked, m, op, p).Some?
    requires At(cfg, env, st, s, p) && Near(cfg, s.head)
    requires op.Move? ==> OnTape(s) && -INT_LIMIT <= op.amount < INT_LIMIT
    ensures Matches(cfg, env, Run(m, env, st, n), ExecOp(cfg.checked, op, s), FollowOp(cfg.checked, m, op, p).value)
  {
    match op
    case Read => SimulateRead(cfg, m, env, p, s, st); n := 3;
    case Write => SimulateWrite(cfg, m, env, p, s, st); n := 3;
    case Change(v) => SimulateChange(cfg, m, env, v, p, s, st); n := 3;
    case Move(v) => n := SimulateMove(cfg, m, env, v, p, s, st);
  }

  /** Where a command list can be simulated from: on the tape, or just off it after a move. */
  predicate Ready(cfg: Config, c: Code, s: State) {
    Near(cfg, s.head) && (OnTape(s) || !StartsWithMove(c)) && Separated(c) && MovesFit(c)
  }

  predicate LoopAt(cfg: Config, m: Module, c: Code, t: BlockId, q: Point)
    requires c.Loop?
  {
    && t < |m| && TestBlock(m, t)
    && m[t].phi.value.incoming[0].from < t
    && var tail := Follow(cfg.checked, m, c.body, Point(m[t].term.value.ifFalse, 0, m[t].phi.value.dst));
       && tail.Some? && LoopTailAt(m, t, tail.value)
       && var exit := m[t].term.value.ifTrue;
          Follow(cfg.checked, m, c.rest, Point(exit, 0, m[exit].phi.value.dst)) == Some(q)
  }

  /** One pass of a loop's test, from the start of its test block to the body or the exit. */
  lemma {:induction false} SimulateTest(cfg: Config, m: Module, env: Env, t: BlockId, s: State, st: Machine)
    requires ValidEnv(cfg, env) && t < |m| && TestBlock(m, t)
    requires At(cfg, env, st, s, Point(t, 0, m[t].phi.value.dst)) && Near(cfg, s.head)
    ensures !OnTape(s) ==> Matches(cfg, env, Run(m, env, st, 1), Fault(s), Point(t, 0, 0))
    ensures OnTape(s) && s.tape[s.head] == 0 ==>
              var exit := m[t].term.value.ifTrue;
              At(cfg, env, Run(m, env, st, 3), s, Point(exit, 0, m[exit].phi.value.dst))
    ensures OnTape(s) && s.tape[s.head] != 0 ==>
              At(cfg, env, Run(m, env, st, 3), s, Point(m[t].term.value.ifFalse, 0, m[t].phi.value.dst))
  {
    AddrOnTape(cfg, env, s.head);
    Run3(m, env, st);
    var x, y := m[t].insts[0].dst, m[t].insts[1].dst;
    assert m[t].insts == [Load(x, m[t].phi.value.dst), IcmpEq8(y, x, 0)];
    if OnTape(s) {
      var st2 := Run(m, env, st, 2);
      assert st2.regs[y] == I1(s.tape[s.head] == 0);
    }
  }

  /** The jump from the end of a loop's body back to its test. */
  lemma {:induction false} SimulateBackEdge(cfg: Config, m: Module, env: Env, t: BlockId, tail: Point, s: State,
                                            st: Machine)
    requires t < |m| && TestBlock(m, t) && LoopTailAt(m, t, tail)
    requires m[t].phi.value.incoming[0].from < t && m[t].phi.value.dst > ARRMAX
    requires At(cfg, env, st, s, tail)
    ensures At(cfg, env, Run(m, env, st, 1), s, Point(t, 0, m[t].phi.value.dst))
  {
    Run3(m, env, st);
    var incoming := m[t].phi.value.incoming;
    assert Choose(incoming, tail.block) == Choose(incoming[1..], tail.block) == Some(tail.head);
  }

  /** The jump into a loop's test. */
  lemma {:induction false} SimulateLoopEntry(cfg: Config, m: Module, env: Env, p: Point, s: State, st: Machine)
    requires LoopHeadAt(m, p) && At(cfg, env, st, s, p)
    ensures var t := m[p.block].term.value.target;
            At(cfg, env, Run(m, env, st, 1), s, Point(t, 0, m[t].phi.value.dst))
  {
    Run3(m, env, st);
    var t := m[p.block].term.value.target;
    assert Choose(m[t].phi.value.incoming, p.block) == Some(p.head);
  }

  /** Code after a loop iteration, a command or a jump: glue two runs together. */
  lemma Then(cfg: Config, m: Module, env: Env, st: Machine, a: nat, b: nat, r: Outcome, q: Point)
    requires Matches(cfg, env, Run(m, env, Run(m, env, st, a), b), r, q)
    ensures Matches(cfg, env, Run(m, env, st, a + b), r, q)
  {
    RunAdd(m, env, st, a, b);
  }

  lemma ExecLoop(checked: bool, c: Code, s: State, fuel: nat)
    requires c.Loop?
    ensures !OnTape(s) ==> Exec(checked, c, s, fuel) == Fault(s)
    ensures OnTape(s) && s.tape[s.head] == 0 ==> Exec(checked, c, s, fuel) == Exec(checked, c.rest, s, fuel)
    ensures OnTape(s) && s.tape[s.head] != 0 && fuel == 0 ==> Exec(checked, c, s, fuel) == OutOfFuel
  {
  }

  lemma {:induction false} SimulateLoop(cfg: Config, m: Module, env: Env, c: Code, t: BlockId, q: Point,
                                        s: State, fuel: nat, st: Machine) returns (n: nat)
    requires ValidEnv(cfg, env) && Footer(cfg, m)
    requires c.Loop? && LoopAt(cfg, m, c, t, q) && Ready(cfg, c, s)
    requires At(cfg, env, st, s, Point(t, 0, m[t].phi.value.dst))
    ensures Matches(cfg, env, Run(m, env, st, n), Exec(cfg.checked, c, s, fuel), q)
    ensures Exec(cfg.checked, c, s, fuel) == OutOfFuel ==> n >= fuel
    decreases fuel, c, 2
  {
    ExecLoop(cfg.checked, c, s, fuel);
    hide Footer, ValidEnv, Step, FollowOp, Follow, Exec, LoopTailAt, Separated, MovesFit;
    SimulateTest(cfg, m, env, t, s, st);
    if !OnTape(s) {
      n := 1;
    } else if s.tape[s.head] == 0 {
      n := SimulateExit(cfg, m, env, c, t, q, s, fuel, st);
    } else if fuel == 0 {
      n := 0;
    } else {
      n := SimulateIteration(cfg, m, env, c, t, q, s, fuel, st);
    }
  }

  lemma {:induction false} SimulateExit(cfg: Config, m: Module, env: Env, c: Code, t: BlockId, q: Point,
                                        s: State, fuel: nat, st: Machine) returns (n: nat)
    requires ValidEnv(cfg, env) && Footer(cfg, m)
    requires c.Loop? && LoopAt(cfg, m, c, t, q) && Ready(cfg, c, s) && OnTape(s)
    requires var exit := m[t].term.value.ifTrue;
             At(cfg, env, Run(m, env, st, 3), s, Point(exit, 0, m[exit].phi.value.dst))
    ensures Matches(cfg, env, Run(m, env, st, n), Exec(cfg.checked, c.rest, s, fuel), q)
    ensures Exec(cfg.checked, c.rest, s, fuel) == OutOfFuel ==> n >= fuel
    decreases fuel, c, 0
  {
    hide Footer, ValidEnv, Run, Step, FollowOp, Follow, Exec, LoopTailAt, At, Matches;
    var exit := m[t].term.value.ifTrue;
    var k := Simulate(cfg, m, env, c.rest, Point(exit, 0, m[exit].phi.value.dst), s, fuel, Run(m, env, st, 3));
    Then(cfg, m, env, st, 3, k, Exec(cfg.checked, c.rest, s, fuel), q);
    n := 3 + k;
  }

  lemma {:induction false} SimulateIteration(cfg: Config, m: Module, env: Env, c: Code, t: BlockId, q: Point,
                                             s: State, fuel: nat, st: Machine) returns (n: nat)
    requires ValidEnv(cfg, env) && Footer(cfg, m)
    requires c.Loop? && LoopAt(cfg, m, c, t, q) && Ready(cfg, c, s)
    requires OnTape(s) && s.tape[s.head] != 0 && fuel > 0
    requires At(cfg, env, st, s, Point(t, 0, m[t].phi.value.dst))
    requires At(cfg, env, Run(m, env, st, 3), s, Point(m[t].term.value.ifFalse, 0, m[t].phi.value.dst))
    ensures Matches(cfg, env, Run(m, env, st, n), Exec(cfg.checked, c, s, fuel), q)
    ensures Exec(cfg.checked, c, s, fuel) == OutOfFuel ==> n >= fuel
    decreases fuel - 1, c, 4
  {
    hide Footer, ValidEnv, Run, Follow, FollowOp, Step;
    var start := Point(m[t].term.value.ifFalse, 0, m[t].phi.value.dst);
    var tail := Follow(cfg.checked, m, c.body, start).value;
    var k := Simulate(cfg, m, env, c.body, start, s, fuel - 1, Run(m, env, st, 3));
    var r := Exec(cfg.checked, c.body, s, fuel - 1);
    Then(cfg, m, env, st, 3, k, r, tail);
    n := 3 + k;
    if r.Finished? {
      var stTail := Run(m, env, st, n);
      SimulateBackEdge(cfg, m, env, t, tail, r.s, stTail);
      var k' := SimulateLoop(cfg, m, env, c, t, q, r.s, fuel - 1, Run(m, env, stTail, 1));
      Then(cfg, m, env, stTail, 1, k', Exec(cfg.checked, c, r.s, fuel - 1), q);
      Then(cfg, m, env, st, n, 1 + k', Exec(cfg.checked, c, r.s, fuel - 1), q);
      n := n + (1 + k');
    }
  }

  /** The heart of the compiler's correctness: code in place does what its command list says. */
  lemma {:induction false} Simulate(cfg: Config, m: Module, env: Env, c: Code, p: Point,
                                    s: State, fuel: nat, st: Machine) returns (n: nat)
    requires ValidEnv(cfg, env) && Footer(cfg, m)
    requires Follow(cfg.checked, m, c, p).Some? && Ready(cfg, c, s)
    requires At(cfg, env, st, s, p)
    ensures Matches(cfg, env, Run(m, env, st, n), Exec(cfg.checked, c, s, fuel), Follow(cfg.checked, m, c, p).value)
    ensures Exec(cfg.checked, c, s, fuel) == OutOfFuel ==> n >= fuel
    decreases fuel, c, 3
  {
    hide Footer, ValidEnv, TestBlock, LoopTailAt, FollowOp, Step;
    var q := Follow(cfg.checked, m, c, p).value;
    var out := Exec(cfg.checked, c, s, fuel);
    match c
    case Done =>
      n := 0;
    case Seq(op, rest) =>
      n := SimulateOp(cfg, m, env, op, p, s, st);
      var r := ExecOp(cfg.checked, op, s);
      if r.Finished? {
        var k := Simulate(cfg, m, env, rest, FollowOp(cfg.checked, m, op, p).value, r.s, fuel, Run(m, env, st, n));
        Then(cfg, m, env, st, n, k, out, q);
        n := n + k;
      } else {
        assert Matches(cfg, env, Run(m, env, st, n), out, q);
      }
    case Loop(body, rest) =>
      var t := m[p.block].term.value.target;
      SimulateLoopEntry(cfg, m, env, p, s, st);
      var k := SimulateLoop(cfg, m, env, c, t, q, s, fuel, Run(m, env, st, 1));
      Then(cfg, m, env, st, 1, k, out, q);
      n := 1 + k;
      assert Matches(cfg, env, Run(m, env, st, n), out, q);
  }
}
