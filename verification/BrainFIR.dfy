// The part of the intermediate representation that the BrainF compiler emits:
// blocks of instructions in single-assignment form, and a machine that runs them.
module BrainFIR {
  import opened Options
  import opened BrainFSource

  type Reg = nat
  type BlockId = nat

  datatype Inst =
    | Malloc(dst: Reg, size: nat)
    | Memset(ptr: Reg, val: Byte, len: nat)
    | Gep(dst: Reg, base: Reg, offset: int)      // offset already sign extended
    | Load(dst: Reg, ptr: Reg)
    | Store(arg: Reg, ptr: Reg)
    | Add8(dst: Reg, lhs: Reg, k: Byte)
    | Trunc8(dst: Reg, arg: Reg)
    | Sext32(dst: Reg, arg: Reg)
    | IcmpUge(dst: Reg, lhs: Reg, rhs: Reg)
    | IcmpUlt(dst: Reg, lhs: Reg, rhs: Reg)
    | IcmpEq8(dst: Reg, lhs: Reg, k: Byte)
    | Or1(dst: Reg, lhs: Reg, rhs: Reg)
    | GetChar(dst: Reg)
    | PutChar(arg: Reg)
    | PutsMessage
    | Free(ptr: Reg)

  /** What an instruction defines: one register or none. */
  function Dst(i: Inst): set<Reg> {
    match i
    case Memset(_, _, _) => {}
    case Store(_, _) => {}
    case PutChar(_) => {}
    case PutsMessage => {}
    case Free(_) => {}
    case _ => {i.dst}
  }

  datatype Term = Br(target: BlockId) | CondBr(cond: Reg, ifTrue: BlockId, ifFalse: BlockId) | Ret

  datatype Incoming = Incoming(value: Reg, from: BlockId)

  datatype Phi = Phi(dst: Reg, incoming: seq<Incoming>)

  /** BrainF never puts more than one phi in a block. A block under construction has no terminator. */
  datatype Block = Block(phi: Option<Phi>, insts: seq<Inst>, term: Option<Term>)

  type Module = seq<Block>

  // ------------------------------------------------------------- machine

  datatype Val = Ptr(addr: nat) | I8(byte: Byte) | I32(word: nat) | I1(bit: bool)

  datatype Memory = Unallocated | Live(base: nat, cells: seq<Byte>) | Freed(base: nat, cells: seq<Byte>)

  /** What the program prints: characters, and the message of the error block. */
  datatype Event = Char(c: Byte) | OffTapeMessage

  datatype World = World(mem: Memory, input: seq<Byte>, output: seq<Event>)

  type Regs = map<Reg, Val>

  /** Stuck stands for undefined behaviour: an access outside live memory, an undefined
      or ill-typed register, a phi without an entry for its predecessor, a missing block
      or terminator. */
  datatype Machine =
    | Running(block: BlockId, idx: nat, regs: Regs, w: World)
    | Halted(w: World)
    | Stuck(w: World)

  /** What malloc will answer: an address, and what the memory there held. */
  datatype Env = Env(base: nat, junk: seq<Byte>)

  const ADDRESSES: nat := 0x1_0000_0000_0000_0000
  const WORDS: nat := 0x1_0000_0000

  predicate IsPtr(regs: Regs, r: Reg) { r in regs && regs[r].Ptr? }

  predicate IsI8(regs: Regs, r: Reg) { r in regs && regs[r].I8? }

  predicate IsI32(regs: Regs, r: Reg) { r in regs && regs[r].I32? }

  predicate IsI1(regs: Regs, r: Reg) { r in regs && regs[r].I1? }

  predicate InLive(mem: Memory, addr: nat) {
    mem.Live? && mem.base <= addr < mem.base + |mem.cells|
  }

  function Sext8To32(b: Byte): nat {
    if b < 128 then b else WORDS - 256 + b
  }

  /** One instruction; None is undefined behaviour. */
  function ExecInst(env: Env, i: Inst, regs: Regs, w: World): Option<(Regs, World)> {
    match i
    case Malloc(d, size) =>
      if w.mem.Unallocated? && |env.junk| == size
      then Some((regs[d := Ptr(env.base)], w.(mem := Live(env.base, env.junk)))) else None
    case Memset(p, v, len) =>
      if IsPtr(regs, p) && w.mem.Live? && regs[p].addr == w.mem.base && |w.mem.cells| == len
      then Some((regs, w.(mem := Live(w.mem.base, seq(len, _ => v))))) else None
    case Gep(d, b, k) =>
      if IsPtr(regs, b) then Some((regs[d := Ptr((regs[b].addr + k) % ADDRESSES)], w)) else None
    case Load(d, p) =>
      if IsPtr(regs, p) && InLive(w.mem, regs[p].addr)
      then Some((regs[d := I8(w.mem.cells[regs[p].addr - w.mem.base])], w)) else None
    case Store(v, p) =>
      if IsPtr(regs, p) && InLive(w.mem, regs[p].addr) && IsI8(regs, v)
      then Some((regs, w.(mem := Live(w.mem.base, w.mem.cells[regs[p].addr - w.mem.base := regs[v].byte])))) else None
    case Add8(d, a, k) =>
      if IsI8(regs, a) then Some((regs[d := I8((regs[a].byte + k) % 256)], w)) else None
    case Trunc8(d, a) =>
      if IsI32(regs, a) then Some((regs[d := I8(regs[a].word % 256)], w)) else None
    case Sext32(d, a) =>
      if IsI8(regs, a) then Some((regs[d := I32(Sext8To32(regs[a].byte))], w)) else None
    case IcmpUge(d, a, b) =>
      if IsPtr(regs, a) && IsPtr(regs, b) then Some((regs[d := I1(regs[a].addr >= regs[b].addr)], w)) else None
    case IcmpUlt(d, a, b) =>
      if IsPtr(regs, a) && IsPtr(regs, b) then Some((regs[d := I1(regs[a].addr < regs[b].addr)], w)) else None
    case IcmpEq8(d, a, k) =>
      if IsI8(regs, a) then Some((regs[d := I1(regs[a].byte == k)], w)) else None
    case Or1(d, a, b) =>
      if IsI1(regs, a) && IsI1(regs, b) then Some((regs[d := I1(regs[a].bit || regs[b].bit)], w)) else None
    case GetChar(d) =>                              // end of input is -1
      if w.input == [] then Some((regs[d := I32(WORDS - 1)], w))
      else Some((regs[d := I32(w.input[0])], w.(input := w.input[1..])))
    case PutChar(a) =>                              // putchar writes its argument as an unsigned char
      if IsI32(regs, a) then Some((regs, w.(output := w.output + [Char(regs[a].word % 256)]))) else None
    case PutsMessage =>
      Some((regs, w.(output := w.output + [OffTapeMessage])))
    case Free(p) =>
      if IsPtr(regs, p) && w.mem.Live? && regs[p].addr == w.mem.base
      then Some((regs, w.(mem := Freed(w.mem.base, w.mem.cells)))) else None
  }

  /** The register a phi takes its value from when control arrives from a block. */
  function Choose(incoming: seq<Incoming>, from: BlockId): Option<Reg> {
    if incoming == [] then None
    else if incoming[0].from == from then Some(incoming[0].value)
    else Choose(incoming[1..], from)
  }

  function Jump(m: Module, from: BlockId, target: BlockId, regs: Regs, w: World): Machine {
    if target >= |m| then Stuck(w)
    else match m[target].phi
      case None => Running(target, 0, regs, w)
      case Some(phi) =>
        match Choose(phi.incoming, from)
        case Some(r) => if r in regs then Running(target, 0, regs[phi.dst := regs[r]], w) else Stuck(w)
        case None => Stuck(w)
  }

  function Step(m: Module, env: Env, st: Machine): Machine {
    if !st.Running? then st
    else if st.block >= |m| then Stuck(st.w)
    else
      var b := m[st.block];
      if st.idx < |b.insts| then
        match ExecInst(env, b.insts[st.idx], st.regs, st.w)
        case Some((regs, w)) => Running(st.block, st.idx + 1, regs, w)
        case None => Stuck(st.w)
      else match b.term
        case None => Stuck(st.w)
        case Some(Br(t)) => Jump(m, st.block, t, st.regs, st.w)
        case Some(CondBr(c, t, f)) =>
          if IsI1(st.regs, c) then Jump(m, st.block, if st.regs[c].bit then t else f, st.regs, st.w)
          else Stuck(st.w)
        case Some(Ret) => Halted(st.w)
  }

  function Run(m: Module, env: Env, st: Machine, n: nat): Machine
    decreases n
  {
    if n == 0 then st else Run(m, env, Step(m, env, st), n - 1)
  }

  lemma {:induction false} RunAdd(m: Module, env: Env, st: Machine, a: nat, b: nat)
    ensures Run(m, env, st, a + b) == Run(m, env, Run(m, env, st, a), b)
    decreases a
  {
    if a > 0 { RunAdd(m, env, Step(m, env, st), a - 1, b); }
  }

  /** A machine that has stopped stays as it is. */
  lemma {:induction false} StoppedStays(m: Module, env: Env, st: Machine, a: nat, b: nat)
    requires a <= b && !Run(m, env, st, a).Running?
    ensures Run(m, env, st, b) == Run(m, env, st, a)
    decreases b
  {
    if b > a {
      StoppedStays(m, env, st, a, b - 1);
      RunAdd(m, env, st, b - 1, 1);
    }
  }

  function Start(input: seq<Byte>): Machine {
    Running(0, 0, map[], World(Unallocated, input, []))
  }
}
