// A whole compiled program against the character-at-a-time reference.
module BrainFCorrectness {
  import opened Options
  import opened BrainFSource
  import opened BrainFIR
  import opened BrainFLayout
  import opened BrainFSimulation

  /** The machine a terminating source program must lead to. */
  predicate Expected(cfg: Config, env: Env, r: Outcome, st: Machine) {
    match r
    case OutOfFuel => st.Running?
    case Finished(s) =>
      var message := if cfg.checked && !OnTape(s) then [OffTapeMessage] else [];
      st == Halted(World(Freed(env.base, s.tape), s.input, Chars(s.output) + message))
    case Fault(s) =>
      if cfg.checked then st == Halted(World(Freed(env.base, s.tape), s.input, Chars(s.output) + [OffTapeMessage]))
      else st.Stuck? && st.w.mem == Live(env.base, s.tape) && st.w.output == Chars(s.output)
    case Trapped(s) => false
  }

  lemma {:induction false} PrologueRuns(cfg: Config, m: Module, c: Code, env: Env, input: seq<Byte>)
    requires Compiled(cfg, m, c) && ValidEnv(cfg, env)
    ensures At(cfg, env, Run(m, env, Start(input), |Prologue(cfg)|), Init(cfg.mem, input), Entry(cfg))
  {
    hide Follow, Footer;
    var st := Start(input);
    var pre := Prologue(cfg);
    assert forall k :: 0 <= k < |pre| ==> m[0].insts[k] == pre[k];
    AllocationRuns(cfg, m, env, input);
    hide Run, Step, Init;
    PointersRun(cfg, m, env, Run(m, env, st, 2));
    RunAdd(m, env, st, 2, |pre| - 2);
    EntrySees(cfg, m, env, input, Run(m, env, st, |pre|));
  }

  /** The end of the tape, in checked mode, and its middle. */
  lemma {:induction false} PointersRun(cfg: Config, m: Module, env: Env, st: Machine)
    requires |m| > 0 && Prologue(cfg) <= m[0].insts && ValidEnv(cfg, env)
    requires st.Running? && st.block == 0 && st.idx == 2 && st.regs == map[ARR := Ptr(env.base)]
    ensures Run(m, env, st, |Prologue(cfg)| - 2)
         == Running(0, |Prologue(cfg)|, PrologueRegs(cfg, env), st.w)
  {
    var pre := Prologue(cfg);
    assert forall k :: 0 <= k < |pre| ==> m[0].insts[k] == pre[k];
    Run3(m, env, st);
  }

  function PrologueRegs(cfg: Config, env: Env): Regs {
    (if cfg.checked then map[ARR := Ptr(env.base), ARRMAX := Ptr((env.base + cfg.mem) % ADDRESSES)]
     else map[ARR := Ptr(env.base)])[ARRMAX + 1 := Ptr((env.base + cfg.mem / 2) % ADDRESSES)]
  }

  lemma {:induction false} EntrySees(cfg: Config, m: Module, env: Env, input: seq<Byte>, st: Machine)
    requires ValidEnv(cfg, env)
    requires st == Running(0, |Prologue(cfg)|, PrologueRegs(cfg, env),
                           World(Live(env.base, Init(cfg.mem, input).tape), input, []))
    ensures At(cfg, env, st, Init(cfg.mem, input), Entry(cfg))
  {
  }

  lemma {:induction false} AllocationRuns(cfg: Config, m: Module, env: Env, input: seq<Byte>)
    requires |m| > 0 && |m[0].insts| > 2 && |env.junk| == cfg.mem
    requires m[0].insts[0] == Malloc(ARR, cfg.mem) && m[0].insts[1] == Memset(ARR, 0, cfg.mem)
    ensures Run(m, env, Start(input), 2)
         == Running(0, 2, map[ARR := Ptr(env.base)], World(Live(env.base, Init(cfg.mem, input).tape), input, []))
  {
    Run3(m, env, Start(input));
    var zeros: seq<Byte> := seq(cfg.mem, _ => 0);
    assert Run(m, env, Start(input), 2).w.mem == Live(env.base, zeros);
    assert Init(cfg.mem, input).tape == zeros;
  }

  lemma {:induction false} EpilogueRuns(cfg: Config, m: Module, env: Env, st: Machine)
    requires Footer(cfg, m)
    requires st.Running? && st.block == END && st.idx == 0
    requires st.w.mem.Live? && ARR in st.regs && st.regs[ARR] == Ptr(st.w.mem.base)
    ensures Run(m, env, st, 2) == Halted(st.w.(mem := Freed(st.w.mem.base, st.w.mem.cells)))
  {
    Run3(m, env, st);
  }

  lemma {:induction false} FinishRuns(cfg: Config, m: Module, env: Env, s: State, q: Point, st: Machine)
    requires Footer(cfg, m) && q.block < |m|
    requires q.idx == |m[q.block].insts| && m[q.block].term == Some(Br(END))
    requires At(cfg, env, st, s, q)
    ensures Run(m, env, st, 3) == Halted(World(Freed(env.base, s.tape), s.input, Chars(s.output)))
  {
    Run3(m, env, st);
    EpilogueRuns(cfg, m, env, Run(m, env, st, 1));
    RunAdd(m, env, st, 1, 2);
  }

  lemma TrapRuns(cfg: Config, m: Module, env: Env, s: State, q: Point, st: Machine)
    requires Footer(cfg, m) && cfg.checked
    requires Matches(cfg, env, st, Trapped(s), q)
    ensures Run(m, env, st, 4) ==
            Halted(World(Freed(env.base, s.tape), s.input, Chars(s.output) + [OffTapeMessage]))
  {
    Run3(m, env, st);
    EpilogueRuns(cfg, m, env, Run(m, env, st, 2));
    RunAdd(m, env, st, 2, 2);
  }

  /** In unchecked mode nothing traps. */
  lemma {:induction false} UncheckedNeverTraps(c: Code, s: State, fuel: nat)
    ensures !Exec(false, c, s, fuel).Trapped?
    decreases fuel, c
  {
    match c
    case Done =>
    case Seq(op, rest) =>
      var r := ExecOp(false, op, s);
      if r.Finished? { UncheckedNeverTraps(rest, r.s, fuel); }
    case Loop(body, rest) =>
      if OnTape(s) {
        if s.tape[s.head] == 0 {
          UncheckedNeverTraps(rest, s, fuel);
        } else if fuel > 0 {
          UncheckedNeverTraps(body, s, fuel - 1);
          var r := Exec(false, body, s, fuel - 1);
          if r.Finished? { UncheckedNeverTraps(c, r.s, fuel - 1); }
        }
      }
  }

  /** The outcome of the coalesced program in the compiler's mode, from the outcome of the reference. */
  lemma ReferenceOutcome(cfg: Config, unit: Code, input: seq<Byte>, fuel: nat)
    requires cfg.mem > 0
    ensures var r := Exec(false, unit, Init(cfg.mem, input), fuel);
            Exec(cfg.checked, Coalesce(unit), Init(cfg.mem, input), fuel) == if cfg.checked then Checked(r) else r
    ensures !Exec(false, unit, Init(cfg.mem, input), fuel).Trapped?
  {
    CoalescePreserves(unit, Init(cfg.mem, input), fuel);
    CoalesceSeparates(unit);
    UncheckedNeverTraps(unit, Init(cfg.mem, input), fuel);
    if cfg.checked { CheckingIsExact(Coalesce(unit), Init(cfg.mem, input), fuel); }
  }

  /** Compilation preserves meaning. Whatever the source does with some fuel, the
      compiled program does in some number of steps n: it ends with the same output,
      unread input and tape, it faults or reports where the source leaves the tape, and
      while the source is out of fuel it is still running after at least that many steps. */
  lemma CompilationPreserves(cfg: Config, m: Module, unit: Code, env: Env, input: seq<Byte>, fuel: nat)
    returns (n: nat)
    requires Compiled(cfg, m, Coalesce(unit)) && MovesFit(Coalesce(unit)) && ValidEnv(cfg, env) && cfg.mem > 0
    ensures Expected(cfg, env, Exec(false, unit, Init(cfg.mem, input), fuel), Run(m, env, Start(input), n))
    ensures Exec(false, unit, Init(cfg.mem, input), fuel) == OutOfFuel ==> n >= fuel
  {
    hide Compiled, Follow, Run, Footer, Step, ValidEnv;
    var c := Coalesce(unit);
    var s0 := Init(cfg.mem, input);
    var st0 := Start(input);
    var a := |Prologue(cfg)|;
    var q := CompiledEnd(cfg, m, c);
    CoalesceSeparates(unit);
    ReferenceOutcome(cfg, unit, input, fuel);
    PrologueRuns(cfg, m, c, env, input);
    var st1 := Run(m, env, st0, a);
    var k := Simulate(cfg, m, env, c, Entry(cfg), s0, fuel, st1);
    RunAdd(m, env, st0, a, k);
    n := a + k;
    var st2 := Run(m, env, st0, n);
    match Exec(cfg.checked, c, s0, fuel)
    case OutOfFuel =>
    case Fault(s) =>
    case Finished(s) =>
      FinishRuns(cfg, m, env, s, q, st2);
      RunAdd(m, env, st0, n, 3);
      n := n + 3;
      assert Chars(s.output) + [] == Chars(s.output);
    case Trapped(s) =>
      TrapRuns(cfg, m, env, s, q, st2);
      RunAdd(m, env, st0, n, 4);
      n := n + 4;
  }

  lemma CompiledEnd(cfg: Config, m: Module, c: Code) returns (q: Point)
    requires Compiled(cfg, m, c)
    ensures Footer(cfg, m)
    ensures Follow(cfg.checked, m, c, Entry(cfg)) == Some(q)
    ensures q.block < |m| && q.idx == |m[q.block].insts| && m[q.block].term == Some(Br(END))
  {
    q := Follow(cfg.checked, m, c, Entry(cfg)).value;
  }

  ghost predicate ProgramDiverges(m: Module, env: Env, input: seq<Byte>) {
    forall n :: Run(m, env, Start(input), n).Running?
  }

  /** The compiled program runs forever exactly when the source does. */
  lemma DivergencePreserved(cfg: Config, m: Module, unit: Code, env: Env, input: seq<Byte>)
    requires Compiled(cfg, m, Coalesce(unit)) && MovesFit(Coalesce(unit)) && ValidEnv(cfg, env) && cfg.mem > 0
    ensures SourceDiverges(unit, cfg.mem, input) <==> ProgramDiverges(m, env, input)
  {
    hide Compiled, MovesFit, Run, Exec;
    if SourceDiverges(unit, cfg.mem, input) {
      forall n ensures Run(m, env, Start(input), n).Running? {
        var k := CompilationPreserves(cfg, m, unit, env, input, n);
        assert Exec(false, unit, Init(cfg.mem, input), n) == OutOfFuel;
        if !Run(m, env, Start(input), n).Running? { StoppedStays(m, env, Start(input), n, k); }
      }
    } else {
      var fuel :| Exec(false, unit, Init(cfg.mem, input), fuel) != OutOfFuel;
      var k := CompilationPreserves(cfg, m, unit, env, input, fuel);
      assert !Run(m, env, Start(input), k).Running?;
    }
  }

  /** Conversely: a compiled program that stops, in whatever number of steps, stops
      as the reference says, so its behaviour determines nothing the source did not. */
  lemma StopsAsTheSource(cfg: Config, m: Module, unit: Code, env: Env, input: seq<Byte>, n: nat) returns (fuel: nat)
    requires Compiled(cfg, m, Coalesce(unit)) && MovesFit(Coalesce(unit)) && ValidEnv(cfg, env) && cfg.mem > 0
    requires !Run(m, env, Start(input), n).Running?
    ensures Exec(false, unit, Init(cfg.mem, input), fuel) != OutOfFuel
    ensures Expected(cfg, env, Exec(false, unit, Init(cfg.mem, input), fuel), Run(m, env, Start(input), n))
  {
    hide Compiled, MovesFit, Run, Exec;
    DivergencePreserved(cfg, m, unit, env, input);
    fuel :| Exec(false, unit, Init(cfg.mem, input), fuel) != OutOfFuel;
    var k := CompilationPreserves(cfg, m, unit, env, input, fuel);
    if k <= n { StoppedStays(m, env, Start(input), k, n); } else { StoppedStays(m, env, Start(input), n, k); }
  }

  /** With bounds checking on no reachable machine state is stuck: no access off the tape,
      no use of an undefined register, no missing block, terminator or phi entry, whatever the
      program and its input. */
  lemma CheckedIsSafe(cfg: Config, m: Module, unit: Code, env: Env, input: seq<Byte>, n: nat)
    requires Compiled(cfg, m, Coalesce(unit)) && MovesFit(Coalesce(unit)) && ValidEnv(cfg, env) && cfg.mem > 0
    requires cfg.checked
    ensures !Run(m, env, Start(input), n).Stuck?
  {
    if !Run(m, env, Start(input), n).Running? {
      var fuel := StopsAsTheSource(cfg, m, unit, env, input, n);
    }
  }

  /** Without bounds checking the only stuck states are accesses off the tape that the source itself makes. */
  lemma UncheckedSticksOnlyOnFaults(cfg: Config, m: Module, unit: Code, env: Env, input: seq<Byte>)
    requires Compiled(cfg, m, Coalesce(unit)) && MovesFit(Coalesce(unit)) && ValidEnv(cfg, env) && cfg.mem > 0
    requires !cfg.checked
    ensures (exists n :: Run(m, env, Start(input), n).Stuck?) <==>
            (exists fuel :: Exec(false, unit, Init(cfg.mem, input), fuel).Fault?)
  {
    hide Compiled, MovesFit, Run, Exec;
    if n :| Run(m, env, Start(input), n).Stuck? {
      var fuel := StopsAsTheSource(cfg, m, unit, env, input, n);
      assert Exec(false, unit, Init(cfg.mem, input), fuel).Fault?;
    }
    if fuel :| Exec(false, unit, Init(cfg.mem, input), fuel).Fault? {
      var n := CompilationPreserves(cfg, m, unit, env, input, fuel);
      assert Run(m, env, Start(input), n).Stuck?;
    }
  }
}
