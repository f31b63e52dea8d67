// The end-to-end statement about BrainF::parse.
module BrainFCompiler {
  import opened BrainFSource
  import opened BrainFText
  import opened BrainFIR
  import opened BrainFSimulation
  import opened BrainFWellFormed
  import opened BrainFSingle
  import opened BrainFCorrectness
  import opened BrainFEmitter
  import BrainFDominance

  /** m behaves as the text does: for every malloc answer and every input. */
  ghost predicate Implements(cfg: Config, m: Module, unit: Code) {
    forall env, input: seq<Byte> :: ValidEnv(cfg, env) ==> ImplementsOn(cfg, m, unit, env, input)
  }

  ghost predicate ImplementsOn(cfg: Config, m: Module, unit: Code, env: Env, input: seq<Byte>) {
    && (SourceDiverges(unit, cfg.mem, input) <==> ProgramDiverges(m, env, input))
    && (forall fuel :: exists n ::
          Expected(cfg, env, Exec(false, unit, Init(cfg.mem, input), fuel), Run(m, env, Start(input), n)))
    && (cfg.checked ==> forall n :: !Run(m, env, Start(input), n).Stuck?)
  }

  lemma CompiledImplements(cfg: Config, m: Module, unit: Code)
    requires Compiled(cfg, m, Coalesce(unit)) && MovesFit(Coalesce(unit)) && cfg.mem > 0
    ensures Implements(cfg, m, unit)
  {
    hide Compiled, MovesFit, Run, Exec, Expected, ValidEnv;
    forall env, input: seq<Byte> | ValidEnv(cfg, env) ensures ImplementsOn(cfg, m, unit, env, input) {
      DivergencePreserved(cfg, m, unit, env, input);
      forall fuel ensures exists n ::
          Expected(cfg, env, Exec(false, unit, Init(cfg.mem, input), fuel), Run(m, env, Start(input), n))
      {
        var n := CompilationPreserves(cfg, m, unit, env, input, fuel);
      }
      if cfg.checked {
        forall n ensures !Run(m, env, Start(input), n).Stuck? { CheckedIsSafe(cfg, m, unit, env, input, n); }
      }
    }
  }

  /** m behaves as the text does when it is read one character at a time: both run for ever or
      neither, and where the reader stops, at the end or at an access off the tape, the module
      answers as expected, for every malloc answer and every input. */
  ghost predicate ImplementsText(cfg: Config, m: Module, text: string) {
    forall env, input: seq<Byte> :: ValidEnv(cfg, env) ==> ImplementsTextOn(cfg, m, text, env, input)
  }

  ghost predicate ImplementsTextOn(cfg: Config, m: Module, text: string, env: Env, input: seq<Byte>) {
    && (ReaderDiverges(text, Init(cfg.mem, input)) <==> ProgramDiverges(m, env, input))
    && (forall n :: AnsweredAt(cfg, m, text, env, input, n))
    && (cfg.checked ==> forall n :: !Run(m, env, Start(input), n).Stuck?)
  }

  ghost predicate AnsweredAt(cfg: Config, m: Module, text: string, env: Env, input: seq<Byte>, n: nat) {
    var q := RunText(text, At(0, Init(cfg.mem, input)), n);
    !q.At? ==> exists k :: Expected(cfg, env, OutcomeOf(q), Run(m, env, Start(input), k))
  }

  lemma TextAnswered(cfg: Config, m: Module, text: string, env: Env, input: seq<Byte>, n: nat)
    requires Balanced(text) && ImplementsOn(cfg, m, Parse(text, 0).code, env, input)
    ensures AnsweredAt(cfg, m, text, env, input, n)
  {
    hide Balanced, Parse, Run, RunText, Exec, Expected;
    var s := Init(cfg.mem, input);
    if !RunText(text, At(0, s), n).At? {
      var fuel := ReaderIsReference(text, s, n);
      assert exists k :: Expected(cfg, env, Exec(false, Parse(text, 0).code, s, fuel), Run(m, env, Start(input), k));
    }
  }

  lemma TextImplemented(cfg: Config, m: Module, text: string)
    requires Balanced(text) && Implements(cfg, m, Parse(text, 0).code)
    ensures ImplementsText(cfg, m, text)
  {
    hide Balanced, Parse, Run, RunText, Exec, Expected, ValidEnv, AnsweredAt;
    forall env, input: seq<Byte> | ValidEnv(cfg, env) ensures ImplementsTextOn(cfg, m, text, env, input) {
      assert ImplementsOn(cfg, m, Parse(text, 0).code, env, input);
      ReaderDivergence(text, cfg.mem, input);
      forall n: nat ensures AnsweredAt(cfg, m, text, env, input, n) {
        TextAnswered(cfg, m, text, env, input, n);
      }
    }
  }

  /** Compilation succeeds exactly on balanced texts, and says which way the others fail.
      The module it yields is well formed and, with at least one cell of tape and moves that
      fit an int, implements the text. */
  method CompileText(text: string, cfg: Config) returns (status: Status, m: Module)
    ensures status == Ok <==> Balanced(text)
    ensures status == ExtraClose <==> exists n :: 0 <= n <= |text| && Depth(text, n) < 0
    ensures status == Ok ==> PhisMatch(m) && AllTerminated(m) && Compiled(cfg, m, CoalescedAt(text, 0).code)
    ensures status == Ok ==> BrainFDominance.DefinitionsDominateUses(m) && DefinedOnce(m)
    ensures status == Ok && cfg.mem > 0 && MovesFit(CoalescedAt(text, 0).code) ==>
              Implements(cfg, m, Parse(text, 0).code) && ImplementsText(cfg, m, text)
  {
    EndingByCounting(text);
    var compiler := new BrainF(text, cfg);
    status := compiler.ParseProgram();
    m := compiler.blocks;
    if status == Ok { BrainFDominance.CompiledDominates(cfg, m, CoalescedAt(text, 0).code); }
    if status == Ok && cfg.mem > 0 && MovesFit(CoalescedAt(text, 0).code) {
      CompiledImplements(cfg, m, Parse(text, 0).code);
      TextImplemented(cfg, m, text);
    }
  }

  predicate MovesWithin(c: Code, k: int) {
    match c
    case Done => true
    case Seq(op, rest) => (op.Move? ==> -k <= op.amount <= k) && MovesWithin(rest, k)
    case Loop(body, rest) => MovesWithin(body, k) && MovesWithin(rest, k)
  }

  lemma {:induction false} MovesWiden(c: Code, k: int, k': int)
    requires MovesWithin(c, k) && k <= k'
    ensures MovesWithin(c, k')
  {
    match c
    case Done =>
    case Seq(op, rest) => MovesWiden(rest, k, k');
    case Loop(body, rest) => MovesWiden(body, k, k'); MovesWiden(rest, k, k');
  }

  /** No move is longer than the text it comes from. */
  lemma {:induction false} MovesBoundedByText(text: string, i: nat)
    requires i <= |text|
    ensures MovesWithin(CoalescedAt(text, i).code, |text| - i)
    decreases |text| - i
  {
    if i < |text| && text[i] != ']' {
      MovesBoundedByText(text, i + 1);
      var after := CoalescedAt(text, i + 1);
      MovesWiden(after.code, |text| - (i + 1), |text| - i);
      if text[i] == '[' {
        if after.ending.AtClose? {
          var j := after.ending.next;
          MovesBoundedByText(text, j);
          MovesWiden(CoalescedAt(text, j).code, |text| - j, |text| - i);
        }
      } else if UnitOp(text[i]).Some? && StartsWithMove(after.code) {
        MovesWiden(after.code.rest, |text| - (i + 1), |text| - i);
      }
    }
  }

  lemma {:induction false} WithinIntFits(c: Code, k: int)
    requires MovesWithin(c, k) && k < INT_LIMIT
    ensures MovesFit(c)
  {
    match c
    case Done =>
    case Seq(op, rest) => WithinIntFits(rest, k);
    case Loop(body, rest) => WithinIntFits(body, k); WithinIntFits(rest, k);
  }

  /** Moves fit an int in every text of fewer than 2^31 characters. */
  lemma ShortTextsFit(text: string)
    requires |text| < INT_LIMIT
    ensures MovesFit(CoalescedAt(text, 0).code)
  {
    MovesBoundedByText(text, 0);
    WithinIntFits(CoalescedAt(text, 0).code, |text|);
  }
}
