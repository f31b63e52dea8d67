// The BrainF language: its text, its structure, and what a program means when
// it is interpreted one character at a time (src/examples/BrainF/BrainF.cpp, header comment).
module BrainFSource {
  import opened Options

  type Byte = n: int | 0 <= n < 256

  /** A command with its repetition: Move(1) is `>`, Change(-1) is `-`. */
  datatype Op = Read | Write | Move(amount: int) | Change(amount: int)

  /** A command list. Loops are nested, everything else is a flat chain. */
  datatype Code = Done | Seq(op: Op, rest: Code) | Loop(body: Code, rest: Code)

  // ---------------------------------------------------------------- text

  /** How a stretch of text ended: at the end of the input, just after a closing
      bracket that nothing in the stretch opened, or inside a loop nobody closed. */
  datatype Ending = AtEof | AtClose(next: nat) | Unclosed

  datatype Parsed = Parsed(code: Code, ending: Ending)

  /** The structure of the text from position i on, one command per character. */
  function Parse(text: string, i: nat): (r: Parsed)
    requires i <= |text|
    ensures r.ending.AtClose? ==> i < r.ending.next <= |text|
    decreases |text| - i
  {
    if i == |text| then Parsed(Done, AtEof)
    else if text[i] == ']' then Parsed(Done, AtClose(i + 1))
    else if text[i] == '[' then
      var body := Parse(text, i + 1);
      if body.ending.AtClose? then
        var after := Parse(text, body.ending.next);
        Parsed(Loop(body.code, after.code), after.ending)
      else Parsed(Done, Unclosed)
    else
      var after := Parse(text, i + 1);
      match UnitOp(text[i])
      case Some(op) => Parsed(Seq(op, after.code), after.ending)
      case None => after
  }

  /** The command a single character stands for; other characters are comments. */
  function UnitOp(c: char): Option<Op> {
    match c
    case '+' => Some(Change(1))
    case '-' => Some(Change(-1))
    case '>' => Some(Move(1))
    case '<' => Some(Move(-1))
    case ',' => Some(Read)
    case '.' => Some(Write)
    case _ => None
  }

  /** Opening minus closing brackets among the first n characters. */
  function Depth(text: string, n: nat): int
    requires n <= |text|
  {
    if n == 0 then 0
    else Depth(text, n - 1) + (if text[n - 1] == '[' then 1 else if text[n - 1] == ']' then -1 else 0)
  }

  ghost predicate NeverBelow(text: string, i: nat, k: nat, d: int)
    requires i <= k <= |text| + 1
  {
    forall n :: i <= n < k ==> Depth(text, n) >= d
  }

  /** Every prefix opens at least as much as it closes, and the whole text closes everything. */
  ghost predicate Balanced(text: string) {
    NeverBelow(text, 0, |text| + 1, 0) && Depth(text, |text|) == 0
  }

  /** Parsing from i agrees with counting brackets from i. */
  lemma {:induction false} ParseCountsBrackets(text: string, i: nat)
    requires i <= |text|
    ensures match Parse(text, i).ending
            case AtEof => NeverBelow(text, i, |text| + 1, Depth(text, i)) && Depth(text, |text|) == Depth(text, i)
            case AtClose(k) => NeverBelow(text, i, k, Depth(text, i)) && Depth(text, k) == Depth(text, i) - 1
            case Unclosed => NeverBelow(text, i, |text| + 1, Depth(text, i)) && Depth(text, |text|) > Depth(text, i)
    decreases |text| - i
  {
    if i < |text| && text[i] != ']' {
      assert Depth(text, i + 1) >= Depth(text, i);
      ParseCountsBrackets(text, i + 1);
      if text[i] == '[' {
        var body := Parse(text, i + 1);
        if body.ending.AtClose? {
          ParseCountsBrackets(text, body.ending.next);
        }
      }
    }
  }

  /** The three outcomes of parsing a whole text, told by bracket counts alone. */
  lemma EndingByCounting(text: string)
    ensures Parse(text, 0).ending.AtEof? <==> Balanced(text)
    ensures Parse(text, 0).ending.AtClose? <==> exists n :: 0 <= n <= |text| && Depth(text, n) < 0
    ensures Parse(text, 0).ending.Unclosed? <==>
            NeverBelow(text, 0, |text| + 1, 0) && Depth(text, |text|) > 0
  {
    ParseCountsBrackets(text, 0);
  }

  // ------------------------------------------------------------- meaning

  /** What a running program can see: the tape, the head (any integer: it may
      leave the tape), the characters still to be read and those written so far. */
  datatype State = State(tape: seq<Byte>, head: int, input: seq<Byte>, output: seq<Byte>)

  predicate OnTape(s: State) {
    0 <= s.head < |s.tape|
  }

  function Init(mem: nat, input: seq<Byte>): State {
    State(seq(mem, _ => 0), mem / 2, input, [])
  }

  /** A cell access off the tape is a Fault. Trapped is the checked mode's answer
      to a move that ends off the tape. */
  datatype Outcome = OutOfFuel | Finished(s: State) | Fault(s: State) | Trapped(s: State)

  /** One command. In checked mode a move must end on the tape. */
  function ExecOp(checked: bool, op: Op, s: State): Outcome {
    match op
    case Move(v) =>
      var s' := s.(head := s.head + v);
      if checked && !OnTape(s') then Trapped(s') else Finished(s')
    case Change(v) =>
      if !OnTape(s) then Fault(s)
      else Finished(s.(tape := s.tape[s.head := (s.tape[s.head] + v) % 256]))
    case Read =>
      if !OnTape(s) then Fault(s)
      else if s.input == [] then Finished(s.(tape := s.tape[s.head := 255]))
      else Finished(s.(tape := s.tape[s.head := s.input[0]], input := s.input[1..]))
    case Write =>
      if !OnTape(s) then Fault(s)
      else Finished(s.(output := s.output + [s.tape[s.head]]))
  }

  /** A command list; fuel bounds the depth of loop iterations, so that a program
      diverges when every amount of fuel runs out. */
  function Exec(checked: bool, c: Code, s: State, fuel: nat): Outcome
    decreases fuel, c
  {
    match c
    case Done => Finished(s)
    case Seq(op, rest) =>
      var r := ExecOp(checked, op, s);
      if r.Finished? then Exec(checked, rest, r.s, fuel) else r
    case Loop(body, rest) =>
      if !OnTape(s) then Fault(s)
      else if s.tape[s.head] == 0 then Exec(checked, rest, s, fuel)
      else if fuel == 0 then OutOfFuel
      else
        var r := Exec(checked, body, s, fuel - 1);
        if r.Finished? then Exec(checked, c, r.s, fuel - 1) else r
  }

  /** No fuel is enough. */
  ghost predicate SourceDiverges(unit: Code, mem: nat, input: seq<Byte>) {
    forall fuel :: Exec(false, unit, Init(mem, input), fuel) == OutOfFuel
  }

  /** Once a program has an outcome, more fuel does not change it. */
  lemma {:induction false} MoreFuel(checked: bool, c: Code, s: State, fuel: nat, more: nat)
    requires fuel <= more
    requires Exec(checked, c, s, fuel) != OutOfFuel
    ensures Exec(checked, c, s, more) == Exec(checked, c, s, fuel)
    decreases fuel, c
  {
    match c
    case Done =>
    case Seq(op, rest) =>
      var r := ExecOp(checked, op, s);
      if r.Finished? { MoreFuel(checked, rest, r.s, fuel, more); }
    case Loop(body, rest) =>
      if OnTape(s) {
        if s.tape[s.head] == 0 {
          MoreFuel(checked, rest, s, fuel, more);
        } else if fuel > 0 {
          MoreFuel(checked, body, s, fuel - 1, more - 1);
          var r := Exec(checked, body, s, fuel - 1);
          if r.Finished? { MoreFuel(checked, c, r.s, fuel - 1, more - 1); }
        }
      }
  }

  // ---------------------------------------------------------- coalescing

  /** Put a command in front, merging neighbouring moves and neighbouring changes. */
  function Prepend(op: Op, c: Code): Code {
    match op
    case Move(v) => if c.Seq? && c.op.Move? then Seq(Move(v + c.op.amount), c.rest) else Seq(op, c)
    case Change(v) => if c.Seq? && c.op.Change? then Seq(Change(v + c.op.amount), c.rest) else Seq(op, c)
    case _ => Seq(op, c)
  }

  function Coalesce(c: Code): Code {
    match c
    case Done => Done
    case Seq(op, rest) => Prepend(op, Coalesce(rest))
    case Loop(body, rest) => Loop(Coalesce(body), Coalesce(rest))
  }

  predicate StartsWithMove(c: Code) {
    c.Seq? && c.op.Move?
  }

  /** No move directly follows a move. */
  predicate Separated(c: Code) {
    match c
    case Done => true
    case Seq(op, rest) => (op.Move? ==> !StartsWithMove(rest)) && Separated(rest)
    case Loop(body, rest) => Separated(body) && Separated(rest)
  }

  lemma {:induction false} CoalesceSeparates(c: Code)
    ensures Separated(Coalesce(c))
  {
    match c
    case Done =>
    case Seq(op, rest) => CoalesceSeparates(rest);
    case Loop(body, rest) => CoalesceSeparates(body); CoalesceSeparates(rest);
  }

  lemma TwoChanges(v: int, w: int, s: State)
    requires OnTape(s)
    ensures ExecOp(false, Change(w), ExecOp(false, Change(v), s).s) == ExecOp(false, Change(v + w), s)
  {
    var b: int := s.tape[s.head];
    assert ((b + v) % 256 + w) % 256 == (b + (v + w)) % 256;
    var s1 := ExecOp(false, Change(v), s).s;
    assert s1.tape[s1.head := ((b + v) % 256 + w) % 256] == s.tape[s.head := (b + (v + w)) % 256];
  }

  lemma PrependExec(op: Op, c: Code, s: State, fuel: nat)
    ensures Exec(false, Prepend(op, c), s, fuel) == Exec(false, Seq(op, c), s, fuel)
  {
    if c.Seq? && op.Change? && c.op.Change? && OnTape(s) {
      TwoChanges(op.amount, c.op.amount, s);
    }
  }

  /** Coalescing never changes what a program does, wherever its head is,
      including where it faults and with how much fuel it gets by. */
  lemma {:induction false} CoalescePreserves(c: Code, s: State, fuel: nat)
    ensures Exec(false, Coalesce(c), s, fuel) == Exec(false, c, s, fuel)
    decreases fuel, c
  {
    match c
    case Done =>
    case Seq(op, rest) =>
      PrependExec(op, Coalesce(rest), s, fuel);
      var r := ExecOp(false, op, s);
      if r.Finished? { CoalescePreserves(rest, r.s, fuel); }
    case Loop(body, rest) =>
      if OnTape(s) {
        if s.tape[s.head] == 0 {
          CoalescePreserves(rest, s, fuel);
        } else if fuel > 0 {
          CoalescePreserves(body, s, fuel - 1);
          var r := Exec(false, body, s, fuel - 1);
          if r.Finished? { CoalescePreserves(c, r.s, fuel - 1); }
        }
      }
  }

  /** What bounds checking makes of an unchecked outcome: an access off the tape,
      and a program that ends off the tape, are both caught. */
  function Checked(r: Outcome): Outcome {
    match r
    case Fault(s) => Trapped(s)
    case Finished(s) => if OnTape(s) then r else Trapped(s)
    case _ => r
  }

  lemma {:induction false} ExecKeepsTapeLength(checked: bool, c: Code, s: State, fuel: nat)
    ensures var r := Exec(checked, c, s, fuel); r != OutOfFuel ==> |r.s.tape| == |s.tape|
    decreases fuel, c
  {
    match c
    case Done =>
    case Seq(op, rest) =>
      var r := ExecOp(checked, op, s);
      if r.Finished? { ExecKeepsTapeLength(checked, rest, r.s, fuel); }
    case Loop(body, rest) =>
      if OnTape(s) {
        if s.tape[s.head] == 0 {
          ExecKeepsTapeLength(checked, rest, s, fuel);
        } else if fuel > 0 {
          ExecKeepsTapeLength(checked, body, s, fuel - 1);
          var r := Exec(checked, body, s, fuel - 1);
          if r.Finished? { ExecKeepsTapeLength(checked, c, r.s, fuel - 1); }
        }
      }
  }

  /** Checking only the end of each coalesced move is enough: from a head on the
      tape, checked execution is unchecked execution with Checked applied to its outcome. */
  lemma {:induction false} CheckingIsExact(c: Code, s: State, fuel: nat)
    requires Separated(c) && OnTape(s)
    ensures Exec(true, c, s, fuel) == Checked(Exec(false, c, s, fuel))
    decreases fuel, c
  {
    match c
    case Done =>
    case Seq(op, rest) =>
      var r := ExecOp(false, op, s);
      if r.Finished? && OnTape(r.s) { CheckingIsExact(rest, r.s, fuel); }
    case Loop(body, rest) =>
      if s.tape[s.head] == 0 {
        CheckingIsExact(rest, s, fuel);
      } else if fuel > 0 {
        CheckingIsExact(body, s, fuel - 1);
        var r := Exec(false, body, s, fuel - 1);
        if r.Finished? && OnTape(r.s) { CheckingIsExact(c, r.s, fuel - 1); }
      }
  }
}
