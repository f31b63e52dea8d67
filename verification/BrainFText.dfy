// What a text means, read one character at a time: a reader that stands at a character
// and finds the other end of a loop by counting brackets. It follows the table of the eight
// commands (src/examples/BrainF/BrainF.cpp, header comment) and knows no command lists.
module BrainFText {
  import opened BrainFSource

  /** Standing before a character, past the last one, or at an access off the tape. */
  datatype Reader = At(i: nat, s: State) | Ended(s: State) | OffTape(s: State)

  /** The next position from n on of bracket depth d. */
  function Forward(text: string, n: nat, d: int): nat
    requires n <= |text|
    decreases |text| - n
  {
    if n == |text| || Depth(text, n) == d then n else Forward(text, n + 1, d)
  }

  /** The last position up to n of bracket depth d. */
  function Backward(text: string, n: nat, d: int): nat
    requires n <= |text|
  {
    if n == 0 || Depth(text, n) == d then n else Backward(text, n - 1, d)
  }

  /** The current cell gets value b. */
  function Put(s: State, b: Byte): State
    requires OnTape(s)
  {
    s.(tape := s.tape[s.head := b])
  }

  function StepText(text: string, r: Reader): Reader {
    if !r.At? then r
    else if r.i >= |text| then Ended(r.s)
    else
      var (i, s) := (r.i, r.s);
      match text[i]
      case '>' => At(i + 1, s.(head := s.head + 1))
      case '<' => At(i + 1, s.(head := s.head - 1))
      case ']' => At(Backward(text, i, Depth(text, i + 1)), s)
      case c =>
        if c !in "+-,.[" then At(i + 1, s)
        else if !OnTape(s) then OffTape(s)
        else
          var b := s.tape[s.head];
          match c
          case '+' => At(i + 1, Put(s, if b == 255 then 0 else b + 1))
          case '-' => At(i + 1, Put(s, if b == 0 then 255 else b - 1))
          case '.' => At(i + 1, s.(output := s.output + [b]))
          case ',' =>
            if s.input == [] then At(i + 1, Put(s, 255))
            else At(i + 1, Put(s, s.input[0]).(input := s.input[1..]))
          case _ => At(if b == 0 then Forward(text, i + 1, Depth(text, i)) else i + 1, s)
  }

  function RunText(text: string, r: Reader, n: nat): Reader
    decreases n
  {
    if n == 0 then r else RunText(text, StepText(text, r), n - 1)
  }

  lemma {:induction false} RunTextAdd(text: string, r: Reader, a: nat, b: nat)
    ensures RunText(text, r, a + b) == RunText(text, RunText(text, r, a), b)
    decreases a
  {
    if a > 0 { RunTextAdd(text, StepText(text, r), a - 1, b); }
  }

  lemma {:induction false} ReaderStays(text: string, r: Reader, n: nat)
    requires !r.At?
    ensures RunText(text, r, n) == r
    decreases n
  {
    if n > 0 { ReaderStays(text, r, n - 1); }
  }

  /** A reader that has stopped stays as it is. */
  lemma StoppedReaderStays(text: string, r: Reader, a: nat, b: nat)
    requires a <= b && !RunText(text, r, a).At?
    ensures RunText(text, r, b) == RunText(text, r, a)
  {
    RunTextAdd(text, r, a, b - a);
    ReaderStays(text, RunText(text, r, a), b - a);
  }

  // ------------------------------------------------------------ brackets

  lemma {:induction false} ForwardIs(text: string, n: nat, d: int, k: nat)
    requires n <= k <= |text| && Depth(text, k) == d
    requires forall j :: n <= j < k ==> Depth(text, j) != d
    ensures Forward(text, n, d) == k
    decreases k - n
  {
    if n < k { ForwardIs(text, n + 1, d, k); }
  }

  lemma {:induction false} BackwardIs(text: string, n: nat, d: int, k: nat)
    requires k <= n <= |text| && Depth(text, k) == d
    requires forall j :: k < j <= n ==> Depth(text, j) != d
    ensures Backward(text, n, d) == k
    decreases n - k
  {
    if k < n { BackwardIs(text, n - 1, d, k); }
  }

  lemma {:induction false} EndsAtBracket(text: string, i: nat)
    requires i <= |text| && Parse(text, i).ending.AtClose?
    ensures text[Parse(text, i).ending.next - 1] == ']'
    decreases |text| - i
  {
    if text[i] == '[' {
      EndsAtBracket(text, Parse(text, i + 1).ending.next);
    } else if text[i] != ']' {
      EndsAtBracket(text, i + 1);
    }
  }

  /** The loop opened at i ends where the bracket counts say, seen from either end. */
  lemma LoopEnds(text: string, i: nat)
    requires i < |text| && text[i] == '[' && Parse(text, i + 1).ending.AtClose?
    ensures var k := Parse(text, i + 1).ending.next;
            && text[k - 1] == ']'
            && Forward(text, i + 1, Depth(text, i)) == k
            && Backward(text, k - 1, Depth(text, k)) == i
  {
    var k := Parse(text, i + 1).ending.next;
    EndsAtBracket(text, i + 1);
    ParseCountsBrackets(text, i + 1);
    assert Depth(text, k) == Depth(text, i);
    assert forall j :: i + 1 <= j < k ==> Depth(text, j) > Depth(text, i);
    ForwardIs(text, i + 1, Depth(text, i), k);
    BackwardIs(text, k - 1, Depth(text, k), i);
  }

  // ------------------------------------------------------------- meaning

  /** Where a stretch of text ended: at the end of the text or before a closing bracket. */
  function EndOf(text: string, e: Ending): nat
    requires e.AtClose? ==> e.next > 0
  {
    if e.AtClose? then e.next - 1 else |text|
  }

  /** The reader has done what a command list has, and stands at `end` if that is over. */
  predicate Agrees(r: Outcome, q: Reader, end: nat) {
    match r
    case Finished(s) => q == At(end, s)
    case Fault(s) => q == OffTape(s)
    case _ => q.At?
  }

  /** A character that is no bracket does what its command does, or nothing. */
  lemma StepIsCommand(text: string, i: nat, s: State)
    requires i < |text| && text[i] != '[' && text[i] != ']'
    ensures var op := UnitOp(text[i]);
            var r := if op.Some? then ExecOp(false, op.value, s) else Finished(s);
            && !r.Trapped? && r != OutOfFuel
            && StepText(text, At(i, s)) == (if r.Finished? then At(i + 1, r.s) else OffTape(r.s))
  {
    if OnTape(s) {
      var b: int := s.tape[s.head];
      assert (b + 1) % 256 == if b == 255 then 0 else b + 1;
      assert (b - 1) % 256 == if b == 0 then 255 else b - 1;
    }
  }

  /** Reading from i does what the command list parsed from i does, with any fuel. */
  lemma {:induction false} ReaderFollows(text: string, i: nat, s: State, fuel: nat) returns (n: nat)
    requires i <= |text| && !Parse(text, i).ending.Unclosed?
    ensures var p := Parse(text, i);
            var r := Exec(false, p.code, s, fuel);
            !r.Trapped? && Agrees(r, RunText(text, At(i, s), n), EndOf(text, p.ending))
            && (r == OutOfFuel ==> n >= fuel)
    decreases fuel, |text| - i
  {
    n := 0;
    if i < |text| && text[i] == '[' {
      n := ReaderLoops(text, i, s, fuel);
    } else if i < |text| && text[i] != ']' {
      StepIsCommand(text, i, s);
      var op := UnitOp(text[i]);
      var r := if op.Some? then ExecOp(false, op.value, s) else Finished(s);
      if r.Finished? {
        var a := ReaderFollows(text, i + 1, r.s, fuel);
        n := 1 + a;
      } else {
        n := 1;
      }
    }
  }

  /** The list parsed from an opening bracket is a loop and what follows it. */
  lemma LoopParsed(text: string, i: nat) returns (k: nat)
    requires i < |text| && text[i] == '[' && !Parse(text, i).ending.Unclosed?
    ensures i + 1 < k <= |text| && Parse(text, i + 1).ending == AtClose(k)
    ensures Parse(text, i) == Parsed(Loop(Parse(text, i + 1).code, Parse(text, k).code), Parse(text, k).ending)
  {
    k := Parse(text, i + 1).ending.next;
  }

  /** The reader's steps at the two brackets of a loop. */
  lemma StepAtBrackets(text: string, i: nat, k: nat, s: State)
    requires i < |text| && text[i] == '[' && Parse(text, i + 1).ending == AtClose(k) && i < k <= |text|
    ensures StepText(text, At(k - 1, s)) == At(i, s)
    ensures StepText(text, At(i, s)) ==
            if !OnTape(s) then OffTape(s) else At(if s.tape[s.head] == 0 then k else i + 1, s)
  {
    LoopEnds(text, i);
  }

  /** The same at an opening bracket. */
  lemma {:induction false} ReaderLoops(text: string, i: nat, s: State, fuel: nat) returns (n: nat)
    requires i < |text| && text[i] == '[' && !Parse(text, i).ending.Unclosed?
    ensures var p := Parse(text, i);
            var r := Exec(false, p.code, s, fuel);
            !r.Trapped? && Agrees(r, RunText(text, At(i, s), n), EndOf(text, p.ending))
            && (r == OutOfFuel ==> n >= fuel)
    decreases fuel, |text| - i, 0
  {
    hide Parse, StepText, ExecOp;
    var k := LoopParsed(text, i);
    StepAtBrackets(text, i, k, s);
    n := 0;
    if !OnTape(s) {
      n := 1;
    } else if s.tape[s.head] == 0 {
      var a := ReaderFollows(text, k, s, fuel);
      n := 1 + a;
    } else if fuel > 0 {
      var a := ReaderFollows(text, i + 1, s, fuel - 1);
      var r := Exec(false, Parse(text, i + 1).code, s, fuel - 1);
      n := 1 + a;
      if r.Finished? {
        var b := ReaderFollows(text, i, r.s, fuel - 1);
        StepAtBrackets(text, i, k, r.s);
        RunTextAdd(text, At(i + 1, s), a, 1 + b);
        n := 1 + a + 1 + b;
      }
    }
  }

  ghost predicate ReaderDiverges(text: string, s: State) {
    forall n :: RunText(text, At(0, s), n).At?
  }

  /** What a reader ended with, as an outcome. */
  function OutcomeOf(q: Reader): Outcome
    requires !q.At?
  {
    if q.Ended? then Finished(q.s) else Fault(q.s)
  }

  /** For a balanced text, and from any state: where the reader stops, the command list of
      the whole text has that outcome, with some fuel. */
  lemma ReaderIsReference(text: string, s: State, n: nat) returns (fuel: nat)
    requires Balanced(text) && !RunText(text, At(0, s), n).At?
    ensures Exec(false, Parse(text, 0).code, s, fuel) == OutcomeOf(RunText(text, At(0, s), n))
  {
    hide Exec, Parse;
    EndingByCounting(text);
    fuel := n;
    var a := ReaderFollows(text, 0, s, fuel);
    var r := Exec(false, Parse(text, 0).code, s, fuel);
    if r == OutOfFuel {
      StoppedReaderStays(text, At(0, s), n, a);
      assert false;
    }
    if r.Finished? {
      RunTextAdd(text, At(0, s), a, 1);
      a := a + 1;
    }
    if a <= n { StoppedReaderStays(text, At(0, s), a, n); } else { StoppedReaderStays(text, At(0, s), n, a); }
  }

  /** And the reader goes on for ever exactly when no fuel is enough for the command list. */
  lemma ReaderDivergence(text: string, mem: nat, input: seq<Byte>)
    requires Balanced(text)
    ensures ReaderDiverges(text, Init(mem, input)) <==> SourceDiverges(Parse(text, 0).code, mem, input)
  {
    hide Exec, Parse;
    EndingByCounting(text);
    var s := Init(mem, input);
    if n: nat :| !RunText(text, At(0, s), n).At? {
      var fuel := ReaderIsReference(text, s, n);
    }
    if fuel: nat :| Exec(false, Parse(text, 0).code, s, fuel) != OutOfFuel {
      var a := ReaderFollows(text, 0, s, fuel);
      RunTextAdd(text, At(0, s), a, 1);
      assert !RunText(text, At(0, s), a + 1).At?;
    }
  }
}
