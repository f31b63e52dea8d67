// GetLinearExpression: an integer value as Scale * V + Offset at a bounded width.
module BaaLinear {
  import opened Arithmetic
  import opened BaaBits

  datatype Opcode = Or | Add | Sub | Mul | Shl | Unknown

  /** Integer values; a variable is anything that is not looked through. */
  datatype Value =
    | Variable(id: nat, bits: nat)
    | Constant(bits: nat, number: nat)
    | Binary(op: Opcode, lhs: Value, rhs: Value, nsw: bool, nuw: bool)
    | ZExt(operand: Value, bits: nat)
    | SExt(operand: Value, bits: nat)

  /** Values of variables, of instructions not understood and of poison; taken modulo the width. */
  type Env = Value -> nat

  /** MaskedValueIsZero: are all bits of a constant known to be clear in a value? */
  type MaskOracle = (Value, nat) -> bool

  function Width(v: Value): nat {
    match v
    case Binary(_, lhs, _, _, _) => Width(lhs)
    case _ => v.bits
  }

  predicate WellTyped(v: Value) {
    match v
    case Variable(_, bits) => bits > 0
    case Constant(bits, number) => bits > 0 && number < Pow2(bits)
    case Binary(_, lhs, rhs, _, _) => WellTyped(lhs) && WellTyped(rhs) && Width(lhs) == Width(rhs)
    case ZExt(operand, bits) => WellTyped(operand) && Width(operand) < bits
    case SExt(operand, bits) => WellTyped(operand) && Width(operand) < bits
  }

  // ------------------------------------------------------------ evaluation

  /** The two's complement reading of w bits. */
  function Signed(x: nat, w: nat): int
    requires w > 0
  {
    if x >= Pow2(w - 1) then x - Pow2(w) else x
  }

  function SignExtend(x: nat, from: nat, to: nat): (r: nat)
    requires 0 < from <= to && x < Pow2(from)
    ensures r < Pow2(to)
  {
    Pow2Monotone(from, to);
    if x >= Pow2(from - 1) then x + Pow2(to) - Pow2(from) else x
  }

  function EvalBinary(op: Opcode, a: nat, b: nat, w: nat, other: nat): (r: nat)
    requires a < Pow2(w) && b < Pow2(w)
    ensures r < Pow2(w)
  {
    var p := Pow2(w);
    match op
    case Or => OrBound(a, b, w); BitOr(a, b)
    case Add => (a + b) % p
    case Sub => (a - b) % p
    case Mul => a * b % p
    case Shl => if b < w then a * Pow2(b) % p else other % p
    case Unknown => other % p
  }

  function Eval(v: Value, env: Env): (r: nat)
    requires WellTyped(v)
    ensures r < Pow2(Width(v))
  {
    match v
    case Variable(_, bits) => env(v) % Pow2(bits)
    case Constant(_, number) => number
    case Binary(op, lhs, rhs, _, _) => EvalBinary(op, Eval(lhs, env), Eval(rhs, env), Width(lhs), env(v))
    case ZExt(operand, bits) => Pow2Monotone(Width(operand), bits); Eval(operand, env)
    case SExt(operand, bits) => WidthPositive(operand); SignExtend(Eval(operand, env), Width(operand), bits)
  }

  /** Along the operands looked through, no-unsigned-wrap flags and mask answers hold, and shifts
      are by less than the width. */
  predicate Truthful(v: Value, masked: MaskOracle, env: Env)
    requires WellTyped(v)
  {
    match v
    case Binary(op, lhs, Constant(_, c), _, nuw) =>
      var a, p := Eval(lhs, env), Pow2(Width(v));
      && Truthful(lhs, masked, env)
      && (op == Or && masked(lhs, c) ==> BitAnd(a, c) == 0)
      && (op == Add && nuw ==> a + c < p)
      && (op == Sub && nuw ==> c <= a)
      && (op == Mul && nuw ==> a * c < p)
      && (op == Shl ==> c < Width(v))
    case ZExt(operand, _) => Truthful(operand, masked, env)
    case SExt(operand, _) => Truthful(operand, masked, env)
    case _ => true
  }

  /** No sign extension among the operands looked through. */
  predicate SExtFree(v: Value) {
    match v
    case Binary(_, lhs, Constant(_, _), _, _) => SExtFree(lhs)
    case ZExt(operand, _) => SExtFree(operand)
    case SExt(_, _) => false
    case _ => true
  }

  // -------------------------------------------------------- the decomposer

  /** The reference parameters. */
  datatype Linear = Linear(scale: nat, offset: nat, zext: nat, sext: nat, nsw: bool, nuw: bool)

  datatype Decomposed = Decomposed(value: Value, linear: Linear)

  function Opaque(v: Value, s: Linear): Decomposed {
    Decomposed(v, s.(scale := 1, offset := 0))
  }

  /** APInt multiplication at a width. */
  function Times(a: nat, c: nat, width: nat): nat {
    a * c % Pow2(width)
  }

  /** What an operation with a constant does to the decomposition of its left operand. */
  function Apply(op: Opcode, d: Decomposed, c: nat, width: nat, nsw: bool, nuw: bool): Decomposed
    requires op != Unknown
  {
    var p, l := Pow2(width), d.linear;
    var flagged := l.(nuw := l.nuw && nuw, nsw := l.nsw && nsw);
    match op
    case Or => d.(linear := l.(offset := (l.offset + c) % p))
    case Add => d.(linear := flagged.(offset := (l.offset + c) % p))
    case Sub => d.(linear := flagged.(offset := (l.offset - c) % p))
    case Mul => d.(linear := flagged.(offset := Times(l.offset, c, width), scale := Times(l.scale, c, width)))
    case Shl => d.(linear := l.(offset := Times(l.offset, Pow2(c), width), scale := Times(l.scale, Pow2(c), width),
                                  nsw := false, nuw := false))
  }

  const MAX_DEPTH: nat := 6

  /** Scale and Offset have the width of the outermost call throughout. */
  function GetLinearExpression(v: Value, s: Linear, width: nat, depth: nat, masked: MaskOracle): Decomposed
    requires WellTyped(v) && Width(v) <= width
  {
    if depth == MAX_DEPTH then Opaque(v, s)
    else
      match v
      case Constant(_, number) => Decomposed(v, s.(offset := (s.offset + number) % Pow2(width)))
      case Binary(op, lhs, Constant(_, c), nsw, nuw) =>
        if op == Unknown || (op == Or && !masked(lhs, c)) then Opaque(v, s)
        else Apply(op, GetLinearExpression(lhs, s, width, depth + 1, masked), c, width, nsw, nuw)
      case ZExt(operand, bits) =>
        ZeroExtended(operand, bits - Width(operand), s, GetLinearExpression(operand, s, width, depth + 1, masked))
      case SExt(operand, bits) =>
        var d := GetLinearExpression(operand, s, width, depth + 1, masked);
        if d.linear.zext == 0 then SignExtended(operand, bits, s, d, width)
        else ZeroExtended(operand, bits - Width(operand), s, d)
      case _ => Opaque(v, s)
  }

  function ZeroExtended(operand: Value, extendedBy: nat, s: Linear, d: Decomposed): Decomposed {
    var d' := if d.linear.nuw then d
              else Decomposed(operand, d.linear.(scale := 1, offset := 0, zext := s.zext, sext := s.sext));
    d'.(linear := d'.linear.(zext := d'.linear.zext + extendedBy))
  }

  function SignExtended(operand: Value, bits: nat, s: Linear, d: Decomposed, width: nat): Decomposed
    requires WellTyped(operand) && Width(operand) <= bits <= width
  {
    var small := Width(operand);
    WidthPositive(operand);
    var d' := if d.linear.nsw then
                d.(linear := d.linear.(offset := SignExtend(d.linear.offset % Pow2(small), small, bits)))
              else
                Decomposed(operand, d.linear.(scale := 1, offset := 0, zext := s.zext, sext := s.sext));
    d'.(linear := d'.linear.(sext := d'.linear.sext + (bits - small)))
  }

  lemma {:induction false} WidthPositive(v: Value)
    requires WellTyped(v)
    ensures Width(v) > 0
  {
    match v
    case Binary(_, lhs, _, _, _) => WidthPositive(lhs);
    case _ =>
  }

  // ------------------------------------------------------------ the theorem

  function Form(scale: nat, x: nat, offset: nat): nat {
    scale * x + offset
  }

  /** v is the decomposition's linear form modulo 2^w. */
  predicate Represents(v: Value, d: Decomposed, w: nat, env: Env)
    requires WellTyped(v) && WellTyped(d.value)
  {
    Cong(Eval(v, env), Form(d.linear.scale, Eval(d.value, env), d.linear.offset), Pow2(w))
  }

  lemma OffsetAdds(e: int, s: nat, x: nat, o: nat, c: int, w: nat, width: nat)
    requires w <= width && Cong(e, Form(s, x, o), Pow2(w))
    ensures Cong(e + c, Form(s, x, (o + c) % Pow2(width)), Pow2(w))
  {
    var m, l := Pow2(w), s * x;
    assert Form(s, x, o) == l + o && Form(s, x, (o + c) % Pow2(width)) == l + (o + c) % Pow2(width);
    hide Cong, Pow2, Form;
    CongRefl(c, m);
    CongAdd(e, l + o, c, c, m);
    CongMod(o + c, Pow2(width));
    CongPow2(o + c, (o + c) % Pow2(width), w, width);
    CongRefl(l, m);
    CongAdd(l, l, o + c, (o + c) % Pow2(width), m);
    CongTrans(e + c, l + o + c, l + (o + c) % Pow2(width), m);
  }

  lemma FormScales(e: int, s: nat, x: nat, o: nat, c: nat, w: nat, width: nat)
    requires w <= width && Cong(e, Form(s, x, o), Pow2(w))
    ensures Cong(e * c, Form(Times(s, c, width), x, Times(o, c, width)), Pow2(w))
  {
    var m, p := Pow2(w), Pow2(width);
    var s', o' := Times(s, c, width), Times(o, c, width);
    hide Cong, Pow2;
    CongMul(e, s * x + o, c, m);
    assert (s * x + o) * c == s * c * x + o * c by { ScaleProduct(s, x, o, c); }
    CongMod(s * c, p);
    CongPow2(s * c, s', w, width);
    CongMul(s * c, s', x, m);
    CongMod(o * c, p);
    CongPow2(o * c, o', w, width);
    hide Times;
    CongAdd(s * c * x, s' * x, o * c, o', m);
    CongTrans(e * c, s * c * x + o * c, s' * x + o', m);
  }

  lemma ScaleProduct(s: int, x: int, o: int, c: int)
    ensures (s * x + o) * c == s * c * x + o * c
  {
    assert s * x * c == s * c * x;
  }

  lemma WrappedIs(a: int, b: int, w: nat)
    requires Cong(a, b, Pow2(w))
    ensures Cong(a % Pow2(w), b, Pow2(w))
  {
    var m := Pow2(w);
    hide Cong, Pow2;
    CongMod(a, m);
    CongTrans(a % m, a, b, m);
  }

  /** The unwrapped result of an operation with a constant. */
  function Exact(op: Opcode, a: nat, c: nat): int {
    match op
    case Sub => a - c
    case Mul => a * c
    case Shl => a * Pow2(c)
    case _ => a + c
  }

  /** An operation maps linear forms to linear forms, before wrapping. */
  lemma ApplyIsLinear(op: Opcode, e: nat, d: Decomposed, x: nat, c: nat, w: nat, width: nat, nsw: bool, nuw: bool)
    requires op != Unknown && w <= width && Cong(e, Form(d.linear.scale, x, d.linear.offset), Pow2(w))
    ensures var l := Apply(op, d, c, width, nsw, nuw).linear;
            Cong(Exact(op, e, c), Form(l.scale, x, l.offset), Pow2(w))
  {
    hide Cong, Pow2, Form, Times;
    var l := d.linear;
    match op
    case Sub => var minus: int := -(c as int); OffsetAdds(e, l.scale, x, l.offset, minus, w, width);
    case Mul => FormScales(e, l.scale, x, l.offset, c, w, width);
    case Shl => FormScales(e, l.scale, x, l.offset, Pow2(c), w, width);
    case _ => OffsetAdds(e, l.scale, x, l.offset, c, w, width);
  }

  /** The value is the exact result wrapped, and is the exact result when the flags say so. */
  lemma BinaryIsExact(v: Value, masked: MaskOracle, env: Env)
    requires WellTyped(v) && v.Binary? && v.rhs.Constant? && v.op != Unknown && Truthful(v, masked, env)
    requires v.op == Or ==> masked(v.lhs, v.rhs.number)
    ensures var exact := Exact(v.op, Eval(v.lhs, env), v.rhs.number);
            && Eval(v, env) == exact % Pow2(Width(v))
            && (v.op == Or || (v.nuw && v.op != Shl) ==> Eval(v, env) == exact)
  {
    OperationIsExact(v.op, Eval(v.lhs, env), v.rhs.number, Width(v.lhs), env(v), v.nuw);
  }

  lemma OperationIsExact(op: Opcode, a: nat, c: nat, w: nat, other: nat, nuw: bool)
    requires op != Unknown && a < Pow2(w) && c < Pow2(w)
    requires op == Or ==> BitAnd(a, c) == 0
    requires op == Add && nuw ==> a + c < Pow2(w)
    requires op == Sub && nuw ==> c <= a
    requires op == Mul && nuw ==> a * c < Pow2(w)
    requires op == Shl ==> c < w
    ensures EvalBinary(op, a, c, w, other) == Exact(op, a, c) % Pow2(w)
    ensures op == Or || (nuw && op != Shl) ==> EvalBinary(op, a, c, w, other) == Exact(op, a, c)
  {
    var p := Pow2(w);
    if op == Or { DisjointOrAdds(a, c); OrBound(a, c, w); }
    hide Pow2, BitOr, BitAnd;
    var exact := Exact(op, a, c);
    if op == Or || (nuw && op != Shl) { SmallModulo(exact, p); }
  }

  lemma SmallModulo(a: int, p: nat)
    requires 0 <= a < p
    ensures a % p == a
  {
  }

  /** At every cut-off depth, a value without sign extensions is its linear form modulo its own
      width, and modulo the outermost width as long as no operation may have wrapped. */
  lemma {:induction false} LinearFormHolds(v: Value, s: Linear, width: nat, depth: nat, masked: MaskOracle, env: Env)
    requires WellTyped(v) && Width(v) <= width && s.scale == 0 && s.offset == 0
    requires SExtFree(v) && Truthful(v, masked, env)
    ensures var d := GetLinearExpression(v, s, width, depth, masked);
            && WellTyped(d.value) && d.linear.sext == s.sext && Width(d.value) + d.linear.zext == Width(v) + s.zext
            && Represents(v, d, Width(v), env) && (d.linear.nuw ==> Represents(v, d, width, env))
  {
    hide Pow2, Cong;
    var d := GetLinearExpression(v, s, width, depth, masked);
    if d == Opaque(v, s) {
      CongRefl(Eval(v, env), Pow2(Width(v)));
      CongRefl(Eval(v, env), Pow2(width));
      return;
    }
    match v
    case Constant(_, number) =>
      ConstantFits(v, width);
      CongRefl(number, Pow2(Width(v)));
      CongRefl(number, Pow2(width));
    case Binary(op, lhs, Constant(_, c), nsw, nuw) =>
      LinearFormHolds(lhs, s, width, depth + 1, masked, env);
      var inner := GetLinearExpression(lhs, s, width, depth + 1, masked);
      hide Truthful, SExtFree, GetLinearExpression;
      BinaryForm(v, inner, width, masked, env);
    case ZExt(operand, bits) =>
      LinearFormHolds(operand, s, width, depth + 1, masked, env);
      var inner := GetLinearExpression(operand, s, width, depth + 1, masked);
      ZExtForm(v, s, inner, width, env);
    case _ =>
  }

  lemma ConstantFits(v: Value, width: nat)
    requires v.Constant? && WellTyped(v) && v.bits <= width
    ensures v.number % Pow2(width) == v.number
  {
    Pow2Monotone(v.bits, width);
    SmallModulo(v.number, Pow2(width));
  }

  lemma BinaryForm(v: Value, inner: Decomposed, width: nat, masked: MaskOracle, env: Env)
    requires WellTyped(v) && v.Binary? && v.rhs.Constant? && v.op != Unknown && Truthful(v, masked, env)
    requires v.op == Or ==> masked(v.lhs, v.rhs.number)
    requires Width(v) <= width && WellTyped(inner.value)
    requires Represents(v.lhs, inner, Width(v), env) && (inner.linear.nuw ==> Represents(v.lhs, inner, width, env))
    ensures var d := Apply(v.op, inner, v.rhs.number, width, v.nsw, v.nuw);
            Represents(v, d, Width(v), env) && (d.linear.nuw ==> Represents(v, d, width, env))
  {
    var a, x, c := Eval(v.lhs, env), Eval(inner.value, env), v.rhs.number;
    BinaryIsExact(v, masked, env);
    hide Eval, Truthful, Pow2, Cong, Form, Exact;
    ApplyIsLinear(v.op, a, inner, x, c, Width(v), width, v.nsw, v.nuw);
    var d := Apply(v.op, inner, c, width, v.nsw, v.nuw);
    WrappedIs(Exact(v.op, a, c), Form(d.linear.scale, x, d.linear.offset), Width(v));
    if d.linear.nuw { ApplyIsLinear(v.op, a, inner, x, c, width, width, v.nsw, v.nuw); }
  }

  lemma ZExtForm(v: Value, s: Linear, inner: Decomposed, width: nat, env: Env)
    requires WellTyped(v) && v.ZExt? && Width(v) <= width && WellTyped(inner.value)
    requires inner.linear.nuw ==> Represents(v.operand, inner, width, env)
    ensures var d := ZeroExtended(v.operand, v.bits - Width(v.operand), s, inner);
            WellTyped(d.value) && Represents(v, d, Width(v), env) && (d.linear.nuw ==> Represents(v, d, width, env))
  {
    hide Pow2, Cong;
    var e := Eval(v, env);
    if inner.linear.nuw {
      CongPow2(e, Form(inner.linear.scale, Eval(inner.value, env), inner.linear.offset), Width(v), width);
    } else {
      CongRefl(e, Pow2(Width(v)));
    }
  }

  /** The parameters of an outermost call. */
  const START: Linear := Linear(0, 0, 0, 0, true, true)

  function Decompose(v: Value, masked: MaskOracle): Decomposed
    requires WellTyped(v)
  {
    GetLinearExpression(v, START, Width(v), 0, masked)
  }

  /** The value decomposed is Scale times the zero-extended variable plus Offset, modulo its width. */
  lemma DecompositionPreservesValue(v: Value, masked: MaskOracle, env: Env)
    requires WellTyped(v) && SExtFree(v) && Truthful(v, masked, env)
    ensures var d := Decompose(v, masked);
            && WellTyped(d.value) && d.linear.sext == 0 && Width(d.value) + d.linear.zext == Width(v)
            && Eval(v, env) == Form(d.linear.scale, Eval(d.value, env), d.linear.offset) % Pow2(Width(v))
  {
    LinearFormHolds(v, START, Width(v), 0, masked, env);
    var d := Decompose(v, masked);
    hide GetLinearExpression, Truthful, SExtFree, Form, Represents, Eval, Pow2;
    RepresentsExactly(v, d, env);
  }

  lemma RepresentsExactly(v: Value, d: Decomposed, env: Env)
    requires WellTyped(v) && WellTyped(d.value) && Represents(v, d, Width(v), env)
    ensures Eval(v, env) == Form(d.linear.scale, Eval(d.value, env), d.linear.offset) % Pow2(Width(v))
  {
    var e, f, p := Eval(v, env), Form(d.linear.scale, Eval(d.value, env), d.linear.offset), Pow2(Width(v));
    hide Pow2, Cong, Eval, Form;
    CongEqualMod(e, f, p);
    SmallModulo(e, p);
  }

  // --------------------------------------------------------- sign extension

  /** A scale is not sign-extended with the value: sext(-x) is not 255 * sext(x). */
  lemma SignExtensionLosesNegativeScales(masked: MaskOracle, env: Env)
    requires env(Variable(0, 8)) == 1
    ensures var x := Variable(0, 8);
            var v := SExt(Binary(Mul, x, Constant(8, 255), true, false), 16);
            && WellTyped(v) && Decompose(v, masked) == Decomposed(x, Linear(255, 0, 0, 8, true, false))
            && SignExtend(Eval(x, env), 8, 16) == 1 && Eval(v, env) == 65535 != 255 * 1 % Pow2(16)
  {
    PowersUpTo16();
    var x, c := Variable(0, 8), Constant(8, 255);
    var m := Binary(Mul, x, c, true, false);
    var v := SExt(m, 16);
    hide Pow2;
    assert WellTyped(m) && WellTyped(v);
    assert Eval(x, env) == 1 && Eval(c, env) == 255;
    assert Eval(m, env) == 255;
    assert GetLinearExpression(x, START, 16, 2, masked) == Opaque(x, START);
    var inner := GetLinearExpression(m, START, 16, 1, masked);
    assert inner == Apply(Mul, Opaque(x, START), 255, 16, true, false);
    assert Times(0, 255, 16) == 0 && Times(1, 255, 16) == 255;
    assert Decompose(v, masked) == SignExtended(m, 16, START, inner, 16);
  }

  /** Once a zero extension was looked through, a sign extension counts as a zero extension, even
      when an addition in between has set the sign bit. */
  lemma SignExtensionTakenForZeroExtension(masked: MaskOracle, env: Env)
    requires env(Variable(0, 4)) == 0
    ensures var x := Variable(0, 4);
            var v := SExt(Binary(Add, ZExt(x, 8), Constant(8, 200), false, true), 16);
            && WellTyped(v) && Truthful(v, masked, env)
            && Decompose(v, masked) == Decomposed(x, Linear(1, 200, 12, 0, false, true))
            && Eval(x, env) == 0 && Eval(v, env) == 65480 != (0 + 200) % Pow2(16)
  {
    PowersUpTo16();
    var x, c := Variable(0, 4), Constant(8, 200);
    var z := ZExt(x, 8);
    var a := Binary(Add, z, c, false, true);
    var v := SExt(a, 16);
    hide Pow2;
    assert WellTyped(z) && WellTyped(a) && WellTyped(v);
    assert Eval(x, env) == 0 && Eval(z, env) == 0 && Eval(c, env) == 200;
    assert Eval(a, env) == 200;
    assert Truthful(z, masked, env) && Truthful(a, masked, env);
    assert GetLinearExpression(x, START, 16, 3, masked) == Opaque(x, START);
    var dz := GetLinearExpression(z, START, 16, 2, masked);
    assert dz == Decomposed(x, Linear(1, 0, 4, 0, true, true));
    var inner := GetLinearExpression(a, START, 16, 1, masked);
    assert inner == Apply(Add, dz, 200, 16, false, true);
    assert inner.linear == Linear(1, 200, 4, 0, false, true);
    assert Decompose(v, masked) == ZeroExtended(a, 8, START, inner);
  }

  /** Offsets that overflow together although no addition does: at x = -100, sext(x + 100 + 100) is 100,
      but 200 is taken for sext(-56). */
  lemma SignExtensionWrapsOffsets(masked: MaskOracle, env: Env)
    requires env(Variable(0, 8)) == 156
    ensures var x := Variable(0, 8);
            var inner := Binary(Add, x, Constant(8, 100), true, false);
            var v := SExt(Binary(Add, inner, Constant(8, 100), true, false), 16);
            && WellTyped(v) && Decompose(v, masked) == Decomposed(x, Linear(1, 65480, 0, 8, true, false))
            && SignExtend(Eval(x, env), 8, 16) == 65436 && Eval(v, env) == 100 != (65436 + 65480) % Pow2(16)
  {
    PowersUpTo16();
    var x, c := Variable(0, 8), Constant(8, 100);
    var a := Binary(Add, x, c, true, false);
    var b := Binary(Add, a, c, true, false);
    var v := SExt(b, 16);
    hide Pow2;
    assert WellTyped(a) && WellTyped(b) && WellTyped(v);
    assert Eval(x, env) == 156 && Eval(c, env) == 100;
    assert Eval(a, env) == 0;
    assert Eval(b, env) == 100;
    assert GetLinearExpression(x, START, 16, 3, masked) == Opaque(x, START);
    var da := GetLinearExpression(a, START, 16, 2, masked);
    assert da == Apply(Add, Opaque(x, START), 100, 16, true, false);
    assert da.linear == Linear(1, 100, 0, 0, true, false);
    var inner := GetLinearExpression(b, START, 16, 1, masked);
    assert inner == Apply(Add, da, 100, 16, true, false);
    assert inner.linear == Linear(1, 200, 0, 0, true, false);
    assert Decompose(v, masked) == SignExtended(b, 16, START, inner, 16);
  }

  lemma PowersUpTo16()
    ensures Pow2(4) == 16 && Pow2(7) == 128 && Pow2(8) == 256 && Pow2(16) == 65536
  {
    assert Pow2(4) == 16;
    assert Pow2(7) == 128;
    Pow2Add(8, 8);
  }
}
