// GetLinearExpression on sign extensions: of chains of operations that do not wrap as signed numbers, and
// of anything that may have wrapped.
module BaaSignExtend {
  import opened Arithmetic
  import opened BaaBits
  import opened BaaLinear
  import opened BaaStructure

  // ---------------------------------------------------------------- chains

  /** Operations with constants and sign extensions only, none of which may have wrapped. */
  predicate IsChain(v: Value, depth: nat, masked: MaskOracle) {
    !MeetsZExt(v, depth, masked) && !LosesNsw(v, depth, masked)
  }

  /** The constant of an operation as a signed number. */
  function SignedConstant(v: Value): int
    requires WellTyped(v) && v.Binary? && v.rhs.Constant?
  {
    WidthPositive(v);
    Signed(v.rhs.number, Width(v))
  }

  /** The product of the multipliers, read signed. */
  function ExactScale(v: Value, depth: nat, masked: MaskOracle): int
    requires WellTyped(v)
  {
    if depth == MAX_DEPTH then 1
    else if v.Constant? then 0
    else if v.SExt? then ExactScale(v.operand, depth + 1, masked)
    else if !LooksInto(v, masked) then 1
    else if v.op == Mul then ExactScale(v.lhs, depth + 1, masked) * SignedConstant(v)
    else ExactScale(v.lhs, depth + 1, masked)
  }

  /** The product of the multipliers, read unsigned. */
  function UnsignedScale(v: Value, depth: nat, masked: MaskOracle): nat {
    if depth == MAX_DEPTH then 1
    else if v.Constant? then 0
    else if v.SExt? then UnsignedScale(v.operand, depth + 1, masked)
    else if !LooksInto(v, masked) then 1
    else if v.op == Mul then UnsignedScale(v.lhs, depth + 1, masked) * v.rhs.number
    else UnsignedScale(v.lhs, depth + 1, masked)
  }

  /** What the constants add up to, read signed. */
  function ExactOffset(v: Value, depth: nat, masked: MaskOracle): int
    requires WellTyped(v)
  {
    if depth == MAX_DEPTH then 0
    else if v.Constant? then Signed(v.number, v.bits)
    else if v.SExt? then ExactOffset(v.operand, depth + 1, masked)
    else if !LooksInto(v, masked) then 0
    else SignedResult(v, ExactOffset(v.lhs, depth + 1, masked))
  }

  /** An operation on a signed number, before wrapping. */
  function SignedResult(v: Value, a: int): int
    requires WellTyped(v) && v.Binary? && v.rhs.Constant?
  {
    match v.op
    case Sub => a - SignedConstant(v)
    case Mul => a * SignedConstant(v)
    case _ => a + SignedConstant(v)
  }

  predicate FitsSigned(x: int, w: nat)
    requires w > 0
  {
    -(Pow2(w - 1) as int) <= x < Pow2(w - 1)
  }

  function SignedEval(v: Value, env: Env): int
    requires WellTyped(v)
  {
    WidthPositive(v);
    Signed(Eval(v, env), Width(v))
  }

  /** The no-signed-wrap flags on the way down hold. */
  predicate NswHolds(v: Value, depth: nat, masked: MaskOracle, env: Env)
    requires WellTyped(v)
  {
    depth != MAX_DEPTH ==>
      match v
      case Binary(op, lhs, rhs, nsw, _) =>
        LooksInto(v, masked) ==>
          NswHolds(lhs, depth + 1, masked, env)
          && (nsw && (op == Add || op == Sub || op == Mul) ==>
                (WidthPositive(v); FitsSigned(SignedResult(v, SignedEval(lhs, env)), Width(v))))
      case ZExt(operand, _) => NswHolds(operand, depth + 1, masked, env)
      case SExt(operand, _) => NswHolds(operand, depth + 1, masked, env)
      case _ => true
  }

  // ------------------------------------------------------- signed numbers

  lemma SignedIs(x: nat, w: nat)
    requires w > 0 && x < Pow2(w)
    ensures Cong(Signed(x, w), x, Pow2(w)) && FitsSigned(Signed(x, w), w)
  {
    assert Pow2(w) == 2 * Pow2(w - 1);
    CongRefl(x, Pow2(w));
    CongBy(x - Pow2(w), x, Pow2(w), -1);
  }

  lemma SignedUnique(x: nat, y: int, w: nat)
    requires w > 0 && x < Pow2(w) && Cong(x, y, Pow2(w)) && FitsSigned(y, w)
    ensures Signed(x, w) == y
  {
    SignedIs(x, w);
    assert Pow2(w) == 2 * Pow2(w - 1);
    var s := Signed(x, w);
    hide Cong, Signed, Pow2;
    CongTrans(s, x, y, Pow2(w));
    CongEqual(s, y, Pow2(w));
  }

  lemma SignExtendIs(x: nat, from: nat, to: nat)
    requires 0 < from <= to && x < Pow2(from)
    ensures Cong(SignExtend(x, from, to), Signed(x, from), Pow2(to))
  {
    CongRefl(x, Pow2(to));
    CongBy(x + Pow2(to) - Pow2(from), x - Pow2(from), Pow2(to), 1);
  }

  /** One operation, wrapped and read signed, is the signed operation when it fits. */
  lemma OperationIsSigned(v: Value, masked: MaskOracle, env: Env)
    requires WellTyped(v) && LooksInto(v, masked) && v.op != Shl && Width(v) > 0 && Truthful(v, masked, env)
    ensures Cong(Eval(v, env), SignedResult(v, SignedEval(v.lhs, env)), Pow2(Width(v)))
    ensures FitsSigned(SignedResult(v, SignedEval(v.lhs, env)), Width(v)) ==>
              SignedEval(v, env) == SignedResult(v, SignedEval(v.lhs, env))
  {
    var w, p, a, c := Width(v), Pow2(Width(v)), Eval(v.lhs, env), v.rhs.number;
    var sa, sc := SignedEval(v.lhs, env), SignedConstant(v);
    SignedIs(a, w);
    SignedIs(c, w);
    var exact := Exact(v.op, a, c);
    BinaryIsExact(v, masked, env);
    var r := SignedResult(v, sa);
    assert r == match v.op { case Sub => sa - sc case Mul => sa * sc case _ => sa + sc };
    hide Cong, Pow2, Signed, Eval, SignedResult, SignedEval, SignedConstant, WellTyped, Truthful;
    ExactIsCong(v.op, a, c, sa, sc, p);
    CongMod(exact, p);
    CongSym(sa, a, p);
    CongTrans(exact % p, exact, r, p);
    if FitsSigned(r, w) { OperationFits(v, env, r); }
  }

  /** An or without common bits never wraps. */
  lemma OrFits(v: Value, masked: MaskOracle, env: Env)
    requires WellTyped(v) && LooksInto(v, masked) && v.op == Or && Width(v) > 0 && Truthful(v, masked, env)
    ensures FitsSigned(SignedResult(v, SignedEval(v.lhs, env)), Width(v))
  {
    var w, a, c := Width(v), Eval(v.lhs, env), v.rhs.number;
    var h := Pow2(w - 1);
    assert Pow2(w) == 2 * h;
    DisjointOrAdds(a, c);
    OrBound(a, c, w);
    if a < h && c < h { OrBound(a, c, w - 1); }
  }

  lemma OperationFits(v: Value, env: Env, r: int)
    requires WellTyped(v) && Width(v) > 0 && Cong(Eval(v, env), r, Pow2(Width(v))) && FitsSigned(r, Width(v))
    ensures SignedEval(v, env) == r
  {
    SignedUnique(Eval(v, env), r, Width(v));
  }

  lemma ExactIsCong(op: Opcode, a: nat, c: nat, sa: int, sc: int, p: nat)
    requires op != Unknown && op != Shl && p > 0 && Cong(sa, a, p) && Cong(sc, c, p)
    ensures Cong(Exact(op, a, c), match op { case Sub => sa - sc case Mul => sa * sc case _ => sa + sc }, p)
  {
    hide Cong;
    CongSym(sa, a, p);
    CongSym(sc, c, p);
    if op == Mul {
      CongMul(a, sa, c, p);
      CongMul(c, sc, sa, p);
      assert c * sa == sa * c && sc * sa == sa * sc;
      CongTrans(a * c, sa * c, sa * sc, p);
    } else {
      CongAdd(a, sa, c, sc, p);
    }
  }

  /** A sign extension keeps the signed number. */
  lemma ExtensionKeepsNumber(v: Value, env: Env)
    requires WellTyped(v) && v.SExt?
    ensures SignedEval(v, env) == SignedEval(v.operand, env)
  {
    WidthPositive(v.operand);
    Pow2Monotone(Width(v.operand), v.bits - 1);
    assert Pow2(v.bits) == 2 * Pow2(v.bits - 1) && Pow2(Width(v.operand)) == 2 * Pow2(Width(v.operand) - 1);
  }

  /** A chain that does not wrap is its exact linear form, over the integers. */
  lemma {:induction false} ChainIsExact(v: Value, depth: nat, masked: MaskOracle, env: Env)
    requires WellTyped(v) && IsChain(v, depth, masked) && NswHolds(v, depth, masked, env) && Truthful(v, masked, env)
    ensures WellTyped(Stop(v, depth, masked))
    ensures SignedEval(v, env)
         == ExactScale(v, depth, masked) * SignedEval(Stop(v, depth, masked), env) + ExactOffset(v, depth, masked)
    decreases v
  {
    if depth != MAX_DEPTH && v.SExt? {
      ChainIsExact(v.operand, depth + 1, masked, env);
      hide SignedEval;
      ExtensionKeepsNumber(v, env);
    } else if depth != MAX_DEPTH && LooksInto(v, masked) {
      ChainIsExact(v.lhs, depth + 1, masked, env);
      WidthPositive(v);
      if v.op == Or { OrFits(v, masked, env); }
      hide SignedEval, Signed, FitsSigned, Pow2, Truthful;
      OperationIsSigned(v, masked, env);
      FormAfter(v, ExactScale(v.lhs, depth + 1, masked), SignedEval(Stop(v, depth, masked), env),
                ExactOffset(v.lhs, depth + 1, masked));
    }
  }

  lemma FormAfter(v: Value, a: int, x: int, b: int)
    requires WellTyped(v) && v.Binary? && v.rhs.Constant?
    ensures SignedResult(v, a * x + b) == (if v.op == Mul then a * SignedConstant(v) else a) * x + SignedResult(v, b)
  {
    var c := SignedConstant(v);
    hide SignedConstant;
    if v.op == Mul { assert (a * x + b) * c == a * c * x + b * c by { ScaleProduct(a, x, b, c); } }
  }

  // ---------------------------------------------------- its decomposition

  /** The product of the multipliers is the same whether they are read signed or unsigned. */
  predicate ScaleKept(v: Value, depth: nat, width: nat, masked: MaskOracle)
    requires WellTyped(v)
  {
    Cong(UnsignedScale(v, depth, masked), ExactScale(v, depth, masked), Pow2(width))
  }

  /** What the constants add up to, wrapped to the extended width, fits the chain's own. */
  predicate OffsetKept(v: Value, depth: nat, width: nat, masked: MaskOracle)
    requires WellTyped(v) && 0 < Width(v) < width
  {
    FitsSigned(Signed(ExactOffset(v, depth, masked) % Pow2(width), width), Width(v))
  }

  /** The condition on a chain's constants, for a sign extension to a width. */
  predicate ConstantsKept(v: Value, depth: nat, width: nat, masked: MaskOracle)
    requires WellTyped(v) && Width(v) < width
  {
    WidthPositive(v);
    ScaleKept(v, depth, width, masked) && OffsetKept(v, depth, width, masked)
  }

  /** The same for every sign extension that is looked through. */
  predicate InnerKept(v: Value, depth: nat, masked: MaskOracle)
    requires WellTyped(v)
  {
    depth != MAX_DEPTH ==>
      match v
      case Binary(_, lhs, rhs, _, _) => LooksInto(v, masked) ==> InnerKept(lhs, depth + 1, masked)
      case SExt(operand, bits) =>
        !LosesNsw(operand, depth + 1, masked) ==>
          InnerKept(operand, depth + 1, masked) && ConstantsKept(operand, depth + 1, bits, masked)
      case _ => true
  }

  /** The scale is the product of the multipliers, read unsigned. */
  lemma {:induction false} ScaleOfChain(v: Value, s: Linear, width: nat, depth: nat, masked: MaskOracle)
    requires WellTyped(v) && Width(v) <= width && IsChain(v, depth, masked) && s.scale == 0
    requires s.zext == 0 && s.nsw && s.nuw
    ensures Cong(GetLinearExpression(v, s, width, depth, masked).linear.scale, UnsignedScale(v, depth, masked),
                 Pow2(width))
    decreases v
  {
    if depth != MAX_DEPTH && v.SExt? {
      ScaleOfChain(v.operand, s, width, depth + 1, masked);
      Structure(v.operand, s, width, depth + 1, masked);
    } else if depth != MAX_DEPTH && LooksInto(v, masked) {
      ScaleOfChain(v.lhs, s, width, depth + 1, masked);
      var inner := GetLinearExpression(v.lhs, s, width, depth + 1, masked);
      assert GetLinearExpression(v, s, width, depth, masked)
          == Apply(v.op, inner, v.rhs.number, width, v.nsw, v.nuw);
      hide GetLinearExpression, Cong, Pow2;
      if v.op == Mul {
        var c := v.rhs.number;
        CongMul(inner.linear.scale, UnsignedScale(v.lhs, depth + 1, masked), c, Pow2(width));
        CongMod(inner.linear.scale * c, Pow2(width));
        CongTrans(Times(inner.linear.scale, c, width), inner.linear.scale * c,
                  UnsignedScale(v.lhs, depth + 1, masked) * c, Pow2(width));
      }
    } else {
      CongRefl(UnsignedScale(v, depth, masked), Pow2(width));
    }
  }

  /** Modulo the chain's own width, the decomposition has the exact scale and offset. */
  lemma {:induction false} ChainDecomposes(v: Value, s: Linear, width: nat, depth: nat, masked: MaskOracle)
    requires WellTyped(v) && Width(v) <= width && IsChain(v, depth, masked) && InnerKept(v, depth, masked)
    requires s.scale == 0 && s.offset == 0 && s.zext == 0 && s.nsw && s.nuw
    ensures var l := GetLinearExpression(v, s, width, depth, masked).linear;
            && Cong(l.scale, ExactScale(v, depth, masked), Pow2(Width(v)))
            && Cong(l.offset, ExactOffset(v, depth, masked), Pow2(Width(v)))
    decreases v
  {
    if depth == MAX_DEPTH {
      CongRefl(1, Pow2(Width(v)));
      CongRefl(0, Pow2(Width(v)));
    } else if v.Constant? {
      ConstantIsOffset(v, s, width, depth, masked);
      SignedIs(v.number, v.bits);
      CongSym(Signed(v.number, v.bits), v.number, Pow2(v.bits));
      CongRefl(0, Pow2(v.bits));
    } else if v.SExt? {
      ChainDecomposes(v.operand, s, width, depth + 1, masked);
      ExtensionDecomposes(v, s, width, depth, masked);
    } else if LooksInto(v, masked) {
      ChainDecomposes(v.lhs, s, width, depth + 1, masked);
      var inner := GetLinearExpression(v.lhs, s, width, depth + 1, masked);
      assert GetLinearExpression(v, s, width, depth, masked)
          == Apply(v.op, inner, v.rhs.number, width, v.nsw, v.nuw);
      WidthPositive(v);
      hide GetLinearExpression, Cong, Pow2;
      AppliedIsExact(v, inner, width, ExactScale(v.lhs, depth + 1, masked), ExactOffset(v.lhs, depth + 1, masked));
    } else {
      CongRefl(1, Pow2(Width(v)));
      CongRefl(0, Pow2(Width(v)));
    }
  }

  /** A sign extension that is looked through: the offset is the chain's, sign-extended. */
  lemma ExtensionOffset(v: Value, s: Linear, width: nat, depth: nat, masked: MaskOracle)
    requires WellTyped(v) && v.SExt? && v.bits <= width && depth != MAX_DEPTH && IsChain(v, depth, masked)
    requires s.zext == 0 && s.nsw && s.nuw
    requires Cong(GetLinearExpression(v.operand, s, width, depth + 1, masked).linear.offset,
                  ExactOffset(v, depth, masked), Pow2(Width(v.operand)))
    ensures var l := GetLinearExpression(v, s, width, depth, masked).linear;
            && l.scale == GetLinearExpression(v.operand, s, width, depth + 1, masked).linear.scale
            && IsExtension(l.offset, Width(v.operand), v.bits)
            && Cong(l.offset, ExactOffset(v, depth, masked), Pow2(Width(v.operand)))
  {
    var w, bits := Width(v.operand), v.bits;
    WidthPositive(v.operand);
    Structure(v.operand, s, width, depth + 1, masked);
    var inner := GetLinearExpression(v.operand, s, width, depth + 1, masked);
    assert GetLinearExpression(v, s, width, depth, masked) == SignExtended(v.operand, bits, s, inner, width);
    var o := inner.linear.offset % Pow2(w);
    hide GetLinearExpression, Cong, MeetsZExt, LosesNsw;
    CongMod(inner.linear.offset, Pow2(w));
    SignExtendIs(o, w, bits);
    SignedIs(o, w);
    var e := SignExtend(o, w, bits);
    hide SignExtend, Signed, Pow2;
    CongPow2(e, Signed(o, w), w, bits);
    CongTrans(e, Signed(o, w), o, Pow2(w));
    CongTrans(e, o, inner.linear.offset, Pow2(w));
    CongTrans(e, inner.linear.offset, ExactOffset(v, depth, masked), Pow2(w));
  }

  /** Whether it is the exact one modulo the extended width is told by the constants. */
  lemma ExtensionDecomposes(v: Value, s: Linear, width: nat, depth: nat, masked: MaskOracle)
    requires WellTyped(v) && v.SExt? && v.bits <= width && depth != MAX_DEPTH && IsChain(v, depth, masked)
    requires s.scale == 0 && s.zext == 0 && s.nsw && s.nuw
    requires Cong(GetLinearExpression(v.operand, s, width, depth + 1, masked).linear.offset,
                  ExactOffset(v, depth, masked), Pow2(Width(v.operand)))
    ensures var l := GetLinearExpression(v, s, width, depth, masked).linear;
            && (Cong(l.scale, ExactScale(v, depth, masked), Pow2(v.bits))
                <==> ScaleKept(v.operand, depth + 1, v.bits, masked))
            && 0 < Width(v.operand)
            && (Cong(l.offset, ExactOffset(v, depth, masked), Pow2(v.bits))
                <==> OffsetKept(v.operand, depth + 1, v.bits, masked))
  {
    WidthPositive(v.operand);
    ExtensionOffset(v, s, width, depth, masked);
    ScaleOfChain(v, s, width, depth, masked);
    var l, u, e := GetLinearExpression(v, s, width, depth, masked).linear, UnsignedScale(v, depth, masked),
                   ExactScale(v, depth, masked);
    var b := ExactOffset(v, depth, masked);
    assert u == UnsignedScale(v.operand, depth + 1, masked) && e == ExactScale(v.operand, depth + 1, masked);
    assert b == ExactOffset(v.operand, depth + 1, masked);
    hide GetLinearExpression, Cong, ExactScale, ExactOffset, UnsignedScale, IsExtension, Pow2;
    CongPow2(l.scale, u, v.bits, width);
    CongSym(l.scale, u, Pow2(v.bits));
    if Cong(u, e, Pow2(v.bits)) { CongTrans(l.scale, u, e, Pow2(v.bits)); }
    if Cong(l.scale, e, Pow2(v.bits)) { CongTrans(u, l.scale, e, Pow2(v.bits)); }
    OffsetTells(l.offset, b, Width(v.operand), v.bits);
  }

  lemma AppliedIsExact(v: Value, inner: Decomposed, width: nat, a: int, b: int)
    requires WellTyped(v) && v.Binary? && v.rhs.Constant? && v.op != Unknown && v.op != Shl && 0 < Width(v) <= width
    requires Cong(inner.linear.scale, a, Pow2(Width(v))) && Cong(inner.linear.offset, b, Pow2(Width(v)))
    ensures var l := Apply(v.op, inner, v.rhs.number, width, v.nsw, v.nuw).linear;
            && Cong(l.scale, if v.op == Mul then a * SignedConstant(v) else a, Pow2(Width(v)))
            && Cong(l.offset, SignedResult(v, b), Pow2(Width(v)))
  {
    var w, p, c, sc := Width(v), Pow2(Width(v)), v.rhs.number, SignedConstant(v);
    SignedIs(c, w);
    var l := inner.linear;
    hide Cong, Pow2, Signed, SignedConstant;
    CongSym(sc, c, p);
    match v.op
    case Sub =>
      CongAdd(l.offset, b, c, sc, p);
      WrapsTo(l.offset - c, b - sc, w, width);
    case Mul =>
      ProductCong(l.offset, b, c, sc, p);
      ProductCong(l.scale, a, c, sc, p);
      WrapsTo(l.offset * c, b * sc, w, width);
      WrapsTo(l.scale * c, a * sc, w, width);
    case _ =>
      CongAdd(l.offset, b, c, sc, p);
      WrapsTo(l.offset + c, b + sc, w, width);
  }

  lemma WrapsTo(x: int, y: int, w: nat, width: nat)
    requires w <= width && Cong(x, y, Pow2(w))
    ensures Cong(x % Pow2(width), y, Pow2(w))
  {
    hide Cong, Pow2;
    CongMod(x, Pow2(width));
    CongPow2(x % Pow2(width), x, w, width);
    CongTrans(x % Pow2(width), x, y, Pow2(w));
  }

  lemma ProductCong(x: int, a: int, c: int, sc: int, p: nat)
    requires p > 0 && Cong(x, a, p) && Cong(c, sc, p)
    ensures Cong(x * c, a * sc, p)
  {
    hide Cong;
    CongMul(x, a, c, p);
    CongMul(c, sc, a, p);
    assert c * a == a * c && sc * a == a * sc;
    CongTrans(x * c, a * c, a * sc, p);
  }

  // ------------------------------------------------- the sign extension

  /** A number of w bits, sign-extended. */
  ghost predicate IsExtension(x: nat, w: nat, width: nat) {
    0 < w <= width && exists o: nat :: o < Pow2(w) && x == SignExtend(o, w, width)
  }

  lemma OffsetTells(offset: nat, b: int, w: nat, width: nat)
    requires 0 < w < width && IsExtension(offset, w, width) && Cong(offset, b, Pow2(w))
    ensures Cong(offset, b, Pow2(width)) <==> FitsSigned(Signed(b % Pow2(width), width), w)
  {
    var o: nat :| o < Pow2(w) && offset == SignExtend(o, w, width);
    var p, q, s, c := Pow2(w), Pow2(width), Signed(o, w), Signed(b % Pow2(width), width);
    SignedIs(o, w);
    SignExtendIs(o, w, width);
    DivisionIs(b, q);
    SignedIs(b % q, width);
    Pow2Monotone(w + 1, width);
    assert p == 2 * Pow2(w - 1) && q == 2 * Pow2(width - 1) && q >= 2 * p;
    hide Pow2, Cong, Signed, SignExtend;
    CongMod(b, q);
    CongTrans(c, b % q, b, q);
    CongSym(offset, s, q);
    if Cong(offset, b, q) {
      CongTrans(s, offset, b, q);
      CongSym(c, b, q);
      CongTrans(s, b, c, q);
      CongEqual(s, c, q);
    }
    if FitsSigned(c, w) {
      CongPow2(s, offset, w, width);
      CongPow2(c, b, w, width);
      CongSym(c, b, p);
      CongTrans(s, offset, b, p);
      CongTrans(s, b, c, p);
      CongEqual(s, c, p);
      CongTrans(offset, s, b, q);
    }
  }

  /** The value is Scale times the sign-extended variable plus Offset. */
  predicate RepresentsSigned(v: Value, d: Decomposed, env: Env)
    requires WellTyped(v) && WellTyped(d.value)
  {
    Cong(Eval(v, env), d.linear.scale * SignedEval(d.value, env) + d.linear.offset, Pow2(Width(v)))
  }

  /** What the lemmas below are about: a chain under one more sign extension. */
  predicate ExtendsChain(v: Value, width: nat, masked: MaskOracle) {
    WellTyped(v) && Width(v) < width && IsChain(v, 1, masked) && InnerKept(v, 1, masked)
  }

  /** The decomposition of a sign-extended chain: where it stops, sign-extended, with the exact scale and offset
      exactly when the constants say so. */
  lemma SignExtendedChain(v: Value, width: nat, masked: MaskOracle)
    requires ExtendsChain(v, width, masked)
    ensures WellTyped(SExt(v, width)) && WellTyped(Stop(v, 1, masked)) && 0 < Width(v)
    ensures var d := Decompose(SExt(v, width), masked);
            && d.value == Stop(v, 1, masked) && d.linear.zext == 0
            && Width(d.value) + d.linear.sext == width
            && (Cong(d.linear.scale, ExactScale(v, 1, masked), Pow2(width)) <==> ScaleKept(v, 1, width, masked))
            && (Cong(d.linear.offset, ExactOffset(v, 1, masked), Pow2(width)) <==> OffsetKept(v, 1, width, masked))
            && Cong(d.linear.scale, UnsignedScale(v, 1, masked), Pow2(width))
            && IsExtension(d.linear.offset, Width(v), width)
            && Cong(d.linear.offset, ExactOffset(v, 1, masked), Pow2(Width(v)))
  {
    var e := SExt(v, width);
    assert WellTyped(e) && IsChain(e, 0, masked);
    assert ExactOffset(e, 0, masked) == ExactOffset(v, 1, masked);
    assert ExactScale(e, 0, masked) == ExactScale(v, 1, masked);
    assert UnsignedScale(e, 0, masked) == UnsignedScale(v, 1, masked);
    assert Stop(e, 0, masked) == Stop(v, 1, masked);
    ChainDecomposes(v, START, width, 1, masked);
    hide GetLinearExpression, Cong, ExactScale, ExactOffset, UnsignedScale, IsExtension, Pow2, InnerKept;
    Structure(e, START, width, 0, masked);
    ExtensionOffset(e, START, width, 0, masked);
    ExtensionDecomposes(e, START, width, 0, masked);
    ScaleOfChain(e, START, width, 0, masked);
  }

  lemma ExtensionIsSigned(v: Value, width: nat, env: Env)
    requires WellTyped(v) && 0 < Width(v) < width
    ensures WellTyped(SExt(v, width)) && Width(SExt(v, width)) == width
    ensures Cong(Eval(SExt(v, width), env), SignedEval(v, env), Pow2(width))
  {
    SignExtendIs(Eval(v, env), Width(v), width);
  }

  /** At one value of the variable the decomposition is right exactly when what scale and offset are off by
      cancels there. */
  lemma SignExtensionAt(v: Value, width: nat, masked: MaskOracle, env: Env)
    requires ExtendsChain(v, width, masked) && NswHolds(v, 1, masked, env) && Truthful(v, masked, env)
    ensures WellTyped(SExt(v, width)) && WellTyped(Stop(v, 1, masked))
    ensures var d := Decompose(SExt(v, width), masked);
            d.value == Stop(v, 1, masked) &&
            (RepresentsSigned(SExt(v, width), d, env) <==>
             Cong((ExactScale(v, 1, masked) - d.linear.scale) * SignedEval(d.value, env),
                  d.linear.offset - ExactOffset(v, 1, masked), Pow2(width)))
  {
    hide WellTyped, Width, Eval, SignedEval, Decompose, Cong, Pow2, ExactScale, ExactOffset, IsChain, NswHolds, Stop,
         IsExtension, InnerKept, Truthful, ExtendsChain;
    ExtendedParts(v, width, masked);
    ExtensionIsSigned(v, width, env);
    SignExtendedChain(v, width, masked);
    ChainIsExact(v, 1, masked, env);
    var d := Decompose(SExt(v, width), masked);
    var x := SignedEval(d.value, env);
    var e, s := Eval(SExt(v, width), env), SignedEval(v, env);
    Cancels(e, s, ExactScale(v, 1, masked), ExactOffset(v, 1, masked), d.linear.scale, d.linear.offset, x,
            Pow2(width));
  }

  lemma Cancels(e: int, s: int, a: int, b: int, scale: int, offset: int, x: int, p: nat)
    requires p > 0 && Cong(e, s, p) && s == a * x + b
    ensures Cong(e, scale * x + offset, p) <==> Cong((a - scale) * x, offset - b, p)
  {
    assert (a - scale) * x == a * x - scale * x;
    var f := scale * x;
    hide Cong;
    CongSym(e, s, p);
    CongRefl(f + b, p);
    if Cong(e, f + offset, p) {
      CongTrans(s, e, f + offset, p);
      CongAdd(s, f + offset, f + b, f + b, p);
    }
    if Cong((a - scale) * x, offset - b, p) {
      CongAdd(s - (f + b), offset - b, f + b, f + b, p);
      CongTrans(e, s, f + offset, p);
    }
  }

  /** When the constants are kept the decomposition is right at every value for which the flags hold. */
  lemma KeptIsRight(v: Value, width: nat, masked: MaskOracle, env: Env)
    requires ExtendsChain(v, width, masked) && NswHolds(v, 1, masked, env) && Truthful(v, masked, env)
    requires ConstantsKept(v, 1, width, masked)
    ensures WellTyped(SExt(v, width)) && WellTyped(Decompose(SExt(v, width), masked).value)
    ensures RepresentsSigned(SExt(v, width), Decompose(SExt(v, width), masked), env)
  {
    hide WellTyped, Width, Cong, Decompose, RepresentsSigned, ExactScale, ExactOffset, SignedEval, IsChain, NswHolds,
         Stop, Pow2, InnerKept, Truthful, ScaleKept, OffsetKept;
    SignExtensionAt(v, width, masked, env);
    SignExtendedChain(v, width, masked);
    var d, p := Decompose(SExt(v, width), masked), Pow2(width);
    BothVanish(ExactScale(v, 1, masked), ExactOffset(v, 1, masked), d.linear.scale, d.linear.offset,
               SignedEval(d.value, env), p);
  }

  lemma BothVanish(a: int, b: int, scale: int, offset: int, x: int, p: nat)
    requires p > 0 && Cong(scale, a, p) && Cong(offset, b, p)
    ensures Cong((a - scale) * x, offset - b, p)
  {
    hide Cong;
    CongRefl(a, p);
    CongRefl(b, p);
    CongAdd(a, a, scale, a, p);
    CongMul(a - scale, 0, x, p);
    assert 0 * x == 0;
    CongAdd(offset, b, b, b, p);
    CongSym(offset - b, 0, p);
    CongTrans((a - scale) * x, 0, offset - b, p);
  }

  /** The flags hold at two neighbouring values of the variable. */
  predicate Neighbours(v: Value, masked: MaskOracle, env0: Env, env1: Env)
    requires WellTyped(v) && WellTyped(Stop(v, 1, masked))
  {
    && NswHolds(v, 1, masked, env0) && Truthful(v, masked, env0)
    && NswHolds(v, 1, masked, env1) && Truthful(v, masked, env1)
    && SignedEval(Stop(v, 1, masked), env1) == SignedEval(Stop(v, 1, masked), env0) + 1
  }

  /** And at two neighbouring values it is right at both only then: the condition is exact. */
  lemma KeptIsNeeded(v: Value, width: nat, masked: MaskOracle, env0: Env, env1: Env)
    requires ExtendsChain(v, width, masked) && WellTyped(Stop(v, 1, masked)) && Neighbours(v, masked, env0, env1)
    ensures WellTyped(SExt(v, width)) && WellTyped(Decompose(SExt(v, width), masked).value)
    ensures var d := Decompose(SExt(v, width), masked);
            RepresentsSigned(SExt(v, width), d, env0) && RepresentsSigned(SExt(v, width), d, env1)
            <==> ConstantsKept(v, 1, width, masked)
  {
    hide WellTyped, Width, Cong, Decompose, RepresentsSigned, ExactScale, ExactOffset, SignedEval, IsChain, NswHolds,
         Stop, Pow2, InnerKept, Truthful, ScaleKept, OffsetKept;
    SignExtensionAt(v, width, masked, env0);
    SignExtensionAt(v, width, masked, env1);
    SignExtendedChain(v, width, masked);
    var d, p := Decompose(SExt(v, width), masked), Pow2(width);
    var a, b, x := ExactScale(v, 1, masked), ExactOffset(v, 1, masked), SignedEval(d.value, env0);
    var l := d.linear;
    if Cong(l.scale, a, p) && Cong(l.offset, b, p) {
      BothVanish(a, b, l.scale, l.offset, x, p);
      BothVanish(a, b, l.scale, l.offset, x + 1, p);
    } else if Cong((a - l.scale) * x, l.offset - b, p) && Cong((a - l.scale) * (x + 1), l.offset - b, p) {
      TwoPoints(a, b, l.scale, l.offset, x, p);
    }
  }

  lemma TwoPoints(a: int, b: int, scale: int, offset: int, x: int, p: nat)
    requires p > 0 && Cong((a - scale) * x, offset - b, p) && Cong((a - scale) * (x + 1), offset - b, p)
    ensures Cong(scale, a, p) && Cong(offset, b, p)
  {
    var y := a - scale;
    assert y * (x + 1) == y * x + y;
    hide Cong;
    CongAdd(y * (x + 1), offset - b, y * x, offset - b, p);
    CongRefl(scale, p);
    CongAdd(y, 0, scale, scale, p);
    CongSym(a, scale, p);
    CongMul(y, 0, x, p);
    assert 0 * x == 0;
    CongSym(y * x, 0, p);
    CongTrans(0, y * x, offset - b, p);
    CongSym(0, offset - b, p);
    CongRefl(b, p);
    CongAdd(offset - b, 0, b, b, p);
  }

  // -------------------------------------------------------- sums, one product

  /** How many multiplications a chain has. */
  function Multipliers(v: Value, depth: nat, masked: MaskOracle): nat {
    if depth == MAX_DEPTH then 0
    else if v.SExt? then Multipliers(v.operand, depth + 1, masked)
    else if LooksInto(v, masked) then (if v.op == Mul then 1 else 0) + Multipliers(v.lhs, depth + 1, masked)
    else 0
  }

  /** Some multiplier of at most w bits, read unsigned by the code and signed by the operation. */
  ghost predicate IsMultiplier(scale: nat, exact: int, w: nat) {
    exists k: nat :: 0 < k <= w && scale < Pow2(k) && exact == Signed(scale, k)
  }

  lemma {:induction false} FewMultipliers(v: Value, depth: nat, masked: MaskOracle)
    requires WellTyped(v) && !Stop(v, depth, masked).Constant? && IsChain(v, depth, masked)
    requires Multipliers(v, depth, masked) <= 1
    ensures Multipliers(v, depth, masked) == 0 ==>
              UnsignedScale(v, depth, masked) == 1 == ExactScale(v, depth, masked)
    ensures Multipliers(v, depth, masked) == 1 ==>
              IsMultiplier(UnsignedScale(v, depth, masked), ExactScale(v, depth, masked), Width(v))
    decreases v
  {
    if depth != MAX_DEPTH && v.SExt? {
      FewMultipliers(v.operand, depth + 1, masked);
    } else if depth != MAX_DEPTH && LooksInto(v, masked) {
      FewMultipliers(v.lhs, depth + 1, masked);
      WidthPositive(v);
      if v.op == Mul {
        assert UnsignedScale(v, depth, masked) == v.rhs.number;
        assert ExactScale(v, depth, masked) == Signed(v.rhs.number, Width(v));
      }
    }
  }

  /** A chain with one multiplication keeps its scale exactly when the multiplier is not negative. */
  lemma OneMultiplier(v: Value, width: nat, masked: MaskOracle)
    requires ExtendsChain(v, width, masked) && !Stop(v, 1, masked).Constant? && Multipliers(v, 1, masked) == 1
    ensures ScaleKept(v, 1, width, masked) <==> ExactScale(v, 1, masked) >= 0
  {
    FewMultipliers(v, 1, masked);
    var c, s := UnsignedScale(v, 1, masked), ExactScale(v, 1, masked);
    var k: nat :| 0 < k <= Width(v) && c < Pow2(k) && s == Signed(c, k);
    var p, q := Pow2(k), Pow2(width);
    Pow2Monotone(k + 1, width);
    SignedIs(c, k);
    assert s >= 0 ==> s == c;
    assert s < 0 ==> s + p == c;
    hide Cong, Pow2, Signed, ExactScale, UnsignedScale;
    if s >= 0 { CongRefl(c, q); } else if Cong(c, s, q) { CongEqual(c, s, q); }
  }

  /** A chain of additions and subtractions is decomposed right, at any value for which its flags hold,
      exactly when its constants add up to a number that fits its own width. */
  lemma SumsFitIff(v: Value, width: nat, masked: MaskOracle, env: Env)
    requires ExtendsChain(v, width, masked) && !Stop(v, 1, masked).Constant? && Multipliers(v, 1, masked) == 0
    requires NswHolds(v, 1, masked, env) && Truthful(v, masked, env)
    ensures WellTyped(SExt(v, width)) && WellTyped(Decompose(SExt(v, width), masked).value) && 0 < Width(v)
    ensures RepresentsSigned(SExt(v, width), Decompose(SExt(v, width), masked), env)
            <==> FitsSigned(ExactOffset(v, 1, masked), Width(v))
  {
    hide ExtendsChain, Cong, Decompose, RepresentsSigned, ExactScale, ExactOffset, SignedEval, NswHolds, Stop,
         FitsSigned, IsExtension, UnsignedScale, Multipliers, Pow2, ScaleKept, OffsetKept, Truthful, WellTyped, Width,
         IsChain, InnerKept;
    ExtendedParts(v, width, masked);
    FewMultipliers(v, 1, masked);
    SumsFit(v, masked, env);
    SignExtendedChain(v, width, masked);
    SignExtensionAt(v, width, masked, env);
    var d := Decompose(SExt(v, width), masked);
    OffsetFits(d.linear.scale, ExactOffset(v, 1, masked), SignedEval(d.value, env), Width(v), width, d.linear.offset);
  }

  lemma ExtendedParts(v: Value, width: nat, masked: MaskOracle)
    requires ExtendsChain(v, width, masked)
    ensures WellTyped(v) && 0 < Width(v) < width && IsChain(v, 1, masked) && InnerKept(v, 1, masked)
    ensures WellTyped(SExt(v, width)) && Width(SExt(v, width)) == width
  {
    WidthPositive(v);
  }

  /** The variable and its sum with the constants both fit the chain's width. */
  lemma SumsFit(v: Value, masked: MaskOracle, env: Env)
    requires WellTyped(v) && IsChain(v, 1, masked) && NswHolds(v, 1, masked, env) && Truthful(v, masked, env)
    requires ExactScale(v, 1, masked) == 1
    ensures WellTyped(Stop(v, 1, masked)) && 0 < Width(v)
    ensures var x := SignedEval(Stop(v, 1, masked), env);
            FitsSigned(x, Width(v)) && FitsSigned(1 * x + ExactOffset(v, 1, masked), Width(v))
  {
    hide SignedEval, FitsSigned, Stop, ExactScale, ExactOffset, IsChain, NswHolds, Truthful, WellTyped, Width, Pow2;
    ChainIsExact(v, 1, masked, env);
    StopIsNarrower(v, 1, masked);
    var stop := Stop(v, 1, masked);
    SignedEvalFits(v, env);
    SignedEvalFits(stop, env);
    FitsWider(SignedEval(stop, env), Width(stop), Width(v));
  }

  lemma FitsWider(x: int, k: nat, w: nat)
    requires 0 < k <= w && FitsSigned(x, k)
    ensures FitsSigned(x, w)
  {
    Pow2Monotone(k - 1, w - 1);
  }

  lemma {:induction false} StopIsNarrower(v: Value, depth: nat, masked: MaskOracle)
    requires WellTyped(v)
    ensures Width(Stop(v, depth, masked)) <= Width(v)
    decreases v
  {
    if depth != MAX_DEPTH && (v.SExt? || v.ZExt?) {
      StopIsNarrower(v.operand, depth + 1, masked);
    } else if depth != MAX_DEPTH && LooksInto(v, masked) {
      StopIsNarrower(v.lhs, depth + 1, masked);
    }
  }

  lemma SignedEvalFits(v: Value, env: Env)
    requires WellTyped(v)
    ensures 0 < Width(v) && FitsSigned(SignedEval(v, env), Width(v))
  {
    WidthPositive(v);
    SignedIs(Eval(v, env), Width(v));
  }

  lemma OffsetFits(scale: nat, b: int, x: int, w: nat, width: nat, offset: nat)
    requires 0 < w < width && IsExtension(offset, w, width) && Cong(offset, b, Pow2(w))
    requires FitsSigned(x, w) && FitsSigned(1 * x + b, w) && Cong(scale, 1, Pow2(width))
    ensures Cong((1 - scale) * x, offset - b, Pow2(width)) <==> FitsSigned(b, w)
  {
    var r := offset - b;
    assert Cong((1 - scale) * x, 0, Pow2(width)) by {
      CongRefl(1, Pow2(width));
      CongAdd(1, 1, scale, 1, Pow2(width));
      CongMul(1 - scale, 0, x, Pow2(width));
      assert 0 * x == 0;
    }
    CongSym((1 - scale) * x, 0, Pow2(width));
    if Cong((1 - scale) * x, r, Pow2(width)) { CongTrans(0, (1 - scale) * x, r, Pow2(width)); }
    if Cong(0, r, Pow2(width)) { CongTrans((1 - scale) * x, 0, r, Pow2(width)); }
    OffsetVanishes(b, x, w, width, offset);
  }

  lemma OffsetVanishes(b: int, x: int, w: nat, width: nat, offset: nat)
    requires 0 < w < width && IsExtension(offset, w, width) && Cong(offset, b, Pow2(w))
    requires FitsSigned(x, w) && FitsSigned(x + b, w)
    ensures Cong(0, offset - b, Pow2(width)) <==> FitsSigned(b, w)
  {
    var o: nat :| o < Pow2(w) && offset == SignExtend(o, w, width);
    var p, q, s := Pow2(w), Pow2(width), Signed(o, w);
    SignedIs(o, w);
    SignExtendIs(o, w, width);
    Pow2Monotone(w + 1, width);
    assert p == 2 * Pow2(w - 1) && q >= 2 * p;
    hide Pow2, Cong, Signed, SignExtend;
    CongPow2(offset, s, w, width);
    CongSym(offset, s, p);
    CongTrans(s, offset, b, p);
    CongRefl(b, q);
    if FitsSigned(b, w) {
      CongEqual(s, b, p);
      CongAdd(offset, s, b, b, q);
      CongSym(offset - b, 0, q);
    }
    if Cong(0, offset - b, q) {
      CongAdd(0, offset - b, b, b, q);
      CongTrans(b, offset, s, q);
      CongEqual(b, s, q);
    }
  }

  // ----------------------------------------- above a zero extension

  /** A sign extension above a zero extension is taken for a zero extension, and is one exactly when the
      value extended has its sign bit clear. */
  lemma SignAfterZeroExtension(v: Value, width: nat, masked: MaskOracle, env: Env)
    requires WellTyped(v) && Width(v) < width && SExtFree(v) && Truthful(v, masked, env)
    requires GetLinearExpression(v, START, width, 1, masked).linear.zext > 0
    ensures WellTyped(SExt(v, width)) && 0 < Width(v)
    ensures var d := Decompose(SExt(v, width), masked);
            WellTyped(d.value) && (Represents(SExt(v, width), d, width, env) <==> Eval(v, env) < Pow2(Width(v) - 1))
  {
    LinearFormHolds(v, START, width, 1, masked, env);
    WidthPositive(v);
    var inner := GetLinearExpression(v, START, width, 1, masked);
    var d := ZeroExtended(v, width - Width(v), START, inner);
    assert Decompose(SExt(v, width), masked) == d;
    var x, e := Eval(v, env), Eval(SExt(v, width), env);
    var f := Form(d.linear.scale, Eval(d.value, env), d.linear.offset);
    Pow2Monotone(Width(v), width);
    assert Cong(x, f, Pow2(width)) by { if !inner.linear.nuw { CongRefl(x, Pow2(width)); } }
    Pow2Monotone(Width(v) + 1, width);
    hide GetLinearExpression, Cong, Form, Truthful, SExtFree;
    CongSym(x, f, Pow2(width));
    if Cong(e, f, Pow2(width)) {
      CongTrans(e, f, x, Pow2(width));
      CongEqual(e, x, Pow2(width));
    }
  }

  /** The same for anything that may have wrapped: the value extended is kept, zero-extended. */
  lemma SignAfterWrappedZeroExtension(v: Value, width: nat, masked: MaskOracle, env: Env)
    requires WellTyped(v) && Width(v) < width && MeetsZExt(v, 1, masked) && LosesNuw(v, 1, masked)
    ensures WellTyped(SExt(v, width)) && 0 < Width(v) && Decompose(SExt(v, width), masked).value == v
    ensures Represents(SExt(v, width), Decompose(SExt(v, width), masked), width, env)
            <==> Eval(v, env) < Pow2(Width(v) - 1)
  {
    ExtensionStops(v, width, masked);
    WidthPositive(v);
    var x, e, q := Eval(v, env), Eval(SExt(v, width), env), Pow2(width);
    Pow2Monotone(Width(v) + 1, width);
    assert Form(1, x, 0) == x;
    hide Decompose, Eval;
    CongRefl(x, q);
    if Cong(e, x, q) {
      hide Cong;
      CongEqual(e, x, q);
    }
  }

  // -------------------------------------------------- anything without zext

  /** A sign extension of something that may have wrapped is decomposed right for all values: nothing below it is
      looked through. */
  lemma WrappedIsRight(v: Value, width: nat, masked: MaskOracle, env: Env)
    requires WellTyped(v) && Width(v) < width && !MeetsZExt(v, 1, masked) && LosesNsw(v, 1, masked)
    ensures WellTyped(SExt(v, width)) && Decompose(SExt(v, width), masked).value == v
    ensures Decompose(SExt(v, width), masked).linear.sext == width - Width(v)
    ensures RepresentsSigned(SExt(v, width), Decompose(SExt(v, width), masked), env)
  {
    WidthPositive(v);
    hide Decompose, Eval, SignedEval, MeetsZExt, LosesNsw, Cong, Pow2;
    ExtensionStops(v, width, masked);
    ExtensionIsSigned(v, width, env);
    assert 1 * SignedEval(v, env) + 0 == SignedEval(v, env);
  }

  /** The bits of a signed number at a width. */
  function SignedBits(v: Value, env: Env, width: nat): nat
    requires WellTyped(v)
  {
    SignedEval(v, env) % Pow2(width)
  }

  /** Without zero extensions on the way, at every cut-off depth: a value is its linear form in the sign-extended
      variable, modulo its own width, whatever is nested in it. The extensions that are looked through keep the
      constants; those above something that may have wrapped need nothing. */
  lemma {:induction false} SignedFormHolds(v: Value, s: Linear, width: nat, depth: nat, masked: MaskOracle, env: Env)
    requires WellTyped(v) && Width(v) <= width && !MeetsZExt(v, depth, masked) && InnerKept(v, depth, masked)
    requires s.scale == 0 && s.offset == 0 && s.zext == 0 && s.nsw && s.nuw
    requires NswHolds(v, depth, masked, env) && Truthful(v, masked, env)
    ensures var d := GetLinearExpression(v, s, width, depth, masked);
            && WellTyped(d.value)
            && Cong(Eval(v, env), Form(d.linear.scale, SignedBits(d.value, env, width), d.linear.offset),
                    Pow2(Width(v)))
    decreases v
  {
    Structure(v, s, width, depth, masked);
    if !LosesNsw(v, depth, masked) {
      ChainForm(v, s, width, depth, masked, env);
    } else if v.SExt? {
      WrappedForm(v, s, width, depth, masked, env);
    } else {
      SignedFormHolds(v.lhs, s, width, depth + 1, masked, env);
      var inner := GetLinearExpression(v.lhs, s, width, depth + 1, masked);
      assert GetLinearExpression(v, s, width, depth, masked)
          == Apply(v.op, inner, v.rhs.number, width, v.nsw, v.nuw);
      hide GetLinearExpression, Eval, Cong, Form, SignedBits, Pow2, Truthful, NswHolds, InnerKept, MeetsZExt, LosesNsw;
      OperationForm(v, inner, width, masked, env);
    }
  }

  lemma ChainForm(v: Value, s: Linear, width: nat, depth: nat, masked: MaskOracle, env: Env)
    requires WellTyped(v) && Width(v) <= width && IsChain(v, depth, masked) && InnerKept(v, depth, masked)
    requires s.scale == 0 && s.offset == 0 && s.zext == 0 && s.nsw && s.nuw
    requires NswHolds(v, depth, masked, env) && Truthful(v, masked, env)
    ensures var d := GetLinearExpression(v, s, width, depth, masked);
            && WellTyped(d.value)
            && Cong(Eval(v, env), Form(d.linear.scale, SignedBits(d.value, env, width), d.linear.offset),
                    Pow2(Width(v)))
  {
    Structure(v, s, width, depth, masked);
    ChainIsExact(v, depth, masked, env);
    ChainDecomposes(v, s, width, depth, masked);
    WidthPositive(v);
    SignedIs(Eval(v, env), Width(v));
    var d := GetLinearExpression(v, s, width, depth, masked);
    var x := SignedEval(d.value, env);
    hide GetLinearExpression, Eval, SignedEval, Cong, Pow2, ExactScale, ExactOffset, NswHolds, InnerKept, Stop, Signed;
    FormFromExact(Eval(v, env), SignedEval(v, env), ExactScale(v, depth, masked), ExactOffset(v, depth, masked),
                  d.linear.scale, d.linear.offset, x, Width(v), width);
  }

  lemma FormFromExact(e: nat, s: int, a: int, b: int, scale: nat, offset: nat, x: int, w: nat, width: nat)
    requires w <= width && Cong(s, e, Pow2(w)) && s == a * x + b
    requires Cong(scale, a, Pow2(w)) && Cong(offset, b, Pow2(w))
    ensures Cong(e, Form(scale, x % Pow2(width), offset), Pow2(w))
  {
    var p, u := Pow2(w), x % Pow2(width);
    hide Cong, Pow2;
    CongSym(s, e, p);
    CongMod(x, Pow2(width));
    CongPow2(u, x, w, width);
    CongSym(scale, a, p);
    CongSym(u, x, p);
    CongSym(offset, b, p);
    ProductCong(a, scale, x, u, p);
    CongAdd(a * x, scale * u, b, offset, p);
    CongTrans(e, s, Form(scale, u, offset), p);
  }

  lemma WrappedForm(v: Value, s: Linear, width: nat, depth: nat, masked: MaskOracle, env: Env)
    requires WellTyped(v) && v.SExt? && v.bits <= width && depth != MAX_DEPTH
    requires !MeetsZExt(v, depth, masked) && LosesNsw(v, depth, masked) && s.zext == 0 && s.nsw && s.nuw
    ensures var d := GetLinearExpression(v, s, width, depth, masked);
            && d.value == v.operand && d.linear.scale == 1 && d.linear.offset == 0
            && Cong(Eval(v, env), Form(d.linear.scale, SignedBits(d.value, env, width), d.linear.offset),
                    Pow2(Width(v)))
  {
    Structure(v.operand, s, width, depth + 1, masked);
    WidthPositive(v.operand);
    ExtensionIsSigned(v.operand, v.bits, env);
    var e, x, p := Eval(v, env), SignedEval(v.operand, env), Pow2(v.bits);
    var u := SignedBits(v.operand, env, width);
    assert Form(1, u, 0) == u;
    hide Eval, SignedEval, Cong, Pow2;
    CongMod(x, Pow2(width));
    CongPow2(x, u, v.bits, width);
    CongTrans(e, x, u, p);
  }

  lemma OperationForm(v: Value, inner: Decomposed, width: nat, masked: MaskOracle, env: Env)
    requires WellTyped(v) && LooksInto(v, masked) && Truthful(v, masked, env) && Width(v) <= width
    requires WellTyped(inner.value)
    requires Cong(Eval(v.lhs, env), Form(inner.linear.scale, SignedBits(inner.value, env, width), inner.linear.offset),
                  Pow2(Width(v)))
    ensures var l := Apply(v.op, inner, v.rhs.number, width, v.nsw, v.nuw).linear;
            Cong(Eval(v, env), Form(l.scale, SignedBits(inner.value, env, width), l.offset), Pow2(Width(v)))
  {
    var a, x, c := Eval(v.lhs, env), SignedBits(inner.value, env, width), v.rhs.number;
    BinaryIsExact(v, masked, env);
    var l := Apply(v.op, inner, c, width, v.nsw, v.nuw).linear;
    hide Eval, Truthful, Pow2, Cong, Form, Exact, SignedBits;
    ApplyIsLinear(v.op, a, inner, x, c, Width(v), width, v.nsw, v.nuw);
    WrappedIs(Exact(v.op, a, c), Form(l.scale, x, l.offset), Width(v));
  }
}
