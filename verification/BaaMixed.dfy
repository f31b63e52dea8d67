// GetLinearExpression where zero and sign extensions are nested in each other.
module BaaMixed {
  import opened Arithmetic
  import opened BaaLinear
  import opened BaaStructure

  /** A variable's bits, sign-extended by so many. */
  function ExtendedBits(v: Value, more: nat, env: Env): nat
    requires WellTyped(v)
  {
    WidthPositive(v);
    SignExtend(Eval(v, env), Width(v), Width(v) + more)
  }

  /** Each sign extension on the way down is of where the decomposition stops, or lies above a zero extension and
      extends a value whose sign bit is clear. */
  predicate Mixes(v: Value, depth: nat, masked: MaskOracle, env: Env)
    requires WellTyped(v)
  {
    depth != MAX_DEPTH ==>
      match v
      case Binary(_, lhs, rhs, _, _) => LooksInto(v, masked) ==> Mixes(lhs, depth + 1, masked, env)
      case ZExt(operand, _) => LosesNuw(operand, depth + 1, masked) || Mixes(operand, depth + 1, masked, env)
      case SExt(operand, _) =>
        if MeetsZExt(operand, depth + 1, masked) then
          (WidthPositive(operand); Eval(operand, env) < Pow2(Width(operand) - 1))
          && (LosesNuw(operand, depth + 1, masked) || Mixes(operand, depth + 1, masked, env))
        else Stop(v, depth, masked) == operand
      case _ => true
  }

  /** The form, with the variable read as the recorded bits say: sign-extended first. */
  predicate Reads(e: nat, d: Decomposed, sext: nat, w: nat, env: Env)
    requires WellTyped(d.value) && d.linear.sext >= sext
  {
    Cong(e, Form(d.linear.scale, ExtendedBits(d.value, d.linear.sext - sext, env), d.linear.offset), Pow2(w))
  }

  lemma NotExtended(v: Value, env: Env)
    requires WellTyped(v)
    ensures ExtendedBits(v, 0, env) == Eval(v, env)
  {
  }

  /** At every cut-off depth such a value is its linear form modulo its own width, and modulo the outermost width
      while NUW survives. */
  lemma {:induction false} MixedFormHolds(v: Value, s: Linear, width: nat, depth: nat, masked: MaskOracle, env: Env)
    requires WellTyped(v) && Width(v) <= width && s.scale == 0 && s.offset == 0 && s.zext == 0 && s.nsw && s.nuw
    requires Mixes(v, depth, masked, env) && Truthful(v, masked, env)
    ensures var d := GetLinearExpression(v, s, width, depth, masked);
            && WellTyped(d.value) && d.linear.sext >= s.sext
            && Reads(Eval(v, env), d, s.sext, Width(v), env)
            && (d.linear.nuw ==> Reads(Eval(v, env), d, s.sext, width, env))
    decreases v
  {
    var d := GetLinearExpression(v, s, width, depth, masked);
    if d == Opaque(v, s) {
      ItselfReads(v, s, width, env);
    } else {
      match v
      case Constant(_, number) =>
        ConstantFits(v, width);
        CongRefl(number, Pow2(v.bits));
        CongRefl(number, Pow2(width));
      case Binary(op, lhs, rhs, nsw, nuw) =>
        MixedFormHolds(lhs, s, width, depth + 1, masked, env);
        var inner := GetLinearExpression(lhs, s, width, depth + 1, masked);
        hide GetLinearExpression, Reads, Mixes, Truthful;
        OperationReads(v, inner, s.sext, width, masked, env);
      case ZExt(operand, bits) =>
        ExtensionReads(v, s, width, depth, masked, env);
      case SExt(operand, bits) =>
        if MeetsZExt(operand, depth + 1, masked) {
          ExtensionReads(v, s, width, depth, masked, env);
        } else {
          StoppedReads(v, s, width, depth, masked, env);
        }
      case _ =>
    }
  }

  lemma ItselfReads(v: Value, s: Linear, width: nat, env: Env)
    requires WellTyped(v)
    ensures Reads(Eval(v, env), Opaque(v, s), s.sext, Width(v), env)
    ensures Reads(Eval(v, env), Opaque(v, s), s.sext, width, env)
  {
    NotExtended(v, env);
    CongRefl(Eval(v, env), Pow2(Width(v)));
    CongRefl(Eval(v, env), Pow2(width));
  }

  /** A zero extension, or a sign extension above one. */
  lemma {:induction false} ExtensionReads(v: Value, s: Linear, width: nat, depth: nat, masked: MaskOracle, env: Env)
    requires WellTyped(v) && Width(v) <= width && s.scale == 0 && s.offset == 0 && s.zext == 0 && s.nsw && s.nuw
    requires v.ZExt? || (v.SExt? && MeetsZExt(v.operand, depth + 1, masked))
    requires depth != MAX_DEPTH && Mixes(v, depth, masked, env) && Truthful(v, masked, env)
    ensures var d := GetLinearExpression(v, s, width, depth, masked);
            && WellTyped(d.value) && d.linear.sext >= s.sext
            && Reads(Eval(v, env), d, s.sext, Width(v), env)
            && (d.linear.nuw ==> Reads(Eval(v, env), d, s.sext, width, env))
    decreases v, 0
  {
    var o := v.operand;
    Structure(o, s, width, depth + 1, masked);
    WidthPositive(o);
    assert Eval(v, env) == Eval(o, env) && Truthful(o, masked, env);
    var inner := GetLinearExpression(o, s, width, depth + 1, masked);
    assert GetLinearExpression(v, s, width, depth, masked) == ZeroExtended(o, v.bits - Width(o), s, inner);
    if !LosesNuw(o, depth + 1, masked) { MixedFormHolds(o, s, width, depth + 1, masked, env); }
    hide GetLinearExpression, Eval, Truthful, Reads, MeetsZExt, LosesNuw;
    ExtensionStep(v, s, inner, width, env);
  }

  lemma ExtensionStep(v: Value, s: Linear, inner: Decomposed, width: nat, env: Env)
    requires WellTyped(v) && (v.ZExt? || v.SExt?) && Width(v) <= width && Eval(v, env) == Eval(v.operand, env)
    requires inner.linear.nuw ==>
               WellTyped(inner.value) && inner.linear.sext >= s.sext
               && Reads(Eval(v.operand, env), inner, s.sext, width, env)
    ensures var d := ZeroExtended(v.operand, v.bits - Width(v.operand), s, inner);
            && WellTyped(d.value) && d.linear.sext >= s.sext
            && Reads(Eval(v, env), d, s.sext, Width(v), env)
            && (d.linear.nuw ==> Reads(Eval(v, env), d, s.sext, width, env))
  {
    var o, e := v.operand, Eval(v, env);
    if inner.linear.nuw {
      CongPow2(e, Form(inner.linear.scale, ExtendedBits(inner.value, inner.linear.sext - s.sext, env),
                       inner.linear.offset), Width(v), width);
    } else {
      NotExtended(o, env);
      CongRefl(e, Pow2(Width(v)));
    }
  }

  /** A sign extension of where the decomposition stops: the variable itself, or what may have wrapped. */
  lemma StoppedReads(v: Value, s: Linear, width: nat, depth: nat, masked: MaskOracle, env: Env)
    requires WellTyped(v) && v.SExt? && Width(v) <= width && depth != MAX_DEPTH && s.scale == 0 && s.offset == 0
    requires s.zext == 0 && s.nsw && s.nuw
    requires !MeetsZExt(v.operand, depth + 1, masked) && Stop(v, depth, masked) == v.operand
    ensures var d := GetLinearExpression(v, s, width, depth, masked);
            && WellTyped(d.value) && d.linear.sext >= s.sext
            && Reads(Eval(v, env), d, s.sext, Width(v), env) && Reads(Eval(v, env), d, s.sext, width, env)
  {
    var o, e := v.operand, Eval(v, env);
    Structure(o, s, width, depth + 1, masked);
    Structure(v, s, width, depth, masked);
    WidthPositive(o);
    var d := GetLinearExpression(v, s, width, depth, masked);
    StoppedForm(v, s, width, depth, masked, env);
    assert ExtendedBits(o, d.linear.sext - s.sext, env) == SignExtend(Eval(o, env), Width(o), v.bits);
    assert Form(d.linear.scale, ExtendedBits(o, d.linear.sext - s.sext, env), d.linear.offset) == e;
    CongRefl(e, Pow2(v.bits));
    CongRefl(e, Pow2(width));
  }

  lemma StoppedForm(v: Value, s: Linear, width: nat, depth: nat, masked: MaskOracle, env: Env)
    requires WellTyped(v) && v.SExt? && Width(v) <= width && depth != MAX_DEPTH && s.scale == 0 && s.offset == 0
    requires s.zext == 0 && s.nsw && s.nuw
    requires !MeetsZExt(v.operand, depth + 1, masked) && Stop(v, depth, masked) == v.operand
    ensures var l := GetLinearExpression(v, s, width, depth, masked).linear;
            if v.operand.Constant? && !LosesNsw(v.operand, depth + 1, masked) && depth + 1 != MAX_DEPTH
            then l.scale == 0 && l.offset == Eval(v, env) else l.scale == 1 && l.offset == 0
  {
    var o := v.operand;
    Structure(o, s, width, depth + 1, masked);
    WidthPositive(o);
    if !LosesNsw(o, depth + 1, masked) {
      StopIsSmaller(o, depth + 1, masked);
      SmallModulo(0, Pow2(Width(o)));
      if o.Constant? && depth + 1 != MAX_DEPTH {
        ConstantIsOffset(o, s, width, depth + 1, masked);
        SmallModulo(o.number, Pow2(o.bits));
      }
    }
  }

  /** What stops at itself is not looked into. */
  lemma {:induction false} StopIsSmaller(v: Value, depth: nat, masked: MaskOracle)
    ensures Size(Stop(v, depth, masked)) <= Size(v)
    ensures Stop(v, depth, masked) == v ==> depth == MAX_DEPTH || !(v.ZExt? || v.SExt? || LooksInto(v, masked))
    decreases v
  {
    if depth != MAX_DEPTH && (v.ZExt? || v.SExt?) {
      StopIsSmaller(v.operand, depth + 1, masked);
    } else if depth != MAX_DEPTH && LooksInto(v, masked) {
      StopIsSmaller(v.lhs, depth + 1, masked);
    }
  }

  function Size(v: Value): nat {
    match v
    case Binary(_, lhs, _, _, _) => 1 + Size(lhs)
    case ZExt(operand, _) => 1 + Size(operand)
    case SExt(operand, _) => 1 + Size(operand)
    case _ => 0
  }

  lemma OperationReads(v: Value, inner: Decomposed, sext: nat, width: nat, masked: MaskOracle, env: Env)
    requires WellTyped(v) && LooksInto(v, masked) && Truthful(v, masked, env) && Width(v) <= width
    requires WellTyped(inner.value) && inner.linear.sext >= sext
    requires Reads(Eval(v.lhs, env), inner, sext, Width(v), env)
    requires inner.linear.nuw ==> Reads(Eval(v.lhs, env), inner, sext, width, env)
    ensures var d := Apply(v.op, inner, v.rhs.number, width, v.nsw, v.nuw);
            && d.value == inner.value && d.linear.sext == inner.linear.sext
            && Reads(Eval(v, env), d, sext, Width(v), env)
            && (d.linear.nuw ==> Reads(Eval(v, env), d, sext, width, env))
  {
    var a, x, c := Eval(v.lhs, env), ExtendedBits(inner.value, inner.linear.sext - sext, env), v.rhs.number;
    BinaryIsExact(v, masked, env);
    var d := Apply(v.op, inner, c, width, v.nsw, v.nuw);
    hide Eval, Truthful, Pow2, Cong, Form, Exact, ExtendedBits;
    ApplyIsLinear(v.op, a, inner, x, c, Width(v), width, v.nsw, v.nuw);
    WrappedIs(Exact(v.op, a, c), Form(d.linear.scale, x, d.linear.offset), Width(v));
    if d.linear.nuw { ApplyIsLinear(v.op, a, inner, x, c, width, width, v.nsw, v.nuw); }
  }
}
