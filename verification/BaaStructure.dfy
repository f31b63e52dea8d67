// What GetLinearExpression looks through, told from opcodes, flags and depth alone.
module BaaStructure {
  import opened BaaLinear

  /** An operation with a constant that is understood. */
  predicate LooksInto(v: Value, masked: MaskOracle) {
    v.Binary? && v.rhs.Constant? && v.op != Unknown && (v.op == Or ==> masked(v.lhs, v.rhs.number))
  }

  /** Some operation on the way down may have wrapped as a signed number. */
  predicate LosesNsw(v: Value, depth: nat, masked: MaskOracle) {
    depth != MAX_DEPTH
    && match v
       case Binary(op, lhs, _, nsw, _) =>
         LooksInto(v, masked) && (op == Shl || (op != Or && !nsw) || LosesNsw(lhs, depth + 1, masked))
       case ZExt(operand, _) => LosesNsw(operand, depth + 1, masked)
       case SExt(operand, _) => LosesNsw(operand, depth + 1, masked)
       case _ => false
  }

  /** Some operation on the way down may have wrapped as an unsigned number. */
  predicate LosesNuw(v: Value, depth: nat, masked: MaskOracle) {
    depth != MAX_DEPTH
    && match v
       case Binary(op, lhs, _, _, nuw) =>
         LooksInto(v, masked) && (op == Shl || (op != Or && !nuw) || LosesNuw(lhs, depth + 1, masked))
       case ZExt(operand, _) => LosesNuw(operand, depth + 1, masked)
       case SExt(operand, _) => LosesNuw(operand, depth + 1, masked)
       case _ => false
  }

  /** There is a zero extension on the way down. */
  predicate MeetsZExt(v: Value, depth: nat, masked: MaskOracle) {
    depth != MAX_DEPTH
    && match v
       case Binary(_, lhs, _, _, _) => LooksInto(v, masked) && MeetsZExt(lhs, depth + 1, masked)
       case ZExt(_, _) => true
       case SExt(operand, _) => MeetsZExt(operand, depth + 1, masked)
       case _ => false
  }

  /** An extension is not looked through when what it extends may have wrapped in its own sense. A sign extension
      above a zero extension counts as a zero extension. */
  predicate StopsAt(v: Value, depth: nat, masked: MaskOracle)
    requires v.ZExt? || v.SExt?
  {
    if v.SExt? && !MeetsZExt(v.operand, depth + 1, masked) then LosesNsw(v.operand, depth + 1, masked)
    else LosesNuw(v.operand, depth + 1, masked)
  }

  /** Where the decomposition stops. */
  function Stop(v: Value, depth: nat, masked: MaskOracle): Value {
    if depth == MAX_DEPTH then v
    else if v.ZExt? || v.SExt? then
      if StopsAt(v, depth, masked) then v.operand else Stop(v.operand, depth + 1, masked)
    else if LooksInto(v, masked) then Stop(v.lhs, depth + 1, masked)
    else v
  }

  /** The bits of zero extension between a value and where its decomposition stops. */
  function ZeroBits(v: Value, depth: nat, masked: MaskOracle): nat
    requires WellTyped(v)
  {
    if depth == MAX_DEPTH then 0
    else if v.ZExt? || v.SExt? then
      if v.SExt? && !MeetsZExt(v.operand, depth + 1, masked) then 0
      else v.bits - Width(v.operand)
           + (if StopsAt(v, depth, masked) then 0 else ZeroBits(v.operand, depth + 1, masked))
    else if LooksInto(v, masked) then ZeroBits(v.lhs, depth + 1, masked)
    else 0
  }

  /** For every value and depth: where the decomposition stops, which flags survive, and how many bits of each
      extension are recorded. */
  lemma {:induction false} Structure(v: Value, s: Linear, width: nat, depth: nat, masked: MaskOracle)
    requires WellTyped(v) && Width(v) <= width && s.zext == 0 && s.nsw && s.nuw
    ensures var d := GetLinearExpression(v, s, width, depth, masked);
            && d.value == Stop(v, depth, masked) && WellTyped(d.value)
            && d.linear.nsw == !LosesNsw(v, depth, masked) && d.linear.nuw == !LosesNuw(v, depth, masked)
            && d.linear.zext == ZeroBits(v, depth, masked)
            && (d.linear.zext > 0 <==> MeetsZExt(v, depth, masked))
            && Width(d.value) + d.linear.zext + d.linear.sext == Width(v) + s.sext
    decreases v
  {
    if depth != MAX_DEPTH {
      match v
      case Binary(op, lhs, rhs, nsw, nuw) =>
        if LooksInto(v, masked) { Structure(lhs, s, width, depth + 1, masked); }
      case ZExt(operand, bits) => Structure(operand, s, width, depth + 1, masked);
      case SExt(operand, bits) => Structure(operand, s, width, depth + 1, masked);
      case _ =>
    }
  }

  /** A constant is all offset. */
  lemma ConstantIsOffset(v: Value, s: Linear, width: nat, depth: nat, masked: MaskOracle)
    requires WellTyped(v) && v.Constant? && Width(v) <= width && depth != MAX_DEPTH && s.scale == 0 && s.offset == 0
    ensures GetLinearExpression(v, s, width, depth, masked) == Decomposed(v, s.(offset := v.number))
  {
    ConstantFits(v, width);
  }

  /** An extension of what may have wrapped is kept as it is: the value extended, and the bits. */
  lemma ExtensionStops(v: Value, width: nat, masked: MaskOracle)
    requires WellTyped(v) && Width(v) < width
    ensures WellTyped(SExt(v, width)) && WellTyped(ZExt(v, width))
    ensures LosesNuw(v, 1, masked) ==>
              var l := Decompose(ZExt(v, width), masked).linear;
              && Decompose(ZExt(v, width), masked).value == v
              && l.scale == 1 && l.offset == 0 && l.zext == width - Width(v) && l.sext == 0
    ensures !MeetsZExt(v, 1, masked) && LosesNsw(v, 1, masked) ==>
              var l := Decompose(SExt(v, width), masked).linear;
              && Decompose(SExt(v, width), masked).value == v
              && l.scale == 1 && l.offset == 0 && l.zext == 0 && l.sext == width - Width(v)
    ensures MeetsZExt(v, 1, masked) && LosesNuw(v, 1, masked) ==>
              var l := Decompose(SExt(v, width), masked).linear;
              && Decompose(SExt(v, width), masked).value == v
              && l.scale == 1 && l.offset == 0 && l.zext == width - Width(v) && l.sext == 0
  {
    Structure(v, START, width, 1, masked);
    WidthPositive(v);
  }

  /** A variable with one added n times. */
  function Incremented(w: nat, n: nat): Value
    requires w > 0
  {
    if n == 0 then Variable(0, w) else Binary(Add, Incremented(w, n - 1), Constant(w, 1), false, false)
  }

  /** Six operations are looked through, and no more. */
  lemma {:induction false} LooksSixDeep(w: nat, n: nat, depth: nat, masked: MaskOracle)
    requires w > 0 && depth <= 6
    ensures Stop(Incremented(w, n), depth, masked) == Incremented(w, if depth + n <= 6 then 0 else depth + n - 6)
    decreases n
  {
    if n > 0 && depth < 6 { LooksSixDeep(w, n - 1, depth + 1, masked); }
  }
}
