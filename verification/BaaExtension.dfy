// Extended variables: what the bits of a variable stand for after sign and zero extensions, and how far
// apart two of them can be when they differ by a constant modulo their width.
module BaaExtension {
  import opened Arithmetic
  import opened BaaLinear
  import opened BaaDifference

  /** x at w bits, where a set sign bit adds top - 2^w: top is 0 for a sign extension, 2^w for a zero
      extension, and 2^(w + i) for a sign extension by i bits followed by a zero extension. */
  function Extended(x: nat, w: nat, top: nat): int
    requires w > 0
  {
    if x >= Pow2(w - 1) then x + top - Pow2(w) else x
  }

  lemma ExtendedReads(x: nat, w: nat, i: nat)
    requires w > 0 && x < Pow2(w)
    ensures Extended(x, w, 0) == Signed(x, w)
    ensures Extended(x, w, Pow2(w)) == x
    ensures Extended(x, w, Pow2(w + i)) == SignExtend(x, w, w + i)
  {
    Pow2Monotone(w, w + i);
  }

  /** How many of a variable's sign-extension bits come before its zero extension. */
  type Reading = Key -> nat

  function Top(k: Key, reading: Reading): nat {
    if k.zext == 0 then 0
    else Pow2(Width(k.v) + (if reading(k) <= k.sext then reading(k) else k.sext))
  }

  /** The 64-bit value of a variable in an environment. */
  function KeyValue(k: Key, env: Env, reading: Reading): int {
    if WellTyped(k.v) then (WidthPositive(k.v); Extended(Eval(k.v, env), Width(k.v), Top(k, reading))) else 0
  }

  function Values(env: Env, reading: Reading): Valuation { k => KeyValue(k, env, reading) }

  // ----------------------------------------------------- the order is lost

  /** The decomposition of an index of an address computation, which is sign-extended to pointer size. */
  function GepIndex(v: Value, masked: MaskOracle): Decomposed
    requires WellTyped(v) && Width(v) <= 64
  {
    GetLinearExpression(v, START.(sext := 64 - Width(v)), Width(v), 0, masked)
  }

  function GepValue(v: Value, env: Env): nat
    requires WellTyped(v) && Width(v) <= 64
  {
    WidthPositive(v);
    SignExtend(Eval(v, env), Width(v), 64)
  }

  lemma SignExtendZero(from: nat, to: nat)
    requires 0 < from <= to
    ensures 0 % Pow2(from) == 0 && SignExtend(0, from, to) == 0
  {
    SmallModulo(0, Pow2(from));
  }

  /** zext(sext(x)) and zext(x) as indices. */
  function Inner(w: nat, i: nat, z: nat): Value { ZExt(SExt(Variable(0, w), w + i), w + i + z) }

  function Outer(w: nat, z: nat): Value { ZExt(Variable(0, w), w + z) }

  lemma BothDecompose(w: nat, i: nat, z: nat, masked: MaskOracle)
    requires w > 0 && i > 0 && z > 0 && w + i + z <= 64
    ensures WellTyped(Inner(w, i, z)) && WellTyped(Outer(w, z))
    ensures GepIndex(Inner(w, i, z), masked) == GepIndex(Outer(w, z), masked)
         == Decomposed(Variable(0, w), START.(scale := 1, zext := z, sext := 64 - w - z))
  {
    var x, s := Variable(0, w), SExt(Variable(0, w), w + i);
    var si, so := START.(sext := 64 - (w + i + z)), START.(sext := 64 - (w + z));
    assert WellTyped(x) && WellTyped(s) && WellTyped(Inner(w, i, z)) && WellTyped(Outer(w, z));
    assert GetLinearExpression(x, si, w + i + z, 2, masked) == Opaque(x, si);
    assert GetLinearExpression(x, so, w + z, 1, masked) == Opaque(x, so);
    SignExtendZero(w, w + i);
    assert GetLinearExpression(s, si, w + i + z, 1, masked) == Decomposed(x, si.(scale := 1, sext := si.sext + i));
  }

  lemma NonNegativeStays(x: nat, w: nat, from: nat, to: nat)
    requires x < Pow2(w) && w < from <= to
    ensures x < Pow2(from) && SignExtend(x, from, to) == x
  {
    Pow2Monotone(w, from - 1);
  }

  lemma InnerValue(w: nat, i: nat, z: nat, env: Env)
    requires w > 0 && i > 0 && z > 0 && w + i + z <= 64 && WellTyped(Inner(w, i, z))
    ensures GepValue(Inner(w, i, z), env) == Extended(Eval(Variable(0, w), env), w, Pow2(w + i))
  {
    var x, s := Variable(0, w), SExt(Variable(0, w), w + i);
    assert WellTyped(x) && WellTyped(s);
    var u := Eval(x, env);
    ExtendedReads(u, w, i);
    assert Eval(Inner(w, i, z), env) == Eval(s, env) == SignExtend(u, w, w + i);
    hide Eval, Extended, SignExtend, Pow2;
    NonNegativeStays(SignExtend(u, w, w + i), w + i, w + i + z, 64);
  }

  lemma OuterValue(w: nat, z: nat, env: Env)
    requires w > 0 && z > 0 && w + z <= 64 && WellTyped(Outer(w, z))
    ensures GepValue(Outer(w, z), env) == Extended(Eval(Variable(0, w), env), w, Pow2(w))
  {
    var x := Variable(0, w);
    assert WellTyped(x);
    var u := Eval(x, env);
    ExtendedReads(u, w, 0);
    assert Eval(Outer(w, z), env) == u;
    hide Eval, Extended, SignExtend, Pow2;
    NonNegativeStays(u, w, w + z, 64);
  }

  lemma ExtendedApart(x: nat, w: nat, i: nat)
    requires w > 0 && x < Pow2(w)
    ensures Extended(x, w, Pow2(w + i)) - Extended(x, w, Pow2(w))
         == if x < Pow2(w - 1) then 0 else Pow2(w + i) - Pow2(w)
  {
  }

  lemma NothingLeftOfOne(ix: Index, same: Value -> bool)
    requires same(ix.v)
    ensures Difference([ix], [ix], same) == []
  {
    assert [ix][..0] == [] && Difference([ix], [ix][..0], same) == [ix];
  }

  /** The bit counts do not tell in which order a variable was extended. The indices zext(sext(x)) and zext(x)
      are recorded as the same variable, so their difference is nothing and equal bases give a must
      alias. The addresses are the same only when x's sign bit is clear or the scale hides it. */
  lemma ExtensionOrderIsLost(w: nat, i: nat, z: nat, scale: int, masked: MaskOracle, same: Value -> bool, env: Env)
    requires w > 0 && i > 0 && z > 0 && w + i + z <= 64 && same(Variable(0, w))
    ensures WellTyped(Inner(w, i, z)) && WellTyped(Outer(w, z))
    ensures var inner, outer := GepIndex(Inner(w, i, z), masked), GepIndex(Outer(w, z), masked);
            var ix := Index(inner.value, inner.linear.zext, inner.linear.sext, scale);
            && inner == outer && inner.linear.scale == 1 && inner.linear.offset == 0
            && Difference([ix], [ix], same) == []
    ensures Cong(scale * GepValue(Inner(w, i, z), env), scale * GepValue(Outer(w, z), env), TWO64)
            <==> Eval(Variable(0, w), env) < Pow2(w - 1) || Cong(scale * (Pow2(w + i) - Pow2(w)), 0, TWO64)
  {
    BothDecompose(w, i, z, masked);
    InnerValue(w, i, z, env);
    OuterValue(w, z, env);
    NothingLeftOfOne(Index(Variable(0, w), z, 64 - w - z, scale), same);
    ExtendedApart(Eval(Variable(0, w), env), w, i);
    var a, b := GepValue(Inner(w, i, z), env), GepValue(Outer(w, z), env);
    hide GepValue, Eval, Pow2, Extended, GepIndex, WellTyped, Cong, Difference;
    ScaledDifference(scale, a, b);
  }

  lemma ScaledDifference(scale: int, a: int, b: int)
    ensures Cong(scale * a, scale * b, TWO64) <==> Cong(scale * (a - b), 0, TWO64)
    ensures a == b ==> Cong(scale * a, scale * b, TWO64)
  {
    assert scale * (a - b) == scale * a - scale * b;
    CongRefl(scale * b, TWO64);
  }

  /** What this does to the difference of two lists whose variables were extended in different orders: it is right
      exactly when the second list has the same value under both readings. */
  lemma DifferenceAcrossReadings(dest: seq<Index>, src: seq<Index>, same: Value -> bool, env: Env,
                                 reading: Reading, other: Reading)
    ensures Cong(LinearValue(Difference(dest, src, same), Values(env, reading)),
                 LinearValue(dest, Values(env, reading)) - LinearValue(src, Values(env, other)), TWO64)
            <==> Cong(LinearValue(src, Values(env, reading)), LinearValue(src, Values(env, other)), TWO64)
  {
    var d, a := LinearValue(Difference(dest, src, same), Values(env, reading)), LinearValue(dest, Values(env, reading));
    var b, c := LinearValue(src, Values(env, reading)), LinearValue(src, Values(env, other));
    DifferenceValue(dest, src, same, Values(env, reading));
    hide Cong, LinearValue, Difference;
    CongRefl(a, TWO64);
    CongSym(d, a - b, TWO64);
    if Cong(d, a - c, TWO64) {
      CongTrans(a - b, d, a - c, TWO64);
      CongAdd(a, a, a - b, a - c, TWO64);
    }
    if Cong(b, c, TWO64) {
      CongAdd(a, a, b, c, TWO64);
      CongTrans(d, a - b, a - c, TWO64);
    }
  }

  /** The order does not matter to a variable that is not zero-extended or has its sign bit clear. */
  predicate OrderIsIrrelevant(k: Key, env: Env, reading: Reading, other: Reading) {
    WellTyped(k.v) ==> (WidthPositive(k.v); Eval(k.v, env) < Pow2(Width(k.v) - 1)) || Top(k, reading) == Top(k, other)
  }

  lemma {:induction false} ReadingsAgree(src: seq<Index>, env: Env, reading: Reading, other: Reading)
    requires forall j :: 0 <= j < |src| ==> OrderIsIrrelevant(KeyOf(src[j]), env, reading, other)
    ensures LinearValue(src, Values(env, reading)) == LinearValue(src, Values(env, other))
  {
    if src != [] {
      assert OrderIsIrrelevant(KeyOf(src[0]), env, reading, other);
      assert KeyValue(KeyOf(src[0]), env, reading) == KeyValue(KeyOf(src[0]), env, other);
      ReadingsAgree(src[1..], env, reading, other);
    }
  }

  // ------------------------------------------------------------- distances

  /** Some number from lo up to hi is r modulo g. */
  predicate Meets(lo: int, hi: int, r: int, g: nat)
    requires g > 0
  {
    lo + (r - lo) % g < hi
  }

  lemma MeetsAt(x: int, lo: int, hi: int, r: int, g: nat)
    requires g > 0 && lo <= x < hi && Cong(x, r, g)
    ensures Meets(lo, hi, r, g)
  {
    hide Cong;
    CongRefl(lo, g);
    CongAdd(x, r, lo, lo, g);
    CongEqualMod(x - lo, r - lo, g);
    DivisionIs(x - lo, g);
    var q := (x - lo) / g;
    if q < 0 { MultiplyMonotone(q, -1, g); }
    MultiplyMonotone(0, q, g);
  }

  lemma MeetsSome(lo: int, hi: int, r: int, g: nat) returns (x: int)
    requires g > 0 && Meets(lo, hi, r, g)
    ensures lo <= x < hi && Cong(x, r, g)
  {
    x := lo + (r - lo) % g;
    DivisionIs(r - lo, g);
    CongMod(r - lo, g);
    hide Cong;
    CongRefl(lo, g);
    CongAdd((r - lo) % g, r - lo, lo, lo, g);
  }

  /** How far apart two extended values can be when their bits differ by diff modulo p = 2^w and those of the second
      are r modulo g: by which of them have the sign bit set and whether the first wraps. */
  function Distances(diff: nat, p: nat, top0: nat, top1: nat, r: nat, g: nat): set<int>
    requires g > 0
  {
    var h := p / 2;
    (if Meets(0, h - diff, r, g) then {diff as int} else {})
    + (if Meets(h, p - diff, r, g) then {diff + top0 - top1} else {})
    + (if Meets(if diff < h then h - diff else 0, if diff < h then h else p - diff, r, g)
       then {diff + top0 - p} else {})
    + (if Meets(p - diff, h, r, g) then {diff - p} else {})
    + (if Meets(p - diff + h, p, r, g) then {diff - p + top0 - top1} else {})
    + (if Meets(if diff < h then p - diff else h, if diff < h then p else p - diff + h, r, g)
       then {diff - top1} else {})
  }

  /** They differ by one of these distances. */
  lemma ExtendedDistance(x0: nat, x1: nat, diff: nat, w: nat, top0: nat, top1: nat, r: nat, g: nat)
    requires w > 0 && x0 < Pow2(w) && x1 < Pow2(w) && diff < Pow2(w) && (x0 - x1 == diff || x0 - x1 == diff - Pow2(w))
    requires g > 0 && Cong(x1, r, g)
    ensures Extended(x0, w, top0) - Extended(x1, w, top1) in Distances(diff, Pow2(w), top0, top1, r, g)
  {
    var p, h := Pow2(w), Pow2(w - 1);
    assert p == 2 * h && p / 2 == h;
    hide Pow2, Cong, Meets;
    if x0 - x1 == diff {
      if x0 < h {
        MeetsAt(x1, 0, h - diff, r, g);
      } else if x1 >= h {
        MeetsAt(x1, h, p - diff, r, g);
      } else {
        MeetsAt(x1, if diff < h then h - diff else 0, if diff < h then h else p - diff, r, g);
      }
    } else {
      if x1 < h {
        MeetsAt(x1, p - diff, h, r, g);
      } else if x0 >= h {
        MeetsAt(x1, p - diff + h, p, r, g);
      } else {
        MeetsAt(x1, if diff < h then p - diff else h, if diff < h then p else p - diff + h, r, g);
      }
    }
  }

  /** And each of them arises. */
  lemma DistanceArises(diff: nat, w: nat, top0: nat, top1: nat, r: nat, g: nat, d: int) returns (x0: nat, x1: nat)
    requires w > 0 && diff < Pow2(w) && g > 0 && d in Distances(diff, Pow2(w), top0, top1, r, g)
    ensures x0 < Pow2(w) && x1 < Pow2(w) && (x0 == x1 + diff || x0 == x1 + diff - Pow2(w))
    ensures Extended(x0, w, top0) - Extended(x1, w, top1) == d && Cong(x1, r, g)
  {
    var p, h := Pow2(w), Pow2(w - 1);
    assert p == 2 * h && p / 2 == h;
    hide Pow2, Cong, Meets;
    if Meets(0, h - diff, r, g) && d == diff {
      x1 := MeetsSome(0, h - diff, r, g);
      x0 := x1 + diff;
    } else if Meets(h, p - diff, r, g) && d == diff + top0 - top1 {
      x1 := MeetsSome(h, p - diff, r, g);
      x0 := x1 + diff;
    } else if Meets(p - diff, h, r, g) && d == diff - p {
      x1 := MeetsSome(p - diff, h, r, g);
      x0 := x1 + diff - p;
    } else if Meets(p - diff + h, p, r, g) && d == diff - p + top0 - top1 {
      x1 := MeetsSome(p - diff + h, p, r, g);
      x0 := x1 + diff - p;
    } else if Meets(if diff < h then h - diff else 0, if diff < h then h else p - diff, r, g) && d == diff + top0 - p {
      x1 := MeetsSome(if diff < h then h - diff else 0, if diff < h then h else p - diff, r, g);
      x0 := x1 + diff;
    } else {
      x1 := MeetsSome(if diff < h then p - diff else h, if diff < h then p else p - diff + h, r, g);
      x0 := x1 + diff - p;
    }
  }

  /** Values of the same form plus constants, the form a multiple of g: one of the distances for the constants'
      difference. */
  lemma WrappedDifference(x0: nat, x1: nat, form: nat, c0: nat, c1: nat, w: nat, top0: nat, top1: nat, g: nat, q: nat)
    requires w > 0 && x0 == (form + c0) % Pow2(w) && x1 == (form + c1) % Pow2(w)
    requires g > 0 && Pow2(w) == q * g && Cong(form, 0, g)
    ensures Extended(x0, w, top0) - Extended(x1, w, top1)
         in Distances(OffsetDifference(c0, c1, w), Pow2(w), top0, top1, c1, g)
  {
    var p, diff := Pow2(w), OffsetDifference(c0, c1, w);
    SumsDiffer(x0, x1, form, c0, c1, p);
    NearRepresentative(x0 - x1, diff, p);
    ResidueOfForm(x1, form, c1, p, g, q);
    ExtendedDistance(x0, x1, diff, w, top0, top1, c1, g);
  }

  lemma ResidueOfForm(x: nat, form: nat, c: nat, p: nat, g: nat, q: nat)
    requires g > 0 && p > 0 && p == q * g && Cong(form, 0, g) && x == (form + c) % p
    ensures Cong(x, c, g)
  {
    CongMod(form + c, p);
    hide Cong;
    CongDivisor(x, form + c, g, q, p);
    CongRefl(c, g);
    CongAdd(form, 0, c, c, g);
    CongTrans(x, form + c, c, g);
  }

  /** V0Offset - V1Offset at a width. */
  function OffsetDifference(a: nat, b: nat, w: nat): (diff: nat)
    ensures diff < Pow2(w)
  {
    (a - b) % Pow2(w)
  }

  lemma SumsDiffer(x0: nat, x1: nat, form: nat, c0: nat, c1: nat, p: nat)
    requires p > 0 && x0 == (form + c0) % p && x1 == (form + c1) % p
    ensures Cong(x0 - x1, (c0 - c1) % p, p)
  {
    hide Cong;
    CongMod(form + c0, p);
    CongMod(form + c1, p);
    CongAdd(x0, form + c0, x1, form + c1, p);
    CongMod(c0 - c1, p);
    CongTrans(x0 - x1, c0 - c1, (c0 - c1) % p, p);
  }

  lemma NearRepresentative(d: int, diff: nat, p: nat)
    requires diff < p && Cong(d, diff, p) && d < p && -d < p
    ensures d == diff || d == diff - p
  {
    hide Cong;
    if d >= 0 {
      CongEqual(d, diff, p);
    } else {
      CongBy(diff, diff - p, p, 1);
      CongTrans(d, diff, diff - p, p);
      CongEqual(d, diff - p, p);
    }
  }

  function Abs(x: int): nat { if x < 0 then -x else x }

  /** The least distance of a residue class from zero. */
  function Least(diff: nat, p: nat): nat
    requires diff < p
  {
    if diff == 0 || 2 * diff <= p then diff else p - diff
  }

  /** Is a tops pair one of two indices extended by the same bit counts? */
  predicate TopsAgree(p: nat, top0: nat, top1: nat) {
    (top0 == 0 && top1 == 0) || (top0 >= p && top1 >= p)
  }

  /** The range that the extended values lie in. */
  function Range(p: nat, top0: nat, top1: nat): nat {
    if top0 >= top1 && top0 >= p then top0 else if top1 >= p then top1 else p
  }

  /** Every distance is at least the least one away from zero, and from the range. */
  lemma DistanceBounds(diff: nat, p: nat, top0: nat, top1: nat, r: nat, g: nat, d: int)
    requires diff < p && p % 2 == 0 && g > 0 && TopsAgree(p, top0, top1)
    requires d in Distances(diff, p, top0, top1, r, g)
    requires Cong(top0, 0, p) && Cong(top1, 0, p)
    ensures Least(diff, p) <= Abs(d) && Abs(d) + Least(diff, p) <= Range(p, top0, top1)
  {
    DistanceForms(diff, p, top0, top1, r, g, d);
    hide Distances;
    DistanceIsCong(diff, p, top0, top1, d);
    NoNearer(d, diff, p);
  }

  /** The distances that arise at all, by the constants' difference. */
  lemma DistanceForms(diff: nat, p: nat, top0: nat, top1: nat, r: nat, g: nat, d: int)
    requires diff < p && p % 2 == 0 && g > 0 && d in Distances(diff, p, top0, top1, r, g)
    ensures (2 * diff < p && (d == diff || d == diff + top0 - top1))
            || (2 * diff > p && (d == diff - p || d == diff - p + top0 - top1))
            || (diff > 0 && (d == diff + top0 - p || d == diff - top1))
  {
  }

  lemma DistanceIsCong(diff: nat, p: nat, top0: nat, top1: nat, d: int)
    requires diff < p && Cong(top0, 0, p) && Cong(top1, 0, p)
    requires d == diff || d == diff + top0 - top1 || d == diff - p || d == diff - p + top0 - top1
             || d == diff + top0 - p || d == diff - top1
    ensures Cong(d, diff, p)
  {
    var j := CongWitness(top0, 0, p);
    var k := CongWitness(top1, 0, p);
    hide Cong;
    var m := if d == diff then 0 else if d == diff + top0 - top1 then j - k
             else if d == diff - p then -1 else if d == diff - p + top0 - top1 then j - k - 1
             else if d == diff + top0 - p then j - 1 else -k;
    assert (j - k) * p == j * p - k * p && (j - k - 1) * p == j * p - k * p - p && (j - 1) * p == j * p - p;
    CongBy(d, diff, p, m);
  }

  lemma NoNearer(d: int, diff: nat, p: nat)
    requires diff < p && Cong(d, diff, p)
    ensures Least(diff, p) <= Abs(d)
  {
    hide Cong;
    if Abs(d) < p { NearRepresentative(d, diff, p); }
  }
}
