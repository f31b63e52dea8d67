// Which answer the end of aliasGEP gives: told from the offset, the sizes and the indices, in both directions.
module BaaAnswers {
  import opened Arithmetic
  import opened BaaLinear
  import opened BaaRanges
  import opened BaaDifference
  import opened BaaExtension
  import opened BaaHeuristic
  import opened BaaPositive
  import opened BaaAliasGep

  // ----------------------------------------------------- constant offsets

  /** May an access of a given size be this long? The unknown size stands for every size. */
  predicate StandsFor(size: nat, actual: nat) {
    0 < actual <= MAX64 && (size == UNKNOWN_SIZE || actual == size)
  }

  /** The lower access reaches the start of the higher one. */
  predicate Reaches(base: int, v1Size: nat, v2Size: nat) {
    if base > 0 then base < v2Size else -base < v1Size
  }

  /** An offset past the second access's start decides unless that access's size is unknown; one before it, unless
      either size is. What decides then is whether the lower access reaches the higher one. */
  lemma ConstantAnswers(base: int, v1Size: nat, v2Size: nat)
    requires Int64(base) && base != 0 && v1Size <= MAX64 && v2Size <= MAX64
    ensures var r := ConstantOffsetResult(base, v1Size, v2Size);
            var unknown := v2Size == 0xFFFF_FFFF_FFFF_FFFF || (base < 0 && v1Size == 0xFFFF_FFFF_FFFF_FFFF);
            && (r == MayAlias <==> unknown)
            && (r == PartialAlias <==> !unknown && Reaches(base, v1Size, v2Size))
            && (r == NoAlias <==> !unknown && !Reaches(base, v1Size, v2Size))
  {
  }

  /** A definite answer is right for every size that an unknown one may stand for: a partial alias overlaps, and no
      alias is disjointness exactly as long as the higher access does not come around the address space. */
  lemma ConstantAnswersHold(base: int, v1Size: nat, v2Size: nat, s1: nat, s2: nat, a1: int, a2: int)
    requires Int64(base) && base != 0 && v1Size <= MAX64 && v2Size <= MAX64
    requires StandsFor(v1Size, s1) && StandsFor(v2Size, s2) && Cong(a1 - a2, base, TWO64)
    ensures var r := ConstantOffsetResult(base, v1Size, v2Size);
            && (r == PartialAlias ==> !Disjoint(a1, s1, a2, s2))
            && (r == NoAlias ==> (Disjoint(a1, s1, a2, s2)
                                  <==> if base > 0 then base + s1 <= TWO64 else -base + s2 <= TWO64))
  {
    hide Cong, Disjoint;
    var t: nat := if base > 0 then base else base + TWO64;
    if base < 0 { CongBy(base, base + TWO64, TWO64, -1); } else { CongRefl(base, TWO64); }
    CongTrans(a1 - a2, base, t, TWO64);
    DisjointIff(a1, s1, a2, s2, t);
  }

  // --------------------------------------------------------- sign answers

  /** A term counts as positive exactly when its variable, taken freely within what is known of its sign, never makes
      it negative, in whatever order it was extended. */
  lemma PositiveIff(ix: Index, sign: SignOracle)
    requires WellFormedIndex(ix) && ix.v.Variable? && ix.scale != 0 && Width(ix.v) >= 2
    ensures TermIsPositive(ix, sign)
            <==> forall env, reading: Reading :: SignHolds(ix, sign, env) ==> Term(ix, Values(env, reading)) >= 0
  {
    if TermIsPositive(ix, sign) {
      forall env, reading: Reading | SignHolds(ix, sign, env) ensures Term(ix, Values(env, reading)) >= 0 {
        var u := TermBounds(ix, sign, env, reading);
      }
    } else {
      var x: nat := if ix.scale > 0 || sign(ix.v) == Negative then Pow2(ix.v.bits - 1) else 1;
      NegativeTerm(ix, sign, x);
    }
  }

  lemma NegativeTerm(ix: Index, sign: SignOracle, x: nat)
    requires WellFormedIndex(ix) && ix.v.Variable? && ix.scale != 0 && Width(ix.v) >= 2 && !TermIsPositive(ix, sign)
    requires x == if ix.scale > 0 || sign(ix.v) == Negative then Pow2(ix.v.bits - 1) else 1
    ensures var env: Env, reading: Reading := Constantly(x), k => 0;
            SignHolds(ix, sign, env) && Term(ix, Values(env, reading)) < 0
  {
    var w, env := ix.v.bits, Constantly(x);
    var reading: Reading := k => 0;
    assert Pow2(w) == 2 * Pow2(w - 1) && Pow2(w - 1) == 2 * Pow2(w - 2);
    SmallModulo(x, Pow2(w));
    assert Eval(ix.v, env) == x;
    TopIs(KeyOf(ix), reading);
    var y := KeyValue(KeyOf(ix), env, reading);
    assert if ix.scale > 0 then y < 0 else y > 0;
    OppositeSigns(ix.scale, y);
  }

  lemma OppositeSigns(a: int, b: int)
    requires (a > 0 && b < 0) || (a < 0 && b > 0)
    ensures a * b < 0
  {
  }

  /** A variable that is itself a zero extension is never negative. */
  lemma ZeroExtendedIsPositive(ix: Index, sign: SignOracle)
    requires ix.v.ZExt? && ix.scale != 0
    ensures TermIsPositive(ix, sign) <==> ix.scale > 0
  {
  }

  // ----------------------------------------------------------- variables

  /** With variables the answer is no alias or may alias: no alias when the accesses fit the residue of the scales'
      modulus, when the terms are not negative and the second access fits below the offset, or when the heuristic
      says so. */
  lemma VariableAnswers(indices: seq<Index>, base: int, v1Size: nat, v2Size: nat, sign: SignOracle, heuristic: bool)
    requires 0 < v1Size <= MAX64 && 0 < v2Size <= MAX64
    ensures var r := VariableOffsetResult(indices, base, v1Size, v2Size, sign, heuristic);
            && (r == NoAlias || r == MayAlias)
            && (r == NoAlias
                <==> || (v1Size != 0xFFFF_FFFF_FFFF_FFFF && v2Size != 0xFFFF_FFFF_FFFF_FFFF
                         && FitsResidue(Modulus(ScaleBits(indices)), base, v1Size, v2Size))
                     || ((forall k :: 0 <= k < |indices| ==> TermIsPositive(indices[k], sign))
                         && 0 < base && v2Size <= base)
                     || heuristic)
  {
    ScaleBitsBound(indices);
    if v1Size != UNKNOWN_SIZE && v2Size != UNKNOWN_SIZE { ModuloTestIs(ScaleBits(indices), base, v1Size, v2Size); }
  }

  /** The difference that the heuristic takes is the least distance from zero of what two indices of one form can
      be apart, modulo their width. */
  lemma MinDiffIsLeast(c0: nat, c1: nat, w: nat)
    ensures forall d :: Cong(d, c0 - c1, Pow2(w)) ==> MinDiff(c0, c1, w) <= Abs(d)
    ensures exists d :: Cong(d, c0 - c1, Pow2(w)) && MinDiff(c0, c1, w) == Abs(d)
  {
    var p, diff := Pow2(w), OffsetDifference(c0, c1, w);
    MinDiffIs(c0, c1, w);
    CongMod(c0 - c1, p);
    assert diff == (c0 - c1) % p;
    hide Cong, Pow2, MinDiff, Least;
    forall d | Cong(d, c0 - c1, p) ensures Least(diff, p) <= Abs(d) {
      CongTrans(d, c0 - c1, diff, p);
      NoNearer(d, diff, p);
    }
    var e := LeastArises(diff, p);
    CongTrans(e, diff, c0 - c1, p);
  }

  lemma LeastArises(diff: nat, p: nat) returns (e: int)
    requires diff < p
    ensures Cong(e, diff, p) && Abs(e) == Least(diff, p)
  {
    e := if Least(diff, p) == diff then diff else diff - p;
    CongBy(e, diff, p, if e == diff then 0 else -1);
  }

  /** The heuristic answers true for two indices of one form and known sizes exactly when the bytes of that least
      distance hold both sizes with the offset, all modulo 2^64. */
  lemma HeuristicIff(var0: Index, var1: Index, base: int, v1Size: nat, v2Size: nat, masked: MaskOracle,
                     same: Value -> bool)
    requires WellFormedIndex(var0) && WellFormedIndex(var1) && SameForm(var0, var1, masked, same)
    ensures AllWellFormed([var0, var1])
    ensures var gap := MinDiff(OffsetOf(var0, masked), OffsetOf(var1, masked), Width(var0.v)) * Abs(var0.scale) % TWO64;
            ConstantOffsetHeuristic([var0, var1], v1Size, v2Size, base, masked, same)
            <==> && v1Size != 0xFFFF_FFFF_FFFF_FFFF && v2Size != 0xFFFF_FFFF_FFFF_FFFF
                 && (v1Size + Abs(base)) % TWO64 <= gap && (v2Size + Abs(base)) % TWO64 <= gap
  {
    SameFormWidths(var0, var1, masked, same);
    assert [var0, var1][0] == var0 && [var0, var1][1] == var1;
    hide WellFormedIndex, SameForm, MinDiff, OffsetOf;
  }

  /** Neighbours in an array: a[i + c] and a[i] get no alias whenever both accesses and the offset fit the distance
      between them, the short way round the index's width. */
  lemma NeighboursDoNotAlias(w: nat, c: nat, zext: nat, sext: nat, scale: int, nsw: bool, nuw: bool, base: int,
                             v1Size: nat, v2Size: nat, sign: SignOracle, masked: MaskOracle, same: Value -> bool)
    requires w > 0 && w + zext + sext == 64 && c < Pow2(w) && Int64(scale) && Int64(-scale) && same(Variable(0, w))
    requires 0 < v1Size < UNKNOWN_SIZE && 0 < v2Size < UNKNOWN_SIZE
    requires var least := if 2 * c <= Pow2(w) then c else Pow2(w) - c;
             && least * Abs(scale) < TWO64
             && v1Size + Abs(base) <= least * Abs(scale) && v2Size + Abs(base) <= least * Abs(scale)
    ensures var x := Variable(0, w);
            var indices := [Index(Binary(Add, x, Constant(w, c), nsw, nuw), zext, sext, scale),
                            Index(x, zext, sext, -scale)];
            && AllWellFormed(indices)
            && VariableOffsetResult(indices, base, v1Size, v2Size, sign,
                                    ConstantOffsetHeuristic(indices, v1Size, v2Size, base, masked, same)) == NoAlias
  {
    var x := Variable(0, w);
    var var0 := Index(Binary(Add, x, Constant(w, c), nsw, nuw), zext, sext, scale);
    var var1 := Index(x, zext, sext, -scale);
    NeighboursOfOneForm(w, c, zext, sext, scale, nsw, nuw, masked, same);
    assert Width(var0.v) == w;
    HeuristicIff(var0, var1, base, v1Size, v2Size, masked, same);
    MinDiffIs(c, 0, w);
    SmallModulo(c, Pow2(w));
    var least := Least(c, Pow2(w));
    assert MinDiff(c, 0, w) == least;
    hide WellFormedIndex, SameForm, MinDiff, OffsetOf, ConstantOffsetHeuristic, Pow2, ScaleBits, AllPositive;
    SmallModulo(least * Abs(scale), TWO64);
    SmallModulo(v1Size + Abs(base), TWO64);
    SmallModulo(v2Size + Abs(base), TWO64);
    VariableAnswers([var0, var1], base, v1Size, v2Size, sign, true);
  }
}
