// The end of aliasGEP: what constant and variable offsets from one base say about two accesses.
module BaaAliasGep {
  import opened Arithmetic
  import opened BaaBits
  import opened BaaLinear
  import opened BaaRanges
  import opened BaaDifference
  import opened BaaExtension
  import opened BaaHeuristic
  import opened BaaPositive

  datatype AliasResult = NoAlias | MayAlias | PartialAlias | MustAlias

  function Unsigned(x: int): nat { x % TWO64 }

  /** All scales or'ed together. */
  function ScaleBits(indices: seq<Index>): nat {
    if indices == [] then 0
    else BitOr(ScaleBits(indices[..|indices| - 1]), Unsigned(indices[|indices| - 1].scale))
  }

  predicate ModuloTest(modulo: nat, base: int, v1Size: nat, v2Size: nat) {
    var modOffset := BitAnd(Unsigned(base), Unsigned(modulo - 1));
    && v1Size != UNKNOWN_SIZE && v2Size != UNKNOWN_SIZE
    && modOffset >= v2Size && v1Size <= Unsigned(modulo - modOffset)
  }

  function ConstantOffsetResult(base: int, v1Size: nat, v2Size: nat): AliasResult {
    if base >= 0 then
      if v2Size == UNKNOWN_SIZE then MayAlias else if base < v2Size then PartialAlias else NoAlias
    else
      if v1Size == UNKNOWN_SIZE || v2Size == UNKNOWN_SIZE then MayAlias
      else if -base < v1Size then PartialAlias else NoAlias
  }

  function VariableOffsetResult(indices: seq<Index>, base: int, v1Size: nat, v2Size: nat, sign: SignOracle,
                                heuristic: bool): AliasResult
  {
    if ModuloTest(LowestSetBit(ScaleBits(indices)), base, v1Size, v2Size) then NoAlias
    else if AllPositive(indices, sign) && base > 0 && v2Size <= base then NoAlias
    else if heuristic then NoAlias
    else MayAlias
  }

  /** The scales and signs are gathered in one pass over the indices. */
  method AliasByOffsets(indices: seq<Index>, base: int, v1Size: nat, v2Size: nat, sign: SignOracle,
                        masked: MaskOracle, same: Value -> bool) returns (r: AliasResult)
    requires Int64(base) && forall k :: 0 <= k < |indices| ==> WellFormedIndex(indices[k])
    ensures r == if indices == [] then (if base == 0 then MustAlias else ConstantOffsetResult(base, v1Size, v2Size))
                 else VariableOffsetResult(indices, base, v1Size, v2Size, sign,
                                           ConstantOffsetHeuristic(indices, v1Size, v2Size, base, masked, same))
  {
    hide LowestSetBit, BitOr, ModuloTest, TermIsPositive, ConstantOffsetHeuristic;
    if base == 0 && indices == [] { return MustAlias; }
    if base != 0 && indices == [] { return ConstantOffsetResult(base, v1Size, v2Size); }
    var modulo: nat := 0;
    var allPositive := true;
    for i := 0 to |indices|
      invariant modulo == ScaleBits(indices[..i])
      invariant allPositive <==> forall k :: 0 <= k < i ==> TermIsPositive(indices[k], sign)
    {
      assert indices[..i + 1][..i] == indices[..i];
      modulo := BitOr(modulo, Unsigned(indices[i].scale));
      if allPositive {
        allPositive := TermIsPositive(indices[i], sign);
      }
    }
    assert indices[..|indices|] == indices;
    modulo := LowestSetBit(modulo);
    if ModuloTest(modulo, base, v1Size, v2Size) { return NoAlias; }
    if allPositive && base > 0 && v2Size <= base { return NoAlias; }
    if ConstantOffsetHeuristic(indices, v1Size, v2Size, base, masked, same) { return NoAlias; }
    return MayAlias;
  }

  // -------------------------------------------------------------- modulus

  /** The modulus the test works with: no scales at all leave the whole address space. */
  function Modulus(bits: nat): (m: nat)
    ensures m > 0
  {
    if bits == 0 then TWO64 else Pow2(TrailingZeros(bits))
  }

  lemma ModulusDividesSpace(bits: nat) returns (q: nat)
    requires bits < TWO64
    ensures q * Modulus(bits) == TWO64 && q > 0
  {
    Pow2Of64();
    if bits == 0 {
      q := 1;
    } else {
      TrailingZerosBound(bits, 64);
      q := Pow2(64 - TrailingZeros(bits));
      Pow2Add(64 - TrailingZeros(bits), TrailingZeros(bits));
    }
  }

  lemma {:induction false} ScaleBitsBound(indices: seq<Index>)
    ensures ScaleBits(indices) < TWO64
  {
    Pow2Of64();
    if indices != [] {
      var n := |indices| - 1;
      ScaleBitsBound(indices[..n]);
      OrBound(ScaleBits(indices[..n]), Unsigned(indices[n].scale), 64);
    }
  }

  /** Every scale is a multiple of the modulus. */
  lemma {:induction false} ScaleIsMultiple(bits: nat, other: nat) returns (q: nat)
    requires bits < TWO64 && other < TWO64
    ensures q * Modulus(BitOr(bits, other)) == Modulus(bits)
  {
    Pow2Of64();
    if bits == 0 {
      if other == 0 { q := 1; } else { q := ModulusDividesSpace(other); }
    } else if other == 0 {
      q := 1;
    } else {
      OrTrailingZeros(bits, other);
      var k, l := TrailingZeros(bits), TrailingZeros(BitOr(bits, other));
      q := Pow2(k - l);
      Pow2Add(k - l, l);
    }
  }

  lemma OrCommutes(a: nat, b: nat)
    ensures BitOr(a, b) == BitOr(b, a)
    decreases a + b
  {
    if a != 0 && b != 0 { OrCommutes(a / 2, b / 2); }
  }

  lemma ZeroModulus(x: nat)
    requires x < TWO64
    ensures Cong(x, 0, Modulus(x))
  {
    if x > 0 {
      var odd := OddMultiple(x);
      CongBy(x, 0, Modulus(x), odd);
    } else {
      CongRefl(0, Modulus(x));
    }
  }

  /** The variable part of an address is zero modulo the modulus, for every value of the variables. */
  lemma {:induction false} VariablesVanish(indices: seq<Index>, val: Valuation)
    ensures Cong(LinearValue(indices, val), 0, Modulus(ScaleBits(indices)))
  {
    if indices == [] {
      CongRefl(0, TWO64);
    } else {
      var n := |indices| - 1;
      ScaleBitsBound(indices[..n]);
      VariablesVanish(indices[..n], val);
      LinearSplit(indices, n, val);
      hide Cong, Modulus, BitOr;
      VanishStep(ScaleBits(indices[..n]), LinearValue(indices[..n], val), indices[n].scale, val(KeyOf(indices[n])));
    }
  }

  lemma VanishStep(bits: nat, sum: int, scale: int, x: int)
    requires bits < TWO64 && Cong(sum, 0, Modulus(bits))
    ensures Cong(sum + scale * x, 0, Modulus(BitOr(bits, Unsigned(scale))))
  {
    var u := Unsigned(scale);
    var m := Modulus(BitOr(bits, u));
    var q := ScaleIsMultiple(bits, u);
    OrCommutes(bits, u);
    var r := ScaleIsMultiple(u, bits);
    Pow2Of64();
    OrBound(bits, u, 64);
    var s := ModulusDividesSpace(BitOr(bits, u));
    ZeroModulus(u);
    hide Cong, Modulus, BitOr, Pow2, Unsigned;
    CongDivisor(sum, 0, m, q, Modulus(bits));
    CongDivisor(u, 0, m, r, Modulus(u));
    ScaleVanishes(scale, x, m, s);
    CongAdd(sum, 0, scale * x, 0, m);
  }

  lemma ScaleVanishes(scale: int, x: int, m: nat, k: nat)
    requires m > 0 && Cong(Unsigned(scale), 0, m) && k * m == TWO64
    ensures Cong(scale * x, 0, m)
  {
    CongMod(scale, TWO64);
    hide Cong;
    CongDivisor(scale, Unsigned(scale), m, k, TWO64);
    CongTrans(scale, Unsigned(scale), 0, m);
    CongMul(scale, 0, x, m);
    assert 0 * x == 0;
  }

  // ------------------------------------------------------- the modulo test

  /** The second access fits below the residue and the first between it and the modulus. */
  predicate FitsResidue(m: nat, base: int, v1Size: nat, v2Size: nat)
    requires m > 0
  {
    v2Size <= base % m && v1Size <= m - base % m
  }

  lemma ModOffsetIs(bits: nat, base: int)
    requires bits < TWO64
    ensures BitAnd(Unsigned(base), Unsigned(LowestSetBit(bits) - 1)) == base % Modulus(bits)
    ensures LowestSetBit(bits) == if bits == 0 then 0 else Modulus(bits)
    ensures Modulus(bits) <= TWO64
  {
    var m, u := Modulus(bits), Unsigned(base);
    var q := ModulusDividesSpace(bits);
    ResidueOfUnsigned(base, m, q);
    Pow2Of64();
    if bits == 0 {
      assert LowestSetBit(0) == 0;
      hide BitAnd, LowestSetBit;
      DivideUnique(-1, TWO64, -1, MAX64);
      DivisionIs(-1, TWO64);
      MaskIsRemainder(u, 64);
    } else {
      LowestSetBitIs(bits);
      hide BitAnd, LowestSetBit;
      TrailingZerosBound(bits, 64);
      Pow2Monotone(TrailingZeros(bits), 64);
      SmallModulo(m - 1, TWO64);
      MaskIsRemainder(u, TrailingZeros(bits));
    }
  }

  lemma ModuloTestIs(bits: nat, base: int, v1Size: nat, v2Size: nat)
    requires bits < TWO64 && 0 < v1Size < UNKNOWN_SIZE && 0 < v2Size < UNKNOWN_SIZE
    ensures ModuloTest(LowestSetBit(bits), base, v1Size, v2Size) <==> FitsResidue(Modulus(bits), base, v1Size, v2Size)
  {
    ModOffsetIs(bits, base);
    DivisionIs(base, Modulus(bits));
    hide BitAnd, LowestSetBit, Modulus;
    RoomBelow(Modulus(bits), base % Modulus(bits), LowestSetBit(bits));
  }

  lemma RoomBelow(m: nat, r: nat, lowest: nat)
    requires r < m <= TWO64 && (lowest == m || (m == TWO64 && lowest == 0))
    ensures r > 0 || m < TWO64 ==> Unsigned(lowest - r) == m - r
  {
    if lowest == m {
      if r > 0 || m < TWO64 { SmallModulo(m - r, TWO64); }
    } else if r > 0 {
      DivideUnique(-(r as int), TWO64, -1, TWO64 - r);
      DivisionIs(-(r as int), TWO64);
    }
  }

  lemma ResidueOfUnsigned(base: int, m: nat, q: nat)
    requires m > 0 && q * m == TWO64
    ensures Unsigned(base) % m == base % m && m <= TWO64
  {
    CongMod(base, TWO64);
    hide Cong;
    CongDivisor(Unsigned(base), base, m, q, TWO64);
    CongEqualMod(Unsigned(base), base, m);
    PositiveFactor(q, m);
    MultiplyMonotone(1, q, m);
  }

  /** A residue fitting means the ranges are disjoint, whatever multiple of the modulus is added. */
  lemma ResidueSeparates(m: nat, q: nat, base: int, sum: int, v1Size: nat, v2Size: nat, a1: int, a2: int)
    requires m > 0 && q * m == TWO64 && FitsResidue(m, base, v1Size, v2Size) && Cong(sum, 0, m)
    requires v1Size <= MAX64 && v2Size <= MAX64 && Cong(a1 - a2, base + sum, TWO64)
    ensures Disjoint(a1, v1Size, a2, v2Size)
  {
    hide Cong, Disjoint;
    var t := Distance(a1, a2, base + sum);
    CongMod(base + sum, TWO64);
    CongDivisor(t, base + sum, m, q, TWO64);
    CongRefl(base, m);
    CongAdd(base, base, sum, 0, m);
    CongTrans(t, base + sum, base, m);
    CongEqualMod(t, base, m);
    RoomAround(t, m, q);
    DisjointIff(a1, v1Size, a2, v2Size, t);
  }

  lemma RoomAround(t: nat, m: nat, q: nat)
    requires m > 0 && q * m == TWO64 && t < TWO64
    ensures t % m <= t && m - t % m <= TWO64 - t
  {
    DivisionIs(t, m);
    var k := t / m;
    assert k * m <= t;
    if k >= q { MultiplyMonotone(q, k, m); }
    MultiplyMonotone(k + 1, q, m);
    assert (k + 1) * m == k * m + m;
    assert k >= 0;
    MultiplyMonotone(0, k, m);
  }

  /** A passed modulo test: the accesses are disjoint for every value of the variables. */
  lemma ModuloTestIsSound(indices: seq<Index>, base: int, v1Size: nat, v2Size: nat, val: Valuation, a1: int, a2: int)
    requires ModuloTest(LowestSetBit(ScaleBits(indices)), base, v1Size, v2Size)
    requires v1Size <= MAX64 && v2Size <= MAX64 && Cong(a1 - a2, base + LinearValue(indices, val), TWO64)
    ensures Disjoint(a1, v1Size, a2, v2Size)
  {
    if v1Size == 0 || v2Size == 0 { return; }
    var bits := ScaleBits(indices);
    ScaleBitsBound(indices);
    hide LowestSetBit, Modulus, Cong, Disjoint, FitsResidue;
    ModuloTestIs(bits, base, v1Size, v2Size);
    var q := ModulusDividesSpace(bits);
    VariablesVanish(indices, val);
    ResidueSeparates(Modulus(bits), q, base, LinearValue(indices, val), v1Size, v2Size, a1, a2);
  }

  // ------------------------------------------------------------- exactness

  /** Some scale has no more trailing zeros than all of them or'ed. */
  lemma {:induction false} LowestScale(indices: seq<Index>) returns (i: nat)
    requires ScaleBits(indices) > 0
    ensures i < |indices| && Unsigned(indices[i].scale) > 0
    ensures TrailingZeros(Unsigned(indices[i].scale)) == TrailingZeros(ScaleBits(indices))
  {
    var n := |indices| - 1;
    var bits, u := ScaleBits(indices[..n]), Unsigned(indices[n].scale);
    if bits == 0 {
      i := n;
    } else if u == 0 {
      i := LowestScale(indices[..n]);
    } else {
      OrTrailingZeros(bits, u);
      if TrailingZeros(bits) <= TrailingZeros(u) { i := LowestScale(indices[..n]); } else { i := n; }
    }
  }

  /** The variables can make any multiple of the modulus. */
  lemma EveryMultipleArises(indices: seq<Index>, k: int) returns (val: Valuation)
    requires Canonical(indices) && ScaleBits(indices) > 0
    ensures Cong(LinearValue(indices, val), k * Modulus(ScaleBits(indices)), TWO64)
  {
    var m := Modulus(ScaleBits(indices));
    var i := LowestScale(indices);
    var scale := indices[i].scale;
    var u := Unsigned(scale);
    var odd := OddMultiple(u);
    Pow2Of64();
    var inv := OddInverse(odd, 64);
    var x := inv * k;
    val := Only(KeyOf(indices[i]), x);
    OnlyValue(indices, i, x);
    CongMod(scale, TWO64);
    hide Cong, Modulus, LinearValue, Only, Canonical;
    InverseTimes(scale, u, odd, m, inv, k);
  }

  lemma InverseTimes(scale: int, u: nat, odd: nat, m: nat, inv: nat, k: int)
    requires Cong(u, scale, TWO64) && u == odd * m && Cong(odd * inv, 1, TWO64)
    ensures Cong(scale * (inv * k), k * m, TWO64)
  {
    hide Cong;
    CongSym(u, scale, TWO64);
    CongMul(scale, u, inv * k, TWO64);
    CongMul(odd * inv, 1, k * m, TWO64);
    assert u * (inv * k) == odd * inv * (k * m) by { Regroup(odd, m, inv, k); }
    assert 1 * (k * m) == k * m;
    CongTrans(scale * (inv * k), odd * inv * (k * m), k * m, TWO64);
  }

  lemma Regroup(odd: int, m: int, inv: int, k: int)
    ensures odd * m * (inv * k) == odd * inv * (k * m)
  {
    assert odd * m * (inv * k) == odd * (m * (inv * k)) && m * (inv * k) == inv * (k * m);
    assert odd * inv * (k * m) == odd * (inv * (k * m));
  }

  lemma SomeBits(indices: seq<Index>)
    requires Canonical(indices) && indices != []
    ensures ScaleBits(indices) > 0
  {
    var n := |indices| - 1;
    var bits, scale := ScaleBits(indices[..n]), indices[n].scale;
    assert scale != 0 && Int64(scale);
    if scale < 0 { DivideUnique(scale, TWO64, -1, scale + TWO64); } else { SmallModulo(scale, TWO64); }
    DivisionIs(scale, TWO64);
    if bits > 0 { OrTrailingZeros(bits, Unsigned(scale)); }
  }

  /** The test is exact: when it fails for two non-empty accesses of known size, some values of the
      variables make them overlap. */
  lemma ModuloTestIsExact(indices: seq<Index>, base: int, v1Size: nat, v2Size: nat) returns (val: Valuation)
    requires Canonical(indices) && indices != []
    requires 0 < v1Size < UNKNOWN_SIZE && 0 < v2Size < UNKNOWN_SIZE
    requires !ModuloTest(LowestSetBit(ScaleBits(indices)), base, v1Size, v2Size)
    ensures forall a1, a2 :: Cong(a1 - a2, base + LinearValue(indices, val), TWO64) ==>
            !Disjoint(a1, v1Size, a2, v2Size)
  {
    var bits := ScaleBits(indices);
    var m := Modulus(bits);
    ScaleBitsBound(indices);
    SomeBits(indices);
    ModuloTestIs(bits, base, v1Size, v2Size);
    var q := ModulusDividesSpace(bits);
    var r := base % m;
    var k := ReachableResidue(base, m, r, v2Size);
    val := EveryMultipleArises(indices, k);
    hide LinearValue, Cong, Disjoint, ScaleBits, Modulus, LowestSetBit, ModuloTest;
    forall a1, a2 | Cong(a1 - a2, base + LinearValue(indices, val), TWO64) ensures !Disjoint(a1, v1Size, a2, v2Size) {
      CongRefl(base, TWO64);
      CongAdd(base, base, LinearValue(indices, val), k * m, TWO64);
      CongTrans(a1 - a2, base + LinearValue(indices, val), base + k * m, TWO64);
      Overlap(m, q, r, v1Size, v2Size, a1, a2);
    }
  }

  lemma ReachableResidue(base: int, m: nat, r: nat, v2Size: nat) returns (k: int)
    requires m > 0 && r == base % m
    ensures r < m && base + k * m == if r < v2Size then r else r - m
  {
    DivisionIs(base, m);
    var q := base / m;
    k := if r < v2Size then -q else -q - 1;
    assert (-q) * m == -(q * m) && (-q - 1) * m == -(q * m) - m;
  }

  lemma Overlap(m: nat, q: nat, r: nat, v1Size: nat, v2Size: nat, a1: int, a2: int)
    requires q * m == TWO64 && r < m && 0 < v1Size <= MAX64 && 0 < v2Size <= MAX64 && !(v2Size <= r && v1Size <= m - r)
    requires Cong(a1 - a2, if r < v2Size then r else r - m, TWO64)
    ensures !Disjoint(a1, v1Size, a2, v2Size)
  {
    hide Cong, Disjoint;
    PositiveFactor(q, m);
    MultiplyMonotone(1, q, m);
    if r < v2Size {
      DisjointIff(a1, v1Size, a2, v2Size, r);
    } else {
      CongBy(r - m, TWO64 + r - m, TWO64, -1);
      CongTrans(a1 - a2, r - m, TWO64 + r - m, TWO64);
      DisjointIff(a1, v1Size, a2, v2Size, TWO64 + r - m);
    }
  }

  // ----------------------------------------------------- constant offsets

  /** Without variables, equal offsets mean the same address. */
  lemma MustAliasIsExact(base: int, a1: int, a2: int)
    requires Int64(base) && Cong(a1 - a2, base, TWO64)
    ensures base == 0 <==> Byte(a1, 0) == Byte(a2, 0)
  {
    var t := Distance(a1, a2, base);
    hide Cong;
    SameByte(a1, 0, a2, 0, t);
    CongMod(base, TWO64);
    if base == 0 {
      CongRefl(0, TWO64);
    } else if Cong(t, 0, TWO64) {
      CongSym(t, base, TWO64);
      CongTrans(base, t, 0, TWO64);
      CongEqual(base, 0, TWO64);
    }
  }

  /** A partial alias is an overlap; no alias is disjointness exactly as long as the access that
      starts higher does not come around the address space into the other. */
  lemma ConstantOffsetIsExact(base: int, v1Size: nat, v2Size: nat, a1: int, a2: int)
    requires Int64(base) && base != 0 && 0 < v1Size <= MAX64 && 0 < v2Size <= MAX64 && Cong(a1 - a2, base, TWO64)
    ensures var r := ConstantOffsetResult(base, v1Size, v2Size);
            && (r == PartialAlias ==> !Disjoint(a1, v1Size, a2, v2Size))
            && (r == NoAlias ==> (Disjoint(a1, v1Size, a2, v2Size)
                                  <==> if base > 0 then base + v1Size <= TWO64 else -base + v2Size <= TWO64))
  {
    hide Cong, Disjoint;
    var t: nat := if base > 0 then base else base + TWO64;
    if base < 0 { CongBy(base, base + TWO64, TWO64, -1); } else { CongRefl(base, TWO64); }
    CongTrans(a1 - a2, base, t, TWO64);
    DisjointIff(a1, v1Size, a2, v2Size, t);
  }

  // --------------------------------------------- one variable, power of two

  lemma {:induction false} TrailingZerosOf(odd: nat, k: nat)
    requires odd % 2 == 1
    ensures odd * Pow2(k) > 0 && TrailingZeros(odd * Pow2(k)) == k
  {
    var x := odd * Pow2(k);
    assert x > 0 by { MultiplyMonotone(1, odd, Pow2(k)); }
    if k > 0 {
      assert x == 2 * (odd * Pow2(k - 1));
      TrailingZerosOf(odd, k - 1);
    }
  }

  lemma UnsignedPower(scale: int, k: nat) returns (odd: nat)
    requires Abs(scale) == Pow2(k) && k < 64
    ensures odd % 2 == 1 && Unsigned(scale) == odd * Pow2(k)
  {
    Pow2Of64();
    Pow2Add(64 - k, k);
    var p, r := Pow2(k), Pow2(64 - k);
    assert r == 2 * Pow2(63 - k);
    hide Pow2;
    MultiplyMonotone(2, r, p);
    if scale > 0 {
      odd := 1;
      SmallModulo(scale, TWO64);
    } else {
      odd := r - 1;
      NegativeModulo(scale, p, r);
    }
  }

  lemma NegativeModulo(scale: int, p: nat, r: nat)
    requires scale == -(p as int) && 0 < p <= TWO64 && r * p == TWO64 && r > 0
    ensures scale % TWO64 == (r - 1) * p
  {
    assert (r - 1) * p == r * p - p;
    DivideUnique(scale, TWO64, -1, scale + TWO64);
    DivisionIs(scale, TWO64);
  }

  lemma ModulusOfOne(ix: Index, k: nat)
    requires Int64(ix.scale) && Abs(ix.scale) == Pow2(k)
    ensures Modulus(ScaleBits([ix])) == Pow2(k) && k < 64
  {
    Pow2Of64();
    if k >= 64 { Pow2Monotone(64, k); }
    assert ScaleBits([ix]) == Unsigned(ix.scale) by { assert [ix][..0] == []; }
    hide Unsigned, ScaleBits, Pow2;
    var odd := UnsignedPower(ix.scale, k);
    TrailingZerosOf(odd, k);
  }

  /** A multiple of the scale away from base, and past the end of the address space by less than the scale:
      it is in the second access unless the modulo test passes. */
  lemma CrossesInto(m: nat, q: nat, base: int, u: nat, sum: int, v1Size: nat, v2Size: nat)
    requires m > 0 && q * m == TWO64 && sum == base + m * u && !FitsResidue(m, base, v1Size, v2Size)
    requires TWO64 - v1Size < sum <= TWO64 - v1Size + m && v1Size > 0 && v2Size > 0
    ensures sum < TWO64 + v2Size
  {
    var r := base % m;
    DivisionIs(base, m);
    if sum >= TWO64 {
      var t, j := sum - TWO64, base / m + u - q;
      assert t == j * m + r by { assert j * m == base / m * m + m * u - q * m; }
      DivideUnique(t, m, 0, t);
      DivideUnique(t, m, j, r);
      assert t == r by { assert j == 0 && 0 * m == 0; }
    }
  }

  /** One free variable scaled by a power of two: when the rule decides, its answer is right for all values
      exactly when the modulo test has passed or the first access cannot come round. */
  lemma PowerInReachIff(ix: Index, k: nat, base: int, v1Size: nat, v2Size: nat, sign: SignOracle, reading: Reading)
    requires FreeTerm(ix, sign, reading) && Abs(ix.scale) == Pow2(k) && AllWellFormed([ix])
    requires Int64(base) && base > 0 && 0 < v2Size <= base && 0 < v1Size < UNKNOWN_SIZE
    ensures VariableOffsetResult([ix], base, v1Size, v2Size, sign, false) == NoAlias
    ensures AlwaysApart([ix], base, v1Size, v2Size, sign, reading)
            <==> FitsResidue(Pow2(k), base, v1Size, v2Size) || InReach([ix], base, v1Size, sign, reading)
  {
    var bits := ScaleBits([ix]);
    ModulusOfOne(ix, k);
    ScaleBitsBound([ix]);
    ModuloTestIs(bits, base, v1Size, v2Size);
    assert AllPositive([ix], sign);
    hide LowestSetBit, ModuloTest, FreeTerm, InReach, ScaleBits, Modulus, FitsResidue, Pow2, AlwaysApart;
    if FitsResidue(Pow2(k), base, v1Size, v2Size) || InReach([ix], base, v1Size, sign, reading) {
      OneStaysClear(ix, base, v1Size, v2Size, sign, reading);
    } else {
      PowerComesRound(ix, k, base, v1Size, v2Size, sign, reading);
    }
  }

  lemma OneStaysClear(ix: Index, base: int, v1Size: nat, v2Size: nat, sign: SignOracle, reading: Reading)
    requires AllWellFormed([ix]) && AllPositive([ix], sign)
    requires base > 0 && v2Size <= base && v1Size <= MAX64 && v2Size <= MAX64
    requires ModuloTest(LowestSetBit(ScaleBits([ix])), base, v1Size, v2Size)
             || InReach([ix], base, v1Size, sign, reading)
    ensures AlwaysApart([ix], base, v1Size, v2Size, sign, reading)
  {
    hide LowestSetBit, ModuloTest, Cong, Disjoint, LinearValue, SignsHold, InReach, ScaleBits, WellFormedIndex, Values;
    hide TermIsPositive;
    forall env, a1, a2 | SignsHold([ix], sign, env)
                         && Cong(a1 - a2, base + LinearValue([ix], Values(env, reading)), TWO64)
      ensures Disjoint(a1, v1Size, a2, v2Size)
    {
      if InReach([ix], base, v1Size, sign, reading) {
        InReachSuffices([ix], base, v1Size, v2Size, sign, env, reading, a1, a2);
      } else {
        ModuloTestIsSound([ix], base, v1Size, v2Size, Values(env, reading), a1, a2);
      }
    }
  }

  lemma PowerComesRound(ix: Index, k: nat, base: int, v1Size: nat, v2Size: nat, sign: SignOracle, reading: Reading)
    requires FreeTerm(ix, sign, reading) && Abs(ix.scale) == Pow2(k) && AllWellFormed([ix])
    requires Int64(base) && base > 0 && 0 < v2Size <= base && 0 < v1Size < UNKNOWN_SIZE
    requires !FitsResidue(Pow2(k), base, v1Size, v2Size) && !InReach([ix], base, v1Size, sign, reading)
    ensures !AlwaysApart([ix], base, v1Size, v2Size, sign, reading)
  {
    ModulusOfOne(ix, k);
    ScaleBitsBound([ix]);
    var q := ModulusDividesSpace(ScaleBits([ix]));
    assert FreeTerms([ix], sign, reading) && WellFormedIndex(ix) && TermIsPositive(ix, sign);
    assert MinSum([ix]) <= Pow2(k) by { LeastOfOne(ix); }
    hide FreeTerm, FreeTerms, FitsResidue, Modulus, ScaleBits, AlwaysApart, WellFormedIndex, TermIsPositive;
    var env := WalkMeets([ix], sign, reading, Pow2(k), TWO64 - v1Size + 1 - base);
    assert SignHolds([ix][0], sign, env);
    var u := TermBounds(ix, sign, env, reading);
    var sum := base + LinearValue([ix], Values(env, reading));
    assert sum == base + Pow2(k) * u by { assert [ix][1..] == []; }
    hide LinearValue, SignsHold, SignHolds, Term, Pow2;
    if sum <= TWO64 - v1Size + Pow2(k) { CrossesInto(Pow2(k), q, base, u, sum, v1Size, v2Size); }
    MeetsSecond([ix], base, v1Size, v2Size, sign, reading, env);
  }

  lemma LeastOfOne(ix: Index)
    ensures MinSum([ix]) <= Abs(ix.scale)
  {
    assert [ix][1..] == [];
  }

  /** A 64-bit variable known not to be negative, scaled by two or more: the rule's answer is wrong for some
      value unless the modulo test has passed, however small the accesses are. Pointers that stay in
      bounds would make it right, but nothing asks for that. */
  lemma PositiveRuleFails(k: nat, base: int, v1Size: nat, v2Size: nat, sign: SignOracle, reading: Reading)
    requires 0 < k <= 62 && sign(Variable(0, 64)) == NonNegative
    requires Int64(base) && base > 0 && 0 < v2Size <= base && 0 < v1Size < UNKNOWN_SIZE && base + v1Size > 2
    requires !FitsResidue(Pow2(k), base, v1Size, v2Size)
    ensures var ix := Index(Variable(0, 64), 0, 0, Pow2(k));
            && WellFormedIndex(ix) && AllWellFormed([ix])
            && VariableOffsetResult([ix], base, v1Size, v2Size, sign, false) == NoAlias
            && !AlwaysApart([ix], base, v1Size, v2Size, sign, reading)
  {
    var ix := Index(Variable(0, 64), 0, 0, Pow2(k));
    Pow2Of64();
    Pow2Monotone(k, 62);
    Pow2Monotone(1, k);
    var p := Pow2(k);
    assert Int64(p) && WellTyped(ix.v) && FreeTerm(ix, sign, reading);
    assert AllWellFormed([ix]);
    assert Pow2(63) == TWO63;
    assert MaxSum([ix], sign, reading) == p * (TWO63 - 1) by { assert [ix][1..] == []; }
    MultiplyMonotone(2, p, TWO63 - 1);
    PowerInReachIff(ix, k, base, v1Size, v2Size, sign, reading);
  }

  // ---------------------------------------------------------- conclusion

  /** The rule for positive variables, where it decides: the first access cannot come round the address space. */
  predicate SumsReliable(indices: seq<Index>, base: int, v1Size: nat, v2Size: nat, sign: SignOracle, reading: Reading)
    requires AllWellFormed(indices)
  {
    AllPositive(indices, sign) && base > 0 && v2Size <= base ==> InReach(indices, base, v1Size, sign, reading)
  }

  /** The constant-offset heuristic, where it decides: the decompositions are exact, and the accesses are
      clear of each other at every distance. */
  predicate HeuristicReliable(indices: seq<Index>, base: int, v1Size: nat, v2Size: nat, masked: MaskOracle, env: Env,
                              reading: Reading)
    requires |indices| == 2
  {
    && Understood(indices[0], masked, env) && Understood(indices[1], masked, env)
    && AllClear(IndexDistances(indices[0], indices[1], masked, reading), indices[0].scale, base, v1Size, v2Size)
  }

  /** No alias means that no byte is shared, for all values of the variables for which the sign answers and the
      flags hold. What is asked of the last two rules can be told before the values are known, and is asked
      only when no earlier rule decides. */
  lemma NoAliasIsSound(indices: seq<Index>, base: int, v1Size: nat, v2Size: nat, sign: SignOracle, masked: MaskOracle,
                       same: Value -> bool, env: Env, reading: Reading, a1: int, a2: int)
    requires indices != [] && AllWellFormed(indices) && SignsHold(indices, sign, env)
    requires v1Size <= MAX64 && v2Size <= MAX64
    requires !ModuloTest(LowestSetBit(ScaleBits(indices)), base, v1Size, v2Size) ==>
               SumsReliable(indices, base, v1Size, v2Size, sign, reading)
    requires !ModuloTest(LowestSetBit(ScaleBits(indices)), base, v1Size, v2Size)
             && !(AllPositive(indices, sign) && base > 0 && v2Size <= base)
             && ConstantOffsetHeuristic(indices, v1Size, v2Size, base, masked, same) ==>
               HeuristicReliable(indices, base, v1Size, v2Size, masked, env, reading)
    requires Cong(a1 - a2, base + LinearValue(indices, Values(env, reading)), TWO64)
    requires VariableOffsetResult(indices, base, v1Size, v2Size, sign,
                                  ConstantOffsetHeuristic(indices, v1Size, v2Size, base, masked, same)) == NoAlias
    ensures Disjoint(a1, v1Size, a2, v2Size)
  {
    hide LowestSetBit, ScaleBits, ModuloTest, Cong, LinearValue, SignsHold, Understood, WellFormedIndex, Pow2;
    hide AllClear, IndexDistances, InReach;
    if v1Size == 0 || v2Size == 0 { return; }
    hide Disjoint;
    if ModuloTest(LowestSetBit(ScaleBits(indices)), base, v1Size, v2Size) {
      ModuloTestIsSound(indices, base, v1Size, v2Size, Values(env, reading), a1, a2);
    } else if AllPositive(indices, sign) && base > 0 && v2Size <= base {
      InReachSuffices(indices, base, v1Size, v2Size, sign, env, reading, a1, a2);
    } else {
      HeuristicIsSound(indices, v1Size, v2Size, base, masked, same, env, reading, a1, a2);
    }
  }
}
