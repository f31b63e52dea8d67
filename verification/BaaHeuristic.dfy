// constantOffsetHeuristic: two indices that differ only by a constant, up to wrap-around.
module BaaHeuristic {
  import opened Arithmetic
  import opened BaaBits
  import opened BaaLinear
  import opened BaaRanges
  import opened BaaDifference
  import opened BaaExtension

  /** An index of a 64-bit address computation is extended to 64 bits. */
  predicate WellFormedIndex(ix: Index) {
    WellTyped(ix.v) && Int64(ix.scale) && Width(ix.v) + ix.zext + ix.sext == 64
  }

  /** The conditions under which a decomposition is exact. */
  predicate Understood(ix: Index, masked: MaskOracle, env: Env) {
    WellFormedIndex(ix) && SExtFree(ix.v) && Truthful(ix.v, masked, env)
  }

  function MinDiff(a: nat, b: nat, w: nat): nat {
    var diff := OffsetDifference(a, b, w);
    var wrapped := (0 - diff as int) % Pow2(w);
    if diff <= wrapped then diff else wrapped
  }

  function MinDiffBytes(a: nat, b: nat, w: nat, scale: int): nat {
    MinDiff(a, b, w) * Abs(scale) % TWO64
  }

  /** Are two indices scaled opposite ways, and of one form plus constants? */
  predicate SameForm(var0: Index, var1: Index, masked: MaskOracle, same: Value -> bool)
    requires WellFormedIndex(var0) && WellFormedIndex(var1)
  {
    && var0.zext == var1.zext && var0.sext == var1.sext && var0.scale == -var1.scale
    && var w := Width(var1.v);
       var d0 := GetLinearExpression(var0.v, START, w, 0, masked);
       var d1 := GetLinearExpression(var1.v, START, w, 0, masked);
       && d0.linear.scale == d1.linear.scale && d0.linear.zext == d1.linear.zext && d0.linear.sext == d1.linear.sext
       && d0.value == d1.value && same(d0.value)
  }

  /** The constant of an index. */
  function OffsetOf(ix: Index, masked: MaskOracle): nat
    requires WellFormedIndex(ix)
  {
    Decompose(ix.v, masked).linear.offset
  }

  /** The bytes that the sizes are compared with. Width is that of the second index. */
  function GapBytes(var0: Index, var1: Index, masked: MaskOracle): nat
    requires WellFormedIndex(var0) && WellFormedIndex(var1)
  {
    MinDiffBytes(OffsetOf(var0, masked), OffsetOf(var1, masked), Width(var1.v), var0.scale)
  }

  predicate ConstantOffsetHeuristic(indices: seq<Index>, v1Size: nat, v2Size: nat, base: int,
                                    masked: MaskOracle, same: Value -> bool)
    requires forall k :: 0 <= k < |indices| ==> WellFormedIndex(indices[k])
  {
    if |indices| != 2 || v1Size == UNKNOWN_SIZE || v2Size == UNKNOWN_SIZE then false
    else
      var var0, var1 := indices[0], indices[1];
      assert WellFormedIndex(var0) && WellFormedIndex(var1);
      && SameForm(var0, var1, masked, same)
      && (v1Size + Abs(base)) % TWO64 <= GapBytes(var0, var1, masked)
      && (v2Size + Abs(base)) % TWO64 <= GapBytes(var0, var1, masked)
  }

  lemma HeuristicUnfolds(indices: seq<Index>, v1Size: nat, v2Size: nat, base: int, masked: MaskOracle,
                         same: Value -> bool)
    requires forall k :: 0 <= k < |indices| ==> WellFormedIndex(indices[k])
    requires ConstantOffsetHeuristic(indices, v1Size, v2Size, base, masked, same)
    ensures |indices| == 2 && indices == [indices[0], indices[1]]
    ensures WellFormedIndex(indices[0]) && WellFormedIndex(indices[1]) && SameForm(indices[0], indices[1], masked, same)
    ensures (v1Size + Abs(base)) % TWO64 <= GapBytes(indices[0], indices[1], masked)
    ensures (v2Size + Abs(base)) % TWO64 <= GapBytes(indices[0], indices[1], masked)
  {
    assert WellFormedIndex(indices[0]) && WellFormedIndex(indices[1]);
    hide WellFormedIndex, SameForm, GapBytes;
  }

  // ------------------------------------------------- the exact condition

  /** The first access is clear of the second at each of some distances, scaled. */
  predicate AllClear(distances: set<int>, scale: int, base: int, v1Size: nat, v2Size: nat) {
    forall d :: d in distances ==> Clear((base + scale * d) % TWO64, v1Size, v2Size)
  }

  /** The multiples that a scale reaches modulo 2^w. */
  function Granule(scale: nat, w: nat): (g: nat)
    ensures g > 0
  {
    if scale == 0 || TrailingZeros(scale) >= w then Pow2(w) else Pow2(TrailingZeros(scale))
  }

  lemma GranuleDivides(scale: nat, w: nat) returns (q: nat)
    ensures Pow2(w) == q * Granule(scale, w)
  {
    if scale == 0 || TrailingZeros(scale) >= w {
      q := 1;
    } else {
      q := Pow2(w - TrailingZeros(scale));
      Pow2Add(w - TrailingZeros(scale), TrailingZeros(scale));
    }
  }

  lemma GranuleOfScale(scale: nat, x: nat, w: nat)
    ensures Cong(scale * x, 0, Granule(scale, w))
  {
    var g := Granule(scale, w);
    if scale == 0 {
      CongRefl(0, g);
    } else {
      var k := TrailingZeros(scale);
      var odd := OddMultiple(scale);
      CongBy(scale, 0, Pow2(k), odd);
      hide Cong, TrailingZeros;
      if k >= w { CongPow2(scale, 0, w, k); }
      CongMul(scale, 0, x, g);
      assert 0 * x == 0;
    }
  }

  /** The distances between the values of two indices of one form. */
  function IndexDistances(var0: Index, var1: Index, masked: MaskOracle, reading: Reading): set<int>
    requires WellFormedIndex(var0) && WellFormedIndex(var1)
  {
    var w := Width(var0.v);
    Distances(OffsetDifference(OffsetOf(var0, masked), OffsetOf(var1, masked), w), Pow2(w),
              Top(KeyOf(var0), reading), Top(KeyOf(var1), reading),
              OffsetOf(var1, masked), Granule(Decompose(var0.v, masked).linear.scale, w))
  }

  lemma SameFormWidths(var0: Index, var1: Index, masked: MaskOracle, same: Value -> bool)
    requires WellFormedIndex(var0) && WellFormedIndex(var1) && SameForm(var0, var1, masked, same)
    ensures Width(var0.v) == Width(var1.v) > 0
    ensures var d0, d1 := Decompose(var0.v, masked), Decompose(var1.v, masked);
            d0.linear.scale == d1.linear.scale && d0.value == d1.value
  {
    assert Width(var0.v) == Width(var1.v);
    WidthPositive(var0.v);
    hide GetLinearExpression, WellTyped, Width;
  }

  /** What the oracle says of the two indices' common variable is right for the iterations they are in. */
  predicate Vouched(var0: Index, masked: MaskOracle, same: Value -> bool, env0: Env, env1: Env)
    requires WellFormedIndex(var0)
  {
    var v := Decompose(var0.v, masked).value;
    same(v) && WellTyped(v) ==> Eval(v, env0) == Eval(v, env1)
  }

  /** Both values are the same form plus their constants. */
  lemma FormsOf(var0: Index, var1: Index, masked: MaskOracle, same: Value -> bool, env0: Env, env1: Env)
    returns (form: nat)
    requires WellFormedIndex(var0) && WellFormedIndex(var1) && SameForm(var0, var1, masked, same)
    requires Understood(var0, masked, env0) && Understood(var1, masked, env1) && Vouched(var0, masked, same, env0, env1)
    ensures var d := Decompose(var0.v, masked);
            WellTyped(d.value) && Width(d.value) <= Width(var0.v) && form == d.linear.scale * Eval(d.value, env0)
    ensures Width(var0.v) == Width(var1.v) > 0
    ensures Eval(var0.v, env0) == (form + OffsetOf(var0, masked)) % Pow2(Width(var0.v))
    ensures Eval(var1.v, env1) == (form + OffsetOf(var1, masked)) % Pow2(Width(var0.v))
  {
    SameFormWidths(var0, var1, masked, same);
    SameFormVouches(var0, var1, masked, same);
    var d, d1 := Decompose(var0.v, masked), Decompose(var1.v, masked);
    hide SameForm, Eval, Truthful, SExtFree, Decompose, WellTyped, Width, Pow2, Form, GetLinearExpression;
    DecompositionPreservesValue(var0.v, masked, env0);
    DecompositionPreservesValue(var1.v, masked, env1);
    form := FormPart(d.linear.scale, Eval(d.value, env0), d.linear.offset);
    var form1 := FormPart(d1.linear.scale, Eval(d1.value, env1), d1.linear.offset);
  }

  lemma SameFormVouches(var0: Index, var1: Index, masked: MaskOracle, same: Value -> bool)
    requires WellFormedIndex(var0) && WellFormedIndex(var1) && SameForm(var0, var1, masked, same)
    ensures same(Decompose(var0.v, masked).value)
  {
    assert Width(var0.v) == Width(var1.v);
    hide GetLinearExpression, WellTyped, Width;
  }

  lemma FormPart(scale: nat, x: nat, offset: nat) returns (form: nat)
    ensures form == scale * x && Form(scale, x, offset) == form + offset
  {
    form := scale * x;
  }

  /** The two indices together contribute the scaled distance of their values. */
  lemma ValueIsDistance(var0: Index, var1: Index, masked: MaskOracle, same: Value -> bool, env0: Env, env1: Env,
                        reading: Reading)
    requires WellFormedIndex(var0) && WellFormedIndex(var1) && SameForm(var0, var1, masked, same)
    requires Understood(var0, masked, env0) && Understood(var1, masked, env1) && Vouched(var0, masked, same, env0, env1)
    ensures var d := KeyValue(KeyOf(var0), env0, reading) - KeyValue(KeyOf(var1), env1, reading);
            d in IndexDistances(var0, var1, masked, reading)
            && SplitValue([var0, var1], 1, Values(env0, reading), Values(env1, reading)) == var0.scale * d
  {
    hide Eval, Truthful, SExtFree, Pow2, Distances, Top, Extended, Decompose, GetLinearExpression;
    var form := FormsOf(var0, var1, masked, same, env0, env1);
    var w, d := Width(var0.v), Decompose(var0.v, masked);
    GranuleOfScale(d.linear.scale, Eval(d.value, env0), w);
    var q := GranuleDivides(d.linear.scale, w);
    hide Granule;
    WrappedDifference(Eval(var0.v, env0), Eval(var1.v, env1), form, OffsetOf(var0, masked), OffsetOf(var1, masked), w,
                      Top(KeyOf(var0), reading), Top(KeyOf(var1), reading), Granule(d.linear.scale, w), q);
    OppositeIndices(var0, var1, Values(env0, reading), Values(env1, reading));
  }

  lemma OppositeIndices(var0: Index, var1: Index, first: Valuation, second: Valuation)
    requires var0.scale == -var1.scale
    ensures SplitValue([var0, var1], 1, first, second) == var0.scale * (first(KeyOf(var0)) - second(KeyOf(var1)))
    ensures first == second ==> SplitValue([var0, var1], 1, first, second) == LinearValue([var0, var1], first)
  {
    var indices, e0, e1 := [var0, var1], first(KeyOf(var0)), second(KeyOf(var1));
    assert indices[..1] == [var0] && indices[1..] == [var1] && [var1][1..] == [] && [var0][1..] == [];
    assert LinearValue([var1], second) == Term(var1, second) + LinearValue([], second);
    assert LinearValue([var0], first) == Term(var0, first) + LinearValue([], first);
    Opposite(var0.scale, e0, e1);
  }

  lemma Opposite(s: int, e0: int, e1: int)
    ensures s * e0 + (-s) * e1 == s * (e0 - e1)
  {
  }

  lemma DisjointAt(a1: int, size1: nat, a2: int, size2: nat, total: int)
    requires Cong(a1 - a2, total, TWO64) && size1 <= MAX64 && size2 <= MAX64
    ensures Disjoint(a1, size1, a2, size2) <==> Clear(total % TWO64, size1, size2)
  {
    hide Cong, Disjoint, Clear;
    var t := Distance(a1, a2, total);
    DisjointIff(a1, size1, a2, size2, t);
  }

  /** Two indices of one form keep the accesses disjoint for every value of the variables when the
      first access is clear of the second at each distance that can arise. The two may be in different iterations of
      a cycle, as far as the oracle vouches for their variable. */
  lemma ClearAcrossCycles(var0: Index, var1: Index, base: int, v1Size: nat, v2Size: nat, masked: MaskOracle,
                          same: Value -> bool, env0: Env, env1: Env, reading: Reading, a1: int, a2: int)
    requires WellFormedIndex(var0) && WellFormedIndex(var1) && SameForm(var0, var1, masked, same)
    requires Understood(var0, masked, env0) && Understood(var1, masked, env1) && Vouched(var0, masked, same, env0, env1)
    requires v1Size <= MAX64 && v2Size <= MAX64
    requires AllClear(IndexDistances(var0, var1, masked, reading), var0.scale, base, v1Size, v2Size)
    requires Cong(a1 - a2, base + SplitValue([var0, var1], 1, Values(env0, reading), Values(env1, reading)), TWO64)
    ensures Disjoint(a1, v1Size, a2, v2Size)
  {
    hide Cong, Disjoint, SplitValue, IndexDistances, SameForm, Understood, WellFormedIndex, Clear, Vouched;
    ValueIsDistance(var0, var1, masked, same, env0, env1, reading);
    var d := KeyValue(KeyOf(var0), env0, reading) - KeyValue(KeyOf(var1), env1, reading);
    DisjointAt(a1, v1Size, a2, v2Size, base + var0.scale * d);
  }

  lemma ClearIsSound(var0: Index, var1: Index, base: int, v1Size: nat, v2Size: nat, masked: MaskOracle,
                     same: Value -> bool, env: Env, reading: Reading, a1: int, a2: int)
    requires WellFormedIndex(var0) && WellFormedIndex(var1) && SameForm(var0, var1, masked, same)
    requires Understood(var0, masked, env) && Understood(var1, masked, env)
    requires v1Size <= MAX64 && v2Size <= MAX64
    requires AllClear(IndexDistances(var0, var1, masked, reading), var0.scale, base, v1Size, v2Size)
    requires Cong(a1 - a2, base + LinearValue([var0, var1], Values(env, reading)), TWO64)
    ensures Disjoint(a1, v1Size, a2, v2Size)
  {
    OppositeScales(var0, var1, masked, same);
    hide Cong, Disjoint, SplitValue, LinearValue, IndexDistances, SameForm, Understood, WellFormedIndex, Clear;
    OppositeIndices(var0, var1, Values(env, reading), Values(env, reading));
    ClearAcrossCycles(var0, var1, base, v1Size, v2Size, masked, same, env, env, reading, a1, a2);
  }

  lemma OppositeScales(var0: Index, var1: Index, masked: MaskOracle, same: Value -> bool)
    requires WellFormedIndex(var0) && WellFormedIndex(var1) && SameForm(var0, var1, masked, same)
    ensures var0.scale == -var1.scale
  {
  }

  /** The values that a free variable gives the form cover all residues that its scale reaches. */
  lemma FormReaches(scale: nat, c: nat, w: nat, target: nat) returns (x: nat)
    requires target < Pow2(w) && Cong(target, c, Granule(scale, w))
    ensures x < Pow2(w) && (scale * x + c) % Pow2(w) == target
  {
    var p := Pow2(w);
    SmallModulo(target, p);
    if scale == 0 || TrailingZeros(scale) >= w {
      x := 0;
      assert scale * x + c == c;
      CongEqualMod(target, c, p);
    } else {
      var k := TrailingZeros(scale);
      var odd := OddMultiple(scale);
      var inv := OddInverse(odd, w);
      var j := CongWitness(target, c, Pow2(k));
      x := SolvesFor(scale, odd, Pow2(k), inv, j, p);
      hide Cong, Pow2, TrailingZeros;
      CongRefl(c, p);
      CongAdd(scale * x, j * Pow2(k), c, c, p);
      CongEqualMod(scale * x + c, target, p);
    }
  }

  lemma SolvesFor(scale: nat, odd: nat, g: nat, inv: nat, j: int, p: nat) returns (x: nat)
    requires p > 0 && scale == odd * g && Cong(odd * inv, 1, p)
    ensures x < p && Cong(scale * x, j * g, p)
  {
    var goal := inv * j;
    x := goal % p;
    DivisionIs(goal, p);
    CongMod(goal, p);
    hide Cong;
    CongMul(x, goal, scale, p);
    CongMul(odd * inv, 1, j * g, p);
    assert goal * scale == odd * inv * (j * g) by { Rearrange(inv, j, odd, g); }
    assert x * scale == scale * x && 1 * (j * g) == j * g;
    CongTrans(scale * x, goal * scale, j * g, p);
  }

  lemma Rearrange(a: int, j: int, odd: int, g: int)
    ensures a * j * (odd * g) == odd * a * (j * g)
  {
    assert a * j * (odd * g) == a * (j * (odd * g)) && j * (odd * g) == odd * (j * g);
    assert a * (odd * (j * g)) == odd * a * (j * g);
  }

  /** An environment in which the variable of both indices is x. */
  function Constantly(x: nat): Env { v => x }

  /** Every distance arises when the indices' variable is free, whatever its scale. */
  lemma DistanceIsReached(var0: Index, var1: Index, masked: MaskOracle, same: Value -> bool, reading: Reading, d: int)
    returns (env: Env)
    requires WellFormedIndex(var0) && WellFormedIndex(var1) && SameForm(var0, var1, masked, same)
    requires FreeVariable(var0, var1, masked)
    requires d in IndexDistances(var0, var1, masked, reading)
    ensures KeyValue(KeyOf(var0), env, reading) - KeyValue(KeyOf(var1), env, reading) == d
  {
    SameFormWidths(var0, var1, masked, same);
    var w, dec := Width(var0.v), Decompose(var0.v, masked);
    var c0, c1, p := OffsetOf(var0, masked), OffsetOf(var1, masked), Pow2(w);
    var top0, top1 := Top(KeyOf(var0), reading), Top(KeyOf(var1), reading);
    var x0, x1 := DistanceArises(OffsetDifference(c0, c1, w), w, top0, top1, c1, Granule(dec.linear.scale, w), d);
    var x := FormReaches(dec.linear.scale, c1, w, x1);
    env := Constantly(x);
    assert Understood(var0, masked, env) && Understood(var1, masked, env);
    VariableIs(dec.value, x);
    hide Eval, Truthful, SExtFree, Distances, Extended, Decompose, SameForm, GetLinearExpression, Pow2, Granule;
    var form := FormsOf(var0, var1, masked, same, env, env);
    assert Eval(var1.v, env) == x1;
    OtherValue(x0, x1, form, c0, c1, w);
  }

  lemma VariableIs(v: Value, x: nat)
    requires v.Variable? && WellTyped(v) && x < Pow2(Width(v))
    ensures Eval(v, Constantly(x)) == x
  {
    SmallModulo(x, Pow2(Width(v)));
  }

  lemma OtherValue(x0: nat, x1: nat, form: nat, c0: nat, c1: nat, w: nat)
    requires x0 < Pow2(w) && x1 == (form + c1) % Pow2(w)
    requires x0 == x1 + OffsetDifference(c0, c1, w) || x0 == x1 + OffsetDifference(c0, c1, w) - Pow2(w)
    ensures (form + c0) % Pow2(w) == x0
  {
    var p, y := Pow2(w), (form + c0) % Pow2(w);
    DivisionIs(form + c0, p);
    SumsDiffer(y, x1, form, c0, c1, p);
    hide Pow2;
    SameResidue(x0, y, x1, OffsetDifference(c0, c1, w), p);
  }

  lemma SameResidue(x0: nat, y: nat, x1: nat, diff: nat, p: nat)
    requires x0 < p && y < p && Cong(y - x1, diff, p) && (x0 == x1 + diff || x0 == x1 + diff - p)
    ensures x0 == y
  {
    hide Cong;
    CongRefl(x1, p);
    CongAdd(y - x1, diff, x1, x1, p);
    CongBy(x1 + diff, x0, p, if x0 == x1 + diff then 0 else 1);
    CongTrans(y, x1 + diff, x0, p);
    CongEqual(y, x0, p);
  }

  /** The condition is exact: with a free variable, not being clear at some distance means that some
      value of the variable makes the accesses overlap. */
  lemma ClearIsNeeded(var0: Index, var1: Index, base: int, v1Size: nat, v2Size: nat, masked: MaskOracle,
                      same: Value -> bool, reading: Reading) returns (env: Env)
    requires WellFormedIndex(var0) && WellFormedIndex(var1) && SameForm(var0, var1, masked, same)
    requires FreeVariable(var0, var1, masked)
    requires v1Size <= MAX64 && v2Size <= MAX64
    requires !AllClear(IndexDistances(var0, var1, masked, reading), var0.scale, base, v1Size, v2Size)
    ensures forall a1, a2 :: Cong(a1 - a2, base + LinearValue([var0, var1], Values(env, reading)), TWO64)
                             ==> !Disjoint(a1, v1Size, a2, v2Size)
  {
    hide IndexDistances, Decompose, WellFormedIndex, LinearValue, Cong, Disjoint, Clear;
    var d :| d in IndexDistances(var0, var1, masked, reading)
        && !Clear((base + var0.scale * d) % TWO64, v1Size, v2Size);
    env := DistanceIsReached(var0, var1, masked, same, reading, d);
    OppositeIndices(var0, var1, Values(env, reading), Values(env, reading));
    forall a1, a2 | Cong(a1 - a2, base + LinearValue([var0, var1], Values(env, reading)), TWO64)
      ensures !Disjoint(a1, v1Size, a2, v2Size)
    {
      DisjointAt(a1, v1Size, a2, v2Size, base + var0.scale * d);
    }
  }

  /** The variable of both indices is free: it takes all values of their width. */
  ghost predicate FreeVariable(var0: Index, var1: Index, masked: MaskOracle)
    requires WellFormedIndex(var0) && WellFormedIndex(var1)
  {
    && Decompose(var0.v, masked).value.Variable?
    && Width(Decompose(var0.v, masked).value) == Width(var0.v)
    && forall env :: Understood(var0, masked, env) && Understood(var1, masked, env)
  }

  /** Whatever the variables are, two accesses base and the scaled indices apart share no byte. */
  ghost predicate AlwaysDisjoint(var0: Index, var1: Index, base: int, v1Size: nat, v2Size: nat, reading: Reading) {
    forall env, a1, a2 :: Cong(a1 - a2, base + LinearValue([var0, var1], Values(env, reading)), TWO64)
                          ==> Disjoint(a1, v1Size, a2, v2Size)
  }

  lemma UnderstoodIn(var0: Index, var1: Index, masked: MaskOracle, env: Env)
    requires WellFormedIndex(var0) && WellFormedIndex(var1) && FreeVariable(var0, var1, masked)
    ensures Understood(var0, masked, env) && Understood(var1, masked, env)
  {
  }

  lemma NotAlwaysDisjoint(var0: Index, var1: Index, base: int, v1Size: nat, v2Size: nat, reading: Reading, env: Env)
    requires forall a1, a2 :: Cong(a1 - a2, base + LinearValue([var0, var1], Values(env, reading)), TWO64)
                              ==> !Disjoint(a1, v1Size, a2, v2Size)
    ensures !AlwaysDisjoint(var0, var1, base, v1Size, v2Size, reading)
  {
    hide Cong, Disjoint, LinearValue;
    var a1 := base + LinearValue([var0, var1], Values(env, reading));
    CongRefl(a1, TWO64);
    assert Cong(a1 - 0, base + LinearValue([var0, var1], Values(env, reading)), TWO64);
    assert !Disjoint(a1, v1Size, 0, v2Size);
  }

  /** With a free variable, the accesses are disjoint for all its values exactly when they are clear of each
      other at every distance. */
  lemma DisjointIffClear(var0: Index, var1: Index, base: int, v1Size: nat, v2Size: nat, masked: MaskOracle,
                         same: Value -> bool, reading: Reading)
    requires WellFormedIndex(var0) && WellFormedIndex(var1) && SameForm(var0, var1, masked, same)
    requires FreeVariable(var0, var1, masked) && v1Size <= MAX64 && v2Size <= MAX64
    ensures AlwaysDisjoint(var0, var1, base, v1Size, v2Size, reading)
            <==> AllClear(IndexDistances(var0, var1, masked, reading), var0.scale, base, v1Size, v2Size)
  {
    hide SameForm, WellFormedIndex, IndexDistances, AllClear, LinearValue, Cong, Disjoint, Understood, FreeVariable;
    if AllClear(IndexDistances(var0, var1, masked, reading), var0.scale, base, v1Size, v2Size) {
      forall env, a1, a2 | Cong(a1 - a2, base + LinearValue([var0, var1], Values(env, reading)), TWO64)
        ensures Disjoint(a1, v1Size, a2, v2Size)
      {
        UnderstoodIn(var0, var1, masked, env);
        ClearIsSound(var0, var1, base, v1Size, v2Size, masked, same, env, reading, a1, a2);
      }
    } else {
      hide AlwaysDisjoint;
      var env := ClearIsNeeded(var0, var1, base, v1Size, v2Size, masked, same, reading);
      NotAlwaysDisjoint(var0, var1, base, v1Size, v2Size, reading, env);
    }
  }

  /** A true answer means disjoint accesses for every value of the variables when they are clear of each
      other at every distance, and by the previous lemma only then. */
  lemma HeuristicIsSound(indices: seq<Index>, v1Size: nat, v2Size: nat, base: int, masked: MaskOracle,
                         same: Value -> bool, env: Env, reading: Reading, a1: int, a2: int)
    requires forall k :: 0 <= k < |indices| ==> WellFormedIndex(indices[k])
    requires ConstantOffsetHeuristic(indices, v1Size, v2Size, base, masked, same)
    requires Understood(indices[0], masked, env) && Understood(indices[1], masked, env)
    requires v1Size <= MAX64 && v2Size <= MAX64
    requires AllClear(IndexDistances(indices[0], indices[1], masked, reading), indices[0].scale, base, v1Size, v2Size)
    requires Cong(a1 - a2, base + LinearValue(indices, Values(env, reading)), TWO64)
    ensures Disjoint(a1, v1Size, a2, v2Size)
  {
    HeuristicUnfolds(indices, v1Size, v2Size, base, masked, same);
    hide ConstantOffsetHeuristic, SameForm, WellFormedIndex, IndexDistances, AllClear, LinearValue, Cong, Disjoint;
    ClearIsSound(indices[0], indices[1], base, v1Size, v2Size, masked, same, env, reading, a1, a2);
  }

  /** The same for two indices in different iterations of a cycle: a true answer does not rest on a variable that the
      oracle does not vouch for. */
  lemma HeuristicAcrossCycles(indices: seq<Index>, v1Size: nat, v2Size: nat, base: int, masked: MaskOracle,
                              same: Value -> bool, env0: Env, env1: Env, reading: Reading, a1: int, a2: int)
    requires forall k :: 0 <= k < |indices| ==> WellFormedIndex(indices[k])
    requires ConstantOffsetHeuristic(indices, v1Size, v2Size, base, masked, same)
    requires Understood(indices[0], masked, env0) && Understood(indices[1], masked, env1)
    requires WellFormedIndex(indices[0]) && Vouched(indices[0], masked, same, env0, env1)
    requires v1Size <= MAX64 && v2Size <= MAX64
    requires AllClear(IndexDistances(indices[0], indices[1], masked, reading), indices[0].scale, base, v1Size, v2Size)
    requires Cong(a1 - a2, base + SplitValue(indices, 1, Values(env0, reading), Values(env1, reading)), TWO64)
    ensures Disjoint(a1, v1Size, a2, v2Size)
  {
    HeuristicUnfolds(indices, v1Size, v2Size, base, masked, same);
    hide ConstantOffsetHeuristic, SameForm, WellFormedIndex, IndexDistances, AllClear, SplitValue, Cong, Disjoint;
    ClearAcrossCycles(indices[0], indices[1], base, v1Size, v2Size, masked, same, env0, env1, reading, a1, a2);
  }

  // ------------------------------------------------ when a true answer is right

  lemma MinDiffIs(a: nat, b: nat, w: nat)
    ensures MinDiff(a, b, w) == Least(OffsetDifference(a, b, w), Pow2(w))
  {
    var p, diff := Pow2(w), OffsetDifference(a, b, w);
    hide Pow2, OffsetDifference;
    if diff > 0 {
      var minus: int := -(diff as int);
      DivideUnique(minus, p, -1, p - diff);
      DivisionIs(minus, p);
    } else {
      SmallModulo(0, p);
    }
  }

  lemma ClearByGap(total: int, bytes: nat, base: int, v1Size: nat, v2Size: nat)
    requires bytes > 0 ==> bytes <= total || total <= -(bytes as int)
    requires bytes > 0 ==> total + bytes <= TWO64 && bytes - total <= TWO64
    requires v1Size + Abs(base) <= bytes <= MAX64 && v2Size + Abs(base) <= bytes
    ensures Clear((base + total) % TWO64, v1Size, v2Size)
  {
    if bytes > 0 {
      var sum := base + total;
      if sum >= 0 {
        if sum < TWO64 { SmallModulo(sum, TWO64); }
      } else {
        DivideUnique(sum, TWO64, -1, sum + TWO64);
        DivisionIs(sum, TWO64);
      }
    }
  }

  lemma BytesPositive(product: nat)
    requires product % TWO64 != 0
    ensures product > 0
  {
  }

  lemma BytesAre(product: nat, far: nat, bytes: nat)
    requires bytes == product % TWO64 && product <= far && far + product <= TWO64
    ensures bytes == product
  {
  }

  lemma SignOfProduct(a: int, b: int)
    ensures a * b == Abs(b) * Abs(a) || a * b == -(Abs(b) * Abs(a))
  {
    if a < 0 { assert (-a) * b == -(a * b); assert (-a) * (-b) == a * b; } else { assert a * (-b) == -(a * b); }
  }

  lemma PositiveFactor(a: nat, b: nat)
    requires a * b > 0
    ensures a > 0 && b > 0
  {
  }

  /** In a range that fits the address space, a scaled distance stays clear of the bytes compared with. */
  lemma ScaledDistance(scale: nat, d: int, least: nat, range: nat, product: nat, far: nat, bytes: nat)
    requires least <= Abs(d) && Abs(d) + least <= range && scale * range <= TWO64
    requires product == least * scale && far == Abs(d) * scale && 0 < bytes == product % TWO64
    ensures bytes == product <= far && far + product <= TWO64
  {
    BytesPositive(product);
    PositiveFactor(least, scale);
    MultiplyMonotone(least, Abs(d), scale);
    MultiplyMonotone(Abs(d) + least, range, scale);
    assert (Abs(d) + least) * scale == far + product && range * scale == scale * range;
    BytesAre(product, far, bytes);
  }

  lemma TopIs(k: Key, reading: Reading)
    ensures Cong(Top(k, reading), 0, Pow2(Width(k.v))) && (k.zext == 0 <==> Top(k, reading) == 0)
    ensures k.zext > 0 ==> Top(k, reading) >= Pow2(Width(k.v))
  {
    var w, p := Width(k.v), Pow2(Width(k.v));
    if k.zext == 0 {
      CongRefl(0, p);
    } else {
      var i := if reading(k) <= k.sext then reading(k) else k.sext;
      Pow2Add(i, w);
      Pow2Monotone(w, w + i);
      CongBy(Pow2(w + i), 0, p, Pow2(i));
    }
  }

  /** The range of the extended values of two indices. */
  function IndexRange(var0: Index, var1: Index, reading: Reading): nat {
    Range(Pow2(Width(var0.v)), Top(KeyOf(var0), reading), Top(KeyOf(var1), reading))
  }

  lemma IndexDistanceBounds(var0: Index, var1: Index, masked: MaskOracle, same: Value -> bool, reading: Reading, d: int)
    requires WellFormedIndex(var0) && WellFormedIndex(var1) && SameForm(var0, var1, masked, same)
    requires d in IndexDistances(var0, var1, masked, reading)
    ensures var least := MinDiff(OffsetOf(var0, masked), OffsetOf(var1, masked), Width(var1.v));
            least <= Abs(d) && Abs(d) + least <= IndexRange(var0, var1, reading)
  {
    TopsOfForm(var0, var1, masked, same, reading);
    assert Pow2(Width(var0.v)) % 2 == 0 by { assert Pow2(Width(var0.v)) == 2 * Pow2(Width(var0.v) - 1); }
    hide Top, Distances, Pow2, Range, GetLinearExpression, Decompose, Cong, Granule, SameForm, TopsAgree;
    hide WellFormedIndex, OffsetOf;
    MinDiffIs(OffsetOf(var0, masked), OffsetOf(var1, masked), Width(var1.v));
    DistanceBounds(OffsetDifference(OffsetOf(var0, masked), OffsetOf(var1, masked), Width(var0.v)), Pow2(Width(var0.v)),
                   Top(KeyOf(var0), reading), Top(KeyOf(var1), reading), OffsetOf(var1, masked),
                   Granule(Decompose(var0.v, masked).linear.scale, Width(var0.v)), d);
  }

  lemma TopsOfForm(var0: Index, var1: Index, masked: MaskOracle, same: Value -> bool, reading: Reading)
    requires WellFormedIndex(var0) && WellFormedIndex(var1) && SameForm(var0, var1, masked, same)
    ensures Width(var0.v) == Width(var1.v) > 0
    ensures var p, top0, top1 := Pow2(Width(var0.v)), Top(KeyOf(var0), reading), Top(KeyOf(var1), reading);
            TopsAgree(p, top0, top1) && Cong(top0, 0, p) && Cong(top1, 0, p)
  {
    SameFormWidths(var0, var1, masked, same);
    assert var0.zext == var1.zext;
    hide SameForm, Top, Cong, Pow2;
    TopIs(KeyOf(var0), reading);
    TopIs(KeyOf(var1), reading);
  }

  /** A true answer is right when the scaled range of the variable fits the address space and no size
      overflows. */
  lemma RangeSuffices(var0: Index, var1: Index, v1Size: nat, v2Size: nat, base: int, masked: MaskOracle,
                      same: Value -> bool, reading: Reading)
    requires WellFormedIndex(var0) && WellFormedIndex(var1) && SameForm(var0, var1, masked, same)
    requires var bytes := GapBytes(var0, var1, masked); v1Size + Abs(base) <= bytes && v2Size + Abs(base) <= bytes
    requires Abs(var0.scale) * IndexRange(var0, var1, reading) <= TWO64
    ensures AllClear(IndexDistances(var0, var1, masked, reading), var0.scale, base, v1Size, v2Size)
  {
    var least := MinDiff(OffsetOf(var0, masked), OffsetOf(var1, masked), Width(var1.v));
    var bytes, scale, range := GapBytes(var0, var1, masked), var0.scale, IndexRange(var0, var1, reading);
    assert bytes == least * Abs(scale) % TWO64;
    hide MinDiff, GapBytes, IndexRange, IndexDistances, SameForm, OffsetOf, Clear, WellFormedIndex;
    forall d | d in IndexDistances(var0, var1, masked, reading)
      ensures Clear((base + scale * d) % TWO64, v1Size, v2Size)
    {
      IndexDistanceBounds(var0, var1, masked, same, reading, d);
      ClearInRange(scale, d, least, range, bytes, base, v1Size, v2Size);
    }
  }

  lemma ClearInRange(scale: int, d: int, least: nat, range: nat, bytes: nat, base: int, v1Size: nat, v2Size: nat)
    requires least <= Abs(d) && Abs(d) + least <= range && Abs(scale) * range <= TWO64
    requires bytes == least * Abs(scale) % TWO64 && v1Size + Abs(base) <= bytes && v2Size + Abs(base) <= bytes
    ensures Clear((base + scale * d) % TWO64, v1Size, v2Size)
  {
    var total := scale * d;
    if bytes > 0 {
      ScaledDistance(Abs(scale), d, least, range, least * Abs(scale), Abs(d) * Abs(scale), bytes);
      SignOfProduct(scale, d);
    }
    hide Clear;
    ClearByGap(total, bytes, base, v1Size, v2Size);
  }

  /** At full width a true answer is right for every scale, as long as the bytes compared with are at most
      half the address space and no size overflows. */
  lemma FullWidthSuffices(var0: Index, var1: Index, v1Size: nat, v2Size: nat, base: int, masked: MaskOracle,
                          same: Value -> bool, reading: Reading)
    requires WellFormedIndex(var0) && WellFormedIndex(var1) && SameForm(var0, var1, masked, same)
    requires Width(var0.v) == 64 && 2 * GapBytes(var0, var1, masked) <= TWO64
    requires var bytes := GapBytes(var0, var1, masked); v1Size + Abs(base) <= bytes && v2Size + Abs(base) <= bytes
    ensures AllClear(IndexDistances(var0, var1, masked, reading), var0.scale, base, v1Size, v2Size)
  {
    var bytes, distances := GapBytes(var0, var1, masked), IndexDistances(var0, var1, masked, reading);
    var diff := FullWidthDistances(var0, var1, masked, same, reading);
    hide GapBytes, IndexDistances, OffsetOf, Clear, Distances, SameForm, WellFormedIndex, Least;
    forall d | d in distances ensures Clear((base + var0.scale * d) % TWO64, v1Size, v2Size) {
      ClearAtFullWidth(var0.scale, d, diff, bytes, base, v1Size, v2Size);
    }
  }

  lemma FullWidthDistances(var0: Index, var1: Index, masked: MaskOracle, same: Value -> bool, reading: Reading)
    returns (diff: nat)
    requires WellFormedIndex(var0) && WellFormedIndex(var1) && SameForm(var0, var1, masked, same) && Width(var0.v) == 64
    ensures diff < TWO64
    ensures forall d :: d in IndexDistances(var0, var1, masked, reading) ==> d == diff || d == diff - TWO64
    ensures GapBytes(var0, var1, masked) == Least(diff, TWO64) * Abs(var0.scale) % TWO64
  {
    SameFormWidths(var0, var1, masked, same);
    var g := Granule(Decompose(var0.v, masked).linear.scale, 64);
    hide GetLinearExpression, Decompose, Distances, Least, Granule;
    diff := OffsetDifference(OffsetOf(var0, masked), OffsetOf(var1, masked), 64);
    MinDiffIs(OffsetOf(var0, masked), OffsetOf(var1, masked), 64);
    Pow2Of64();
    assert Top(KeyOf(var0), reading) == 0 && Top(KeyOf(var1), reading) == 0;
    forall d | d in IndexDistances(var0, var1, masked, reading) ensures d == diff || d == diff - TWO64 {
      DistanceForms(diff, TWO64, 0, 0, OffsetOf(var1, masked), g, d);
    }
  }

  lemma Pow2Of64()
    ensures Pow2(64) == TWO64
  {
    Pow2Values();
    Pow2Add(32, 32);
  }

  lemma ClearAtFullWidth(scale: int, d: int, diff: nat, bytes: nat, base: int, v1Size: nat, v2Size: nat)
    requires diff < TWO64 && (d == diff || d == diff - TWO64)
    requires bytes == Least(diff, TWO64) * Abs(scale) % TWO64 && 2 * bytes <= TWO64
    requires v1Size + Abs(base) <= bytes && v2Size + Abs(base) <= bytes
    ensures Clear((base + scale * d) % TWO64, v1Size, v2Size)
  {
    var signed := PlusMinusBytes(scale, d, diff, bytes);
    hide Cong, Clear;
    ClearByGap(signed, bytes, base, v1Size, v2Size);
    CongRefl(base, TWO64);
    CongAdd(base, base, scale * d, signed, TWO64);
    CongEqualMod(base + scale * d, base + signed, TWO64);
  }

  lemma SignedLeast(d: int, diff: nat) returns (e: int)
    requires diff < TWO64 && (d == diff || d == diff - TWO64)
    ensures Abs(e) == Least(diff, TWO64) && Cong(d, e, TWO64)
  {
    e := if Least(diff, TWO64) == diff then diff else diff - TWO64;
    CongBy(d, e, TWO64, if d == e then 0 else if d > e then 1 else -1);
  }

  lemma SignedBytes(scale: int, e: int, product: nat, bytes: nat) returns (signed: int)
    requires product == Abs(e) * Abs(scale) && bytes == product % TWO64
    ensures (signed == bytes || signed == -(bytes as int)) && Cong(scale * e, signed, TWO64)
  {
    SignOfProduct(scale, e);
    CongMod(product, TWO64);
    CongRefl(0, TWO64);
    hide Cong;
    CongAdd(0, 0, product, bytes, TWO64);
    signed := if scale * e == product then bytes else -(bytes as int);
  }

  /** Either distance scales to plus or minus the bytes, modulo 2^64. */
  lemma PlusMinusBytes(scale: int, d: int, diff: nat, bytes: nat) returns (signed: int)
    requires diff < TWO64 && (d == diff || d == diff - TWO64) && bytes == Least(diff, TWO64) * Abs(scale) % TWO64
    ensures (signed == bytes || signed == -(bytes as int)) && Cong(scale * d, signed, TWO64)
  {
    var e := SignedLeast(d, diff);
    hide Cong, Least;
    signed := SignedBytes(scale, e, Abs(e) * Abs(scale), bytes);
    CongMul(d, e, scale, TWO64);
    Commutes(d, scale);
    Commutes(e, scale);
    CongTrans(scale * d, scale * e, signed, TWO64);
  }

  lemma Commutes(a: int, b: int)
    ensures a * b == b * a
  {
  }

  /** A size that overflows with the base offset is never clear above a positive distance, nor the other
      below a negative one, however the bytes compare. */
  lemma OverflowIsNotClear(distances: set<int>, d: int, scale: int, base: int, v1Size: nat, v2Size: nat)
    requires d in distances && 0 < v1Size && 0 < v2Size
    requires (0 < base && 0 < scale * d && base + scale * d < TWO64 && v1Size + base > MAX64)
             || (base < 0 && scale * d < 0 && 0 < base + scale * d + TWO64 && v2Size - base > MAX64)
    ensures !AllClear(distances, scale, base, v1Size, v2Size)
  {
    var sum := base + scale * d;
    if base > 0 {
      SmallModulo(sum, TWO64);
    } else {
      DivideUnique(sum, TWO64, -1, sum + TWO64);
      DivisionIs(sum, TWO64);
    }
    assert !Clear(sum % TWO64, v1Size, v2Size);
  }

  /** The comparison adds sizes and offset modulo 2^64. When both sums overflow, to no more than the bytes
      compared with, the answer is true although the accesses overlap wherever they are. */
  lemma HeuristicFailsOnOverflow(indices: seq<Index>, v1Size: nat, v2Size: nat, base: int, masked: MaskOracle,
                                 same: Value -> bool, a1: int, a2: int)
    requires |indices| == 2 && WellFormedIndex(indices[0]) && WellFormedIndex(indices[1])
    requires SameForm(indices[0], indices[1], masked, same)
    requires Abs(base) < TWO63 && v1Size < UNKNOWN_SIZE && v2Size < UNKNOWN_SIZE
    requires TWO64 <= v1Size + Abs(base) <= TWO64 + GapBytes(indices[0], indices[1], masked)
    requires TWO64 <= v2Size + Abs(base) <= TWO64 + GapBytes(indices[0], indices[1], masked)
    ensures forall k :: 0 <= k < |indices| ==> WellFormedIndex(indices[k])
    ensures ConstantOffsetHeuristic(indices, v1Size, v2Size, base, masked, same)
    ensures !Disjoint(a1, v1Size, a2, v2Size)
  {
    assert indices == [indices[0], indices[1]];
    WrapsOnce(v1Size + Abs(base));
    WrapsOnce(v2Size + Abs(base));
    hide SameForm, WellFormedIndex, GapBytes, Cong, Disjoint;
    CongRefl(a1 - a2, TWO64);
    var t := Distance(a1, a2, a1 - a2);
    DisjointIff(a1, v1Size, a2, v2Size, t);
  }

  lemma WrapsOnce(x: nat)
    requires TWO64 <= x < 2 * TWO64
    ensures x % TWO64 == x - TWO64
  {
    DivideUnique(x, TWO64, 1, x - TWO64);
    DivisionIs(x, TWO64);
  }

  /** Such sizes exist for every two indices of one form and almost every offset. */
  lemma OverflowingSizes(var0: Index, var1: Index, base: int, masked: MaskOracle, same: Value -> bool)
    returns (size: nat)
    requires WellFormedIndex(var0) && WellFormedIndex(var1) && SameForm(var0, var1, masked, same)
    requires 2 <= Abs(base) < TWO63
    ensures forall k :: 0 <= k < |[var0, var1]| ==> WellFormedIndex([var0, var1][k])
    ensures ConstantOffsetHeuristic([var0, var1], size, size, base, masked, same)
    ensures forall a1, a2 :: !Disjoint(a1, size, a2, size)
  {
    size := TWO64 - Abs(base);
    forall a1, a2 ensures !Disjoint(a1, size, a2, size) {
      HeuristicFailsOnOverflow([var0, var1], size, size, base, masked, same, a1, a2);
    }
    HeuristicFailsOnOverflow([var0, var1], size, size, base, masked, same, 0, 0);
  }

  // ------------------------------------------------------- beyond the range

  /** The indices i + c and i of an array, i extended to 64 bits in any way, are of one form. */
  lemma NeighboursOfOneForm(w: nat, c: nat, zext: nat, sext: nat, scale: int, nsw: bool, nuw: bool,
                            masked: MaskOracle, same: Value -> bool)
    requires w > 0 && w + zext + sext == 64 && c < Pow2(w) && Int64(scale) && Int64(-scale) && same(Variable(0, w))
    ensures var x := Variable(0, w);
            var var0 := Index(Binary(Add, x, Constant(w, c), nsw, nuw), zext, sext, scale);
            var var1 := Index(x, zext, sext, -scale);
            && WellFormedIndex(var0) && WellFormedIndex(var1) && SameForm(var0, var1, masked, same)
            && OffsetOf(var0, masked) == c && OffsetOf(var1, masked) == 0
            && Decompose(var0.v, masked).value == x && Decompose(var0.v, masked).linear.scale == 1
  {
    var x := Variable(0, w);
    var v0 := Binary(Add, x, Constant(w, c), nsw, nuw);
    SmallModulo(c, Pow2(w));
    assert WellTyped(x) && WellTyped(v0);
    assert GetLinearExpression(x, START, w, 1, masked) == Opaque(x, START);
    assert GetLinearExpression(v0, START, w, 0, masked) == Apply(Add, Opaque(x, START), c, w, nsw, nuw);
    assert GetLinearExpression(x, START, w, 0, masked) == Opaque(x, START);
  }

  /** The indices (x + d) * scale and x * -scale, sign-extended from w bits. */
  function Shifted(w: nat, d: nat, scale: int): seq<Index>
    requires 0 < w <= 64
  {
    var x := Variable(0, w);
    [Index(Binary(Add, x, Constant(w, d), false, false), 0, 64 - w, scale), Index(x, 0, 64 - w, -scale)]
  }

  lemma ShiftedUnderstood(w: nat, d: nat, scale: int, masked: MaskOracle, env: Env)
    requires 0 < w <= 64 && d < Pow2(w) && Int64(scale) && Int64(-scale)
    ensures var s := Shifted(w, d, scale); Understood(s[0], masked, env) && Understood(s[1], masked, env)
  {
    var s, x, c := Shifted(w, d, scale), Variable(0, w), Constant(w, d);
    assert s[0].v == Binary(Add, x, c, false, false) && WellTyped(x) && WellTyped(c) && Width(x) == w == Width(c);
    assert WellTyped(s[0].v);
    assert Truthful(x, masked, env) && SExtFree(x) && s[1].v == x;
    assert Truthful(s[0].v, masked, env) && SExtFree(s[0].v);
  }

  /** The shifted indices are of one form with a free variable, and d is one of their distances. */
  lemma ShiftedIs(w: nat, d: nat, scale: int, masked: MaskOracle, same: Value -> bool, reading: Reading)
    requires 0 < w <= 64 && 0 < 2 * d <= Pow2(w) && Int64(scale) && Int64(-scale) && same(Variable(0, w))
    ensures var s := Shifted(w, d, scale);
            && WellFormedIndex(s[0]) && WellFormedIndex(s[1]) && SameForm(s[0], s[1], masked, same)
            && FreeVariable(s[0], s[1], masked) && d in IndexDistances(s[0], s[1], masked, reading)
            && GapBytes(s[0], s[1], masked) == d * Abs(scale) % TWO64
  {
    var s := Shifted(w, d, scale);
    NeighboursOfOneForm(w, d, 0, 64 - w, scale, false, false, masked, same);
    forall env ensures Understood(s[0], masked, env) && Understood(s[1], masked, env) {
      ShiftedUnderstood(w, d, scale, masked, env);
    }
    assert FreeVariable(s[0], s[1], masked);
    MinDiffIs(d, 0, w);
    SmallModulo(d, Pow2(w));
    assert Top(KeyOf(s[0]), reading) == 0 && Top(KeyOf(s[1]), reading) == 0 && Granule(1, w) == 1;
    assert Width(s[0].v) == w == Width(s[1].v);
    hide Decompose, Pow2, WellTyped, Understood, SameForm, FreeVariable, Distances, Granule, OffsetOf, Top;
    FirstDistance(w, d);
  }

  lemma FirstDistance(w: nat, d: nat)
    requires w > 0 && 0 < 2 * d <= Pow2(w)
    ensures d in Distances(d, Pow2(w), 0, 0, 0, 1)
  {
    var p := Pow2(w);
    assert p == 2 * Pow2(w - 1);
    hide Pow2;
  }

  lemma WrappingOffset(w: nat, scale: int) returns (d: nat, size: nat)
    requires 0 < w <= 64 && Int64(scale) && Int64(-scale) && Abs(scale) * Pow2(w) > TWO64
    ensures 0 < 2 * d <= Pow2(w) && TWO63 < d * Abs(scale) < TWO64 && size == TWO64 - d * Abs(scale) + 1
  {
    var s, p := Abs(scale), Pow2(w);
    PositiveFactor(s, p);
    assert p == 2 * Pow2(w - 1);
    d := PastHalf(s, p);
    size := TWO64 - d * s + 1;
  }

  /** The first multiple of s past half the address space. */
  lemma PastHalf(s: nat, p: nat) returns (d: nat)
    requires 0 < s < TWO63 && p % 2 == 0 && s * p > TWO64
    ensures 0 < 2 * d <= p && TWO63 < d * s < TWO64
  {
    d := TWO63 / s + 1;
    DivisionIs(TWO63, s);
    var h := p / 2;
    assert d * s == TWO63 / s * s + s;
    assert s * p == 2 * (h * s) by { assert p == 2 * h; }
    if d > h { MultiplyMonotone(h, TWO63 / s, s); }
  }

  lemma FarIsNotClear(scale: int, d: nat, size: nat)
    requires TWO63 < d * Abs(scale) < TWO64 && size == TWO64 - d * Abs(scale) + 1
    ensures !Clear((0 + scale * d) % TWO64, size, size)
  {
    var far := d * Abs(scale);
    SignOfProduct(scale, d);
    assert Abs(d) == d;
    if scale * d == far {
      SmallModulo(far, TWO64);
    } else {
      var minus: int := -(far as int);
      DivideUnique(minus, TWO64, -1, TWO64 - far);
      DivisionIs(minus, TWO64);
    }
  }

  /** Beyond the range: for every width and scale whose product exceeds 2^64 there are two indices for which
      the answer is true although, for some value of the variable, the accesses overlap. */
  lemma HeuristicFailsBeyond(w: nat, scale: int, masked: MaskOracle, same: Value -> bool, reading: Reading)
    returns (indices: seq<Index>, size: nat)
    requires 0 < w <= 64 && Int64(scale) && Int64(-scale) && Abs(scale) * Pow2(w) > TWO64 && same(Variable(0, w))
    ensures |indices| == 2 && (forall k :: 0 <= k < |indices| ==> WellFormedIndex(indices[k]))
    ensures indices[0].scale == scale && Width(indices[0].v) == w
    ensures ConstantOffsetHeuristic(indices, size, size, 0, masked, same)
    ensures !AlwaysDisjoint(indices[0], indices[1], 0, size, size, reading)
  {
    var d: nat;
    d, size := WrappingOffset(w, scale);
    indices := Shifted(w, d, scale);
    ShiftedIs(w, d, scale, masked, same, reading);
    SmallModulo(d * Abs(scale), TWO64);
    SmallModulo(size, TWO64);
    FarIsNotClear(scale, d, size);
    assert Width(indices[0].v) == w && Abs(0) == 0;
    hide SameForm, FreeVariable, IndexDistances, WellFormedIndex, GapBytes, Clear, AlwaysDisjoint, Pow2;
    DisjointIffClear(indices[0], indices[1], 0, size, size, masked, same, reading);
  }
}
