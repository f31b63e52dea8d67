// The rule for variable terms known not to be negative: how far they can take an address, and when
// they take the first access round the address space into the second.
module BaaPositive {
  import opened Arithmetic
  import opened BaaLinear
  import opened BaaRanges
  import opened BaaDifference
  import opened BaaExtension
  import opened BaaHeuristic

  /** What computeKnownBits tells of a value's sign bit. */
  datatype Sign = UnknownSign | NonNegative | Negative

  type SignOracle = Value -> Sign

  predicate TermIsPositive(ix: Index, sign: SignOracle) {
    var isZExt := ix.zext > 0 || ix.v.ZExt?;
    var signKnownZero := sign(ix.v) == NonNegative || isZExt;
    var signKnownOne := sign(ix.v) == Negative && !isZExt;
    (signKnownZero && ix.scale >= 0) || (signKnownOne && ix.scale < 0)
  }

  predicate AllPositive(indices: seq<Index>, sign: SignOracle) {
    forall k :: 0 <= k < |indices| ==> TermIsPositive(indices[k], sign)
  }

  /** The sign answers hold for the variables in an environment. */
  predicate SignsHold(indices: seq<Index>, sign: SignOracle, env: Env) {
    forall k :: 0 <= k < |indices| ==> SignHolds(indices[k], sign, env)
  }

  predicate SignHolds(ix: Index, sign: SignOracle, env: Env) {
    WellTyped(ix.v) ==>
      (WidthPositive(ix.v);
       var x := Signed(Eval(ix.v, env), Width(ix.v));
       (sign(ix.v) == NonNegative ==> x >= 0) && (sign(ix.v) == Negative ==> x < 0))
  }

  predicate AllWellFormed(indices: seq<Index>) {
    forall k :: 0 <= k < |indices| ==> WellFormedIndex(indices[k])
  }

  // ------------------------------------------------------------ the reach

  /** How far from zero the value of a variable of a non-negative term can be. */
  function Highest(ix: Index, sign: SignOracle, reading: Reading): nat
    requires WellFormedIndex(ix)
  {
    WidthPositive(ix.v);
    if ix.v.ZExt? then Pow2(Width(ix.v.operand)) - 1
    else if sign(ix.v) == NonNegative then Pow2(Width(ix.v) - 1) - 1
    else if ix.zext > 0 then (TopIs(KeyOf(ix), reading); Top(KeyOf(ix), reading) - 1)
    else Pow2(Width(ix.v) - 1)
  }

  /** A negative value is at least one away from zero. */
  function Lowest(ix: Index): nat { if ix.scale < 0 then 1 else 0 }

  function MaxTerm(ix: Index, sign: SignOracle, reading: Reading): nat
    requires WellFormedIndex(ix)
  {
    Abs(ix.scale) * Highest(ix, sign, reading)
  }

  function MinTerm(ix: Index): nat { Abs(ix.scale) * Lowest(ix) }

  function MaxSum(indices: seq<Index>, sign: SignOracle, reading: Reading): nat
    requires AllWellFormed(indices)
  {
    if indices == [] then 0
    else
      assert WellFormedIndex(indices[0]);
      MaxTerm(indices[0], sign, reading) + MaxSum(indices[1..], sign, reading)
  }

  function MinSum(indices: seq<Index>): nat {
    if indices == [] then 0 else MinTerm(indices[0]) + MinSum(indices[1..])
  }

  /** A non-negative term is the size of its scale times a number between the two. */
  lemma TermBounds(ix: Index, sign: SignOracle, env: Env, reading: Reading) returns (u: nat)
    requires WellFormedIndex(ix) && TermIsPositive(ix, sign) && SignHolds(ix, sign, env)
    ensures Term(ix, Values(env, reading)) == Abs(ix.scale) * u && Lowest(ix) <= u <= Highest(ix, sign, reading)
  {
    WidthPositive(ix.v);
    var x := KeyValue(KeyOf(ix), env, reading);
    var w := Width(ix.v);
    assert Pow2(w) == 2 * Pow2(w - 1);
    if ix.v.ZExt? { Pow2Monotone(Width(ix.v.operand), w - 1); }
    TopIs(KeyOf(ix), reading);
    assert ix.scale >= 0 ==> x >= 0;
    assert ix.scale < 0 ==> x < 0;
    u := Abs(x);
    SameSigns(ix.scale, x);
  }

  lemma SameSigns(a: int, b: int)
    requires (a >= 0 && b >= 0) || (a < 0 && b < 0)
    ensures a * b == Abs(a) * Abs(b)
  {
    assert (-a) * (-b) == a * b;
  }

  lemma {:induction false} SumBounds(indices: seq<Index>, sign: SignOracle, env: Env, reading: Reading)
    requires AllWellFormed(indices) && AllPositive(indices, sign) && SignsHold(indices, sign, env)
    ensures MinSum(indices) <= LinearValue(indices, Values(env, reading)) <= MaxSum(indices, sign, reading)
  {
    if indices != [] {
      var ix := indices[0];
      assert WellFormedIndex(ix) && TermIsPositive(ix, sign) && SignHolds(ix, sign, env);
      hide TermIsPositive, SignHolds, WellFormedIndex, Highest, Lowest;
      var u := TermBounds(ix, sign, env, reading);
      MultiplyMonotone(u, Highest(ix, sign, reading), Abs(ix.scale));
      MultiplyMonotone(Lowest(ix), u, Abs(ix.scale));
      Commutes(u, Abs(ix.scale));
      Commutes(Highest(ix, sign, reading), Abs(ix.scale));
      Commutes(Lowest(ix), Abs(ix.scale));
      SumBounds(indices[1..], sign, env, reading);
    }
  }

  // ------------------------------------------------------------- soundness

  /** For given values the accesses are disjoint exactly when the sum, wrapped, is clear. For an offset past
      the second access and a sum in the address space, that is when the first does not run past its end. */
  lemma AllPositiveIsExact(indices: seq<Index>, base: int, v1Size: nat, v2Size: nat, sign: SignOracle, env: Env,
                           reading: Reading, a1: int, a2: int)
    requires AllWellFormed(indices) && AllPositive(indices, sign) && SignsHold(indices, sign, env)
    requires base > 0 && v2Size <= base && 0 < v1Size <= MAX64 && 0 < v2Size
    requires v2Size <= MAX64 && Cong(a1 - a2, base + LinearValue(indices, Values(env, reading)), TWO64)
    ensures var sum := base + LinearValue(indices, Values(env, reading));
            && (Disjoint(a1, v1Size, a2, v2Size)
                <==> v2Size <= sum % TWO64 && sum % TWO64 + v1Size <= TWO64)
            && (sum < TWO64 ==> (Disjoint(a1, v1Size, a2, v2Size) <==> sum + v1Size <= TWO64))
  {
    SumBounds(indices, sign, env, reading);
    var sum := base + LinearValue(indices, Values(env, reading));
    if sum < TWO64 { SmallModulo(sum, TWO64); }
    hide Cong, Disjoint, LinearValue;
    DisjointAt(a1, v1Size, a2, v2Size, sum);
  }

  /** The first access cannot come round the address space, whatever the variables are. */
  predicate InReach(indices: seq<Index>, base: int, v1Size: nat, sign: SignOracle, reading: Reading)
    requires AllWellFormed(indices)
  {
    base + MaxSum(indices, sign, reading) + v1Size <= TWO64
  }

  lemma InReachSuffices(indices: seq<Index>, base: int, v1Size: nat, v2Size: nat, sign: SignOracle, env: Env,
                        reading: Reading, a1: int, a2: int)
    requires AllWellFormed(indices) && AllPositive(indices, sign) && SignsHold(indices, sign, env)
    requires base > 0 && v2Size <= base && v1Size <= MAX64 && v2Size <= MAX64
    requires InReach(indices, base, v1Size, sign, reading)
    requires Cong(a1 - a2, base + LinearValue(indices, Values(env, reading)), TWO64)
    ensures Disjoint(a1, v1Size, a2, v2Size)
  {
    if v1Size > 0 && v2Size > 0 {
      SumBounds(indices, sign, env, reading);
      hide Cong, Disjoint, LinearValue;
      AllPositiveIsExact(indices, base, v1Size, v2Size, sign, env, reading, a1, a2);
    }
  }

  /** Whatever the variables are, as long as the sign answers hold, the accesses share no byte. */
  ghost predicate AlwaysApart(indices: seq<Index>, base: int, v1Size: nat, v2Size: nat, sign: SignOracle,
                              reading: Reading)
  {
    forall env, a1, a2 :: SignsHold(indices, sign, env)
                          && Cong(a1 - a2, base + LinearValue(indices, Values(env, reading)), TWO64)
                          ==> Disjoint(a1, v1Size, a2, v2Size)
  }

  // ------------------------------------------------------- free variables

  /** A variable whose value goes through all numbers between the lowest and the highest. A sign extension
      that comes before a zero extension leaves a gap when the sign is not known. */
  predicate FreeTerm(ix: Index, sign: SignOracle, reading: Reading) {
    && WellFormedIndex(ix) && ix.v.Variable? && TermIsPositive(ix, sign)
    && (ix.zext == 0 || sign(ix.v) == NonNegative
        || (sign(ix.v) == UnknownSign && Top(KeyOf(ix), reading) == Pow2(Width(ix.v))))
  }

  /** The bits of the variable that give it a value of size u. */
  function Bits(ix: Index, u: nat): nat
    requires ix.v.Variable? && u <= Pow2(ix.v.bits)
  {
    if ix.scale < 0 then Pow2(ix.v.bits) - u else u
  }

  lemma BitsGiveTerm(ix: Index, sign: SignOracle, reading: Reading, env: Env, u: nat)
    requires FreeTerm(ix, sign, reading) && Lowest(ix) <= u <= Highest(ix, sign, reading) && u <= Pow2(ix.v.bits)
    requires env(ix.v) == Bits(ix, u)
    ensures SignHolds(ix, sign, env) && Term(ix, Values(env, reading)) == Abs(ix.scale) * u
  {
    var w, x := ix.v.bits, KeyValue(KeyOf(ix), env, reading);
    assert Pow2(w) == 2 * Pow2(w - 1);
    assert Bits(ix, u) < Pow2(w);
    SmallModulo(Bits(ix, u), Pow2(w));
    assert Eval(ix.v, env) == Bits(ix, u);
    assert x == if ix.scale < 0 then -(u as int) else u;
    SameSigns2(ix.scale, u);
  }

  lemma SameSigns2(a: int, u: nat)
    ensures a * (if a < 0 then -(u as int) else u) == Abs(a) * u
  {
    assert (-a) * u == a * (-(u as int));
  }

  lemma HighestFits(ix: Index, sign: SignOracle, reading: Reading)
    requires FreeTerm(ix, sign, reading)
    ensures Lowest(ix) <= Highest(ix, sign, reading) <= Pow2(ix.v.bits)
  {
    assert Pow2(ix.v.bits) == 2 * Pow2(ix.v.bits - 1);
  }

  /** Independent variables. */
  predicate FreeTerms(indices: seq<Index>, sign: SignOracle, reading: Reading) {
    && (forall k :: 0 <= k < |indices| ==> FreeTerm(indices[k], sign, reading))
    && (forall i, j :: 0 <= i < j < |indices| ==> indices[i].v != indices[j].v)
  }

  /** An environment with one variable changed. */
  function With(env: Env, v: Value, x: nat): Env { u => if u == v then x else env(u) }

  lemma {:induction false} OthersUnchanged(indices: seq<Index>, sign: SignOracle, reading: Reading, env: Env, v: Value,
                                           x: nat)
    requires forall k :: 0 <= k < |indices| ==> indices[k].v.Variable? && indices[k].v != v
    requires SignsHold(indices, sign, env)
    ensures SignsHold(indices, sign, With(env, v, x))
    ensures LinearValue(indices, Values(With(env, v, x), reading)) == LinearValue(indices, Values(env, reading))
  {
    if indices != [] {
      var ix, env' := indices[0], With(env, v, x);
      assert ix.v.Variable? && ix.v != v;
      assert WellTyped(ix.v) ==> Eval(ix.v, env') == Eval(ix.v, env);
      assert Term(ix, Values(env', reading)) == Term(ix, Values(env, reading));
      assert SignHolds(ix, sign, env);
      assert SignHolds(ix, sign, env');
      hide SignHolds, Term, Eval, WellTyped, With;
      OthersUnchanged(indices[1..], sign, reading, env, v, x);
      forall k | 0 <= k < |indices| ensures SignHolds(indices[k], sign, env') {
        if k > 0 { assert indices[k] == indices[1..][k - 1]; }
      }
    }
  }

  lemma FreeRest(indices: seq<Index>, sign: SignOracle, reading: Reading)
    requires FreeTerms(indices, sign, reading) && indices != []
    ensures FreeTerm(indices[0], sign, reading) && FreeTerms(indices[1..], sign, reading)
    ensures AllWellFormed(indices) && AllPositive(indices, sign)
    ensures forall k :: 0 <= k < |indices[1..]| ==> indices[1..][k].v.Variable? && indices[1..][k].v != indices[0].v
    ensures forall k :: 0 <= k < |indices[1..]| ==> indices[1..][k] == indices[k + 1]
  {
    forall k | 0 <= k < |indices| ensures FreeTerm(indices[k], sign, reading) {}
  }

  /** One term on top of the values of the others. */
  lemma SetFirst(indices: seq<Index>, sign: SignOracle, reading: Reading, env0: Env, u: nat) returns (env: Env)
    requires FreeTerms(indices, sign, reading) && indices != [] && SignsHold(indices[1..], sign, env0)
    requires AllWellFormed(indices) && Lowest(indices[0]) <= u <= Highest(indices[0], sign, reading)
    ensures SignsHold(indices, sign, env)
    ensures LinearValue(indices, Values(env, reading))
         == Abs(indices[0].scale) * u + LinearValue(indices[1..], Values(env0, reading))
  {
    FreeRest(indices, sign, reading);
    var ix := indices[0];
    HighestFits(ix, sign, reading);
    env := With(env0, ix.v, Bits(ix, u));
    hide SignHolds, Term, FreeTerm, FreeTerms, Highest, Lowest, Bits;
    BitsGiveTerm(ix, sign, reading, env, u);
    OthersUnchanged(indices[1..], sign, reading, env0, ix.v, Bits(ix, u));
    forall k | 0 <= k < |indices| ensures SignHolds(indices[k], sign, env) {
      if k > 0 { assert indices[k] == indices[1..][k - 1]; }
    }
  }

  /** Turning up one variable after the other, the sum goes from its least to its greatest value in steps of
      at most the stride: it meets every target, up to less than a stride. */
  lemma {:induction false} WalkMeets(indices: seq<Index>, sign: SignOracle, reading: Reading, stride: nat, target: int)
    returns (env: Env)
    requires FreeTerms(indices, sign, reading) && AllWellFormed(indices)
    requires forall k :: 0 <= k < |indices| ==> Abs(indices[k].scale) <= stride
    requires target <= MaxSum(indices, sign, reading)
    ensures SignsHold(indices, sign, env)
    ensures var sum := LinearValue(indices, Values(env, reading));
            target <= sum && (sum < target + stride || sum == MinSum(indices))
    decreases |indices|
  {
    if indices == [] {
      env := Constantly(0);
    } else {
      FreeRest(indices, sign, reading);
      var ix, rest, s := indices[0], indices[1..], Abs(indices[0].scale);
      HighestFits(ix, sign, reading);
      var low, high, top := MinTerm(ix), MaxTerm(ix, sign, reading), MaxSum(rest, sign, reading);
      hide FreeTerm, FreeTerms, Highest, Lowest, SignsHold, LinearValue;
      if target <= low + top {
        var env0 := WalkMeets(rest, sign, reading, stride, target - low);
        env := SetFirst(indices, sign, reading, env0, Lowest(ix));
      } else {
        var env0 := WalkMeets(rest, sign, reading, stride, top);
        SumBounds(rest, sign, env0, reading);
        var u := FirstStep(s, Lowest(ix), Highest(ix, sign, reading), target - top);
        env := SetFirst(indices, sign, reading, env0, u);
      }
    }
  }

  /** The first multiple of s that is not below the goal. */
  lemma FirstStep(s: nat, low: nat, high: nat, goal: int) returns (u: nat)
    requires s * low < goal <= s * high
    ensures low <= u <= high && goal <= s * u < goal + s
  {
    var product := s * high;
    assert s != 0 || product == 0;
    var g := goal - 1;
    DivisionIs(g, s);
    u := g / s + 1;
    assert s * u == g / s * s + s && (high + 1) * s == s * high + s;
    if u < low { MultiplyMonotone(u, low, s); }
    if u > high { MultiplyMonotone(high + 1, u, s); }
  }

  lemma InWindow(sum: int, v1Size: nat, v2Size: nat)
    requires TWO64 - v1Size < sum < TWO64 + v2Size && 0 < v1Size <= MAX64 && 0 < v2Size <= MAX64
    ensures !Clear(sum % TWO64, v1Size, v2Size)
  {
    if sum < TWO64 {
      SmallModulo(sum, TWO64);
    } else {
      DivideUnique(sum, TWO64, 1, sum - TWO64);
      DivisionIs(sum, TWO64);
    }
  }

  /** A sum just below or above the end of the address space makes the accesses overlap. */
  lemma MeetsSecond(indices: seq<Index>, base: int, v1Size: nat, v2Size: nat, sign: SignOracle, reading: Reading,
                    env: Env)
    requires SignsHold(indices, sign, env) && 0 < v1Size <= MAX64 && 0 < v2Size <= MAX64
    requires TWO64 - v1Size < base + LinearValue(indices, Values(env, reading)) < TWO64 + v2Size
    ensures !AlwaysApart(indices, base, v1Size, v2Size, sign, reading)
  {
    var a1 := base + LinearValue(indices, Values(env, reading));
    InWindow(a1, v1Size, v2Size);
    CongRefl(a1, TWO64);
    hide Cong, Disjoint, LinearValue, Clear, SignsHold;
    DisjointAt(a1, v1Size, 0, v2Size, a1);
    assert Cong(a1 - 0, base + LinearValue(indices, Values(env, reading)), TWO64);
  }

  /** For independent variables scaled by less than the two sizes together, the rule is right for all their
      values exactly when the first access cannot come round. */
  lemma InReachIff(indices: seq<Index>, base: int, v1Size: nat, v2Size: nat, sign: SignOracle, reading: Reading)
    requires FreeTerms(indices, sign, reading) && AllWellFormed(indices)
    requires forall k :: 0 <= k < |indices| ==> Abs(indices[k].scale) < v1Size + v2Size
    requires base > 0 && 0 < v2Size <= base && 0 < v1Size <= MAX64 && v2Size <= MAX64
    requires base + MinSum(indices) < TWO64 + v2Size
    ensures AlwaysApart(indices, base, v1Size, v2Size, sign, reading) <==> InReach(indices, base, v1Size, sign, reading)
  {
    AllFree(indices, sign, reading);
    if InReach(indices, base, v1Size, sign, reading) {
      forall env, a1, a2 | SignsHold(indices, sign, env)
                           && Cong(a1 - a2, base + LinearValue(indices, Values(env, reading)), TWO64)
        ensures Disjoint(a1, v1Size, a2, v2Size)
      {
        hide Cong, Disjoint, LinearValue, SignsHold, FreeTerms, InReach;
        InReachSuffices(indices, base, v1Size, v2Size, sign, env, reading, a1, a2);
      }
    } else {
      hide FreeTerms, AlwaysApart, LinearValue, SignsHold;
      var env := WalkMeets(indices, sign, reading, v1Size + v2Size - 1, TWO64 - v1Size + 1 - base);
      MeetsSecond(indices, base, v1Size, v2Size, sign, reading, env);
    }
  }

  lemma AllFree(indices: seq<Index>, sign: SignOracle, reading: Reading)
    requires FreeTerms(indices, sign, reading)
    ensures AllPositive(indices, sign)
  {
    forall k | 0 <= k < |indices| ensures TermIsPositive(indices[k], sign) {
      assert FreeTerm(indices[k], sign, reading);
    }
  }
}
