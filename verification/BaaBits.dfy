// Bitwise operations on unsigned integers, and the lowest set bit.
module BaaBits {
  import opened Arithmetic

  function BitAnd(a: nat, b: nat): nat {
    if a == 0 || b == 0 then 0 else 2 * BitAnd(a / 2, b / 2) + (if a % 2 == 1 && b % 2 == 1 then 1 else 0)
  }

  function BitOr(a: nat, b: nat): nat
    decreases a + b
  {
    if a == 0 then b else if b == 0 then a
    else 2 * BitOr(a / 2, b / 2) + (if a % 2 == 1 || b % 2 == 1 then 1 else 0)
  }

  function BitXor(a: nat, b: nat): nat
    decreases a + b
  {
    if a == 0 then b else if b == 0 then a
    else 2 * BitXor(a / 2, b / 2) + (a % 2 + b % 2) % 2
  }

  /** Without common bits, an or is a sum. */
  lemma {:induction false} DisjointOrAdds(a: nat, b: nat)
    requires BitAnd(a, b) == 0
    ensures BitOr(a, b) == a + b
    decreases a + b
  {
    if a != 0 && b != 0 { DisjointOrAdds(a / 2, b / 2); }
  }

  lemma {:induction false} AndSelf(a: nat)
    ensures BitAnd(a, a) == a && BitXor(a, a) == 0
  {
    if a != 0 { AndSelf(a / 2); }
  }

  /** Masking with 2^k - 1 is the remainder by 2^k. */
  lemma {:induction false} MaskIsRemainder(a: nat, k: nat)
    ensures BitAnd(a, Pow2(k) - 1) == a % Pow2(k)
  {
    if k == 0 {
      assert a % 1 == 0;
    } else if a != 0 {
      MaskIsRemainder(a / 2, k - 1);
      HalfRemainder(a, Pow2(k - 1));
      assert (Pow2(k) - 1) / 2 == Pow2(k - 1) - 1;
    } else {
      DivideUnique(0, Pow2(k), 0, 0);
      DivisionIs(0, Pow2(k));
    }
  }

  lemma HalfRemainder(a: nat, h: nat)
    requires h > 0
    ensures a % (2 * h) == 2 * (a / 2 % h) + a % 2
  {
    var q, r := a / 2 / h, a / 2 % h;
    DivisionIs(a / 2, h);
    assert a == q * (2 * h) + (2 * r + a % 2) by { assert q * (2 * h) == 2 * (q * h); }
    DivideUnique(a, 2 * h, q, 2 * r + a % 2);
    DivisionIs(a, 2 * h);
  }

  lemma OrBound(a: nat, b: nat, k: nat)
    requires a < Pow2(k) && b < Pow2(k)
    ensures BitOr(a, b) < Pow2(k)
  {
    if a != 0 && b != 0 { OrBound(a / 2, b / 2, k - 1); }
  }

  // -------------------------------------------------------- lowest set bit

  /** x ^ (x & (x - 1)) on 64 bits. */
  function LowestSetBit(x: nat): nat {
    BitXor(x, BitAnd(x, if x == 0 then MAX64 else x - 1))
  }

  function TrailingZeros(x: nat): nat
    requires x > 0
  {
    if x % 2 == 1 then 0 else 1 + TrailingZeros(x / 2)
  }

  lemma {:induction false} LowestSetBitIs(x: nat)
    requires x > 0
    ensures LowestSetBit(x) == Pow2(TrailingZeros(x))
  {
    if x % 2 == 1 {
      AndSelf(x / 2);
      if x > 1 { assert (x - 1) / 2 == x / 2; }
    } else {
      LowestSetBitIs(x / 2);
      assert (x - 1) / 2 == x / 2 - 1;
    }
  }

  /** x is an odd multiple of its lowest set bit. */
  lemma {:induction false} OddMultiple(x: nat) returns (odd: nat)
    requires x > 0
    ensures x == odd * Pow2(TrailingZeros(x)) && odd % 2 == 1
  {
    if x % 2 == 1 {
      odd := x;
    } else {
      odd := OddMultiple(x / 2);
      assert odd * (2 * Pow2(TrailingZeros(x / 2))) == 2 * (odd * Pow2(TrailingZeros(x / 2)));
    }
  }

  lemma {:induction false} TrailingZerosBound(x: nat, k: nat)
    requires 0 < x < Pow2(k)
    ensures TrailingZeros(x) < k
  {
    if x % 2 == 0 { TrailingZerosBound(x / 2, k - 1); }
  }

  /** The lowest set bit of an or is the lower of the two. */
  lemma {:induction false} OrTrailingZeros(a: nat, b: nat)
    requires a > 0 && b > 0
    ensures BitOr(a, b) > 0
    ensures TrailingZeros(BitOr(a, b))
         == if TrailingZeros(a) <= TrailingZeros(b) then TrailingZeros(a) else TrailingZeros(b)
  {
    var h := BitOr(a / 2, b / 2);
    if a % 2 == 0 && b % 2 == 0 {
      OrTrailingZeros(a / 2, b / 2);
      assert BitOr(a, b) == 2 * h;
    } else {
      assert BitOr(a, b) == 2 * h + 1;
    }
  }

  /** An odd number has an inverse modulo every power of two. */
  lemma {:induction false} OddInverse(a: int, k: nat) returns (x: nat)
    requires a % 2 == 1
    ensures Cong(a * x, 1, Pow2(k))
  {
    if k == 0 {
      x := 0;
      CongBy(0, 1, 1, -1);
    } else {
      var y := OddInverse(a, k - 1);
      x := OddInverseStep(a, y, Pow2(k - 1));
    }
  }

  lemma OddInverseStep(a: int, y: nat, p: nat) returns (x: nat)
    requires p > 0 && a % 2 == 1 && Cong(a * y, 1, p)
    ensures Cong(a * x, 1, 2 * p)
  {
    var t := CongWitness(a * y, 1, p);
    hide Cong;
    if t % 2 == 0 {
      x := y;
      DoubleModulus(t, p);
      CongBy(a * x, 1, 2 * p, t / 2);
    } else {
      x := y + p;
      assert a * x == a * y + a * p && (t + a) * p == t * p + a * p;
      DoubleModulus(t + a, p);
      CongBy(a * x, 1, 2 * p, (t + a) / 2);
    }
  }

  lemma DoubleModulus(t: int, p: nat)
    requires t % 2 == 0
    ensures t * p == t / 2 * (2 * p)
  {
    var u := t / 2;
    assert t == 2 * u;
    assert 2 * u * p == u * (2 * p);
  }
}
