// Powers of two and arithmetic modulo a number, shared by the bounded-width models.
module Arithmetic {

  const TWO32: nat := 0x1_0000_0000
  const MAX32: nat := TWO32 - 1
  const TWO64: nat := 0x1_0000_0000_0000_0000
  const MAX64: nat := TWO64 - 1

  // ------------------------------------------------------- multiplication

  lemma DivideUnique(a: int, b: int, q: int, r: int)
    requires b > 0 && a == q * b + r && 0 <= r < b
    ensures a / b == q
  {
    var q', r' := a / b, a % b;
    assert a == q' * b + r';
    assert (q + 1) * b == q * b + b && (q' + 1) * b == q' * b + b;
    if q' > q { MultiplyMonotone(q + 1, q', b); }
    if q' < q { MultiplyMonotone(q' + 1, q, b); }
  }

  lemma MultiplyMonotone(a: int, b: int, k: int)
    requires a <= b && k >= 0
    ensures a * k <= b * k
  {
  }

  // --------------------------------------------------------- powers of two

  function Pow2(n: nat): (r: nat)
    ensures r > 0
  {
    if n == 0 then 1 else 2 * Pow2(n - 1)
  }

  lemma {:induction false} Pow2Monotone(a: nat, b: nat)
    requires a <= b
    ensures Pow2(a) <= Pow2(b)
  {
    if a < b { Pow2Monotone(a, b - 1); }
  }

  lemma Pow2Add(a: nat, b: nat)
    ensures Pow2(a + b) == Pow2(a) * Pow2(b)
  {
    if a > 0 { Pow2Add(a - 1, b); }
  }

  lemma Pow2Values()
    ensures Pow2(31) == 0x8000_0000 && Pow2(32) == TWO32 && Pow2(33) == 2 * TWO32
  {
    assert Pow2(8) == 256;
    Pow2Add(8, 8);
    Pow2Add(16, 15);
    assert Pow2(7) == 128;
    Pow2Add(8, 7);
  }

  // ------------------------------------------------------------ congruence

  /** a and b are the same modulo m. */
  predicate Cong(a: int, b: int, m: nat)
    requires m > 0
  {
    (a - b) % m == 0
  }

  lemma CongBy(a: int, b: int, m: nat, k: int)
    requires m > 0 && a - b == k * m
    ensures Cong(a, b, m)
  {
    DivideUnique(a - b, m, k, 0);
    DivisionIs(a - b, m);
  }

  lemma CongWitness(a: int, b: int, m: nat) returns (k: int)
    requires m > 0 && Cong(a, b, m)
    ensures a - b == k * m
  {
    k := (a - b) / m;
    DivisionIs(a - b, m);
  }

  lemma DivisionIs(a: int, m: nat)
    requires m > 0
    ensures a == a / m * m + a % m && 0 <= a % m < m
  {
  }

  lemma CongRefl(a: int, m: nat)
    requires m > 0
    ensures Cong(a, a, m)
  {
    assert 0 % m == 0;
  }

  lemma CongSym(a: int, b: int, m: nat)
    requires m > 0 && Cong(a, b, m)
    ensures Cong(b, a, m)
  {
    var k := CongWitness(a, b, m);
    assert b - a == (-k) * m;
    CongBy(b, a, m, -k);
  }

  lemma CongTrans(a: int, b: int, c: int, m: nat)
    requires m > 0 && Cong(a, b, m) && Cong(b, c, m)
    ensures Cong(a, c, m)
  {
    var j := CongWitness(a, b, m);
    var k := CongWitness(b, c, m);
    assert a - c == (j + k) * m;
    CongBy(a, c, m, j + k);
  }

  lemma CongAdd(a: int, b: int, c: int, d: int, m: nat)
    requires m > 0 && Cong(a, b, m) && Cong(c, d, m)
    ensures Cong(a + c, b + d, m)
    ensures Cong(a - c, b - d, m)
  {
    var j := CongWitness(a, b, m);
    var k := CongWitness(c, d, m);
    assert a + c - (b + d) == (j + k) * m && a - c - (b - d) == (j - k) * m;
    CongBy(a + c, b + d, m, j + k);
    CongBy(a - c, b - d, m, j - k);
  }

  lemma CongMul(a: int, b: int, c: int, m: nat)
    requires m > 0 && Cong(a, b, m)
    ensures Cong(a * c, b * c, m)
  {
    var k := CongWitness(a, b, m);
    assert a * c - b * c == k * c * m by { MulRegroup(a, b, c, k, m); }
    CongBy(a * c, b * c, m, k * c);
  }

  lemma MulRegroup(a: int, b: int, c: int, k: int, m: int)
    requires a - b == k * m
    ensures a * c - b * c == k * c * m
  {
    assert a * c - b * c == (a - b) * c;
    assert k * m * c == k * c * m;
  }

  lemma CongMod(a: int, m: nat)
    requires m > 0
    ensures Cong(a % m, a, m) && Cong(a, a % m, m)
  {
    DivisionIs(a, m);
    assert a % m - a == (-(a / m)) * m;
    CongBy(a % m, a, m, -(a / m));
    CongBy(a, a % m, m, a / m);
  }

  /** A congruence holds modulo every divisor of its modulus. */
  lemma CongDivisor(a: int, b: int, m: nat, q: nat, n: nat)
    requires m > 0 && n > 0 && n == q * m && Cong(a, b, n)
    ensures Cong(a, b, m)
  {
    var k := CongWitness(a, b, n);
    assert k * n == k * q * m by { assert k * (q * m) == k * q * m; }
    CongBy(a, b, m, k * q);
  }

  lemma CongPow2(a: int, b: int, w: nat, w': nat)
    requires w <= w' && Cong(a, b, Pow2(w'))
    ensures Cong(a, b, Pow2(w))
  {
    Pow2Add(w' - w, w);
    CongDivisor(a, b, Pow2(w), Pow2(w' - w), Pow2(w'));
  }

  /** Congruent numbers less than the modulus apart are equal. */
  lemma CongEqual(a: int, b: int, m: nat)
    requires m > 0 && Cong(a, b, m) && a - b < m && b - a < m
    ensures a == b
  {
    var k := CongWitness(a, b, m);
    if k >= 1 { MultiplyMonotone(1, k, m); }
    if k <= -1 { MultiplyMonotone(k, -1, m); }
  }

  lemma CongEqualMod(a: int, b: int, m: nat)
    requires m > 0
    ensures Cong(a, b, m) <==> a % m == b % m
  {
    DivisionIs(a, m);
    DivisionIs(b, m);
    if Cong(a, b, m) {
      CongMod(a, m);
      CongMod(b, m);
      CongTrans(a % m, a, b, m);
      CongTrans(a % m, b, b % m, m);
      CongEqual(a % m, b % m, m);
    }
    if a % m == b % m {
      assert a - b == (a / m - b / m) * m;
      CongBy(a, b, m, a / m - b / m);
    }
  }
}
