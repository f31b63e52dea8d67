// Fixed-point branch probabilities and the exactness of scaling a mass by one
// (src/lib/Support/BranchProbability.cpp).
module BfiProbability {
  import opened Arithmetic

  const DENOMINATOR: nat := 0x8000_0000

  /** Numerator over 2^31 of a probability, rounded to nearest. */
  function Probability(num: nat, den: nat): nat
    requires 0 < den && num <= den
  {
    if den == DENOMINATOR then num else (num * DENOMINATOR + den / 2) / den
  }

  /** A probability is at most one, is one for w of w, and is the fraction up to rounding. */
  lemma ProbabilityRounds(num: nat, den: nat)
    requires 0 < den && num <= den
    ensures Probability(num, den) <= DENOMINATOR
    ensures num == den ==> Probability(num, den) == DENOMINATOR
    ensures 2 * num * DENOMINATOR <= 2 * Probability(num, den) * den + den
    ensures 2 * Probability(num, den) * den <= 2 * num * DENOMINATOR + den
  {
    var a, p := num * DENOMINATOR + den / 2, Probability(num, den);
    if den != DENOMINATOR {
      assert a == p * den + a % den;
      if num == den { DivideUnique(a, den, DENOMINATOR, den / 2); }
    }
    RoundedAtMostOne(num, den, a);
  }

  lemma RoundedAtMostOne(num: nat, den: nat, a: nat)
    requires 0 < den && num <= den && a == num * DENOMINATOR + den / 2
    ensures a / den <= DENOMINATOR
  {
    MultiplyMonotone(num, den, DENOMINATOR);
    assert (DENOMINATOR + 1) * den == DENOMINATOR * den + den;
    QuotientBelow(a, den, DENOMINATOR + 1);
  }

  /** The template scale<ConstD>: a 64 by 32 bit product divided by 32 bits, in 32-bit digits. */
  function Scale(num: nat, n: nat, d: nat): nat
    requires num < TWO64 && n < TWO32 && 0 < d < TWO32
  {
    if num == 0 || d == n then num
    else
      var digits := ProductDigits(num, n);
      DigitsQuotient(digits.upper, digits.mid, digits.lower, d)
  }

  datatype Digits = Digits(upper: nat, mid: nat, lower: nat)

  /** The product as 32-bit digits, the carry out of the middle one found by comparison. */
  function ProductDigits(num: nat, n: nat): Digits {
    var productHigh := num / TWO32 * n;
    var productLow := num % TWO32 * n;
    var lower32 := productLow % TWO32;
    var mid32Partial := productHigh % TWO32;
    var mid32 := (mid32Partial + productLow / TWO32) % TWO32;
    var upper32 := (productHigh / TWO32 + (if mid32 < mid32Partial then 1 else 0)) % TWO32;
    Digits(upper32, mid32, lower32)
  }

  /** Long division of a three-digit number by one digit, with the overflow checks. */
  function DigitsQuotient(upper32: nat, mid32: nat, lower32: nat, d: nat): nat
    requires 0 < d
  {
    if upper32 >= d then MAX64
    else
      var rem := upper32 * TWO32 + mid32;
      var upperQ := rem / d;
      if upperQ > MAX32 then MAX64
      else
        var rem2 := rem % d * TWO32 + lower32;
        var lowerQ := rem2 / d;
        var q := (upperQ * TWO32 + lowerQ) % TWO64;
        if q < lowerQ then MAX64 else q
  }

  function Min(a: nat, b: nat): nat { if a < b then a else b }

  /** The digits are those of the product. */
  lemma ProductDigitsAreExact(num: nat, n: nat)
    requires num < TWO64 && n < TWO32
    ensures var g := ProductDigits(num, n);
            num * n == g.upper * TWO64 + g.mid * TWO32 + g.lower && g.mid < TWO32 && g.lower < TWO32
  {
    var h, l := num / TWO32, num % TWO32;
    var hi, lo := h * n, l * n;
    assert num == h * TWO32 + l;
    assert num * n == hi * TWO32 + lo by {
      assert (h * TWO32 + l) * n == h * TWO32 * n + l * n;
      assert h * TWO32 * n == hi * TWO32;
    }
    ProductBound(l, n);
    ProductBound(h, n);
    CarryIsExact(hi, lo);
  }

  lemma CarryIsExact(hi: nat, lo: nat)
    requires hi <= MAX32 * MAX32 && lo <= MAX32 * MAX32
    ensures var mid := (hi % TWO32 + lo / TWO32) % TWO32;
            var upper := (hi / TWO32 + (if mid < hi % TWO32 then 1 else 0)) % TWO32;
            hi * TWO32 + lo == upper * TWO64 + mid * TWO32 + lo % TWO32
  {
  }

  lemma ProductBound(a: nat, b: nat)
    requires a <= MAX32 && b <= MAX32
    ensures a * b <= MAX32 * MAX32
  {
    MultiplyMonotone(a, MAX32, b);
    MultiplyMonotone(b, MAX32, MAX32);
  }

  /** Scaling loses no precision: it is the floor of the exact quotient, saturated at 64 bits. */
  lemma ScaleIsExact(num: nat, n: nat, d: nat, product: nat)
    requires num < TWO64 && n < TWO32 && 0 < d < TWO32 && product == num * n
    ensures Scale(num, n, d) == Min(MAX64, product / d)
  {
    hide DigitsQuotient, ProductDigits;
    if num == 0 || d == n {
      assert product == num * d;
      DivideUnique(product, d, num, 0);
    } else {
      SlowPathIsExact(num, n, d, product);
    }
  }

  lemma SlowPathIsExact(num: nat, n: nat, d: nat, product: nat)
    requires num < TWO64 && n < TWO32 && 0 < d < TWO32 && product == num * n
    ensures var g := ProductDigits(num, n); DigitsQuotient(g.upper, g.mid, g.lower, d) == Min(MAX64, product / d)
  {
    hide DigitsQuotient, ProductDigits, Min;
    ProductDigitsAreExact(num, n);
    var g := ProductDigits(num, n);
    DigitsQuotientIsExact(product, g.upper, g.mid, g.lower, d);
  }

  lemma DigitsQuotientIsExact(product: nat, upper: nat, mid: nat, lower: nat, d: nat)
    requires product == upper * TWO64 + mid * TWO32 + lower && mid < TWO32 && lower < TWO32 && 0 < d < TWO32
    ensures DigitsQuotient(upper, mid, lower, d) == Min(MAX64, product / d)
  {
    hide DigitsQuotient;
    if upper >= d {
      QuotientSaturates(upper, mid, lower, d);
      QuotientAtLeast(product, d, TWO64);
    } else {
      var u, r1, l, r2 := QuotientParts(upper, mid, lower, d);
      ProductQuotient(product, upper, mid, lower, d, u, r1, l, r2);
    }
  }

  lemma QuotientSaturates(upper: nat, mid: nat, lower: nat, d: nat)
    requires 0 < d <= upper
    ensures DigitsQuotient(upper, mid, lower, d) == MAX64
  {
  }

  /** Below the overflow checks, the two quotient digits and their remainders. */
  lemma QuotientParts(upper: nat, mid: nat, lower: nat, d: nat) returns (u: nat, r1: nat, l: nat, r2: nat)
    requires upper < d && mid < TWO32 && lower < TWO32
    ensures upper * TWO32 + mid == u * d + r1 && r1 < d && u <= MAX32
    ensures r1 * TWO32 + lower == l * d + r2 && r2 < d && l <= MAX32
    ensures DigitsQuotient(upper, mid, lower, d) == u * TWO32 + l
  {
    var rem := upper * TWO32 + mid;
    u, r1 := rem / d, rem % d;
    var rem2 := r1 * TWO32 + lower;
    l, r2 := rem2 / d, rem2 % d;
    QuotientBelow(rem, d, TWO32);
    QuotientBelow(rem2, d, TWO32);
  }

  lemma ProductQuotient(product: nat, upper: nat, mid: nat, lower: nat, d: nat, u: nat, r1: nat, l: nat, r2: nat)
    requires product == upper * TWO64 + mid * TWO32 + lower && r2 < d
    requires upper * TWO32 + mid == u * d + r1 && r1 * TWO32 + lower == l * d + r2
    ensures product / d == u * TWO32 + l
  {
    assert (u * TWO32 + l) * d == u * d * TWO32 + l * d;
    DivideUnique(product, d, u * TWO32 + l, r2);
  }

  lemma QuotientAtLeast(a: nat, d: nat, k: nat)
    requires d > 0 && a >= k * d
    ensures a / d >= k
  {
    var q := a / d;
    assert a == q * d + a % d && (q + 1) * d == q * d + d;
    if q < k { MultiplyMonotone(q + 1, k, d); }
  }

  lemma QuotientBelow(a: nat, d: nat, k: nat)
    requires d > 0 && a < k * d
    ensures a / d < k
  {
    var q := a / d;
    assert a == q * d + a % d;
    if q >= k { MultiplyMonotone(k, q, d); }
  }
}
