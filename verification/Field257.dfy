/** The field GF(257) in which every byte of a key is shared. Elements are plain integers
    compared up to congruence, because the sources let intermediate values go negative. */
module Field257 {
  import opened CArithmetic

  const PRIME: int := 257

  ghost predicate Cong(a: int, b: int) {
    (a - b) % PRIME == 0
  }

  // ----- congruence is compatible with arithmetic -----

  lemma MultipleIsZero(q: int)
    ensures (PRIME * q) % PRIME == 0
  {
  }

  lemma CongRefl(a: int)
    ensures Cong(a, a)
  {
  }

  lemma CongTrans(a: int, b: int, c: int)
    requires Cong(a, b) && Cong(b, c)
    ensures Cong(a, c)
  {
  }

  /** `b` is congruent to what `a` is congruent to. */
  lemma CongSub(b: int, a: int, c: int)
    requires Cong(a, b) && Cong(a, c)
    ensures Cong(b, c)
  {
  }

  lemma CongAdd(a: int, b: int, c: int, d: int)
    requires Cong(a, b) && Cong(c, d)
    ensures Cong(a + c, b + d)
    ensures Cong(a - c, b - d)
  {
  }

  lemma CongScale(x: int, a: int, b: int)
    requires Cong(a, b)
    ensures Cong(x * a, x * b)
    ensures Cong(a * x, b * x)
  {
    var q := (a - b) / PRIME;
    assert x * a - x * b == PRIME * (x * q) by {
      assert a - b == PRIME * q;
      assert x * a - x * b == x * (a - b) == x * (PRIME * q);
    }
    MultipleIsZero(x * q);
    assert a * x - b * x == x * a - x * b;
  }

  lemma CongMul(a: int, b: int, c: int, d: int)
    requires Cong(a, b) && Cong(c, d)
    ensures Cong(a * c, b * d)
  {
    CongScale(a, c, d);
    CongScale(d, a, b);
    CongTrans(a * c, a * d, b * d);
  }

  /** C's remainder modulo 257 stays in the same residue class, whatever the sign. */
  lemma RemCong(a: int)
    ensures Cong(CRem(a, PRIME), a)
    ensures -PRIME < CRem(a, PRIME) < PRIME
  {
  }

  /** Two canonical representatives that are congruent are equal. */
  lemma CanonicalUnique(a: int, b: int)
    requires Cong(a, b) && 0 <= a < PRIME && 0 <= b < PRIME
    ensures a == b
  {
  }

  // ----- 257 is prime -----

  lemma ProductBound(b: int, k: int)
    requires b > 0
    ensures k >= 1 ==> b * k >= b
    ensures k <= -1 ==> b * k <= -b
  {
  }

  lemma MultipleDivides(g: int, m: int)
    requires g > 0
    ensures (g * m) % g == 0
  {
    var q, r := (g * m) / g, (g * m) % g;
    assert g * (m - q) == r;
    ProductBound(g, m - q);
  }

  lemma SmallNonDivisors(d: int)
    requires 2 <= d <= 16
    ensures PRIME % d != 0
  {
  }

  lemma PrimeFactors(g: int, m: int)
    requires g >= 1 && g * m == PRIME
    ensures g == 1 || g == PRIME
  {
    ProductBound(g, m);
    MultipleDivides(g, m);
    assert m >= 1;
    assert m * g == PRIME;
    MultipleDivides(m, g);
    if 2 <= g <= 16 {
      SmallNonDivisors(g);
    } else if 2 <= m <= 16 {
      SmallNonDivisors(m);
    } else if g >= 17 {
      ProductBound(g, m - 16);
      assert g * m == g * (m - 16) + 16 * g;
    }
  }

  // ----- extended Euclid and inverses -----

  /** `gcdD`: the triple (g, x, y) computed by the recursive extended Euclid. */
  function GcdD(a: int, b: int): (int, int, int)
    decreases Abs(b)
  {
    if b == 0 then (a, 1, 0)
    else
      var r := GcdD(b, CRem(a, b));
      (r.0, r.2, r.1 - r.2 * CDiv(a, b))
  }

  lemma BezoutStep(a: int, b: int, n: int, x: int, y: int)
    ensures b * x + (a - n * b) * y == a * y + b * (x - y * n)
  {
  }

  lemma {:induction false} Bezout(a: int, b: int)
    ensures var (g, x, y) := GcdD(a, b); g == a * x + b * y
    decreases Abs(b)
  {
    if b != 0 {
      var n, c := CDiv(a, b), CRem(a, b);
      var r := GcdD(b, c);
      Bezout(b, c);
      BezoutStep(a, b, n, r.1, r.2);
    }
  }

  lemma FactorStep(g: int, q: int, m: int, n: int)
    ensures q * (g * m) + g * n == g * (q * m + n)
  {
  }

  /** The gcd divides both arguments; the cofactors are returned. */
  lemma {:induction false} GcdDivides(a: int, b: int) returns (m: int, n: int)
    ensures a == GcdD(a, b).0 * m && b == GcdD(a, b).0 * n
    ensures a >= 0 && b >= 0 ==> GcdD(a, b).0 >= 0
    decreases Abs(b)
  {
    if b == 0 {
      m, n := 1, 0;
    } else {
      var q, c := CDiv(a, b), CRem(a, b);
      var m1, n1 := GcdDivides(b, c);
      FactorStep(GcdD(b, c).0, q, m1, n1);
      m, n := q * m1 + n1, m1;
    }
  }

  /** On nonnegative arguments the Bezout coefficients never exceed the arguments, so a C `int`
      holds every intermediate value. */
  lemma {:induction false} CoefficientBound(a: int, b: int)
    requires a >= 0 && b >= 0
    ensures var (_, x, y) := GcdD(a, b);
      Abs(x) <= (if b > 1 then b else 1) && Abs(y) <= (if a > 1 then a else 1)
    decreases b
  {
    if b != 0 {
      var n, c := CDiv(a, b), CRem(a, b);
      assert n == a / b;
      ProductNonNegative(b, n);
      var r := GcdD(b, c);
      CoefficientBound(b, c);
      if c != 0 {
        AbsProduct(r.2, n, b);
      }
    }
  }

  /** The product in the recursive step of `gcdD` is small as well. */
  lemma GcdProductBound(a: int, b: int)
    requires a >= 0 && b > 0
    ensures Abs(GcdD(b, CRem(a, b)).2 * CDiv(a, b)) <= a + b + 1
  {
    hide CDiv;
    CoefficientBound(a, b);
    CoefficientBound(b, CRem(a, b));
  }

  lemma ProductNonNegative(x: int, y: int)
    requires x >= 0 && y >= 0
    ensures x * y >= 0
  {
  }

  lemma AbsProduct(y: int, n: int, b: int)
    requires n >= 0 && Abs(y) <= b
    ensures -(b * n) <= y * n <= b * n
  {
    ProductNonNegative(b - y, n);
    ProductNonNegative(b + y, n);
    assert (b - y) * n == b * n - y * n && (b + y) * n == b * n + y * n;
  }

  /** The two sign cases of `modInverse`: the coefficient of a reduced, possibly negative `k`. */
  function InverseCoefficient(k: int): int {
    if k < 0 then -GcdD(PRIME, -k).2 else GcdD(PRIME, k).2
  }

  /** `modInverse`: reduce, run Euclid against 257, and shift the coefficient into range. */
  function ModInverse(k: int): int {
    CRem(PRIME + InverseCoefficient(CRem(k, PRIME)), PRIME)
  }

  lemma InverseOfCanonical(k: int)
    requires 0 < k < PRIME
    ensures Cong(k * GcdD(PRIME, k).2, 1)
    ensures -PRIME <= GcdD(PRIME, k).2 <= PRIME
  {
    var (g, x, y) := GcdD(PRIME, k);
    Bezout(PRIME, k);
    CoefficientBound(PRIME, k);
    var m, n := GcdDivides(PRIME, k);
    if g != 0 {
      PrimeFactors(g, m);
      ProductBound(g, n);
    }
    assert g == 1;
    assert k * y - 1 == PRIME * (-x);
    MultipleIsZero(-x);
  }

  lemma SignedProduct(x: int, y: int)
    ensures (-x) * (-y) == x * y
  {
  }

  lemma InverseCoefficientCorrect(k: int)
    requires -PRIME < k < PRIME && k != 0
    ensures Cong(k * InverseCoefficient(k), 1)
    ensures -PRIME <= InverseCoefficient(k) <= PRIME
  {
    hide Cong, GcdD;
    InverseOfCanonical(Abs(k));
    SignedProduct(Abs(k), GcdD(PRIME, Abs(k)).2);
  }

  /** For every `k` not divisible by 257, of either sign, the result is the inverse of `k` in
      0..256; for a multiple of 257 the code answers 0. */
  lemma ModInverseCorrect(k: int)
    ensures 0 <= ModInverse(k) < PRIME
    ensures Cong(k * ModInverse(k), if Cong(k, 0) then 0 else 1)
    ensures ModInverse(k) == 0 <==> Cong(k, 0)
  {
    var k' := CRem(k, PRIME);
    ReducedZero(k);
    if k' == 0 {
      assert InverseCoefficient(0) == 0;
      TimesZero(k, ModInverse(k));
    } else {
      hide Cong, InverseCoefficient, CRem;
      RemCong(k);
      InverseCoefficientCorrect(k');
      ReducedInverse(k, k', InverseCoefficient(k'));
    }
  }

  lemma ReducedZero(k: int)
    ensures CRem(k, PRIME) == 0 <==> Cong(k, 0)
  {
  }

  lemma TimesZero(k: int, i: int)
    ensures i == 0 ==> k * i == 0
  {
  }

  lemma ReducedInverse(k: int, k': int, r: int)
    requires Cong(k', k) && Cong(k' * r, 1) && -PRIME <= r <= PRIME
    ensures var i := CRem(PRIME + r, PRIME); 0 < i < PRIME && Cong(k * i, 1)
  {
    var i := CRem(PRIME + r, PRIME);
    RemCong(PRIME + r);
    InverseOfCongruent(k, k', i, r);
  }

  lemma InverseOfCongruent(k: int, k': int, i: int, r: int)
    requires Cong(k', k) && Cong(i, r) && Cong(k' * r, 1)
    ensures Cong(k * i, 1) && i != 0
  {
    CongScale(i, k', k);
    CongScale(k', i, r);
    ChainToOne(k * i, k' * i, k' * r);
    TimesZero(k, i);
  }

  lemma ChainToOne(a: int, b: int, c: int)
    requires Cong(b, a) && Cong(b, c) && Cong(c, 1)
    ensures Cong(a, 1) && a != 0
  {
  }

  lemma Regroup(i: int, a: int, b: int)
    ensures i * (a * b) == (a * i) * b
  {
  }

  /** GF(257) has no zero divisors. */
  lemma CancelNonZero(a: int, b: int)
    requires Cong(a * b, 0) && !Cong(a, 0)
    ensures Cong(b, 0)
  {
    ModInverseCorrect(a);
    CancelWith(ModInverse(a), a, b);
  }

  lemma CancelWith(i: int, a: int, b: int)
    requires Cong(a * b, 0) && Cong(a * i, 1)
    ensures Cong(b, 0)
  {
    hide *;
    CongScale(i, a * b, 0);
    CongScale(b, a * i, 1);
    Regroup(i, a, b);
    CongSub(b, (a * i) * b, 0);
  }

  // ----- square-and-multiply -----

  function Pow(x: int, e: nat): int {
    if e == 0 then 1 else x * Pow(x, e - 1)
  }

  lemma {:induction false} PowDouble(x: int, e: nat)
    ensures Pow(x, 2 * e) == Pow(x, e) * Pow(x, e)
  {
    if e > 0 {
      PowDouble(x, e - 1);
      var p := Pow(x, e - 1);
      assert Pow(x, 2 * e) == x * Pow(x, 2 * e - 1) == x * (x * Pow(x, 2 * (e - 1)));
      assert x * (x * (p * p)) == (x * p) * (x * p);
    }
  }

  /** `modular_exponentiation`. */
  function ModExp(base: int, exp: nat, mod: int): int
    requires mod > 0
  {
    if exp == 0 then 1
    else if exp % 2 == 0 then
      var mysqrt := ModExp(base, exp / 2, mod);
      CRem(mysqrt * mysqrt, mod)
    else CRem(base * ModExp(base, exp - 1, mod), mod)
  }

  lemma ModExpRange(base: int, exp: nat)
    ensures -PRIME < ModExp(base, exp, PRIME) < PRIME
    ensures base >= 0 ==> ModExp(base, exp, PRIME) >= 0
  {
    if exp > 0 && exp % 2 == 0 {
      ProductSign(ModExp(base, exp / 2, PRIME), ModExp(base, exp / 2, PRIME));
    } else if exp > 0 {
      ModExpRange(base, exp - 1);
      ProductSign(base, ModExp(base, exp - 1, PRIME));
    }
  }

  /** For a base in range, the products that `modular_exponentiation` takes the remainder of fit
      in 32 signed bits. */
  lemma ModExpFits(base: int, exp: nat)
    requires 0 <= base < 0x80_0000 && exp > 0
    ensures 0 <= base * ModExp(base, exp - 1, PRIME) < 0x8000_0000
    ensures 0 <= ModExp(base, exp / 2, PRIME) * ModExp(base, exp / 2, PRIME) < 0x8000_0000
  {
    hide ModExp;
    ModExpRange(base, exp - 1);
    ModExpRange(base, exp / 2);
    SmallFactor(base, ModExp(base, exp - 1, PRIME), 0x80_0000);
    SmallFactor(ModExp(base, exp / 2, PRIME), ModExp(base, exp / 2, PRIME), 0x80_0000);
  }

  lemma SmallFactor(x: int, y: int, bound: int)
    requires 0 <= x < bound && 0 <= y <= 256
    ensures 0 <= x * y <= (bound - 1) * 256
  {
    ProductNonNegative(x, y);
    ProductNonNegative(bound - 1 - x, y);
    ProductNonNegative(bound - 1, 256 - y);
    Expanded(bound - 1, x, y);
  }

  lemma Expanded(b: int, x: int, y: int)
    ensures (b - x) * y == b * y - x * y && b * (256 - y) == b * 256 - b * y
  {
  }

  lemma ProductSign(x: int, y: int)
    ensures x >= 0 && y >= 0 ==> x * y >= 0
    ensures x == y ==> x * y >= 0
  {
  }

  /** Square-and-multiply computes the power modulo 257. */
  lemma {:induction false} ModExpCorrect(base: int, exp: nat)
    ensures Cong(ModExp(base, exp, PRIME), Pow(base, exp))
  {
    hide Cong, CRem;
    if exp == 0 {
      CongRefl(1);
    } else if exp % 2 == 0 {
      var s, p := ModExp(base, exp / 2, PRIME), Pow(base, exp / 2);
      ModExpCorrect(base, exp / 2);
      PowDouble(base, exp / 2);
      CongMul(s, p, s, p);
      RemCong(s * s);
      CongTrans(CRem(s * s, PRIME), s * s, p * p);
    } else {
      var s, p := ModExp(base, exp - 1, PRIME), Pow(base, exp - 1);
      ModExpCorrect(base, exp - 1);
      CongScale(base, s, p);
      RemCong(base * s);
      CongTrans(CRem(base * s, PRIME), base * s, base * p);
    }
  }
}
