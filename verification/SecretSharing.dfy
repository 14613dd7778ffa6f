/** Splitting one byte into shares and joining shares again (`split_number`, `join_shares`),
    and the two halves of the threshold property: t shares recover the secret, t - 1 shares say
    nothing about it. */
module SecretSharing {
  import opened CArithmetic
  import opened Field257
  import opened Polynomials

  const PRIME32: int32 := 257

  function Ints(s: seq<int32>): (r: seq<int>)
    ensures |r| == |s| && forall i :: 0 <= i < |s| ==> r[i] == s[i] as int
  {
    seq(|s|, i requires 0 <= i < |s| => s[i] as int)
  }

  lemma RemNonNegative(a: int)
    requires a >= 0
    ensures CRem(a, PRIME) == a % PRIME
  {
  }

  /** The share belonging to `x`: the polynomial's value as an element of 0..256. */
  function ShareAt(coefs: Poly, x: int): int {
    Eval(coefs, x) % PRIME
  }

  /** The polynomial `split_number` draws: the secret, then `rand() % 257` for every further
      coefficient. */
  function Drawn(number: int32, random: seq<int32>): (c: Poly)
    ensures |c| == |random| + 1
  {
    [number as int] + seq(|random|, i requires 0 <= i < |random| => random[i] as int % PRIME)
  }

  /** The first `k + 1` terms of what a share is made of, written out: the secret, then each random
      number's remainder times a power of the share number. */
  ghost function Terms257(number: int, random: seq<int32>, x: int, k: nat): int
    requires k <= |random|
  {
    if k == 0 then number else Terms257(number, random, x, k - 1) + random[k - 1] as int % 257 * Pow(x, k)
  }

  lemma {:induction false} DrawnValue(number: int32, random: seq<int32>, x: int, k: nat)
    requires k <= |random|
    ensures Eval(Drawn(number, random)[..k + 1], x) == Terms257(number as int, random, x, k)
  {
    var c := Drawn(number, random);
    if k == 0 {
      FirstTerm(c, x);
    } else {
      DrawnValue(number, random, x, k - 1);
      PrefixSnoc(c, k, x);
    }
  }

  lemma ShareIs(number: int32, random: seq<int32>, x: int)
    ensures ShareAt(Drawn(number, random), x) == Terms257(number as int, random, x, |random|) % 257
  {
    hide Eval, Terms257;
    DrawnValue(number, random, x, |random|);
    assert Drawn(number, random)[..|random| + 1] == Drawn(number, random);
  }

  /** 200 + 7 * 3 + 100 * 9 is 93 modulo 257. */
  lemma ShareExample()
    ensures ShareAt(Drawn(200, [264, 100]), 3) == 93
  {
    var c := Drawn(200, [264, 100]);
    assert c == [200, 7, 100] && c[1..] == [7, 100] && [7, 100][1..] == [100] && [100][1..] == [];
    assert Eval([100], 3) == 100 && Eval([7, 100], 3) == 307;
  }

  /** The secret that Lagrange interpolation at 0 assigns to a list of points. */
  function JoinedSecret(xs: seq<int>, ys: seq<int>): int
    requires |xs| == |ys|
  {
    Lagrange(xs, ys, |xs|, 0) % PRIME
  }

  lemma SmallProduct(a: int, b: int, m: int, n: int)
    requires -m <= a <= m && -n <= b <= n
    ensures -(m * n) <= a * b <= m * n
  {
    ProductNonNegative(m - a, n + b);
    ProductNonNegative(m + a, n - b);
    ProductNonNegative(m - a, n - b);
    ProductNonNegative(m + a, n + b);
    assert (m - a) * (n + b) + (m + a) * (n - b) == 2 * (m * n) - 2 * (a * b);
    assert (m - a) * (n - b) + (m + a) * (n + b) == 2 * (m * n) + 2 * (a * b);
  }

  /** C's `(y + PRIME) % PRIME` turns a value in -256..256 into the canonical element. */
  lemma Canonicalise(y: int, v: int)
    requires -PRIME < y < PRIME && Cong(y, v)
    ensures CRem(y + PRIME, PRIME) == v % PRIME
  {
  }

  lemma PrefixSnoc(c: Poly, i: nat, x: int)
    requires i < |c|
    ensures Eval(c[..i + 1], x) == Eval(c[..i], x) + c[i] * Pow(x, i)
  {
    assert c[..i + 1] == c[..i] + [c[i]];
    EvalSnoc(c[..i], c[i], x);
  }

  /** One pass of the inner loop of `split_number` adds one term of the polynomial. */
  lemma TermAdded(y: int, v: int, c: int, temp: int, p: int)
    requires Cong(y, v) && Cong(temp, p)
    ensures Cong(CRem(y + CRem(c * temp, PRIME), PRIME), v + c * p)
  {
    hide Cong, CRem, CDiv;
    var r := CRem(c * temp, PRIME);
    RemCong(c * temp);
    CongScale(c, temp, p);
    CongTrans(r, c * temp, c * p);
    CongAdd(y, v, r, c * p);
    RemCong(y + r);
    CongTrans(CRem(y + r, PRIME), y + r, v + c * p);
  }

  lemma FirstTerm(c: Poly, x: int)
    requires c != []
    ensures Eval(c[..1], x) == c[0]
  {
    assert c[..1] == [c[0]];
  }

  /** The share of one `x`: the loop of `split_number` over the coefficients. */
  method ShareOf(coef: array<int32>, t: int32, x: int32) returns (y: int32)
    requires 1 <= t && coef.Length == t as int && 0 <= x < 0x7F_FFFF
    requires -PRIME32 < coef[0] < PRIME32
    requires forall i :: 1 <= i < coef.Length ==> 0 <= coef[i] < PRIME32
    ensures y as int == ShareAt(Ints(coef[..]), x as int + 1)
  {
    hide Cong, Eval, Pow, ModExp, CRem;
    ghost var c := Ints(coef[..]);
    y := coef[0];
    FirstTerm(c, x as int + 1);
    CongRefl(c[0]);
    var i: int32 := 1;
    while i < t
      invariant 1 <= i <= t
      invariant -PRIME32 < y < PRIME32
      invariant Cong(y as int, Eval(c[..i], x as int + 1))
    {
      ModExpRange(x as int + 1, i as int);
      ModExpCorrect(x as int + 1, i as int);
      var temp := ModExp(x as int + 1, i as int, PRIME) as int32;
      SmallProduct(coef[i] as int, temp as int, 256, 256);
      PrefixSnoc(c, i as int, x as int + 1);
      TermAdded(y as int, Eval(c[..i], x as int + 1), c[i], temp as int, Pow(x as int + 1, i as int));
      y := Rem32(y + Rem32(coef[i] * temp, PRIME32), PRIME32);
      i := i + 1;
    }
    assert c[..i] == c;
    Canonicalise(y as int, Eval(c, x as int + 1));
    y := Rem32(y + PRIME32, PRIME32);
  }

  /** `split_number`: `random` is what the calls of `rand()` return. */
  method SplitNumber(number: int32, n: int32, t: int32, random: seq<int32>) returns (shares: array<int32>)
    requires -PRIME32 < number < PRIME32 && 0 <= n <= 0x7F_FFFF && 1 <= t
    requires |random| == t as int - 1 && forall r :: r in random ==> r >= 0
    ensures fresh(shares) && shares.Length == n as int
    ensures forall x :: 0 <= x < shares.Length ==>
      shares[x] as int == ShareAt(Drawn(number, random), x + 1)
    ensures forall x :: 0 <= x < shares.Length ==>
      shares[x] as int == Terms257(number as int, random, x + 1, |random|) % 257
  {
    forall x: int ensures ShareAt(Drawn(number, random), x) == Terms257(number as int, random, x, |random|) % 257 {
      ShareIs(number, random, x);
    }
    shares := new int32[n];
    var coef := new int32[t];
    coef[0] := number;
    var i: int32 := 1;
    while i < t
      invariant 1 <= i <= t
      invariant coef[0] == number
      invariant forall k :: 1 <= k < i as int ==> coef[k] as int == Drawn(number, random)[k]
    {
      assert random[i - 1] in random;
      RemNonNegative(random[i - 1] as int);
      coef[i] := Rem32(random[i - 1], PRIME32);
      i := i + 1;
    }
    ghost var c := Ints(coef[..]);
    assert c == Drawn(number, random);
    var x: int32 := 0;
    while x < n
      invariant 0 <= x <= n
      invariant Ints(coef[..]) == c
      invariant forall k :: 0 <= k < coef.Length ==> coef[k] as int == c[k]
      invariant forall k :: 0 <= k < x as int ==> shares[k] as int == ShareAt(c, k + 1)
    {
      var y := ShareOf(coef, t, x);
      shares[x] := y;
      x := x + 1;
    }
  }

  // ----- joining -----

  function Xs(pairs: seq<int32>, n: nat): (xs: seq<int>)
    requires 2 * n <= |pairs|
    ensures |xs| == n && forall i :: 0 <= i < n ==> xs[i] == pairs[2 * i] as int
  {
    seq(n, i requires 0 <= i < n => pairs[2 * i] as int)
  }

  function Ys(pairs: seq<int32>, n: nat): (ys: seq<int>)
    requires 2 * n <= |pairs|
    ensures |ys| == n && forall i :: 0 <= i < n ==> ys[i] == pairs[2 * i + 1] as int
  {
    seq(n, i requires 0 <= i < n => pairs[2 * i + 1] as int)
  }

  /** One factor more in a product that is kept reduced. */
  lemma FactorMultiplied(num: int, p: int, f: int)
    requires Cong(num, p)
    ensures Cong(CRem(num * f, PRIME), p * f)
  {
    hide Cong, CRem, CDiv;
    RemCong(num * f);
    CongScale(f, num, p);
    CongTrans(CRem(num * f, PRIME), num * f, p * f);
  }

  lemma InverseCancels(a: int, i: int, j: int)
    requires Cong(a * i, 1)
    ensures Cong(a * (i * j), j)
  {
    hide Cong;
    CongScale(j, a * i, 1);
    assert (a * i) * j == a * (i * j);
  }

  lemma InversesAgree(a: int, b: int, i: int, j: int)
    requires Cong(a, b) && Cong(a * i, 1) && Cong(b * j, 1)
    ensures Cong(i, j)
  {
    hide *;
    InverseCancels(a, i, j);
    InverseCancels(b, j, i);
    assert i * j == j * i;
    CongScale(i * j, a, b);
    Meet(a * (i * j), b * (i * j), i, j);
  }

  lemma Meet(p: int, q: int, i: int, j: int)
    requires Cong(p, q) && Cong(p, j) && Cong(q, i)
    ensures Cong(i, j)
  {
  }

  /** The inverse depends on the residue class only. */
  lemma ModInverseRespects(a: int, b: int)
    requires Cong(a, b)
    ensures ModInverse(a) == ModInverse(b)
  {
    ModInverseCorrect(a);
    ModInverseCorrect(b);
    hide ModInverse;
    assert Cong(a, 0) <==> Cong(b, 0);
    if !Cong(a, 0) {
      hide Cong;
      InversesAgree(a, b, ModInverse(a), ModInverse(b));
      CanonicalUnique(ModInverse(a), ModInverse(b));
    }
  }

  /** One pass of the outer loop of `join_shares` adds one term of Lagrange's formula. */
  lemma ShareAdded(secret: int, v: int, y: int, num: int, p: int, w: int)
    requires Cong(secret, v) && Cong(num, p)
    ensures Cong(CRem(secret + y * num * w, PRIME), v + y * p * w)
  {
    hide Cong, CRem, CDiv;
    CongScale(y, num, p);
    CongScale(w, y * num, y * p);
    CongAdd(secret, v, y * num * w, y * p * w);
    RemCong(secret + y * num * w);
    CongTrans(CRem(secret + y * num * w, PRIME), secret + y * num * w, v + y * p * w);
  }

  lemma InverseRange(k: int)
    ensures 0 <= ModInverse(k) < PRIME
  {
    ModInverseCorrect(k);
  }

  lemma TermRange(value: int, num: int, inverse: int)
    requires -256 <= value <= 256 && -PRIME < num < PRIME && 0 <= inverse < PRIME
    ensures -65536 <= value * num <= 65536
    ensures -0x100_0000 <= value * num * inverse <= 0x100_0000
  {
    SmallProduct(value, num, 256, 256);
    SmallProduct(value * num, inverse, 65536, 256);
  }

  /** `join_shares`: no intermediate value leaves 32 bits, and the result is Lagrange's formula
      at 0, reduced to 0..256. */
  method JoinShares(xyPairs: array<int32>, n: int32) returns (secret: int32)
    requires 0 <= n <= 0x3FFF_FFFF && 2 * n as int <= xyPairs.Length
    requires forall k :: 0 <= k < 2 * n as int ==> -256 <= xyPairs[k] <= 256
    ensures secret as int == JoinedSecret(Xs(xyPairs[..], n as int), Ys(xyPairs[..], n as int))
  {
    hide Cong, ModInverse, CRem, Product;
    ghost var xs, ys := Xs(xyPairs[..], n as int), Ys(xyPairs[..], n as int);
    secret := 0;
    CongRefl(0);
    var i: int32 := 0;
    while i < n
      invariant 0 <= i <= n
      invariant -PRIME32 < secret < PRIME32
      invariant Cong(secret as int, Lagrange(xs, ys, i as int, 0))
    {
      var numerator, denominator := Terms(xyPairs, n, i);
      var value := xyPairs[i * 2 + 1];
      ModInverseRespects(denominator as int, Product(xs, i as int, n as int, xs[i]));
      InverseRange(denominator as int);
      var inverse := ModInverse(denominator as int) as int32;
      TermRange(value as int, numerator as int, inverse as int);
      ShareAdded(secret as int, Lagrange(xs, ys, i as int, 0), value as int, numerator as int,
                 Product(xs, i as int, n as int, 0), inverse as int);
      secret := Rem32(secret + value * numerator * inverse, PRIME32);
      i := i + 1;
    }
    Canonicalise(secret as int, Lagrange(xs, ys, n as int, 0));
    secret := Rem32(secret + PRIME32, PRIME32);
  }

  /** The inner loop of `join_shares`. */
  method Terms(xyPairs: array<int32>, n: int32, i: int32) returns (numerator: int32, denominator: int32)
    requires 0 <= i < n <= 0x3FFF_FFFF && 2 * n as int <= xyPairs.Length
    requires forall k :: 0 <= k < 2 * n as int ==> -256 <= xyPairs[k] <= 256
    ensures -PRIME32 < numerator < PRIME32 && -PRIME32 < denominator < PRIME32
    ensures var xs := Xs(xyPairs[..], n as int);
      && Cong(numerator as int, Product(xs, i as int, n as int, 0))
      && Cong(denominator as int, Product(xs, i as int, n as int, xs[i]))
  {
    ghost var xs := Xs(xyPairs[..], n as int);
    numerator, denominator := 1, 1;
    var j: int32 := 0;
    while j < n
      invariant 0 <= j <= n
      invariant -PRIME32 < numerator < PRIME32 && -PRIME32 < denominator < PRIME32
      invariant Cong(numerator as int, Product(xs, i as int, j as int, 0))
      invariant Cong(denominator as int, Product(xs, i as int, j as int, xs[i]))
    {
      if i != j {
        var startposition := xyPairs[i * 2];
        var nextposition := xyPairs[j * 2];
        SmallProduct(numerator as int, -nextposition as int, 256, 256);
        SmallProduct(denominator as int, (startposition - nextposition) as int, 256, 512);
        FactorMultiplied(numerator as int, Product(xs, i as int, j as int, 0), 0 - xs[j]);
        FactorMultiplied(denominator as int, Product(xs, i as int, j as int, xs[i]), xs[i] - xs[j]);
        numerator := Rem32(numerator * -nextposition, PRIME32);
        denominator := Rem32(denominator * (startposition - nextposition), PRIME32);
      }
      j := j + 1;
    }
  }

  // ----- the threshold property -----

  lemma ShareCong(coefs: Poly, x: int)
    ensures Cong(Eval(coefs, x), ShareAt(coefs, x))
  {
  }

  lemma EvalAtZero(c: Poly)
    requires c != []
    ensures Eval(c, 0) == c[0]
  {
  }

  lemma CanonicalOf(v: int, s: int)
    requires Cong(v, s) && 0 <= s < PRIME
    ensures v % PRIME == s
  {
  }

  /** Any list of at least t shares with distinct x, in any order, joins to the secret. */
  lemma SharesRecoverSecret(coefs: Poly, xs: seq<int>, ys: seq<int>)
    requires 1 <= |coefs| <= |xs| == |ys| && Distinct(xs) && 0 <= coefs[0] < PRIME
    requires forall i :: 0 <= i < |xs| ==> ys[i] == ShareAt(coefs, xs[i])
    ensures JoinedSecret(xs, ys) == coefs[0]
  {
    hide Eval, Lagrange, Cong, Distinct, ShareAt;
    forall i | 0 <= i < |xs| ensures Cong(Eval(coefs, xs[i]), ys[i]) {
      ShareCong(coefs, xs[i]);
    }
    LagrangeRecovers(coefs, xs, ys, 0);
    EvalAtZero(coefs);
    CanonicalOf(Lagrange(xs, ys, |xs|, 0), coefs[0]);
  }

  /** Different share numbers in 1..256 are different field elements. */
  lemma SmallDistinct(xs: seq<int>)
    requires forall i :: 0 <= i < |xs| ==> 0 <= xs[i] < PRIME
    requires forall i, j :: 0 <= i < j < |xs| ==> xs[i] != xs[j]
    ensures Distinct(xs)
  {
  }

  ghost predicate Canonical(c: Poly) {
    forall i :: 0 <= i < |c| ==> 0 <= c[i] < PRIME
  }

  /** `coefs` is a polynomial `split_number` may draw for the secret that yields the given shares. */
  ghost predicate Explains(coefs: Poly, secret: int, xs: seq<int>, ys: seq<int>) {
    && coefs != [] && Canonical(coefs) && coefs[0] == secret
    && |xs| == |ys| && forall i :: 0 <= i < |xs| ==> ShareAt(coefs, xs[i]) == ys[i]
  }

  function Reduce(c: Poly): (r: Poly)
    ensures |r| == |c| && Canonical(r)
  {
    if c == [] then [] else [c[0] % PRIME] + Reduce(c[1..])
  }

  lemma {:induction false} EvalReduce(c: Poly, x: int)
    ensures Cong(Eval(Reduce(c), x), Eval(c, x))
  {
    hide Cong;
    if c == [] {
      CongRefl(0);
    } else {
      EvalReduce(c[1..], x);
      assert Reduce(c)[1..] == Reduce(c[1..]);
      CongScale(x, Eval(Reduce(c[1..]), x), Eval(c[1..], x));
      RemainderCong(c[0]);
      CongAdd(c[0] % PRIME, c[0], x * Eval(Reduce(c[1..]), x), x * Eval(c[1..], x));
    }
  }

  lemma RemainderCong(a: int)
    ensures Cong(a % PRIME, a)
  {
  }

  /** The point (0, secret) together with the given points. */
  lemma WithSecretPoint(xs: seq<int>)
    requires forall i :: 0 <= i < |xs| ==> 0 < xs[i] < PRIME
    requires forall i, j :: 0 <= i < j < |xs| ==> xs[i] != xs[j]
    ensures Distinct([0] + xs)
  {
    SmallDistinct([0] + xs);
  }

  lemma InterpolantThrough(xs: seq<int>, ys: seq<int>, i: nat)
    requires Distinct(xs) && |xs| == |ys| && i < |xs| && 0 <= ys[i] < PRIME
    ensures ShareAt(Reduce(Interpolant(xs, ys, |xs|)), xs[i]) == ys[i]
  {
    hide Cong, Eval, Reduce, Interpolant, Distinct;
    var c := Interpolant(xs, ys, |xs|);
    EvalReduce(c, xs[i]);
    EvalInterpolant(xs, ys, |xs|, xs[i]);
    LagrangeAtNode(xs, ys, |xs|, i);
    CongTrans(Eval(Reduce(c), xs[i]), Eval(c, xs[i]), ys[i]);
    CanonicalOf(Eval(Reduce(c), xs[i]), ys[i]);
  }

  /** t - 1 shares are consistent with every secret ... */
  lemma ExplanationExists(secret: int, xs: seq<int>, ys: seq<int>) returns (coefs: Poly)
    requires 0 <= secret < PRIME && |xs| == |ys|
    requires forall i :: 0 <= i < |xs| ==> 0 < xs[i] < PRIME && 0 <= ys[i] < PRIME
    requires forall i, j :: 0 <= i < j < |xs| ==> xs[i] != xs[j]
    ensures |coefs| == |xs| + 1 && Explains(coefs, secret, xs, ys)
  {
    hide Interpolant, Eval, Distinct, ShareAt, Reduce;
    var xs', ys' := [0] + xs, [secret] + ys;
    WithSecretPoint(xs);
    coefs := Reduce(Interpolant(xs', ys', |xs'|));
    forall i | 0 <= i < |xs'| ensures ShareAt(coefs, xs'[i]) == ys'[i] {
      InterpolantThrough(xs', ys', i);
    }
    ShareAtZero(coefs);
    assert ShareAt(coefs, xs'[0]) == ys'[0];
    forall i | 0 <= i < |xs| ensures ShareAt(coefs, xs[i]) == ys[i] {
      assert xs'[i + 1] == xs[i] && ys'[i + 1] == ys[i];
    }
  }

  lemma ShareAtZero(c: Poly)
    requires c != [] && Canonical(c)
    ensures ShareAt(c, 0) == c[0]
  {
    hide Eval;
    EvalAtZero(c);
  }

  lemma SameShareVanishes(c: Poly, d: Poly, x: int)
    requires ShareAt(c, x) == ShareAt(d, x)
    ensures Cong(Eval(Add(c, Scale(-1, d)), x), 0)
  {
    hide Cong, Eval, Add, Scale;
    SameRemainder(Eval(c, x), Eval(d, x));
    EvalAdd(c, Scale(-1, d), x);
    EvalScale(-1, d, x);
  }

  lemma SameRemainder(a: int, b: int)
    ensures a % PRIME == b % PRIME ==> Cong(a + -1 * b, 0)
  {
  }

  lemma {:induction false} ZeroSumCoefficients(c: Poly, d: Poly)
    requires |c| == |d| && Canonical(c) && Canonical(d) && AllZero(Add(c, Scale(-1, d)))
    ensures c == d
  {
    if c != [] {
      var s := Add(c, Scale(-1, d));
      assert Scale(-1, d)[1..] == Scale(-1, d[1..]);
      assert s[1..] == Add(c[1..], Scale(-1, d[1..]));
      assert s[0] == c[0] - d[0];
      forall i | 0 <= i < |s| - 1 ensures Cong(s[1..][i], 0) {
        assert s[1..][i] == s[i + 1];
      }
      ZeroSumCoefficients(c[1..], d[1..]);
      assert c == [c[0]] + c[1..] && d == [d[0]] + d[1..];
    }
  }

  /** ... and each candidate secret is explained by exactly one polynomial, so all secrets are
      equally likely for whoever holds t - 1 shares. */
  lemma ExplanationUnique(c: Poly, d: Poly, secret: int, xs: seq<int>, ys: seq<int>)
    requires |c| == |d| == |xs| + 1
    requires Explains(c, secret, xs, ys) && Explains(d, secret, xs, ys)
    requires forall i :: 0 <= i < |xs| ==> 0 < xs[i] < PRIME
    requires forall i, j :: 0 <= i < j < |xs| ==> xs[i] != xs[j]
    ensures c == d
  {
    var xs' := [0] + xs;
    var s := Add(c, Scale(-1, d));
    WithSecretPoint(xs);
    forall i | 0 <= i < |xs'| ensures Cong(Eval(s, xs'[i]), 0) {
      if i == 0 {
        EvalAtZero(c);
        EvalAtZero(d);
      }
      SameShareVanishes(c, d, xs'[i]);
    }
    ManyRoots(s, xs');
    ZeroSumCoefficients(c, d);
  }

  /** The threshold is exact: any t - 1 shares and any candidate secret fix one polynomial. */
  lemma ThresholdExact(secret: int, xs: seq<int>, ys: seq<int>)
    requires 0 <= secret < PRIME && |xs| == |ys|
    requires forall i :: 0 <= i < |xs| ==> 0 < xs[i] < PRIME && 0 <= ys[i] < PRIME
    requires forall i, j :: 0 <= i < j < |xs| ==> xs[i] != xs[j]
    ensures exists c: Poly ::
      && |c| == |xs| + 1 && Explains(c, secret, xs, ys)
      && (forall d: Poly :: |d| == |xs| + 1 && Explains(d, secret, xs, ys) ==> d == c)
  {
    var c := ExplanationExists(secret, xs, ys);
    forall d: Poly | |d| == |xs| + 1 && Explains(d, secret, xs, ys) ensures d == c {
      ExplanationUnique(d, c, secret, xs, ys);
    }
  }
}
