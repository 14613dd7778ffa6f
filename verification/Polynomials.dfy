/** Polynomials over the integers, lowest coefficient first, and the facts about their values
    modulo 257 that secret sharing rests on: a polynomial with as many roots as coefficients
    vanishes, and Lagrange's polynomial passes through its points. */
module Polynomials {
  import opened Field257

  type Poly = seq<int>

  function Eval(c: Poly, x: int): int {
    if c == [] then 0 else c[0] + x * Eval(c[1..], x)
  }

  ghost predicate AllZero(c: Poly) {
    forall i :: 0 <= i < |c| ==> Cong(c[i], 0)
  }

  /** Nodes that are different elements of the field. */
  ghost predicate Distinct(xs: seq<int>) {
    forall i, j :: 0 <= i < j < |xs| ==> !Cong(xs[i], xs[j])
  }

  ghost predicate VanishesOn(c: Poly, xs: seq<int>) {
    forall i :: 0 <= i < |xs| ==> Cong(Eval(c, xs[i]), 0)
  }

  // ----- appending a coefficient -----

  lemma {:induction false} EvalSnoc(c: Poly, d: int, x: int)
    ensures Eval(c + [d], x) == Eval(c, x) + d * Pow(x, |c|)
  {
    if c == [] {
      assert (c + [d])[1..] == [];
    } else {
      assert (c + [d])[1..] == c[1..] + [d];
      EvalSnoc(c[1..], d, x);
      DistributeShift(c[0], x, Eval(c[1..], x), d, Pow(x, |c| - 1));
    }
  }

  lemma DistributeShift(c: int, x: int, e: int, d: int, p: int)
    ensures c + x * (e + d * p) == c + x * e + d * (x * p)
  {
  }

  // ----- division by a linear factor, and roots -----

  function Quotient(c: Poly, a: int): (q: Poly)
    ensures |q| == if |c| == 0 then 0 else |c| - 1
  {
    if |c| <= 1 then [] else [Eval(c[1..], a)] + Quotient(c[1..], a)
  }

  lemma {:induction false} Division(c: Poly, a: int, x: int)
    ensures Eval(c, x) == Eval(Quotient(c, a), x) * (x - a) + Eval(c, a)
  {
    if |c| == 1 {
      assert c[1..] == [];
    } else if |c| > 1 {
      var c', q := c[1..], Quotient(c, a);
      Division(c', a, x);
      assert q[1..] == Quotient(c', a);
      DivisionStep(c[0], Eval(c', x), Eval(c', a), Eval(q[1..], x), x, a);
    }
  }

  lemma DivisionStep(c: int, ex: int, ea: int, q: int, x: int, a: int)
    requires ex == q * (x - a) + ea
    ensures c + x * ex == (ea + x * q) * (x - a) + (c + a * ea)
  {
    assert x * ex == x * (q * (x - a)) + x * ea;
    assert (ea + x * q) * (x - a) == ea * x - ea * a + x * (q * (x - a));
  }

  lemma {:induction false} ZeroQuotient(c: Poly, a: int)
    requires AllZero(Quotient(c, a)) && Cong(Eval(c, a), 0)
    ensures AllZero(c)
  {
    if |c| == 1 {
      assert c[1..] == [];
    } else if |c| > 1 {
      var q, e := Quotient(c, a), Eval(c[1..], a);
      assert q[0] == e && q[1..] == Quotient(c[1..], a);
      forall i | 0 <= i < |q| - 1 ensures Cong(q[1..][i], 0) {
        assert q[1..][i] == q[i + 1];
      }
      ZeroQuotient(c[1..], a);
      CongScale(a, e, 0);
      CongAdd(c[0] + a * e, 0, a * e, 0);
      forall i | 0 <= i < |c| ensures Cong(c[i], 0) {
        if i > 0 {
          assert c[i] == c[1..][i - 1];
        }
      }
    }
  }

  lemma RootOfQuotient(c: Poly, a: int, b: int)
    requires Cong(Eval(c, a), 0) && Cong(Eval(c, b), 0) && !Cong(a, b)
    ensures Cong(Eval(Quotient(c, a), b), 0)
  {
    hide Eval, Quotient;
    var e := Eval(Quotient(c, a), b);
    Division(c, a, b);
    CongAdd(Eval(c, b), 0, Eval(c, a), 0);
    assert (b - a) * e == Eval(c, b) - Eval(c, a);
    NonZeroDifference(a, b);
    CancelNonZero(b - a, e);
  }

  lemma NonZeroDifference(a: int, b: int)
    requires !Cong(a, b)
    ensures !Cong(b - a, 0)
  {
  }

  /** A polynomial with at least as many roots as coefficients is zero in GF(257). */
  lemma {:induction false} ManyRoots(c: Poly, xs: seq<int>)
    requires |c| <= |xs| && Distinct(xs) && VanishesOn(c, xs)
    ensures AllZero(c)
    decreases |c|
  {
    if c != [] {
      var a, rest := xs[0], xs[1..];
      var q := Quotient(c, a);
      forall i | 0 <= i < |rest| ensures Cong(Eval(q, rest[i]), 0) {
        assert rest[i] == xs[i + 1] && !Cong(a, xs[i + 1]);
        RootOfQuotient(c, a, xs[i + 1]);
      }
      DistinctTail(xs);
      ManyRoots(q, rest);
      ZeroQuotient(c, a);
    }
  }

  lemma DistinctTail(xs: seq<int>)
    requires Distinct(xs) && xs != []
    ensures Distinct(xs[1..])
  {
    hide Cong;
  }

  lemma {:induction false} EvalOfZero(c: Poly, x: int)
    requires AllZero(c)
    ensures Cong(Eval(c, x), 0)
  {
    if c != [] {
      forall i | 0 <= i < |c| - 1 ensures Cong(c[1..][i], 0) {
        assert c[1..][i] == c[i + 1];
      }
      EvalOfZero(c[1..], x);
      CongScale(x, Eval(c[1..], x), 0);
      CongAdd(c[0], 0, x * Eval(c[1..], x), 0);
    }
  }

  // ----- sums and products -----

  function Add(p: Poly, q: Poly): (r: Poly)
    ensures |r| == if |p| < |q| then |q| else |p|
  {
    if p == [] then q else if q == [] then p else [p[0] + q[0]] + Add(p[1..], q[1..])
  }

  lemma {:induction false} EvalAdd(p: Poly, q: Poly, x: int)
    ensures Eval(Add(p, q), x) == Eval(p, x) + Eval(q, x)
  {
    if p != [] && q != [] {
      EvalAdd(p[1..], q[1..], x);
      assert Add(p, q)[1..] == Add(p[1..], q[1..]);
      DistributeShift(p[0] + q[0], x, Eval(p[1..], x), 1, Eval(q[1..], x));
    }
  }

  function Scale(k: int, p: Poly): (r: Poly)
    ensures |r| == |p|
    ensures forall i :: 0 <= i < |p| ==> r[i] == k * p[i]
  {
    if p == [] then [] else [k * p[0]] + Scale(k, p[1..])
  }

  lemma {:induction false} EvalScale(k: int, p: Poly, x: int)
    ensures Eval(Scale(k, p), x) == k * Eval(p, x)
  {
    if p != [] {
      EvalScale(k, p[1..], x);
      assert Scale(k, p)[1..] == Scale(k, p[1..]);
      ScaleStep(k, p[0], x, Eval(p[1..], x));
    }
  }

  lemma ScaleStep(k: int, c: int, x: int, e: int)
    ensures k * c + x * (k * e) == k * (c + x * e)
  {
  }

  /** The coefficients of `p(x) * (x - a)`. */
  function TimesLinear(p: Poly, a: int): (r: Poly)
    ensures |r| == |p| + 1
  {
    Add([0] + p, Scale(-a, p))
  }

  lemma EvalTimesLinear(p: Poly, a: int, x: int)
    ensures Eval(TimesLinear(p, a), x) == Eval(p, x) * (x - a)
  {
    EvalAdd([0] + p, Scale(-a, p), x);
    EvalScale(-a, p, x);
    assert ([0] + p)[1..] == p;
  }

  // ----- Lagrange's polynomial -----

  /** The product of `x - xs[j]` over `j < k`, skipping `j == i`. */
  function Product(xs: seq<int>, i: nat, k: nat, x: int): int
    requires k <= |xs|
  {
    if k == 0 then 1
    else if k - 1 == i then Product(xs, i, k - 1, x)
    else Product(xs, i, k - 1, x) * (x - xs[k - 1])
  }

  function Basis(xs: seq<int>, i: nat, k: nat): (r: Poly)
    requires k <= |xs|
    ensures |r| == if i < k then k else k + 1
  {
    if k == 0 then [1]
    else if k - 1 == i then Basis(xs, i, k - 1)
    else TimesLinear(Basis(xs, i, k - 1), xs[k - 1])
  }

  lemma {:induction false} EvalBasis(xs: seq<int>, i: nat, k: nat, x: int)
    requires k <= |xs|
    ensures Eval(Basis(xs, i, k), x) == Product(xs, i, k, x)
  {
    if k > 0 {
      EvalBasis(xs, i, k - 1, x);
      if k - 1 != i {
        EvalTimesLinear(Basis(xs, i, k - 1), xs[k - 1], x);
      }
    }
  }

  /** Another node is a root of the i-th product. */
  lemma {:induction false} ProductRoot(xs: seq<int>, i: nat, k: nat, j: nat)
    requires j < k <= |xs| && j != i
    ensures Product(xs, i, k, xs[j]) == 0
  {
    if k - 1 == j {
    } else if k - 1 == i {
      ProductRoot(xs, i, k - 1, j);
    } else {
      ProductRoot(xs, i, k - 1, j);
    }
  }

  lemma DistinctDifference(xs: seq<int>, i: nat, j: nat)
    requires Distinct(xs) && i < |xs| && j < |xs| && i != j
    ensures !Cong(xs[i] - xs[j], 0)
  {
    if i < j {
      assert !Cong(xs[i], xs[j]);
    } else {
      assert !Cong(xs[j], xs[i]);
    }
  }

  lemma NonZeroProduct(a: int, b: int)
    requires !Cong(a, 0) && !Cong(b, 0)
    ensures !Cong(a * b, 0)
  {
    hide *;
    if Cong(a * b, 0) {
      CancelNonZero(a, b);
    }
  }

  /** The i-th product does not vanish at its own node. */
  lemma {:induction false} ProductNonZero(xs: seq<int>, i: nat, k: nat)
    requires k <= |xs| && i < |xs| && Distinct(xs)
    ensures !Cong(Product(xs, i, k, xs[i]), 0)
  {
    if k > 0 {
      ProductNonZero(xs, i, k - 1);
      if k - 1 != i {
        DistinctDifference(xs, i, k - 1);
        NonZeroProduct(Product(xs, i, k - 1, xs[i]), xs[i] - xs[k - 1]);
      }
    }
  }

  function Weight(xs: seq<int>, i: nat): int
    requires i < |xs|
  {
    ModInverse(Product(xs, i, |xs|, xs[i]))
  }

  /** Lagrange's formula through the first `k` points, evaluated at `x`. */
  function Lagrange(xs: seq<int>, ys: seq<int>, k: nat, x: int): int
    requires k <= |xs| == |ys|
  {
    if k == 0 then 0
    else Lagrange(xs, ys, k - 1, x) + ys[k - 1] * Product(xs, k - 1, |xs|, x) * Weight(xs, k - 1)
  }

  /** The same formula as a list of coefficients. */
  function Interpolant(xs: seq<int>, ys: seq<int>, k: nat): (r: Poly)
    requires k <= |xs| == |ys|
    ensures |r| == if k == 0 then 0 else |xs|
  {
    if k == 0 then []
    else Add(Interpolant(xs, ys, k - 1), Scale(ys[k - 1] * Weight(xs, k - 1), Basis(xs, k - 1, |xs|)))
  }

  lemma {:induction false} EvalInterpolant(xs: seq<int>, ys: seq<int>, k: nat, x: int)
    requires k <= |xs| == |ys|
    ensures Eval(Interpolant(xs, ys, k), x) == Lagrange(xs, ys, k, x)
  {
    if k > 0 {
      var i, m := k - 1, ys[k - 1] * Weight(xs, k - 1);
      EvalInterpolant(xs, ys, i, x);
      EvalAdd(Interpolant(xs, ys, i), Scale(m, Basis(xs, i, |xs|)), x);
      EvalScale(m, Basis(xs, i, |xs|), x);
      EvalBasis(xs, i, |xs|, x);
      SwapFactors(ys[i], Weight(xs, i), Product(xs, i, |xs|, x));
    }
  }

  lemma SwapFactors(y: int, w: int, p: int)
    ensures (y * w) * p == y * p * w
  {
  }

  /** At a node, only the term of that node survives, and it is the node's value. */
  lemma {:induction false} LagrangeAtNode(xs: seq<int>, ys: seq<int>, k: nat, j: nat)
    requires k <= |xs| == |ys| && j < |xs| && Distinct(xs)
    ensures Cong(Lagrange(xs, ys, k, xs[j]), if j < k then ys[j] else 0)
  {
    if k > 0 {
      var i := k - 1;
      LagrangeAtNode(xs, ys, i, j);
      TermAtNode(xs, ys, i, j);
      CongAdd(Lagrange(xs, ys, i, xs[j]), if j < i then ys[j] else 0,
              ys[i] * Product(xs, i, |xs|, xs[j]) * Weight(xs, i), if j == i then ys[i] else 0);
    }
  }

  lemma TermAtNode(xs: seq<int>, ys: seq<int>, i: nat, j: nat)
    requires i < |xs| == |ys| && j < |xs| && Distinct(xs)
    ensures Cong(ys[i] * Product(xs, i, |xs|, xs[j]) * Weight(xs, i), if j == i then ys[i] else 0)
  {
    hide *;
    var p := Product(xs, i, |xs|, xs[j]);
    if i == j {
      ProductNonZero(xs, i, |xs|);
      WeightInverts(xs, i);
      CongScale(ys[i], p * Weight(xs, i), 1);
      Regroup(ys[i], p, Weight(xs, i));
    } else {
      ProductRoot(xs, i, |xs|, j);
      assert ys[i] * p * Weight(xs, i) == 0;
      CongRefl(0);
    }
  }

  lemma WeightInverts(xs: seq<int>, i: nat)
    requires i < |xs| && Distinct(xs)
    ensures Cong(Product(xs, i, |xs|, xs[i]) * Weight(xs, i), 1)
  {
    ProductNonZero(xs, i, |xs|);
    ModInverseCorrect(Product(xs, i, |xs|, xs[i]));
  }

  lemma DifferenceVanishes(c: Poly, xs: seq<int>, ys: seq<int>, i: nat)
    requires |xs| == |ys| && Distinct(xs) && i < |xs|
    requires Cong(Eval(c, xs[i]), ys[i])
    ensures Cong(Eval(Add(Interpolant(xs, ys, |xs|), Scale(-1, c)), xs[i]), 0)
  {
    hide Eval, Add, Scale, Interpolant, Lagrange, Distinct;
    var p := Interpolant(xs, ys, |xs|);
    EvalAdd(p, Scale(-1, c), xs[i]);
    EvalScale(-1, c, xs[i]);
    EvalInterpolant(xs, ys, |xs|, xs[i]);
    LagrangeAtNode(xs, ys, |xs|, i);
    CongAdd(Eval(p, xs[i]), ys[i], Eval(c, xs[i]), ys[i]);
  }

  /** A polynomial that passes through the points is the interpolant, coefficient by
      coefficient. */
  lemma DifferenceIsZero(c: Poly, xs: seq<int>, ys: seq<int>)
    requires |c| <= |xs| == |ys| && Distinct(xs)
    requires forall i :: 0 <= i < |xs| ==> Cong(Eval(c, xs[i]), ys[i])
    ensures AllZero(Add(Interpolant(xs, ys, |xs|), Scale(-1, c)))
  {
    hide Cong, Eval;
    var d := Add(Interpolant(xs, ys, |xs|), Scale(-1, c));
    forall i | 0 <= i < |xs| ensures Cong(Eval(d, xs[i]), 0) {
      DifferenceVanishes(c, xs, ys, i);
    }
    ManyRoots(d, xs);
  }

  /** Lagrange interpolation: through at least as many distinct points as it has coefficients,
      a polynomial is determined everywhere. */
  lemma LagrangeRecovers(c: Poly, xs: seq<int>, ys: seq<int>, x: int)
    requires |c| <= |xs| == |ys| && Distinct(xs)
    requires forall i :: 0 <= i < |xs| ==> Cong(Eval(c, xs[i]), ys[i])
    ensures Cong(Lagrange(xs, ys, |xs|, x), Eval(c, x))
  {
    hide *;
    var p := Interpolant(xs, ys, |xs|);
    DifferenceIsZero(c, xs, ys);
    EvalOfZero(Add(p, Scale(-1, c)), x);
    EvalAdd(p, Scale(-1, c), x);
    EvalScale(-1, c, x);
    EvalInterpolant(xs, ys, |xs|, x);
    ZeroDifference(Eval(p, x), Eval(c, x));
  }

  lemma ZeroDifference(a: int, b: int)
    requires Cong(a + -1 * b, 0)
    ensures Cong(a, b)
  {
  }
}
