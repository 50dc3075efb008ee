/** Lagrange interpolation at zero, the arithmetic behind `interpolate_one`
    and `recover` (src/simple.rs:169-195).

    For pairwise-distinct points `x_0, ..., x_{t-1}` the coefficient of the
    i-th point is `lambda_i = prod_{j != i} x_j * (x_j - x_i)^{-1}`, and the
    main theorem says that `sum_i p(x_i) * lambda_i = p(0)` for every
    polynomial `p` with at most `t` coefficients.
 */
module Lagrange {
  import F = Field
  import P = Polynomial

  predicate Distinct(xs: seq<F.Scalar>)
  {
    forall i, j :: 0 <= i < |xs| && 0 <= j < |xs| && i != j ==> xs[i] != xs[j]
  }

  /** One factor `x_j * (x_j - x_i)^{-1}` of a Lagrange coefficient at zero. */
  function Factor(xj: F.Scalar, xi: F.Scalar): F.Scalar
    requires xj != xi
  {
    F.SubZeroIff(xj, xi);
    F.Mul(xj, F.Inverse(F.Sub(xj, xi)))
  }

  /** The product of the factors for `j < k`, `j != i`. */
  function PartialCoeff(xs: seq<F.Scalar>, i: nat, k: nat): F.Scalar
    requires Distinct(xs) && i < |xs| && k <= |xs|
  {
    if k == 0 then 1
    else
      var v := PartialCoeff(xs, i, k - 1);
      if k - 1 == i then v else F.Mul(v, Factor(xs[k - 1], xs[i]))
  }

  /** The Lagrange coefficient at zero of the i-th point. */
  function Coeff(xs: seq<F.Scalar>, i: nat): F.Scalar
    requires Distinct(xs) && i < |xs|
  {
    PartialCoeff(xs, i, |xs|)
  }

  function Coeffs(xs: seq<F.Scalar>): (r: seq<F.Scalar>)
    requires Distinct(xs)
    ensures |r| == |xs|
  {
    seq(|xs|, i requires 0 <= i < |xs| => Coeff(xs, i))
  }

  /** The interpolation terms `v_i * lambda_i`. */
  function Terms(xs: seq<F.Scalar>, vs: seq<F.Scalar>): (r: seq<F.Scalar>)
    requires Distinct(xs) && |vs| == |xs|
    ensures |r| == |xs|
  {
    seq(|xs|, i requires 0 <= i < |xs| => F.Mul(vs[i], Coeff(xs, i)))
  }

  /** The interpolated value at zero of the samples `(x_i, v_i)`. */
  function Combine(xs: seq<F.Scalar>, vs: seq<F.Scalar>): F.Scalar
    requires Distinct(xs) && |vs| == |xs|
  {
    F.Sum(Terms(xs, vs))
  }

  /** The samples `p(x_i)` of a polynomial. */
  function Values(p: P.Polynomial, xs: seq<F.Scalar>): (r: seq<F.Scalar>)
    ensures |r| == |xs|
  {
    seq(|xs|, i requires 0 <= i < |xs| => p.Evaluate(xs[i]))
  }

  // ---- the coefficients under removal of the last or the first point ----

  lemma {:induction false} PartialCoeffPrefix(xs: seq<F.Scalar>, ys: seq<F.Scalar>, i: nat, k: nat)
    requires Distinct(xs) && Distinct(ys) && i < |xs| && i < |ys| && k <= |xs| && k <= |ys|
    requires xs[..k] == ys[..k] && xs[i] == ys[i]
    ensures PartialCoeff(xs, i, k) == PartialCoeff(ys, i, k)
  {
    if k > 0 {
      assert xs[..k - 1] == xs[..k][..k - 1];
      assert ys[..k - 1] == ys[..k][..k - 1];
      assert xs[k - 1] == xs[..k][k - 1];
      assert ys[k - 1] == ys[..k][k - 1];
      PartialCoeffPrefix(xs, ys, i, k - 1);
    }
  }

  /** Removing the last point `r` divides each other coefficient by `r * (r - x_i)^{-1}`. */
  lemma CoeffDropLast(xs: seq<F.Scalar>, i: nat)
    requires Distinct(xs) && i + 1 < |xs|
    ensures Distinct(xs[..|xs| - 1])
    ensures Coeff(xs, i) == F.Mul(Coeff(xs[..|xs| - 1], i), Factor(xs[|xs| - 1], xs[i]))
  {
    var n := |xs|;
    var init := xs[..n - 1];
    assert xs[..n - 1] == init[..n - 1];
    PartialCoeffPrefix(xs, init, i, n - 1);
  }

  lemma {:induction false} PartialCoeffDropFirst(xs: seq<F.Scalar>, i: nat, k: nat)
    requires Distinct(xs) && 1 <= i < |xs| && 1 <= k <= |xs|
    ensures Distinct(xs[1..])
    ensures PartialCoeff(xs, i, k) == F.Mul(Factor(xs[0], xs[i]), PartialCoeff(xs[1..], i - 1, k - 1))
  {
    var tail := xs[1..];
    var f0 := Factor(xs[0], xs[i]);
    if k == 1 {
      F.MulOne(f0);
    } else {
      PartialCoeffDropFirst(xs, i, k - 1);
      var rest := PartialCoeff(tail, i - 1, k - 2);
      if k - 1 != i {
        var f := Factor(xs[k - 1], xs[i]);
        assert tail[k - 2] == xs[k - 1] && tail[i - 1] == xs[i];
        F.MulAssoc(f0, rest, f);
      }
    }
  }

  /** Removing the first point `x_0` divides each other coefficient by `x_0 * (x_0 - x_i)^{-1}`. */
  lemma CoeffDropFirst(xs: seq<F.Scalar>, i: nat)
    requires Distinct(xs) && 1 <= i < |xs|
    ensures Distinct(xs[1..])
    ensures Coeff(xs, i) == F.Mul(Factor(xs[0], xs[i]), Coeff(xs[1..], i - 1))
  {
    PartialCoeffDropFirst(xs, i, |xs|);
  }

  /** `(b - a) * a * (a - b)^{-1} = -a`. */
  lemma FactorCancel(a: F.Scalar, b: F.Scalar)
    requires a != b
    ensures F.Mul(F.Sub(b, a), Factor(a, b)) == F.Neg(a)
  {
    var d := F.Sub(a, b);
    F.SubZeroIff(a, b);
    var inv := F.Inverse(d);
    calc {
      F.Mul(F.Sub(b, a), F.Mul(a, inv));
      { F.NegSub(a, b); }
      F.Mul(F.Neg(d), F.Mul(a, inv));
      { F.MulNeg(d, F.Mul(a, inv)); }
      F.Neg(F.Mul(d, F.Mul(a, inv)));
      { F.MulLeftComm(d, a, inv); }
      F.Neg(F.Mul(a, F.Mul(d, inv)));
      { F.MulOne(a); }
      F.Neg(a);
    }
  }

  /** `(x_i - r) * lambda_i(xs) = -r * lambda_i(xs without its last point r)`. */
  lemma WeightDropLast(xs: seq<F.Scalar>, i: nat)
    requires Distinct(xs) && i + 1 < |xs|
    ensures Distinct(xs[..|xs| - 1])
    ensures F.Mul(F.Sub(xs[i], xs[|xs| - 1]), Coeff(xs, i)) == F.Mul(F.Neg(xs[|xs| - 1]), Coeff(xs[..|xs| - 1], i))
  {
    var r := xs[|xs| - 1];
    var c := Coeff(xs[..|xs| - 1], i);
    CoeffDropLast(xs, i);
    var f := Factor(r, xs[i]);
    calc {
      F.Mul(F.Sub(xs[i], r), F.Mul(c, f));
      { F.MulLeftComm(F.Sub(xs[i], r), c, f); }
      F.Mul(c, F.Mul(F.Sub(xs[i], r), f));
      { FactorCancel(r, xs[i]); }
      F.Mul(c, F.Neg(r));
      { F.MulComm(c, F.Neg(r)); }
      F.Mul(F.Neg(r), c);
    }
  }

  /** `(x_i - x_0) * lambda_i(xs) = -x_0 * lambda_{i-1}(xs without its first point x_0)`. */
  lemma WeightDropFirst(xs: seq<F.Scalar>, i: nat)
    requires Distinct(xs) && 1 <= i < |xs|
    ensures Distinct(xs[1..])
    ensures F.Mul(F.Sub(xs[i], xs[0]), Coeff(xs, i)) == F.Mul(F.Neg(xs[0]), Coeff(xs[1..], i - 1))
  {
    var x0 := xs[0];
    var c := Coeff(xs[1..], i - 1);
    CoeffDropFirst(xs, i);
    var f := Factor(x0, xs[i]);
    calc {
      F.Mul(F.Sub(xs[i], x0), F.Mul(f, c));
      { F.MulAssoc(F.Sub(xs[i], x0), f, c); }
      F.Mul(F.Mul(F.Sub(xs[i], x0), f), c);
      { FactorCancel(x0, xs[i]); }
      F.Mul(F.Neg(x0), c);
    }
  }

  // ---- sums of shifted terms ----

  /** `sum_i (x_i - a) * l_i = sum_i x_i * l_i + (-a) * sum_i l_i`. */
  lemma ShiftedSum(xs: seq<F.Scalar>, ls: seq<F.Scalar>, a: F.Scalar)
    requires |xs| == |ls|
    ensures F.Sum(seq(|xs|, i requires 0 <= i < |xs| => F.Mul(F.Sub(xs[i], a), ls[i]))) ==
            F.Add(F.Sum(seq(|xs|, i requires 0 <= i < |xs| => F.Mul(xs[i], ls[i]))), F.Mul(F.Neg(a), F.Sum(ls)))
  {
    var n := |xs|;
    var d := seq(n, i requires 0 <= i < n => F.Mul(F.Sub(xs[i], a), ls[i]));
    var x := seq(n, i requires 0 <= i < n => F.Mul(xs[i], ls[i]));
    var nl := seq(n, i requires 0 <= i < n => F.Mul(F.Neg(a), ls[i]));
    forall i | 0 <= i < n
      ensures d[i] == F.Add(x[i], nl[i])
    {
      F.SubAsAdd(xs[i], a);
      F.Distrib(ls[i], xs[i], F.Neg(a));
    }
    F.SumAdd(d, x, nl);
    F.SumScale(nl, ls, F.Neg(a));
  }

  /** From `T - a*S = -a` and `T - b*S = -b` with `a != b` it follows that `S = 1`. */
  lemma SolveUnity(t: F.Scalar, s: F.Scalar, a: F.Scalar, b: F.Scalar)
    requires a != b
    requires F.Add(t, F.Mul(F.Neg(a), s)) == F.Neg(a)
    requires F.Add(t, F.Mul(F.Neg(b), s)) == F.Neg(b)
    ensures s == 1
  {
    F.AddNegMul(t, a, s);
    F.AddNegMul(t, b, s);
    F.ModSubCongruent(t - a * s, 0 - a, t - b * s, 0 - b);
    assert (t - a * s) - (t - b * s) == (b - a) * s;
    assert (0 - a) - (0 - b) == b - a;
    F.ModMulLeft(b - a, s);
    assert F.Mul(F.Sub(b, a), s) == F.Sub(b, a);
    F.MulOne(F.Sub(b, a));
    F.SubZeroIff(b, a);
    F.MulCancel(F.Sub(b, a), s, 1);
  }

  /** The coefficients at zero sum to one (the constant polynomial 1 is reproduced). */
  lemma {:induction false} PartitionOfUnity(xs: seq<F.Scalar>)
    requires Distinct(xs) && |xs| >= 1
    ensures F.Sum(Coeffs(xs)) == 1
  {
    var n := |xs|;
    var ls := Coeffs(xs);
    if n == 1 {
      assert ls[0] == PartialCoeff(xs, 0, 1) == PartialCoeff(xs, 0, 0) == 1;
      assert ls[..0] == [];
      F.AddZero(1);
    } else {
      var r, x0 := xs[n - 1], xs[0];
      var init, tail := xs[..n - 1], xs[1..];
      assert Distinct(init) && Distinct(tail);
      PartitionOfUnity(init);
      PartitionOfUnity(tail);
      var t := F.Sum(seq(n, i requires 0 <= i < n => F.Mul(xs[i], ls[i])));
      // Weighting by (x_i - r) leaves -r times the coefficients of the first n-1 points.
      var d := seq(n, i requires 0 <= i < n => F.Mul(F.Sub(xs[i], r), ls[i]));
      ShiftedSum(xs, ls, r);
      forall i | 0 <= i < n - 1
        ensures d[..n - 1][i] == F.Mul(F.Neg(r), Coeffs(init)[i])
      {
        WeightDropLast(xs, i);
      }
      F.SumScale(d[..n - 1], Coeffs(init), F.Neg(r));
      F.MulOne(F.Neg(r));
      F.SubSelf(r);
      F.MulZero(ls[n - 1]);
      F.AddZero(F.Neg(r));
      assert F.Add(t, F.Mul(F.Neg(r), F.Sum(ls))) == F.Neg(r);
      // Weighting by (x_i - x_0) leaves -x_0 times the coefficients of the last n-1 points.
      var e := seq(n, i requires 0 <= i < n => F.Mul(F.Sub(xs[i], x0), ls[i]));
      ShiftedSum(xs, ls, x0);
      F.SumFirst(e);
      forall i | 0 <= i < n - 1
        ensures e[1..][i] == F.Mul(F.Neg(x0), Coeffs(tail)[i])
      {
        WeightDropFirst(xs, i + 1);
      }
      F.SumScale(e[1..], Coeffs(tail), F.Neg(x0));
      F.MulOne(F.Neg(x0));
      F.SubSelf(x0);
      F.MulZero(ls[0]);
      F.AddZero(F.Neg(x0));
      assert F.Add(t, F.Mul(F.Neg(x0), F.Sum(ls))) == F.Neg(x0);
      SolveUnity(t, F.Sum(ls), r, x0);
    }
  }

  /** `(x*q)*l = q*((x - r)*l) + r*(q*l)`. */
  lemma SplitProduct(x: F.Scalar, r: F.Scalar, q: F.Scalar, l: F.Scalar)
    ensures F.Mul(F.Mul(x, q), l) == F.Add(F.Mul(q, F.Mul(F.Sub(x, r), l)), F.Mul(r, F.Mul(q, l)))
  {
    var d := F.Sub(x, r);
    F.SubAddCancel(x, r);
    calc {
      F.Mul(F.Mul(x, q), l);
      { F.MulAssoc(x, q, l); }
      F.Mul(x, F.Mul(q, l));
      F.Mul(F.Add(d, r), F.Mul(q, l));
      { F.Distrib(F.Mul(q, l), d, r); }
      F.Add(F.Mul(d, F.Mul(q, l)), F.Mul(r, F.Mul(q, l)));
      { F.MulLeftComm(d, q, l); }
      F.Add(F.Mul(q, F.Mul(d, l)), F.Mul(r, F.Mul(q, l)));
    }
  }

  /** The terms `v_i * (x_i - r) * lambda_i`, `r` the last point, add up to `-r`
      times the interpolation of the first `n-1` samples. */
  lemma DroppedLastSum(xs: seq<F.Scalar>, vs: seq<F.Scalar>)
    requires Distinct(xs) && |xs| >= 1 && |vs| == |xs|
    ensures Distinct(xs[..|xs| - 1])
    ensures F.Sum(seq(|xs|, i requires 0 <= i < |xs| => F.Mul(vs[i], F.Mul(F.Sub(xs[i], xs[|xs| - 1]), Coeff(xs, i))))) ==
            F.Mul(F.Neg(xs[|xs| - 1]), Combine(xs[..|xs| - 1], vs[..|xs| - 1]))
  {
    var n := |xs|;
    var r := xs[n - 1];
    var init := xs[..n - 1];
    var dq := seq(n, i requires 0 <= i < n => F.Mul(vs[i], F.Mul(F.Sub(xs[i], r), Coeff(xs, i))));
    var tqi := Terms(init, vs[..n - 1]);
    forall i | 0 <= i < n - 1
      ensures dq[..n - 1][i] == F.Mul(F.Neg(r), tqi[i])
    {
      WeightDropLast(xs, i);
      F.MulLeftComm(vs[i], F.Neg(r), Coeff(init, i));
    }
    F.SumScale(dq[..n - 1], tqi, F.Neg(r));
    F.SubSelf(r);
    F.MulZero(Coeff(xs, n - 1));
    F.MulZero(vs[n - 1]);
    assert dq[n - 1] == 0;
    F.AddZero(F.Mul(F.Neg(r), F.Sum(tqi)));
  }

  /** `sum_i x_i * v_i * lambda_i = sum_i v_i * (x_i - r) * lambda_i + r * sum_i v_i * lambda_i`. */
  lemma CrossTermsSplit(xs: seq<F.Scalar>, vs: seq<F.Scalar>, r: F.Scalar)
    requires Distinct(xs) && |vs| == |xs|
    ensures F.Sum(seq(|xs|, i requires 0 <= i < |xs| => F.Mul(F.Mul(xs[i], vs[i]), Coeff(xs, i)))) ==
            F.Add(F.Sum(seq(|xs|, i requires 0 <= i < |xs| => F.Mul(vs[i], F.Mul(F.Sub(xs[i], r), Coeff(xs, i))))),
                  F.Mul(r, Combine(xs, vs)))
  {
    var n := |xs|;
    var xq := seq(n, i requires 0 <= i < n => F.Mul(F.Mul(xs[i], vs[i]), Coeff(xs, i)));
    var dq := seq(n, i requires 0 <= i < n => F.Mul(vs[i], F.Mul(F.Sub(xs[i], r), Coeff(xs, i))));
    var tq := Terms(xs, vs);
    var rq := seq(n, i requires 0 <= i < n => F.Mul(r, tq[i]));
    forall i | 0 <= i < n
      ensures xq[i] == F.Add(dq[i], rq[i])
    {
      SplitProduct(xs[i], r, vs[i], Coeff(xs, i));
    }
    F.SumAdd(xq, dq, rq);
    F.SumScale(rq, tq, r);
  }

  /** When interpolating `v` over all points and over all but the last agree on `c`,
      the terms `x_i * v_i * lambda_i` cancel out. */
  lemma CrossTermsVanish(xs: seq<F.Scalar>, vs: seq<F.Scalar>, c: F.Scalar)
    requires Distinct(xs) && |xs| >= 1 && |vs| == |xs|
    requires Distinct(xs[..|xs| - 1])
    requires Combine(xs, vs) == c
    requires Combine(xs[..|xs| - 1], vs[..|xs| - 1]) == c
    ensures F.Sum(seq(|xs|, i requires 0 <= i < |xs| => F.Mul(F.Mul(xs[i], vs[i]), Coeff(xs, i)))) == 0
  {
    var r := xs[|xs| - 1];
    CrossTermsSplit(xs, vs, r);
    DroppedLastSum(xs, vs);
    F.Distrib(c, F.Neg(r), r);
    F.MulComm(F.Neg(r), c);
    F.MulComm(r, c);
    F.AddNeg(r);
    F.MulZero(c);
  }

  /** The terms of a polynomial `a_0 + X*q` split into `a_0 * sum_i lambda_i`
      and the terms `x_i * q(x_i) * lambda_i`. */
  lemma HornerTerms(xs: seq<F.Scalar>, p: P.Polynomial)
    requires Distinct(xs) && |p.elements| >= 1
    ensures F.Sum(Terms(xs, Values(p, xs))) ==
            F.Add(F.Mul(p.elements[0], F.Sum(Coeffs(xs))),
                  F.Sum(seq(|xs|, i requires 0 <= i < |xs| => F.Mul(F.Mul(xs[i], Values(p.Shift(), xs)[i]), Coeff(xs, i)))))
  {
    var n := |xs|;
    var a0 := p.elements[0];
    var q := p.Shift();
    var ls := Coeffs(xs);
    var ts := Terms(xs, Values(p, xs));
    var qs := Values(q, xs);
    var lead := seq(n, i requires 0 <= i < n => F.Mul(a0, ls[i]));
    var xq := seq(n, i requires 0 <= i < n => F.Mul(F.Mul(xs[i], qs[i]), Coeff(xs, i)));
    forall i | 0 <= i < n
      ensures ts[i] == F.Add(lead[i], xq[i])
    {
      P.Horner(p, xs[i]);
      F.Distrib(ls[i], a0, F.Mul(xs[i], qs[i]));
    }
    F.SumAdd(ts, lead, xq);
    F.SumScale(lead, ls, a0);
  }

  /** The zero polynomial interpolates to zero. */
  lemma InterpolateZeroPolynomial(xs: seq<F.Scalar>, p: P.Polynomial)
    requires Distinct(xs) && |p.elements| == 0
    ensures Combine(xs, Values(p, xs)) == 0
  {
    var vs := Values(p, xs);
    var ts := Terms(xs, vs);
    var ls := Coeffs(xs);
    forall i | 0 <= i < |xs|
      ensures ts[i] == F.Mul(0, ls[i])
    {
      assert P.Monomials(p.elements, xs[i]) == [];
      assert vs[i] == 0;
    }
    F.SumScale(ts, ls, 0);
    F.MulZero(F.Sum(ls));
  }

  /** The induction step for `p = a_0 + X*q`, given the theorem for `q`. */
  lemma InterpolateStep(xs: seq<F.Scalar>, p: P.Polynomial)
    requires Distinct(xs) && 1 <= |p.elements| <= |xs|
    requires Distinct(xs[..|xs| - 1])
    requires Combine(xs, Values(p.Shift(), xs)) == p.Shift().Evaluate(0)
    requires Combine(xs[..|xs| - 1], Values(p.Shift(), xs[..|xs| - 1])) == p.Shift().Evaluate(0)
    ensures Combine(xs, Values(p, xs)) == p.elements[0]
  {
    var n := |xs|;
    var a0 := p.elements[0];
    var q := p.Shift();
    var qs := Values(q, xs);
    assert Values(q, xs[..n - 1]) == qs[..n - 1];
    HornerTerms(xs, p);
    PartitionOfUnity(xs);
    F.MulOne(a0);
    CrossTermsVanish(xs, qs, q.Evaluate(0));
    F.AddZero(a0);
  }

  /** Lagrange interpolation at zero: `t` samples of a polynomial with at most
      `t` coefficients, at pairwise-distinct points, give back its value at zero. */
  lemma {:induction false} InterpolateAtZero(xs: seq<F.Scalar>, p: P.Polynomial)
    requires Distinct(xs) && |p.elements| <= |xs|
    ensures Combine(xs, Values(p, xs)) == p.Evaluate(0)
    decreases |xs|, |p.elements|
  {
    var n := |xs|;
    P.EvaluateAtZero(p);
    if |p.elements| == 0 {
      InterpolateZeroPolynomial(xs, p);
    } else {
      var init := xs[..n - 1];
      assert Distinct(init);
      InterpolateAtZero(xs, p.Shift());
      InterpolateAtZero(init, p.Shift());
      InterpolateStep(xs, p);
    }
  }
}
