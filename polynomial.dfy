/** Polynomials over the scalar field, as the PVSS dealer uses them.

    The repository's `math::Polynomial` is not part of this model. What the
    scheme relies on is modelled: a polynomial is its coefficient list
    `a_0, ..., a_{n-1}` (`elements`), `evaluate(x)` is `sum_j a_j * x^j`, and
    `at_zero()` is the constant term. Random generation is left to the caller,
    who passes the coefficients.
 */
module Polynomial {
  import F = Field

  datatype Polynomial = Polynomial(elements: seq<F.Scalar>)
  {
    /** `len()`: the number of coefficients, one more than the degree bound. */
    function Len(): nat { |elements| }

    /** `evaluate(x)`: the sum of `a_j * x^j` over every coefficient. */
    function Evaluate(x: F.Scalar): F.Scalar
    {
      F.Sum(Monomials(elements, x))
    }

    /** `at_zero()`: the constant term, which is the value at zero. */
    function AtZero(): (r: F.Scalar)
      ensures r == Evaluate(0)
    {
      EvaluateAtZero(this);
      if |elements| == 0 then 0 else elements[0]
    }

    /** The polynomial without its constant term, divided by `X`. */
    function Shift(): Polynomial
      requires |elements| >= 1
    {
      Polynomial(elements[1..])
    }
  }

  /** The terms `a_j * x^j`, in coefficient order. */
  function Monomials(a: seq<F.Scalar>, x: F.Scalar): (r: seq<F.Scalar>)
    ensures |r| == |a|
  {
    seq(|a|, j requires 0 <= j < |a| => F.Mul(a[j], F.Pow(x, j)))
  }

  /** Horner's rule: `p(x) = a_0 + x * (a_1 + a_2 x + ...)`. */
  lemma Horner(p: Polynomial, x: F.Scalar)
    requires |p.elements| >= 1
    ensures p.Evaluate(x) == F.Add(p.elements[0], F.Mul(x, p.Shift().Evaluate(x)))
  {
    var a := p.elements;
    var m := Monomials(a, x);
    var m' := Monomials(a[1..], x);
    F.SumFirst(m);
    F.MulOne(a[0]);
    forall j | 0 <= j < |m| - 1
      ensures m[1..][j] == F.Mul(x, m'[j])
    {
      var c, pw := a[j + 1], F.Pow(x, j);
      calc {
        m[1..][j];
        F.Mul(c, F.Mul(pw, x));
        { F.MulAssoc(c, pw, x); }
        F.Mul(F.Mul(c, pw), x);
        { F.MulComm(F.Mul(c, pw), x); }
        F.Mul(x, m'[j]);
      }
    }
    F.SumScale(m[1..], m', x);
  }

  lemma EvaluateAtZero(p: Polynomial)
    ensures p.Evaluate(0) == if |p.elements| == 0 then 0 else p.elements[0]
  {
    if |p.elements| >= 1 {
      Horner(p, 0);
      F.MulZero(p.Shift().Evaluate(0));
      F.AddZero(p.elements[0]);
    }
  }

  /** Evaluation commutes with multiplying every coefficient by `h`. */
  lemma EvaluateScaled(p: Polynomial, hp: Polynomial, h: F.Scalar, x: F.Scalar)
    requires |hp.elements| == |p.elements|
    requires forall j :: 0 <= j < |p.elements| ==> hp.elements[j] == F.Mul(h, p.elements[j])
    ensures hp.Evaluate(x) == F.Mul(h, p.Evaluate(x))
  {
    var m, hm := Monomials(p.elements, x), Monomials(hp.elements, x);
    forall j | 0 <= j < |m|
      ensures hm[j] == F.Mul(h, m[j])
    {
      F.MulAssoc(h, p.elements[j], F.Pow(x, j));
    }
    F.SumScale(hm, m, h);
  }
}
