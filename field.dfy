/** The scalar field Z_Q of the prime-order group.

    The repository's `crypto` module is not part of this model; only the
    arithmetic it offers on scalars is modelled here. The group order is an
    arbitrary but fixed prime `Q`, so every fact proved below holds for every
    prime-order group.
 */
module Field {

  /** `d` divides `n`. */
  predicate Divides(d: nat, n: nat)
    requires d > 0
  {
    n % d == 0
  }

  ghost predicate IsPrime(n: nat) {
    n >= 2 && forall d: nat :: 1 < d < n ==> !Divides(d, n)
  }

  type Prime = n: nat | IsPrime(n) witness 2

  /** The order of the group, and so the size of the scalar field. */
  const Q: Prime

  /** A scalar is kept in canonical form, as its residue in [0, Q). */
  type Scalar = x: int | 0 <= x < Q

  function One(): Scalar { 1 }

  function Add(a: Scalar, b: Scalar): Scalar { (a + b) % Q }

  function Sub(a: Scalar, b: Scalar): Scalar { (a - b) % Q }

  function Neg(a: Scalar): Scalar { (0 - a) % Q }

  function Mul(a: Scalar, b: Scalar): Scalar { (a * b) % Q }

  /** `Scalar::from_u32`: the residue of a machine integer. */
  function FromNat(n: nat): (r: Scalar)
    ensures n < Q ==> r == n
  {
    n % Q
  }

  /** `Scalar::pow`, by repeated multiplication. */
  function Pow(x: Scalar, n: nat): Scalar
  {
    if n == 0 then One() else Mul(Pow(x, n - 1), x)
  }

  /** Extended Euclid: Bezout coefficients and the greatest common divisor. */
  function Egcd(a: nat, b: nat): (r: (int, int, nat))
    ensures a * r.0 + b * r.1 == r.2
    ensures a > 0 || b > 0 ==> r.2 > 0 && a % r.2 == 0 && b % r.2 == 0
    decreases b
  {
    if b == 0 then (1, 0, a)
    else
      var rec := Egcd(b, a % b);
      var x, y, g := rec.0, rec.1, rec.2;
      EgcdStep(a, b, x, y, g);
      (y, x - (a / b) * y, g)
  }

  lemma EgcdStep(a: nat, b: nat, x: int, y: int, g: nat)
    requires b > 0
    requires b * x + (a % b) * y == g
    requires g > 0 && b % g == 0 && (a % b) % g == 0
    ensures a * y + b * (x - (a / b) * y) == g
    ensures a % g == 0
  {
    var d, m := a / b, a % b;
    assert a == d * b + m;
    calc {
      a * y + b * (x - d * y);
      (d * b + m) * y + b * x - b * (d * y);
      { assert (d * b + m) * y == d * b * y + m * y; assert b * (d * y) == d * b * y; }
      b * x + m * y;
    }
    var kb, km := b / g, m / g;
    assert b == kb * g;
    assert m == km * g;
    assert a == (d * kb + km) * g by {
      calc {
        a;
        d * b + m;
        d * (kb * g) + km * g;
        { assert d * (kb * g) == (d * kb) * g; }
        (d * kb) * g + km * g;
        (d * kb + km) * g;
      }
    }
    ModUniqueBy(a, d * kb + km, 0, g);
  }

  /** The multiplicative inverse, which exists because `Q` is prime. */
  function Inverse(a: Scalar): (r: Scalar)
    requires a != 0
    ensures Mul(a, r) == 1
  {
    var e := Egcd(a, Q);
    var x, y, g := e.0, e.1, e.2;
    GcdWithPrime(a, g);
    assert a * x == 1 + (-y) * Q;
    ModUniqueBy(a * x, -y, 1, Q);
    ModMulRight(a, x);
    x % Q
  }

  lemma GcdWithPrime(a: Scalar, g: nat)
    requires a != 0 && g > 0 && a % g == 0 && Q % g == 0
    ensures g == 1
  {
    DivisorBound(a, g);
    if g != 1 {
      assert 1 < g < Q;
      assert Divides(g, Q);
      assert false;
    }
  }

  lemma DivisorBound(a: nat, g: nat)
    requires a > 0 && g > 0 && a % g == 0
    ensures g <= a
  {
    var k := a / g;
    assert a == k * g;
    assert k >= 1;
    assert k * g == (k - 1) * g + g;
  }

  // ---- residue arithmetic on unbounded integers ----

  lemma ModUniqueBy(x: int, k: int, r: int, m: int)
    requires m > 0 && 0 <= r < m && x == k * m + r
    ensures x % m == r
  {
    var k0, r0 := x / m, x % m;
    assert x == k0 * m + r0;
    assert (k - k0) * m == r0 - r;
    MulBound(k - k0, m);
  }

  lemma MulBound(d: int, m: int)
    requires m > 0
    ensures d >= 1 ==> d * m >= m
    ensures d <= -1 ==> d * m <= -m
  {
    if d >= 1 {
      assert d * m == (d - 1) * m + m;
    } else if d <= -1 {
      assert d * m == (d + 1) * m - m;
    }
  }

  lemma ModAddMultiple(x: int, k: int)
    ensures (x + k * Q) % Q == x % Q
  {
    assert x == (x / Q) * Q + x % Q;
    assert x + k * Q == (x / Q + k) * Q + x % Q;
    ModUniqueBy(x + k * Q, x / Q + k, x % Q, Q);
  }

  lemma ModOfResidue(x: int)
    requires 0 <= x < Q
    ensures x % Q == x
  {
    ModUniqueBy(x, 0, x, Q);
  }

  lemma ModAddLeft(a: int, b: int)
    ensures (a % Q + b) % Q == (a + b) % Q
  {
    assert a % Q + b == (a + b) + (-(a / Q)) * Q;
    ModAddMultiple(a + b, -(a / Q));
  }

  lemma ModMulLeft(a: int, b: int)
    ensures ((a % Q) * b) % Q == (a * b) % Q
  {
    var k := a / Q;
    assert a % Q == a - k * Q;
    calc {
      (a % Q) * b;
      (a - k * Q) * b;
      a * b - (k * Q) * b;
      { assert (k * Q) * b == (k * b) * Q; }
      a * b + (-(k * b)) * Q;
    }
    ModAddMultiple(a * b, -(k * b));
  }

  lemma ModMulRight(a: int, b: int)
    ensures (a * (b % Q)) % Q == (a * b) % Q
  {
    ModMulLeft(b, a);
  }

  lemma ModSubCongruent(x: int, x': int, y: int, y': int)
    requires x % Q == x' % Q && y % Q == y' % Q
    ensures (x - y) % Q == (x' - y') % Q
  {
    assert x == x' + (x / Q - x' / Q) * Q;
    assert y == y' + (y / Q - y' / Q) * Q;
    assert x - y == (x' - y') + ((x / Q - x' / Q) - (y / Q - y' / Q)) * Q;
    ModAddMultiple(x' - y', (x / Q - x' / Q) - (y / Q - y' / Q));
  }

  // ---- field laws ----

  lemma AddZero(a: Scalar)
    ensures Add(a, 0) == a && Add(0, a) == a
  {
    ModOfResidue(a);
  }

  lemma MulOne(a: Scalar)
    ensures Mul(a, 1) == a && Mul(1, a) == a
  {
    ModOfResidue(a);
  }

  lemma AddAssoc(a: Scalar, b: Scalar, c: Scalar)
    ensures Add(Add(a, b), c) == Add(a, Add(b, c))
  {
    calc {
      Add(Add(a, b), c);
      ((a + b) % Q + c) % Q;
      { ModAddLeft(a + b, c); }
      (a + b + c) % Q;
      { ModAddLeft(b + c, a); assert b + c + a == a + b + c; }
      ((b + c) % Q + a) % Q;
      Add(a, Add(b, c));
    }
  }

  lemma MulAssoc(a: Scalar, b: Scalar, c: Scalar)
    ensures Mul(Mul(a, b), c) == Mul(a, Mul(b, c))
  {
    ModMulLeft(a * b, c);
    ModMulRight(a, b * c);
    assert (a * b) * c == a * (b * c);
  }

  lemma MulComm(a: Scalar, b: Scalar)
    ensures Mul(a, b) == Mul(b, a)
  {
    assert a * b == b * a;
  }

  lemma Distrib(a: Scalar, b: Scalar, c: Scalar)
    ensures Mul(a, Add(b, c)) == Add(Mul(a, b), Mul(a, c))
    ensures Mul(Add(b, c), a) == Add(Mul(b, a), Mul(c, a))
  {
    ModMulRight(a, b + c);
    assert a * (b + c) == a * b + a * c;
    ModAddLeft(a * b, (a * c) % Q);
    ModAddLeft(a * c, a * b);
    assert (a * b + (a * c) % Q) % Q == ((a * c) % Q + a * b) % Q;
    MulComm(a, Add(b, c));
    MulComm(a, b);
    MulComm(a, c);
  }

  lemma SubAsAdd(a: Scalar, b: Scalar)
    ensures Sub(a, b) == Add(a, Neg(b))
  {
    ModAddLeft(0 - b, a);
  }

  lemma AddNeg(a: Scalar)
    ensures Add(a, Neg(a)) == 0 && Add(Neg(a), a) == 0
  {
    ModAddLeft(0 - a, a);
  }

  lemma SubSelf(a: Scalar)
    ensures Sub(a, a) == 0
  {
  }

  lemma SubAddCancel(a: Scalar, b: Scalar)
    ensures Add(Sub(a, b), b) == a
  {
    ModAddLeft(a - b, b);
    ModOfResidue(a);
  }

  lemma AddSubCancel(a: Scalar, b: Scalar)
    ensures Sub(Add(a, b), b) == a
  {
    ModAddLeft(a + b, -(b as int));
    ModOfResidue(a);
    assert Sub(Add(a, b), b) == ((a + b) % Q - b) % Q;
  }

  lemma MulNeg(a: Scalar, b: Scalar)
    ensures Mul(Neg(a), b) == Neg(Mul(a, b))
    ensures Mul(a, Neg(b)) == Neg(Mul(a, b))
  {
    ModMulLeft(0 - a, b);
    assert (0 - a) * b == 0 - a * b;
    ModAddLeft(-(a * b), 0);
    assert (0 - (a * b) % Q) % Q == (-(a * b)) % Q by {
      ModAddMultiple(-(a * b), (a * b) / Q);
      assert -(a * b) + ((a * b) / Q) * Q == 0 - (a * b) % Q;
    }
    MulComm(Neg(a), b);
    MulComm(a, Neg(b));
    ModMulLeft(0 - b, a);
    assert (0 - b) * a == -(a * b);
  }

  lemma NegSub(a: Scalar, b: Scalar)
    ensures Neg(Sub(a, b)) == Sub(b, a)
  {
    ModAddLeft(a - b, 0);
    var t := (a - b) % Q;
    assert a - b == ((a - b) / Q) * Q + t;
    assert 0 - t == (b - a) + ((a - b) / Q) * Q;
    ModAddMultiple(b - a, (a - b) / Q);
  }

  lemma MulZero(a: Scalar)
    ensures Mul(a, 0) == 0 && Mul(0, a) == 0
  {
  }

  lemma MulLeftComm(a: Scalar, b: Scalar, c: Scalar)
    ensures Mul(a, Mul(b, c)) == Mul(b, Mul(a, c))
  {
    MulAssoc(a, b, c);
    MulComm(a, b);
    MulAssoc(b, a, c);
  }

  /** `T - a*S` taken modulo `Q`, written with field operations. */
  lemma AddNegMul(t: Scalar, a: Scalar, s: Scalar)
    ensures Add(t, Mul(Neg(a), s)) == (t - a * s) % Q
  {
    calc {
      Add(t, Mul(Neg(a), s));
      (t + (((0 - a) % Q) * s) % Q) % Q;
      { ModAddLeft((((0 - a) % Q) * s), t); }
      (t + ((0 - a) % Q) * s) % Q;
      { ModMulLeft(0 - a, s); ModAddLeft(((0 - a) % Q) * s, t); ModAddLeft((0 - a) * s, t); }
      (t + (0 - a) * s) % Q;
      { assert t + (0 - a) * s == t - a * s; }
      (t - a * s) % Q;
    }
  }

  /** A field has no zero divisors. */
  lemma MulCancel(a: Scalar, b: Scalar, c: Scalar)
    requires a != 0 && Mul(a, b) == Mul(a, c)
    ensures b == c
  {
    var inv := Inverse(a);
    calc {
      b;
      { MulOne(b); }
      Mul(1, b);
      { MulComm(inv, a); }
      Mul(Mul(inv, a), b);
      { MulAssoc(inv, a, b); }
      Mul(inv, Mul(a, c));
      { MulAssoc(inv, a, c); }
      Mul(Mul(inv, a), c);
      { MulOne(c); }
      c;
    }
  }

  lemma SubZeroIff(a: Scalar, b: Scalar)
    ensures Sub(a, b) == 0 <==> a == b
  {
    if a > b {
      ModOfResidue(a - b);
      assert Sub(a, b) == a - b;
    } else if a < b {
      ModUniqueBy(a - b, -1, a - b + Q, Q);
      assert Sub(a, b) == a - b + Q;
    } else {
      ModOfResidue(0);
    }
  }

  lemma AddSwap(a: Scalar, b: Scalar, c: Scalar, d: Scalar)
    ensures Add(Add(a, b), Add(c, d)) == Add(Add(a, c), Add(b, d))
  {
    calc {
      Add(Add(a, b), Add(c, d));
      { AddAssoc(a, b, Add(c, d)); }
      Add(a, Add(b, Add(c, d)));
      { AddAssoc(b, c, d); }
      Add(a, Add(Add(b, c), d));
      { assert Add(b, c) == Add(c, b); }
      Add(a, Add(Add(c, b), d));
      { AddAssoc(c, b, d); }
      Add(a, Add(c, Add(b, d)));
      { AddAssoc(a, c, Add(b, d)); }
      Add(Add(a, c), Add(b, d));
    }
  }

  // ---- finite sums ----

  /** The sum of a finite sequence of scalars, accumulated from the left. */
  function Sum(s: seq<Scalar>): Scalar
  {
    if |s| == 0 then 0 else Add(Sum(s[..|s| - 1]), s[|s| - 1])
  }

  lemma {:induction false} SumFirst(s: seq<Scalar>)
    requires |s| >= 1
    ensures Sum(s) == Add(s[0], Sum(s[1..]))
  {
    var n := |s|;
    if n == 1 {
      AddZero(s[0]);
      assert s[1..] == [];
    } else {
      var init := s[..n - 1];
      SumFirst(init);
      assert s[1..][..n - 2] == init[1..];
      calc {
        Sum(s);
        Add(Sum(init), s[n - 1]);
        Add(Add(s[0], Sum(init[1..])), s[n - 1]);
        { AddAssoc(s[0], Sum(init[1..]), s[n - 1]); }
        Add(s[0], Add(Sum(init[1..]), s[n - 1]));
        Add(s[0], Sum(s[1..]));
      }
    }
  }

  lemma {:induction false} SumAdd(u: seq<Scalar>, s: seq<Scalar>, t: seq<Scalar>)
    requires |u| == |s| == |t|
    requires forall i :: 0 <= i < |u| ==> u[i] == Add(s[i], t[i])
    ensures Sum(u) == Add(Sum(s), Sum(t))
  {
    var n := |u|;
    if n > 0 {
      SumAdd(u[..n - 1], s[..n - 1], t[..n - 1]);
      AddSwap(Sum(s[..n - 1]), Sum(t[..n - 1]), s[n - 1], t[n - 1]);
    }
  }

  lemma {:induction false} SumScale(u: seq<Scalar>, s: seq<Scalar>, c: Scalar)
    requires |u| == |s|
    requires forall i :: 0 <= i < |u| ==> u[i] == Mul(c, s[i])
    ensures Sum(u) == Mul(c, Sum(s))
  {
    var n := |u|;
    if n > 0 {
      SumScale(u[..n - 1], s[..n - 1], c);
      Distrib(c, Sum(s[..n - 1]), s[n - 1]);
    }
  }
}
