/** The prime-order group, in its discrete-logarithm representation.

    A point is identified with its exponent to the standard generator, so the
    group operation is addition of exponents, its inverse is subtraction, and
    `P.mul(s)` multiplies the exponent by `s`. The repository's elliptic-curve
    implementation is not part of this model.
 */
module Group {
  import F = Field

  /** A group element `generator^log`. */
  datatype Point = Point(log: F.Scalar)

  /** `Point::infinity`, the identity element. */
  function Infinity(): Point { Point(0) }

  /** `Point::generator`, the standard generator. */
  function Generator(): Point { Point(1) }

  /** The group operation, written `+` in the source. */
  function Add(p: Point, q: Point): Point { Point(F.Add(p.log, q.log)) }

  /** The group operation with the inverse of `q`, written `-` in the source. */
  function Sub(p: Point, q: Point): Point { Point(F.Sub(p.log, q.log)) }

  /** Scalar multiplication `P.mul(s)`, i.e. exponentiation `P^s`. */
  function Mul(p: Point, s: F.Scalar): Point { Point(F.Mul(p.log, s)) }

  /** `Point::from_scalar(s)`: the standard generator raised to `s`. */
  function FromScalar(s: F.Scalar): (r: Point)
    ensures r == Point(s)
  {
    F.MulOne(s);
    Mul(Generator(), s)
  }

  lemma MulAssoc(p: Point, a: F.Scalar, b: F.Scalar)
    ensures Mul(Mul(p, a), b) == Mul(p, F.Mul(a, b))
  {
    F.MulAssoc(p.log, a, b);
  }
}
