/** The single-statement discrete-log-equality proof `dleq::Proof`.

    The repository's `dleq` module is not part of this model. The proof is
    modelled with the algorithm of the parallel proof (src/pdleq.rs) for one
    statement: the transcript hashed into the challenge is `[h1, h2, a1, a2]`.
    The hash `Scalar::hash_points` is a parameter, so every result holds for
    every hash function.
 */
module Dleq {
  import F = Field
  import G = Group

  /** The statement: `h1 = g1^e` and `h2 = g2^e` for one hidden scalar `e`. */
  datatype DLEQ = DLEQ(g1: G.Point, h1: G.Point, g2: G.Point, h2: G.Point)

  /** `Scalar::hash_points`, the Fiat-Shamir hash into the scalar field. */
  type Hash = seq<G.Point> -> F.Scalar

  datatype Proof = Proof(c: F.Scalar, z: F.Scalar)

  /** The statement holds with witness `e`. */
  predicate Holds(d: DLEQ, e: F.Scalar)
  {
    d.h1 == G.Mul(d.g1, e) && d.h2 == G.Mul(d.g2, e)
  }

  /** The response `z = w + e * c` to challenge `c`, for nonce `w` and witness `e`. */
  function Response(w: F.Scalar, e: F.Scalar, c: F.Scalar): F.Scalar
  {
    F.Add(w, F.Mul(e, c))
  }

  /** The commitment a verifier recomputes from a response: `g^z - h^c`. */
  function Recommit(g: G.Point, h: G.Point, z: F.Scalar, c: F.Scalar): G.Point
  {
    G.Sub(G.Mul(g, z), G.Mul(h, c))
  }

  /** For `h = g^e` and `z = w + e * c` the recomputed commitment is `g^w`. */
  lemma RecommitHonest(g: G.Point, e: F.Scalar, w: F.Scalar, c: F.Scalar)
    ensures Recommit(g, G.Mul(g, e), Response(w, e, c), c) == G.Mul(g, w)
  {
    var x := g.log;
    calc {
      F.Sub(F.Mul(x, F.Add(w, F.Mul(e, c))), F.Mul(F.Mul(x, e), c));
      { F.Distrib(x, w, F.Mul(e, c)); F.MulAssoc(x, e, c); }
      F.Sub(F.Add(F.Mul(x, w), F.Mul(x, F.Mul(e, c))), F.Mul(x, F.Mul(e, c)));
      { F.AddSubCancel(F.Mul(x, w), F.Mul(x, F.Mul(e, c))); }
      F.Mul(x, w);
    }
  }

  /** `Proof::create(w, e, statement)`: commit with nonce `w`, hash the
      transcript `[h1, h2, g1^w, g2^w]`, respond. */
  function Create(w: F.Scalar, e: F.Scalar, d: DLEQ, hash: Hash): (p: Proof)
    ensures p.c == hash([d.h1, d.h2, G.Mul(d.g1, w), G.Mul(d.g2, w)])
    ensures p.z == F.Add(w, F.Mul(e, p.c))
  {
    var c := hash([d.h1, d.h2, G.Mul(d.g1, w), G.Mul(d.g2, w)]);
    Proof(c, Response(w, e, c))
  }

  /** `Proof::verify(statement)`: recompute the commitments and the challenge.
      For a statement that holds with witness `e`, exactly the proofs that
      `create` makes with some nonce are accepted: the nonce is `z - e * c`. */
  function Verify(p: Proof, d: DLEQ, hash: Hash): (ok: bool)
    ensures forall e :: Holds(d, e) ==> (ok <==> p == Create(F.Sub(p.z, F.Mul(e, p.c)), e, d, hash))
  {
    HonestVerdicts(p, d, hash);
    p.c == hash([d.h1, d.h2, Recommit(d.g1, d.h1, p.z, p.c), Recommit(d.g2, d.h2, p.z, p.c)])
  }

  /** With witness `e`, the recomputed commitment is `g^{z - e * c}`, and the
      response is the honest one for that nonce. */
  lemma RecommitWitness(g: G.Point, e: F.Scalar, z: F.Scalar, c: F.Scalar)
    ensures Recommit(g, G.Mul(g, e), z, c) == G.Mul(g, F.Sub(z, F.Mul(e, c)))
    ensures Response(F.Sub(z, F.Mul(e, c)), e, c) == z
  {
    var w := F.Sub(z, F.Mul(e, c));
    F.SubAddCancel(z, F.Mul(e, c));
    RecommitHonest(g, e, w, c);
  }

  /** The verifier's check, for every witness of the statement, holds
      exactly for the honest proof with nonce `z - e * c`. */
  lemma HonestVerdicts(p: Proof, d: DLEQ, hash: Hash)
    ensures forall e :: Holds(d, e) ==>
      (p.c == hash([d.h1, d.h2, Recommit(d.g1, d.h1, p.z, p.c), Recommit(d.g2, d.h2, p.z, p.c)]) <==>
       p == Create(F.Sub(p.z, F.Mul(e, p.c)), e, d, hash))
  {
    forall e | Holds(d, e)
      ensures p.c == hash([d.h1, d.h2, Recommit(d.g1, d.h1, p.z, p.c), Recommit(d.g2, d.h2, p.z, p.c)]) <==>
              p == Create(F.Sub(p.z, F.Mul(e, p.c)), e, d, hash)
    {
      RecommitWitness(d.g1, e, p.z, p.c);
      RecommitWitness(d.g2, e, p.z, p.c);
    }
  }

  /** Completeness: an honestly created proof of a true statement verifies. */
  lemma Completeness(w: F.Scalar, e: F.Scalar, d: DLEQ, hash: Hash)
    requires Holds(d, e)
    ensures Verify(Create(w, e, d, hash), d, hash)
  {
    var p := Create(w, e, d, hash);
    RecommitHonest(d.g1, e, w, p.c);
    RecommitHonest(d.g2, e, w, p.c);
  }
}
