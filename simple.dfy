/** Schoenmakers' simple publicly verifiable secret sharing (src/simple.rs).

    The dealer's randomness (the polynomial's coefficients, the extra
    generator's scalar and every proof nonce) is passed in by the caller,
    and so is the Fiat-Shamir hash.
 */
module Simple {
  import F = Field
  import G = Group
  import P = Polynomial
  import D = Dleq
  import L = Lagrange
  import opened Types

  type Secret = G.Point

  /** The dealer's bundle for one sharing session. */
  datatype Escrow = Escrow(extraGenerator: G.Point, polynomial: P.Polynomial, secret: Secret, proof: D.Proof)

  /** A published commitment `h^{a_j}` to one coefficient. */
  datatype Commitment = Commitment(point: G.Point)

  /** A share encrypted to a participant's public key, with its proof. */
  datatype EncryptedShare = EncryptedShare(id: ShareId, encryptedVal: G.Point, proof: D.Proof)
  {
    /** `EncryptedShare::verify`: check the share against the commitments. */
    method Verify(id: ShareId, public: PublicKey, extraGenerator: G.Point, commitments: seq<Commitment>, hash: D.Hash)
      returns (ok: bool)
      ensures ok == D.Verify(proof, D.DLEQ(extraGenerator, Xi(id, commitments), public.point, encryptedVal), hash)
    {
      var xi := CreateXi(id, commitments);
      var dleq := D.DLEQ(extraGenerator, xi, public.point, encryptedVal);
      ok := D.Verify(proof, dleq, hash);
    }
  }

  /** A decrypted share `generator^{p(id)}`, with its proof of correct decryption. */
  datatype DecryptedShare = DecryptedShare(id: ShareId, decryptedVal: G.Point, proof: D.Proof)
  {
    /** `DecryptedShare::verify`: check the decryption against the encrypted share.
        For a private scalar `x` with `public = g^x` and `decryptedVal^x` the
        encrypted value, exactly the proofs `decrypt_share` makes with `x` and
        nonce `z - x * c` are accepted. */
    function Verify(public: PublicKey, eshare: EncryptedShare, hash: D.Hash): (ok: bool)
      ensures ok == D.Verify(proof, D.DLEQ(G.Generator(), public.point, decryptedVal, eshare.encryptedVal), hash)
      ensures forall x :: D.Holds(D.DLEQ(G.Generator(), public.point, decryptedVal, eshare.encryptedVal), x) ==>
        (ok <==> proof == D.Create(F.Sub(proof.z, F.Mul(x, proof.c)), x,
                                   D.DLEQ(G.Generator(), public.point, decryptedVal, eshare.encryptedVal), hash))
    {
      D.Verify(proof, D.DLEQ(G.Generator(), public.point, decryptedVal, eshare.encryptedVal), hash)
    }
  }

  /** The statement an escrow's proof is about: `secret = g^{a_0}` and `h^{a_0}`. */
  function SecretStatement(secret: Secret, extraGenerator: G.Point, commitment0: G.Point): D.DLEQ
  {
    D.DLEQ(G.Generator(), secret, extraGenerator, commitment0)
  }

  /** `escrow(t)`. `poly` stands for `Polynomial::generate(t - 1)`, `genScalar`
      for the scalar of the extra generator and `nonce` for the proof's nonce. */
  function CreateEscrow(t: Threshold, poly: P.Polynomial, genScalar: F.Scalar, nonce: F.Scalar, hash: D.Hash)
    : (r: Result<Escrow>)
    requires t >= 1 ==> poly.Len() == t
    ensures r.Err? <==> t < 1
    ensures r.Err? ==> r.error == InvalidThreshold
    ensures r.Ok? ==> var e := r.value;
      e.polynomial == poly && |e.polynomial.elements| == t &&
      e.extraGenerator == G.FromScalar(genScalar) &&
      e.secret == G.FromScalar(poly.Evaluate(0)) &&
      e.proof == D.Create(nonce, poly.Evaluate(0),
                          SecretStatement(e.secret, e.extraGenerator, G.Mul(e.extraGenerator, poly.Evaluate(0))), hash)
  {
    if t < 1 then Err(InvalidThreshold)
    else
      var gen := G.FromScalar(genScalar);
      var secret := poly.AtZero();
      var gS := G.FromScalar(secret);
      var dleq := D.DLEQ(G.Generator(), gS, gen, G.Mul(gen, secret));
      var proof := D.Create(nonce, secret, dleq, hash);
      Ok(Escrow(gen, poly, gS, proof))
  }

  /** The commitments of an escrow, one per coefficient in coefficient order. */
  function CommitmentsOf(escrow: Escrow): (cs: seq<Commitment>)
    ensures |cs| == escrow.polynomial.Len()
  {
    var a := escrow.polynomial.elements;
    seq(|a|, j requires 0 <= j < |a| => Commitment(G.Mul(escrow.extraGenerator, a[j])))
  }

  /** `commitments(escrow)`: `C_j = h^{a_j}` for every coefficient, and nothing else. */
  method Commitments(escrow: Escrow) returns (commitments: seq<Commitment>)
    ensures commitments == CommitmentsOf(escrow)
    ensures |commitments| == escrow.polynomial.Len()
    ensures forall j :: 0 <= j < |commitments| ==>
      commitments[j].point == G.Mul(escrow.extraGenerator, escrow.polynomial.elements[j])
  {
    commitments := [];
    var i := 0;
    while i < escrow.polynomial.Len()
      invariant 0 <= i <= escrow.polynomial.Len()
      invariant commitments == CommitmentsOf(escrow)[..i]
    {
      var com := Commitment(G.Mul(escrow.extraGenerator, escrow.polynomial.elements[i]));
      commitments := commitments + [com];
      i := i + 1;
    }
  }

  /** `create_share`. `nonce` stands for the proof's `Scalar::generate()`. */
  function CreateShare(escrow: Escrow, shareId: ShareId, public: PublicKey, nonce: F.Scalar, hash: D.Hash)
    : (r: Result<EncryptedShare>)
    ensures r.Err? <==> shareId == 0
    ensures r.Err? ==> r.error == ZeroShareId
    ensures r.Ok? ==>
      r.value.id == shareId &&
      r.value.encryptedVal == G.Mul(public.point, escrow.polynomial.Evaluate(F.FromNat(shareId)))
    ensures r.Ok? ==> var peval := escrow.polynomial.Evaluate(F.FromNat(shareId));
      r.value.proof == D.Create(nonce, peval, D.DLEQ(escrow.extraGenerator, G.Mul(escrow.extraGenerator, peval),
                                                     public.point, r.value.encryptedVal), hash)
  {
    if shareId == 0 then Err(ZeroShareId)
    else
      var peval := escrow.polynomial.Evaluate(F.FromNat(shareId));
      var xi := G.Mul(escrow.extraGenerator, peval);
      var yi := G.Mul(public.point, peval);
      var dleq := D.DLEQ(escrow.extraGenerator, xi, public.point, yi);
      var proof := D.Create(nonce, peval, dleq, hash);
      Ok(EncryptedShare(shareId, yi, proof))
  }

  /** `create_shares`: the k-th key (from 0) gets share id `k + 1`. An id that
      would wrap around to 0 in 32 bits makes `create_share` fail. */
  function CreateShares(escrow: Escrow, pubs: seq<PublicKey>, nonces: seq<F.Scalar>, hash: D.Hash)
    : (r: Result<seq<EncryptedShare>>)
    requires |nonces| == |pubs|
    ensures r.Err? <==> |pubs| >= 0x1_0000_0000
    ensures r.Ok? ==> |r.value| == |pubs|
    ensures r.Ok? ==> forall k :: 0 <= k < |pubs| ==>
                        r.value[k].id == k + 1 &&
                        CreateShare(escrow, k + 1, pubs[k], nonces[k], hash) == Ok(r.value[k])
  {
    if |pubs| >= 0x1_0000_0000 then Err(ZeroShareId)
    else
      Ok(seq(|pubs|, k requires 0 <= k < |pubs| => CreateShare(escrow, k + 1, pubs[k], nonces[k], hash).value))
  }

  /** The discrete logarithms of the commitments: the polynomial they commit to, in the exponent. */
  function CommittedPolynomial(commitments: seq<Commitment>): (p: P.Polynomial)
    ensures |p.elements| == |commitments|
  {
    P.Polynomial(seq(|commitments|, j requires 0 <= j < |commitments| => commitments[j].point.log))
  }

  /** `prod_j C_j^{id^j}`: the committed polynomial evaluated at `id`, in the exponent. */
  function Xi(id: ShareId, commitments: seq<Commitment>): G.Point
  {
    G.FromScalar(CommittedPolynomial(commitments).Evaluate(F.FromNat(id)))
  }

  /** `create_xi`. */
  method CreateXi(id: ShareId, commitments: seq<Commitment>) returns (r: G.Point)
    ensures r == Xi(id, commitments)
  {
    ghost var x := F.FromNat(id);
    ghost var a := CommittedPolynomial(commitments).elements;
    r := G.Infinity();
    var j := 0;
    while j < |commitments|
      invariant 0 <= j <= |commitments|
      invariant r.log == F.Sum(P.Monomials(a[..j], x))
    {
      var e := F.Pow(F.FromNat(id), j);
      MonomialsStep(a, x, j);
      r := G.Add(r, G.Mul(commitments[j].point, e));
      j := j + 1;
    }
    assert a[..j] == a;
  }

  /** Adding the `j`-th monomial to the partial sum of the first `j`. */
  lemma MonomialsStep(a: seq<F.Scalar>, x: F.Scalar, j: nat)
    requires j < |a|
    ensures F.Sum(P.Monomials(a[..j + 1], x)) == F.Add(F.Sum(P.Monomials(a[..j], x)), F.Mul(a[j], F.Pow(x, j)))
  {
    assert P.Monomials(a[..j + 1], x)[..j] == P.Monomials(a[..j], x);
  }

  /** `decrypt_share`: raise the encrypted value to `x^{-1}` and prove it with witness `x`. */
  function DecryptShare(private: PrivateKey, public: PublicKey, share: EncryptedShare, nonce: F.Scalar, hash: D.Hash)
    : (r: DecryptedShare)
    requires private.scalar != 0
    ensures r.id == share.id
    ensures G.Mul(r.decryptedVal, private.scalar) == share.encryptedVal
    ensures r.proof == D.Create(nonce, private.scalar,
                                D.DLEQ(G.Generator(), public.point, r.decryptedVal, share.encryptedVal), hash)
  {
    var xi := private.scalar;
    var xiInverse := F.Inverse(xi);
    var si := G.Mul(share.encryptedVal, xiInverse);
    var dleq := D.DLEQ(G.Generator(), public.point, si, share.encryptedVal);
    var proof := D.Create(nonce, xi, dleq, hash);
    DecryptionInverts(share.encryptedVal, xi);
    DecryptedShare(share.id, si, proof)
  }

  lemma DecryptionInverts(y: G.Point, x: F.Scalar)
    requires x != 0
    ensures G.Mul(G.Mul(y, F.Inverse(x)), x) == y
  {
    G.MulAssoc(y, F.Inverse(x), x);
    F.MulComm(F.Inverse(x), x);
    F.MulOne(y.log);
  }

  /** The share ids as scalars, `Scalar::from_u32(id)`. */
  function Ids(shares: seq<DecryptedShare>): (xs: seq<F.Scalar>)
    ensures |xs| == |shares|
  {
    seq(|shares|, i requires 0 <= i < |shares| => F.FromNat(shares[i].id))
  }

  /** The exponents of the decrypted values. */
  function Exponents(shares: seq<DecryptedShare>): (vs: seq<F.Scalar>)
    ensures |vs| == |shares|
  {
    seq(|shares|, i requires 0 <= i < |shares| => shares[i].decryptedVal.log)
  }

  /** `interpolate_one`: the Lagrange coefficient at zero of share `sid` among the first `t`. */
  method InterpolateOne(t: Threshold, sid: nat, shares: seq<DecryptedShare>) returns (v: F.Scalar)
    requires sid < t <= |shares|
    requires L.Distinct(Ids(shares[..t]))
    ensures v == L.Coeff(Ids(shares[..t]), sid)
  {
    ghost var xs := Ids(shares[..t]);
    v := F.FromNat(1);
    var j := 0;
    while j < t
      invariant 0 <= j <= t
      invariant v == L.PartialCoeff(xs, sid, j)
    {
      if j != sid {
        var sj := F.FromNat(shares[j].id);
        var si := F.FromNat(shares[sid].id);
        assert sj == xs[j] && si == xs[sid];
        var d := F.Sub(sj, si);
        F.SubZeroIff(sj, si);
        var dinv := F.Inverse(d);
        var e := F.Mul(sj, dinv);
        v := F.Mul(v, e);
      }
      j := j + 1;
    }
  }

  /** `recover`: fails exactly when fewer than `t` shares are given, and
      otherwise combines the first `t` decrypted values with their Lagrange
      coefficients at zero. */
  method Recover(t: Threshold, shares: seq<DecryptedShare>) returns (r: Result<Secret>)
    requires t <= |shares| ==> L.Distinct(Ids(shares[..t]))
    ensures r.Err? <==> t > |shares|
    ensures r.Err? ==> r.error == NotEnoughShares
    ensures r.Ok? ==> r.value == G.FromScalar(L.Combine(Ids(shares[..t]), Exponents(shares[..t])))
  {
    if t > |shares| {
      return Err(NotEnoughShares);
    }
    ghost var xs := Ids(shares[..t]);
    ghost var ts := L.Terms(xs, Exponents(shares[..t]));
    var result := G.Infinity();
    var i := 0;
    while i < t
      invariant 0 <= i <= t
      invariant result.log == F.Sum(ts[..i])
    {
      var v := InterpolateOne(t, i, shares);
      assert ts[..i + 1][..i] == ts[..i];
      result := G.Add(result, G.Mul(shares[i].decryptedVal, v));
      i := i + 1;
    }
    assert ts[..i] == ts;
    return Ok(result);
  }

  /** `verify_secret`: check the escrow's proof against the first commitment.
      For an exponent `a` with `secret = g^a` and `commitments[0] = h^a`,
      exactly the proofs `escrow` makes with `a` and nonce `z - a * c` are accepted. */
  function VerifySecret(secret: Secret, extraGenerator: G.Point, commitments: seq<Commitment>, proof: D.Proof, hash: D.Hash)
    : (ok: bool)
    requires |commitments| >= 1
    ensures ok == D.Verify(proof, D.DLEQ(G.Generator(), secret, extraGenerator, commitments[0].point), hash)
    ensures forall a :: D.Holds(SecretStatement(secret, extraGenerator, commitments[0].point), a) ==>
      (ok <==> proof == D.Create(F.Sub(proof.z, F.Mul(a, proof.c)), a,
                                 SecretStatement(secret, extraGenerator, commitments[0].point), hash))
  {
    D.Verify(proof, SecretStatement(secret, extraGenerator, commitments[0].point), hash)
  }

  // ---- properties of the scheme ----

  /** Polynomial evaluation in the exponent: `create_xi` over an escrow's
      commitments is `h^{p(id)}`. */
  lemma XiOfEscrow(escrow: Escrow, id: ShareId)
    ensures Xi(id, CommitmentsOf(escrow)) == G.Mul(escrow.extraGenerator, escrow.polynomial.Evaluate(F.FromNat(id)))
  {
    var cp := CommittedPolynomial(CommitmentsOf(escrow));
    P.EvaluateScaled(escrow.polynomial, cp, escrow.extraGenerator.log, F.FromNat(id));
  }

  /** An encrypted share made by `create_share` passes `EncryptedShare::verify`
      against the same escrow's commitments. */
  lemma EncryptedShareComplete(escrow: Escrow, shareId: ShareId, public: PublicKey, nonce: F.Scalar, hash: D.Hash)
    requires shareId != 0
    ensures var s := CreateShare(escrow, shareId, public, nonce, hash).value;
      D.Verify(s.proof, D.DLEQ(escrow.extraGenerator, Xi(shareId, CommitmentsOf(escrow)), public.point, s.encryptedVal), hash)
  {
    var peval := escrow.polynomial.Evaluate(F.FromNat(shareId));
    XiOfEscrow(escrow, shareId);
    var dleq := D.DLEQ(escrow.extraGenerator, G.Mul(escrow.extraGenerator, peval), public.point, G.Mul(public.point, peval));
    D.Completeness(nonce, peval, dleq, hash);
  }

  /** Decryption yields `g^{p(id)}`: for `public = g^x` and an encrypted value
      `public^s`, the decrypted value is `g^s`. */
  lemma DecryptionCorrect(private: PrivateKey, public: PublicKey, share: EncryptedShare, nonce: F.Scalar, hash: D.Hash, s: F.Scalar)
    requires private.scalar != 0 && IsKeyPair(private, public)
    requires share.encryptedVal == G.Mul(public.point, s)
    ensures DecryptShare(private, public, share, nonce, hash).decryptedVal == G.FromScalar(s)
  {
    var x := private.scalar;
    var d := DecryptShare(private, public, share, nonce, hash);
    assert G.Mul(d.decryptedVal, x) == G.Mul(G.FromScalar(s), x) by {
      F.MulComm(x, s);
    }
    F.MulComm(d.decryptedVal.log, x);
    F.MulComm(s, x);
    F.MulCancel(x, d.decryptedVal.log, s);
  }

  /** A decrypted share made by `decrypt_share` with a key pair passes `DecryptedShare::verify`. */
  lemma DecryptedShareComplete(private: PrivateKey, public: PublicKey, share: EncryptedShare, nonce: F.Scalar, hash: D.Hash)
    requires private.scalar != 0 && IsKeyPair(private, public)
    ensures DecryptShare(private, public, share, nonce, hash).Verify(public, share, hash)
  {
    var x := private.scalar;
    var d := DecryptShare(private, public, share, nonce, hash);
    var dleq := D.DLEQ(G.Generator(), public.point, d.decryptedVal, share.encryptedVal);
    F.MulOne(x);
    D.Completeness(nonce, x, dleq, hash);
  }

  /** The escrow's proof passes `verify_secret` against its own commitments. */
  lemma SecretComplete(t: Threshold, poly: P.Polynomial, genScalar: F.Scalar, nonce: F.Scalar, hash: D.Hash)
    requires t >= 1 && poly.Len() == t
    ensures var e := CreateEscrow(t, poly, genScalar, nonce, hash).value;
      VerifySecret(e.secret, e.extraGenerator, CommitmentsOf(e), e.proof, hash)
  {
    var e := CreateEscrow(t, poly, genScalar, nonce, hash).value;
    var a0 := poly.Evaluate(0);
    P.EvaluateAtZero(poly);
    F.MulOne(a0);
    D.Completeness(nonce, a0, SecretStatement(e.secret, e.extraGenerator, G.Mul(e.extraGenerator, a0)), hash);
  }

  /** Reconstruction: `t` shares with pairwise-distinct ids whose decrypted
      values are `g^{p(id)}`, for a polynomial with at most `t` coefficients,
      recover `g^{p(0)}`. */
  lemma RecoverCorrect(t: Threshold, shares: seq<DecryptedShare>, p: P.Polynomial)
    requires t <= |shares| && L.Distinct(Ids(shares[..t]))
    requires |p.elements| <= t
    requires forall i :: 0 <= i < t ==> shares[i].decryptedVal == G.FromScalar(p.Evaluate(F.FromNat(shares[i].id)))
    ensures G.FromScalar(L.Combine(Ids(shares[..t]), Exponents(shares[..t]))) == G.FromScalar(p.Evaluate(0))
  {
    var xs := Ids(shares[..t]);
    assert Exponents(shares[..t]) == L.Values(p, xs);
    L.InterpolateAtZero(xs, p);
  }

  /** Every participant decrypts their own share. */
  function DecryptAll(privs: seq<PrivateKey>, pubs: seq<PublicKey>, shares: seq<EncryptedShare>,
                      nonces: seq<F.Scalar>, hash: D.Hash): seq<DecryptedShare>
    requires |privs| == |pubs| == |shares| == |nonces|
    requires forall k :: 0 <= k < |privs| ==> privs[k].scalar != 0
  {
    seq(|privs|, k requires 0 <= k < |privs| => DecryptShare(privs[k], pubs[k], shares[k], nonces[k], hash))
  }

  /** Ids `1, 2, ..., n` below the field order are pairwise distinct scalars. */
  lemma ConsecutiveIdsDistinct(ds: seq<DecryptedShare>, t: nat)
    requires t <= |ds| < F.Q
    requires forall k :: 0 <= k < |ds| ==> ds[k].id == k + 1
    ensures L.Distinct(Ids(ds[..t]))
  {
    var xs := Ids(ds[..t]);
    forall i, j | 0 <= i < t && 0 <= j < t && i != j
      ensures xs[i] != xs[j]
    {
      assert xs[i] == i + 1 && xs[j] == j + 1;
    }
  }

  /** End to end: shares created for the key pairs, decrypted by their owners,
      and recovered from the first `t` give back the escrow's secret. */
  lemma EndToEnd(t: Threshold, poly: P.Polynomial, genScalar: F.Scalar, nonce: F.Scalar, hash: D.Hash,
                 privs: seq<PrivateKey>, pubs: seq<PublicKey>, shareNonces: seq<F.Scalar>, decNonces: seq<F.Scalar>)
    requires t >= 1 && poly.Len() == t
    requires |privs| == |pubs| == |shareNonces| == |decNonces| && t <= |pubs| < F.Q
    requires |pubs| < 0x1_0000_0000
    requires forall k :: 0 <= k < |pubs| ==> privs[k].scalar != 0 && IsKeyPair(privs[k], pubs[k])
    ensures var e := CreateEscrow(t, poly, genScalar, nonce, hash).value;
      var decrypted := DecryptAll(privs, pubs, CreateShares(e, pubs, shareNonces, hash).value, decNonces, hash);
      L.Distinct(Ids(decrypted[..t])) &&
      G.FromScalar(L.Combine(Ids(decrypted[..t]), Exponents(decrypted[..t]))) == e.secret
  {
    var e := CreateEscrow(t, poly, genScalar, nonce, hash).value;
    var shares := CreateShares(e, pubs, shareNonces, hash).value;
    var decrypted := DecryptAll(privs, pubs, shares, decNonces, hash);
    forall k | 0 <= k < |pubs|
      ensures decrypted[k].id == k + 1
      ensures decrypted[k].decryptedVal == G.FromScalar(poly.Evaluate(F.FromNat(decrypted[k].id)))
    {
      assert CreateShare(e, k + 1, pubs[k], shareNonces[k], hash) == Ok(shares[k]);
      DecryptionCorrect(privs[k], pubs[k], shares[k], decNonces[k], hash, poly.Evaluate(F.FromNat(k + 1)));
    }
    ConsecutiveIdsDistinct(decrypted, t);
    RecoverCorrect(t, decrypted, poly);
  }
}
