/** Parallel discrete-log-equality proofs (src/pdleq.rs).

    `n` statements `(g1_i, h1_i, g2_i, h2_i)` are proved under one
    Fiat-Shamir challenge `c`, hashed from the transcript
    `[h1_1, h2_1, ..., h1_n, h2_n, a1_1, a2_1, ..., a1_n, a2_n]`; the proof
    carries `c` and one response `z_i = w_i + e_i * c` per statement.
 */
module Pdleq {
  import F = Field
  import G = Group
  import D = Dleq

  /** One entry of `params`: the nonce `w`, the witness `e` and the statement. */
  datatype Param = Param(w: F.Scalar, e: F.Scalar, dleq: D.DLEQ)

  datatype Proof = Proof(c: F.Scalar, zs: seq<F.Scalar>)

  /** The statements of the parameters, in parameter order. */
  function Statements(params: seq<Param>): (ds: seq<D.DLEQ>)
    ensures |ds| == |params|
    ensures forall i :: 0 <= i < |params| ==> ds[i] == params[i].dleq
  {
    seq(|params|, i requires 0 <= i < |params| => params[i].dleq)
  }

  /** The first half of the transcript: every `h1_i, h2_i` pair in statement order. */
  function Bases(ds: seq<D.DLEQ>): (r: seq<G.Point>)
    ensures |r| == 2 * |ds|
  {
    if |ds| == 0 then []
    else
      var last := ds[|ds| - 1];
      Bases(ds[..|ds| - 1]) + [last.h1, last.h2]
  }

  /** The prover's commitments `a1_i = g1_i^{w_i}`, `a2_i = g2_i^{w_i}`, in statement order. */
  function Announcements(params: seq<Param>): (r: seq<G.Point>)
    ensures |r| == 2 * |params|
  {
    if |params| == 0 then []
    else
      var last := params[|params| - 1];
      Announcements(params[..|params| - 1]) + [G.Mul(last.dleq.g1, last.w), G.Mul(last.dleq.g2, last.w)]
  }

  /** The verifier's commitments `g1_i^{z_i} - h1_i^c`, `g2_i^{z_i} - h2_i^c`, in statement order. */
  function Recomputed(ds: seq<D.DLEQ>, zs: seq<F.Scalar>, c: F.Scalar): (r: seq<G.Point>)
    requires |zs| == |ds|
    ensures |r| == 2 * |ds|
  {
    if |ds| == 0 then []
    else
      var n := |ds| - 1;
      Recomputed(ds[..n], zs[..n], c) + [D.Recommit(ds[n].g1, ds[n].h1, zs[n], c), D.Recommit(ds[n].g2, ds[n].h2, zs[n], c)]
  }

  /** One response `w_i + e_i * c` per parameter, in parameter order. */
  function Responses(params: seq<Param>, c: F.Scalar): (zs: seq<F.Scalar>)
    ensures |zs| == |params|
  {
    if |params| == 0 then []
    else
      var last := params[|params| - 1];
      Responses(params[..|params| - 1], c) + [D.Response(last.w, last.e, c)]
  }

  lemma {:induction false} BasesAt(ds: seq<D.DLEQ>, i: nat)
    requires i < |ds|
    ensures Bases(ds)[2 * i] == ds[i].h1 && Bases(ds)[2 * i + 1] == ds[i].h2
  {
    var n := |ds| - 1;
    if i < n {
      BasesAt(ds[..n], i);
    }
  }

  lemma {:induction false} AnnouncementsAt(params: seq<Param>, i: nat)
    requires i < |params|
    ensures Announcements(params)[2 * i] == G.Mul(params[i].dleq.g1, params[i].w)
    ensures Announcements(params)[2 * i + 1] == G.Mul(params[i].dleq.g2, params[i].w)
  {
    var n := |params| - 1;
    if i < n {
      AnnouncementsAt(params[..n], i);
    }
  }

  lemma {:induction false} RecomputedAt(ds: seq<D.DLEQ>, zs: seq<F.Scalar>, c: F.Scalar, i: nat)
    requires |zs| == |ds| && i < |ds|
    ensures Recomputed(ds, zs, c)[2 * i] == D.Recommit(ds[i].g1, ds[i].h1, zs[i], c)
    ensures Recomputed(ds, zs, c)[2 * i + 1] == D.Recommit(ds[i].g2, ds[i].h2, zs[i], c)
  {
    var n := |ds| - 1;
    if i < n {
      RecomputedAt(ds[..n], zs[..n], c, i);
    }
  }

  lemma {:induction false} ResponsesAt(params: seq<Param>, c: F.Scalar, i: nat)
    requires i < |params|
    ensures Responses(params, c)[i] == D.Response(params[i].w, params[i].e, c)
  {
    var n := |params| - 1;
    if i < n {
      ResponsesAt(params[..n], c, i);
    }
  }

  /** The proof that `create` returns. */
  function ProofOf(params: seq<Param>, hash: D.Hash): Proof
  {
    var c := hash(Bases(Statements(params)) + Announcements(params));
    Proof(c, Responses(params, c))
  }

  /** The verdict that `verify` returns. */
  function Accepts(proof: Proof, ds: seq<D.DLEQ>, hash: D.Hash): bool
  {
    |ds| == |proof.zs| && proof.c == hash(Bases(ds) + Recomputed(ds, proof.zs, proof.c))
  }

  /** `Proof::create`. */
  method Create(params: seq<Param>, hash: D.Hash) returns (proof: Proof)
    ensures proof == ProofOf(params, hash)
    ensures proof.c == hash(Bases(Statements(params)) + Announcements(params))
    ensures |proof.zs| == |params|
    ensures forall i :: 0 <= i < |params| ==> proof.zs[i] == F.Add(params[i].w, F.Mul(params[i].e, proof.c))
  {
    var his: seq<G.Point> := [];
    var ais: seq<G.Point> := [];
    var i := 0;
    ghost var ds := Statements(params);
    while i < |params|
      invariant 0 <= i <= |params|
      invariant his == Bases(ds[..i])
      invariant ais == Announcements(params[..i])
    {
      var p := params[i];
      PrefixStep(params, i);
      his := his + [p.dleq.h1];
      his := his + [p.dleq.h2];
      ais := ais + [G.Mul(p.dleq.g1, p.w)];
      ais := ais + [G.Mul(p.dleq.g2, p.w)];
      i := i + 1;
    }
    assert params[..i] == params && ds[..i] == ds;
    his := his + ais;
    var c := hash(his);

    var zs: seq<F.Scalar> := [];
    i := 0;
    while i < |params|
      invariant 0 <= i <= |params|
      invariant zs == Responses(params[..i], c)
    {
      assert params[..i + 1][..i] == params[..i];
      var z := F.Add(params[i].w, F.Mul(params[i].e, c));
      zs := zs + [z];
      i := i + 1;
    }
    assert params[..i] == params;
    proof := Proof(c, zs);
    forall k | 0 <= k < |params|
      ensures proof.zs[k] == F.Add(params[k].w, F.Mul(params[k].e, proof.c))
    {
      ResponsesAt(params, c, k);
    }
  }

  lemma PrefixStep(params: seq<Param>, i: nat)
    requires i < |params|
    ensures Bases(Statements(params)[..i + 1]) == Bases(Statements(params)[..i]) + [params[i].dleq.h1, params[i].dleq.h2]
    ensures Announcements(params[..i + 1]) ==
      Announcements(params[..i]) + [G.Mul(params[i].dleq.g1, params[i].w), G.Mul(params[i].dleq.g2, params[i].w)]
  {
    assert params[..i + 1][..i] == params[..i];
    var ds := Statements(params);
    assert ds[..i + 1][..i] == ds[..i];
  }

  /** `Proof::verify`: a statement list of the wrong length is rejected. */
  method Verify(proof: Proof, ds: seq<D.DLEQ>, hash: D.Hash) returns (ok: bool)
    ensures ok == Accepts(proof, ds, hash)
    ensures |ds| != |proof.zs| ==> !ok
  {
    if |ds| != |proof.zs| {
      return false;
    }
    var his: seq<G.Point> := [];
    var ais: seq<G.Point> := [];
    var i := 0;
    while i < |proof.zs|
      invariant 0 <= i <= |proof.zs|
      invariant his == Bases(ds[..i])
      invariant ais == Recomputed(ds[..i], proof.zs[..i], proof.c)
    {
      var z := proof.zs[i];
      var d := ds[i];
      var r1 := G.Mul(d.g1, z);
      var r2 := G.Mul(d.g2, z);
      var a1 := G.Sub(r1, G.Mul(d.h1, proof.c));
      var a2 := G.Sub(r2, G.Mul(d.h2, proof.c));
      assert ds[..i + 1][..i] == ds[..i];
      assert proof.zs[..i + 1][..i] == proof.zs[..i];
      his := his + [d.h1, d.h2];
      ais := ais + [a1, a2];
      i := i + 1;
    }
    assert ds[..i] == ds && proof.zs[..i] == proof.zs;
    his := his + ais;
    var c := hash(his);
    ok := proof.c == c;
  }

  /** The transcript layout: length `4n`, the `h` pairs first, then the commitments. */
  lemma TranscriptLayout(params: seq<Param>)
    ensures var t := Bases(Statements(params)) + Announcements(params);
      var n := |params|;
      |t| == 4 * n &&
      forall i :: 0 <= i < n ==>
        t[2 * i] == params[i].dleq.h1 && t[2 * i + 1] == params[i].dleq.h2 &&
        t[2 * n + 2 * i] == G.Mul(params[i].dleq.g1, params[i].w) &&
        t[2 * n + 2 * i + 1] == G.Mul(params[i].dleq.g2, params[i].w)
  {
    var ds := Statements(params);
    forall i | 0 <= i < |params|
      ensures Bases(ds)[2 * i] == params[i].dleq.h1 && Bases(ds)[2 * i + 1] == params[i].dleq.h2
      ensures Announcements(params)[2 * i] == G.Mul(params[i].dleq.g1, params[i].w)
      ensures Announcements(params)[2 * i + 1] == G.Mul(params[i].dleq.g2, params[i].w)
    {
      BasesAt(ds, i);
      AnnouncementsAt(params, i);
    }
  }

  /** For honest statements the verifier recomputes exactly the prover's commitments. */
  lemma {:induction false} RecomputedHonest(params: seq<Param>, c: F.Scalar)
    requires forall i :: 0 <= i < |params| ==> D.Holds(params[i].dleq, params[i].e)
    ensures Recomputed(Statements(params), Responses(params, c), c) == Announcements(params)
  {
    var ds, zs := Statements(params), Responses(params, c);
    var r, a := Recomputed(ds, zs, c), Announcements(params);
    forall k | 0 <= k < |r|
      ensures r[k] == a[k]
    {
      var i := k / 2;
      var p := params[i];
      RecomputedAt(ds, zs, c, i);
      AnnouncementsAt(params, i);
      ResponsesAt(params, c, i);
      D.RecommitHonest(p.dleq.g1, p.e, p.w, c);
      D.RecommitHonest(p.dleq.g2, p.e, p.w, c);
      assert k == 2 * i || k == 2 * i + 1;
    }
  }

  /** Completeness: `create(params).verify(statements of params)` holds for honest statements. */
  lemma Completeness(params: seq<Param>, hash: D.Hash)
    requires forall i :: 0 <= i < |params| ==> D.Holds(params[i].dleq, params[i].e)
    ensures Accepts(ProofOf(params, hash), Statements(params), hash)
  {
    var c := hash(Bases(Statements(params)) + Announcements(params));
    RecomputedHonest(params, c);
  }

  /** For one statement, `create` produces the single-statement proof. */
  lemma CreateAgreesWithSingle(w: F.Scalar, e: F.Scalar, d: D.DLEQ, hash: D.Hash)
    ensures var single := D.Create(w, e, d, hash);
      ProofOf([Param(w, e, d)], hash) == Proof(single.c, [single.z])
  {
    var params := [Param(w, e, d)];
    assert params[..0] == [];
    assert Statements(params) == [d];
    assert [d][..0] == [];
    var t := [d.h1, d.h2, G.Mul(d.g1, w), G.Mul(d.g2, w)];
    assert Bases(Statements(params)) + Announcements(params) == t;
    var c := hash(t);
    assert Responses(params, c) == [D.Response(w, e, c)];
  }

  /** For one statement, `verify` accepts exactly what the single-statement check accepts. */
  lemma VerifyAgreesWithSingle(c: F.Scalar, z: F.Scalar, d: D.DLEQ, hash: D.Hash)
    ensures Accepts(Proof(c, [z]), [d], hash) <==> D.Verify(D.Proof(c, z), d, hash)
  {
    assert [d][..0] == [];
    assert [z][..0] == [];
    var t := [d.h1, d.h2, D.Recommit(d.g1, d.h1, z, c), D.Recommit(d.g2, d.h2, z, c)];
    assert Bases([d]) + Recomputed([d], [z], c) == t;
  }
}
