# rust-pvss: a verified model of simple PVSS and parallel DLEQ proofs

This project models the core of `rust-pvss`, a Rust library for Schoenmakers'
publicly verifiable secret sharing (PVSS).

- A dealer creates an escrow. The escrow holds a random polynomial `p` of
  degree `t - 1`, an extra generator `h` and the public secret `g^{p(0)}`, together
  with a proof that `g^{p(0)}` and `h^{p(0)}` share one exponent.
- The dealer publishes commitments `h^{a_j}` to the coefficients.
- The dealer encrypts one share `pub_k^{p(k+1)}` per participant key, each with a
  discrete-log-equality (DLEQ) proof. Anyone can check such a share against the
  commitments.
- A participant decrypts a share to `g^{p(id)}` with their private key, and proves
  that the decryption is correct.
- Any `t` decrypted shares with distinct ids recover `g^{p(0)}` by Lagrange
  interpolation at zero, done in the exponent.

The DLEQ proofs are non-interactive Chaum-Pedersen proofs made with the
Fiat-Shamir transform. `src/pdleq.rs` proves several DLEQ statements under one
shared challenge.

The group is modelled through discrete logarithms. A scalar is an integer
modulo a fixed but arbitrary prime `Q` (`Field`). A point `g^x` is represented
by its exponent `x` (`Group`), so the group operation is addition of exponents
and `mul` is multiplication. Every proof therefore holds for every prime
order. The Fiat-Shamir hash `Scalar::hash_points` is a parameter `hash` of
every proof operation, so every result holds for every hash function. All
randomness is passed in explicitly: proof nonces, polynomial coefficients and
the extra generator's scalar.

Modules:

- `Field`: scalars mod `Q`, the modular inverse (extended Euclid), the ring laws and sums.
- `Group`: points as exponents.
- `Types`: share ids and thresholds (32-bit), keys, errors, `Result`.
- `Polynomial`: coefficient sequences, evaluation, Horner's rule.
- `Dleq`: the single-statement proof, which `src/simple.rs` uses.
- `Pdleq`: the parallel proof of `src/pdleq.rs`. Its `Create` and `Verify` are
  loops over the parameter list.
- `Lagrange`: Lagrange coefficients at zero, with the interpolation theorem.
- `Simple`: the PVSS operations of `src/simple.rs`. `Commitments`, `CreateXi`,
  `InterpolateOne` and `Recover` are loops. The rest are expressions.

`assert!` failures in the source are modelled as `Err` results:
- `escrow` with `t < 1` gives `InvalidThreshold`.
- `create_share` with id 0 gives `ZeroShareId`.
- `create_shares` fails the same way when some index `k + 1` would wrap to 0 as a `u32`.

`recover`'s `Err(())` is modelled as `NotEnoughShares`.

## Model

| member | source | states |
|---|---|---|
| Pdleq.Create | src/pdleq.rs:14-40 | The challenge is the hash of `[h1_1, h2_1, ..., h1_n, h2_n, a1_1, a2_1, ..., a1_n, a2_n]` with `a1_i = g1_i^{w_i}` and `a2_i = g2_i^{w_i}`. There is exactly one response per parameter, and `z_i = w_i + e_i * c`. |
| Pdleq.Verify | src/pdleq.rs:42-69 | Accepts exactly when the statement list has as many entries as the proof has responses and the challenge equals the hash of `[h1_i, h2_i ...] ++ [g1_i^{z_i} - h1_i^c, g2_i^{z_i} - h2_i^c ...]` in statement order. A statement list of a different length gives `false`. |
| Pdleq.TranscriptLayout | src/pdleq.rs:19-31 | The hashed transcript has length `4n`. Entries `2i` and `2i+1` are `h1_i` and `h2_i`. Entries `2n+2i` and `2n+2i+1` are `g1_i^{w_i}` and `g2_i^{w_i}`. |
| Pdleq.ResponsesAt | src/pdleq.rs:33-38 | The `i`-th response is `w_i + e_i * c`. |
| Pdleq.RecomputedAt | src/pdleq.rs:52-62 | The verifier's `i`-th recomputed pair is `g1_i^{z_i} - h1_i^c` and `g2_i^{z_i} - h2_i^c`. |
| Pdleq.RecomputedHonest | src/pdleq.rs:51-63 | When every statement holds with its witness, the verifier recomputes exactly the prover's commitments `a1_i` and `a2_i`. |
| Pdleq.Completeness | src/pdleq.rs:14-69 | A proof created for statements that hold verifies against those statements, in the same order. |
| Pdleq.CreateAgreesWithSingle | src/pdleq.rs:14-40 | For one parameter, `create` gives the single-statement proof: the same challenge and the same one response. |
| Pdleq.VerifyAgreesWithSingle | src/pdleq.rs:42-69 | For one statement, `verify` accepts exactly the proofs that the single-statement check accepts. |
| Dleq.RecommitHonest | src/pdleq.rs:55-58 | For `h = g^e` and `z = w + e * c`, the recomputed `g^z - h^c` is the commitment `g^w`. |
| Dleq.Create | src/simple.rs:49-55 | The single-statement proof `Proof::create(w, e, statement)`: the challenge is the hash of `[h1, h2, g1^w, g2^w]` and the response is `z = w + e * c`. |
| Dleq.Verify | src/simple.rs:202-208 | The single-statement `Proof::verify(statement)`. For a statement that holds with witness `e`, it accepts exactly the proofs that `create` makes with witness `e` and nonce `z - e * c`. |
| Dleq.Completeness | src/simple.rs:55 | An honestly created single-statement proof of a true statement verifies. |
| Simple.CreateEscrow | src/simple.rs:39-63 | Fails with `InvalidThreshold` exactly when `t < 1`. Otherwise: the polynomial has `t` coefficients, the extra generator is `g^{genScalar}`, and the secret is `g^{p(0)}`. The proof is made with witness `p(0)` for the statement `(g, secret), (h, h^{p(0)})`. |
| Simple.Commitments | src/simple.rs:65-73 | Returns exactly one commitment per coefficient, and the `j`-th is `h^{a_j}`. |
| Simple.CreateShare | src/simple.rs:75-94 | Fails with `ZeroShareId` exactly when the id is 0. Otherwise the share keeps the id and encrypts `public^{p(id)}`. Its proof is made with witness `p(id)` for the statement `(h, h^{p(id)}), (public, public^{p(id)})`. |
| Simple.CreateShares | src/simple.rs:96-104 | Gives one share per key, and the `k`-th share is `create_share` with id `k + 1`. Fails exactly when the list has `2^32` or more keys, because an id would then wrap to 0 in 32 bits. |
| Simple.CreateXi | src/simple.rs:106-113 | The product of `C_j^{id^j}` is `g` raised to the polynomial whose coefficients are the commitments' exponents, evaluated at `id`. |
| Simple.XiOfEscrow | src/simple.rs:106-113 | Over an escrow's own commitments, `create_xi(id)` is `h^{p(id)}`. |
| Simple.EncryptedShare.Verify | src/simple.rs:115-130 | The verdict is the DLEQ check of the share's proof against `(h, create_xi(id, commitments)), (public, encrypted value)`. |
| Simple.EncryptedShareComplete | src/simple.rs:75-130 | A share from `create_share` with id `id != 0` passes `EncryptedShare::verify` against the same escrow's commitments. |
| Simple.DecryptShare | src/simple.rs:145-167 | Keeps the share id. The decrypted value raised to the private scalar `x` gives the encrypted value back. Its proof is made with witness `x` for the statement `(g, public), (decrypted value, encrypted value)`. |
| Simple.DecryptionInverts | src/simple.rs:153-154 | `(Y^{x^{-1}})^x = Y` for every nonzero `x`. |
| Simple.DecryptionCorrect | src/simple.rs:145-167 | For a key pair `public = g^x` and an encrypted value `public^s`, the decrypted value is `g^s`. |
| Simple.DecryptedShare.Verify | src/simple.rs:133-143 | The verdict is the DLEQ check of the decrypted share's proof against `(g, public), (decrypted value, the encrypted share's value)`. When that statement holds with witness `x`, it accepts exactly the proofs made with witness `x` and nonce `z - x * c`. |
| Simple.DecryptedShareComplete | src/simple.rs:133-167 | A share from `decrypt_share` with a key pair passes `DecryptedShare::verify` against its encrypted share. |
| Simple.VerifySecret | src/simple.rs:197-209 | The verdict is the DLEQ check of the escrow proof against `(g, secret), (h, commitments[0])`. When that statement holds with witness `a`, it accepts exactly the proofs made with witness `a` and nonce `z - a * c`. |
| Simple.SecretComplete | src/simple.rs:197-209 | An escrow's own secret, extra generator, commitments and proof pass `verify_secret`. |
| Simple.InterpolateOne | src/simple.rs:169-182 | Returns the Lagrange coefficient at zero of share `sid` among the first `t` share ids: the product of `x_j / (x_j - x_sid)` over `j != sid`. |
| Simple.Recover | src/simple.rs:184-195 | Fails exactly when `t` exceeds the number of shares. Otherwise it returns the first `t` decrypted values combined with their Lagrange coefficients at zero. Later shares are never read. |
| Simple.RecoverCorrect | src/simple.rs:184-195 | Take `t` shares with distinct ids whose values are `g^{p(id)}`, for a polynomial with at most `t` coefficients. `recover` returns `g^{p(0)}`. |
| Simple.EndToEnd | src/simple.rs:39-195 | Shares created for key pairs and decrypted by their owners have distinct ids, and the first `t` of them recover the escrow's secret (for fewer keys than the group order `Q`, so that ids `1..n` are distinct scalars). |
| Lagrange.PartitionOfUnity | src/simple.rs:169-182 | For distinct points (at least one point), the Lagrange coefficients at zero sum to 1. |
| Lagrange.InterpolateAtZero | src/simple.rs:169-195 | For distinct points and a polynomial with no more coefficients than points, the weighted sum of its values with the coefficients at zero is its value at zero. |
| Polynomial.EvaluateScaled | src/simple.rs:106-113 | Multiplying every coefficient by `h` multiplies the value at every point by `h`. This is why committing coefficients as `h^{a_j}` evaluates to `h^{p(x)}`. |

## Left out

- The `crypto` module (elliptic-curve points, scalars, `hash_points`) is not part of this model. The group is its exponent field modulo an arbitrary prime. The hash is an arbitrary function from point sequences to scalars.
- `Scalar::generate` and `Polynomial::generate`: randomness becomes explicit parameters, namely the coefficients, the extra generator's scalar and the nonces.
- The `math`, `dleq` and `types` modules and the key-pair code are not part of this model. The polynomial is its coefficient sequence, evaluated as `sum a_j x^j`. The single-statement proof uses the parallel algorithm for one statement, with transcript `[h1, h2, a1, a2]`.
- Soundness and zero-knowledge of the proofs: these are probabilistic or computational claims, not exact contracts. Only completeness is proved.
- Simple.DecryptShare: requires a nonzero private scalar, because `inverse()` of zero is undefined in the model.
- Simple.InterpolateOne: requires distinct ids among the first `t` shares and `t` no larger than the share list. These are the conditions under which its inverses and indexing are defined. `recover` establishes the second one itself.
- Simple.Recover: requires distinct ids among the first `t` shares when there are enough shares. With a repeated id the source takes `inverse()` of zero (src/simple.rs:175-176); the `crypto` module's behaviour there is not modelled.
- Simple.CreateXi: does not model the 32-bit truncation of the exponent index `j as u32`. It only matters for `2^32` or more commitments.
- Simple.VerifySecret: requires at least one commitment, because the source indexes `commitments[0]`.
- Panic mechanics beyond the `Err` results, Rust's `Borrow`/`IntoIterator` generics, `clone` calls and `Vec` capacities.
