/** Keys, share identifiers and thresholds, as the PVSS scheme consumes them.

    The repository's `types` and key-pair modules are not part of this model;
    only the values they carry are.
 */
module Types {
  import F = Field
  import G = Group

  /** `ShareId` is an unsigned 32-bit integer. */
  type ShareId = n: nat | n < 0x1_0000_0000

  /** `Threshold` is an unsigned 32-bit integer. */
  type Threshold = n: nat | n < 0x1_0000_0000

  /** A participant's private key: a scalar `x`. */
  datatype PrivateKey = PrivateKey(scalar: F.Scalar)

  /** A participant's public key: the point `generator^x`. */
  datatype PublicKey = PublicKey(point: G.Point)

  /** A key pair as the key-pair module produces it. */
  predicate IsKeyPair(private: PrivateKey, public: PublicKey)
  {
    public.point == G.FromScalar(private.scalar)
  }

  /** The failures that the source signals with `assert!` and `Err`. */
  datatype Error =
    | InvalidThreshold  // `escrow` with a threshold below 1
    | ZeroShareId       // `create_share` with share id 0
    | NotEnoughShares   // `recover` with fewer shares than the threshold

  datatype Result<T> = Ok(value: T) | Err(error: Error)
}
