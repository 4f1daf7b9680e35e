/**
 * `Chain::hash`: serialise a value, digest it, render the digest with
 * `hex_to_string`. The serialiser and SHA-256 are foreign code; together they
 * are the `digest` parameter, an arbitrary function from the value to bytes.
 */
module Hashing {
  import opened Types
  import opened Hex

  /** The three kinds of value the core hashes. */
  datatype Hashable =
    | TxValue(tx: Transaction)
    | HeaderValue(header: BlockHeader)
    | TextValue(text: string)

  /** SHA-256 of the JSON serialisation of a value. */
  type Digest = Hashable -> seq<byte>

  /** Bytes in a SHA-256 digest. */
  const DIGEST_SIZE: nat := 32

  /** The only property of the digest the model relies on: it is 32 bytes long. */
  ghost predicate Sha256Shaped(digest: Digest) {
    forall v :: |digest(v)| == DIGEST_SIZE
  }

  /** `Chain::hash(v)`, built on the rendering that `hex_to_string` computes. */
  function Hash(digest: Digest, v: Hashable): (r: string)
    ensures IsHexString(r)
    ensures Sha256Shaped(digest) ==> DIGEST_SIZE <= |r| <= 2 * DIGEST_SIZE
  {
    HexOf(digest(v))
  }

  /** A fingerprint function, as the Merkle aggregation sees it. */
  type Hasher = Hashable -> string

  /** `Chain::hash` as a function value. */
  function HashWith(digest: Digest): Hasher {
    v => Hash(digest, v)
  }

  /** What every fingerprint of a 32-byte digest looks like: 32 to 64 lower-case hex characters. */
  ghost predicate FingerprintShaped(hash: Hasher) {
    forall v :: DIGEST_SIZE <= |hash(v)| <= 2 * DIGEST_SIZE && IsHexString(hash(v))
  }

  lemma HashWithShaped(digest: Digest)
    requires Sha256Shaped(digest)
    ensures FingerprintShaped(HashWith(digest))
  {
    forall v
      ensures DIGEST_SIZE <= |HashWith(digest)(v)| <= 2 * DIGEST_SIZE && IsHexString(HashWith(digest)(v))
    {
      assert HashWith(digest)(v) == Hash(digest, v);
    }
  }
}
