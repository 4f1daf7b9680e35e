/**
 * `Chain::proof_of_work`: bump the header's nonce until the first
 * `difficulty` characters of the header's fingerprint parse as the `u32`
 * value 0.
 */
module Mining {
  import opened Types
  import opened Hex
  import opened Hashing

  predicate IsDecimalDigit(c: char) {
    '0' <= c <= '9'
  }

  predicate AllDecimal(s: string) {
    forall i :: 0 <= i < |s| ==> IsDecimalDigit(s[i])
  }

  predicate AllZeros(s: string) {
    forall i :: 0 <= i < |s| ==> s[i] == '0'
  }

  /** The value of a decimal numeral, most significant digit first. */
  function DecimalValue(s: string): nat
    requires AllDecimal(s)
  {
    if s == [] then 0 else 10 * DecimalValue(s[..|s| - 1]) + (s[|s| - 1] as int - '0' as int)
  }

  /**
   * `s.parse::<u32>()`: an optional leading `+`, then at least one decimal
   * digit, with a value that fits in 32 bits. A lone sign, the empty string,
   * any other character and an overflowing value are errors. The library
   * checks overflow digit by digit; since a numeral's value never drops as
   * digits are appended, that is the same as checking the final value.
   */
  function ParseU32(s: string): (r: Option<u32>)
    ensures r.Some? ==> |s| > 0
  {
    if s == [] || (|s| == 1 && (s[0] == '+' || s[0] == '-')) then None
    else
      var digits := if s[0] == '+' then s[1..] else s;
      if AllDecimal(digits) && DecimalValue(digits) < U32_LIMIT then Some(DecimalValue(digits))
      else None
  }

  /** A decimal numeral denotes zero exactly when all its digits are `0`. */
  lemma {:induction false} DecimalZero(s: string)
    requires AllDecimal(s)
    ensures DecimalValue(s) == 0 <==> AllZeros(s)
  {
    if s != [] {
      var init := s[..|s| - 1];
      assert AllDecimal(init);
      DecimalZero(init);
      assert AllZeros(s) <==> AllZeros(init) && s[|s| - 1] == '0' by {
        assert forall i :: 0 <= i < |init| ==> init[i] == s[i];
      }
    }
  }

  /** The parse yields 0 exactly for a non-empty run of `0`s, perhaps after a `+`. */
  lemma ParseZero(s: string)
    ensures ParseU32(s) == Some(0)
        <==> (|s| > 0 && AllZeros(s)) || (|s| > 1 && s[0] == '+' && AllZeros(s[1..]))
  {
    if |s| > 1 && s[0] == '+' {
      var digits := s[1..];
      if AllZeros(digits) {
        assert AllDecimal(digits);
      }
      if AllDecimal(digits) {
        DecimalZero(digits);
      }
    } else if |s| > 0 && s != "+" && s != "-" {
      if AllZeros(s) {
        assert AllDecimal(s);
      }
      if AllDecimal(s) {
        DecimalZero(s);
      }
    }
  }

  /** The check that ends the mining loop: the first `difficulty` characters of the fingerprint parse as 0. */
  predicate Accepted(hash: Hasher, h: BlockHeader) {
    var fingerprint := hash(HeaderValue(h));
    h.difficulty <= |fingerprint| && ParseU32(fingerprint[..h.difficulty]) == Some(0)
  }

  /**
   * A header is accepted exactly when its fingerprint starts with `difficulty`
   * zeros and `difficulty` is positive: a fingerprint holds no `+`, and the
   * empty prefix never parses.
   */
  lemma AcceptedMeansLeadingZeros(hash: Hasher, h: BlockHeader)
    requires FingerprintShaped(hash)
    ensures var fingerprint := hash(HeaderValue(h));
      Accepted(hash, h) <==>
        (0 < h.difficulty <= |fingerprint| && forall i :: 0 <= i < h.difficulty ==> fingerprint[i] == '0')
  {
    var fingerprint := hash(HeaderValue(h));
    if h.difficulty <= |fingerprint| {
      var prefix := fingerprint[..h.difficulty];
      ParseZero(prefix);
      if |prefix| > 1 {
        assert IsHexChar(prefix[0]);
      }
    }
  }

  /** With difficulty 0 no nonce is ever accepted, so the source's loop never ends. */
  lemma ZeroDifficultyNeverAccepted(hash: Hasher, h: BlockHeader)
    requires h.difficulty == 0
    ensures !Accepted(hash, h)
  {
    ParseZero(hash(HeaderValue(h))[..0]);
  }

  /**
   * With a 32-byte digest no header with a difficulty above 32 is ever
   * accepted: a fingerprint starts with at most 32 `'0'`s. So mining at such
   * a difficulty either panics on the slice or never returns.
   */
  lemma AcceptedDifficultyBound(digest: Digest, h: BlockHeader)
    requires Sha256Shaped(digest)
    requires Accepted(HashWith(digest), h)
    ensures h.difficulty <= DIGEST_SIZE
  {
    var hash := HashWith(digest);
    HashWithShaped(digest);
    AcceptedMeansLeadingZeros(hash, h);
    var bs := digest(HeaderValue(h));
    assert hash(HeaderValue(h)) == HexOf(bs);
    LeadingZeros(bs, h.difficulty);
  }

  /**
   * `proof_of_work`, with at most `fuel` attempts: the source searches
   * without bound, so `found` is false when the fuel ran out first. Only
   * `nonce` changes, by one per rejected attempt, and no earlier nonce was
   * accepted. The requires rule out the source's panics: the slice is in
   * range because a 32-byte digest renders to at least 32 characters, and the
   * nonce cannot overflow within `fuel` attempts.
   */
  method ProofOfWork(hash: Hasher, header: BlockHeader, fuel: nat) returns (mined: BlockHeader, found: bool)
    requires FingerprintShaped(hash)
    requires header.difficulty <= DIGEST_SIZE
    requires header.nonce + fuel < U32_LIMIT
    ensures mined == header.(nonce := mined.nonce) && header.nonce <= mined.nonce
    ensures found ==> Accepted(hash, mined) && mined.nonce < header.nonce + fuel
    ensures !found ==> mined.nonce == header.nonce + fuel
    ensures forall n: u32 :: header.nonce <= n < mined.nonce ==> !Accepted(hash, header.(nonce := n))
  {
    mined := header;
    found := false;
    var attempts := 0;
    while attempts < fuel && !found
      invariant attempts <= fuel
      invariant mined == header.(nonce := mined.nonce) && header.nonce <= mined.nonce
      invariant found ==> Accepted(hash, mined) && mined.nonce == header.nonce + attempts - 1
      invariant !found ==> mined.nonce == header.nonce + attempts
      invariant forall n: u32 :: header.nonce <= n < mined.nonce ==> !Accepted(hash, header.(nonce := n))
      decreases fuel - attempts
    {
      var fingerprint := hash(HeaderValue(mined));
      var slice := fingerprint[..mined.difficulty];
      match ParseU32(slice) {
        case Some(value) =>
          if value != 0 {
            mined := mined.(nonce := mined.nonce + 1);
          } else {
            found := true;
          }
        case None =>
          mined := mined.(nonce := mined.nonce + 1);
      }
      attempts := attempts + 1;
    }
  }
}
