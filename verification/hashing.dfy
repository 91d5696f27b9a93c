/**
 * The keyed hash (HMAC-SHA256 over the UTF-8 bytes of an address, rendered
 * as a hex digest) and its verification.
 */
module Hashing {
  import opened PyValues
  import opened KeyStore

  /** The characters of a lowercase hexadecimal rendering. */
  const HexDigits := "0123456789abcdef"

  /** A SHA-256 hex digest: 64 lowercase hexadecimal characters. */
  predicate IsHexDigest(s: string) {
    |s| == 64 && forall i :: 0 <= i < |s| ==> s[i] in HexDigits
  }

  type Digest = s: string | IsHexDigest(s)
    witness seq(64, _ => '0')

  /**
   * The keyed hash, left uninterpreted: `h(key, address)` is the digest of
   * `address` under `key`, or None when hashing raised an error.
   */
  type Hasher = (Key, string) -> Option<Digest>

  /**
   * Whether `hashed` is the hash of `address`: ordinary equality of the
   * freshly computed hash with the candidate, where a failed hash (None)
   * equals no string.
   */
  function VerifyHash(h: Hasher, key: Key, address: string, hashed: string): (r: bool)
    ensures r ==> IsHexDigest(hashed)
    ensures r ==> Truthy(h(key, address))
  {
    h(key, address) == Some(hashed)
  }

  /** A digest is never falsy, so `if hashed:` only rejects failed hashes. */
  lemma DigestTruthy(d: Option<Digest>)
    ensures Truthy(d) <==> d.Some?
  {
  }

  /** An address verifies against its own hash whenever hashing succeeds. */
  lemma VerifyOwnHash(h: Hasher, key: Key, address: string)
    requires h(key, address).Some?
    ensures VerifyHash(h, key, address, h(key, address).value)
  {
  }

  /** At most one candidate verifies for a given address and key. */
  lemma VerifyUnique(h: Hasher, key: Key, address: string, d1: string, d2: string)
    requires VerifyHash(h, key, address, d1) && VerifyHash(h, key, address, d2)
    ensures d1 == d2
  {
  }

  /** An address whose hashing fails verifies against nothing. */
  lemma VerifyFailedHash(h: Hasher, key: Key, address: string, candidate: string)
    requires h(key, address) == None
    ensures !VerifyHash(h, key, address, candidate)
  {
  }
}
