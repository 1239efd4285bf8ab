/**
 * The one foreign primitive of the engine: SHA-256 from the host's crypto
 * library (FIPS 180-4). It is not implemented here; the engine receives it as a
 * value of type Hasher, a total function on bytes. Its 32-byte output width
 * (CC_SHA256_DIGEST_LENGTH) is the predicate FixedWidth, a precondition of the
 * facts that depend on it and of nothing else.
 */
module Hashing {
  import opened Encoding

  const DigestLength: nat := 32

  type Hasher = Bytes -> Bytes

  /** SHA-256 produces 32 bytes for every input. */
  ghost predicate FixedWidth(h: Hasher)
  {
    forall x :: |h(x)| == DigestLength
  }

  /** One hashing step of the engine: `sha256(x)`, or `sha256(sha256(x))` when doubleHash. */
  function Digest(h: Hasher, doubleHash: bool, x: Bytes): (r: Bytes)
    ensures FixedWidth(h) ==> |r| == DigestLength
  {
    if doubleHash then h(h(x)) else h(x)
  }
}
