/** Digests and the pair hash of the accumulator.

    The two hash algorithms (Keccak-256 and BLAKE3) are foreign library
    calls; the model takes the chosen algorithm as a total function
    `HashFn` from bytes to a 32-byte digest, so every property proved
    here holds for any hash function. */
module Digests {

  /** Both supported algorithms produce 32-byte digests. */
  const DigestLength: nat := 32

  type Hash = s: seq<bv8> | |s| == DigestLength witness seq(32, _ => 0 as bv8)

  /** The hash algorithm an accumulator is built with. */
  datatype HashType = Keccak256 | Blake3

  /** A hash algorithm applied to an arbitrary byte string. */
  type HashFn = seq<bv8> -> Hash

  datatype Option<T> = None | Some(value: T)

  /** The 64-byte buffer that is hashed to form a parent node:
      the left digest first, then the right one. */
  function PairBytes(left: Hash, right: Hash): (b: seq<bv8>)
    ensures |b| == 2 * DigestLength
    ensures b[..DigestLength] == left && b[DigestLength..] == right
  {
    left + right
  }

  /** The digest of a parent node whose children are `left` and `right`. */
  function Combine(digest: HashFn, left: Hash, right: Hash): Hash
  {
    digest(PairBytes(left, right))
  }
}
