/**
 The cryptographic primitives as a record of unknown functions, with the two
 facts the protocols rest on: key exchange commutes (section 6.1 of RFC 7748) and
 decryption inverts encryption (section 2.8 of RFC 8439).
 */
module Crypto {
  import opened Bytes

  datatype Primitives = Primitives(
    public: Hash -> Hash,
    exchange: (Hash, Hash) -> Option<Hash>,
    seal: (bytes, Hash, bytes) -> bytes,
    open: (bytes, Hash, bytes) -> Option<bytes>)

  /** `exchange(secret, public)` may fail, but then it fails on both sides. */
  ghost predicate Commutes(c: Primitives) {
    forall a, b :: c.exchange(a, c.public(b)) == c.exchange(b, c.public(a))
  }

  /** Sealing adds a 16-byte tag, and opening with the same key and nonce undoes it. */
  ghost predicate Inverts(c: Primitives) {
    forall p, k, n :: |c.seal(p, k, n)| == |p| + 16 && c.open(c.seal(p, k, n), k, n) == Some(p)
  }
}
