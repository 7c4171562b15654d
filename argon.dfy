/**
 * The argon2 password-hashing capability, kept abstract.
 *
 * A digest records the salt argon2 draws at random on every call (here a
 * parameter) and the value it was computed from.  Nothing in the services
 * reads the preimage: digests are only ever compared through `Verify`, whose
 * one promise is that `Verify(Hash(s, x), y)` holds exactly when `x == y`.
 */
module Argon {
  datatype Digest<T> = Argon2(salt: nat, preimage: T)

  /**
   * argon.verify(hash, candidate): the stored hash comes first, the candidate
   * second.  It accepts exactly when hashing the candidate with the digest's
   * own salt reproduces the digest.
   */
  function Verify<T(==,!new)>(hash: Digest<T>, candidate: T): (ok: bool)
    ensures ok <==> hash == Argon2(hash.salt, candidate)
  {
    hash.preimage == candidate
  }

  /** `h` accepts `x` and nothing else. */
  ghost predicate IsHashOf<T(!new)>(h: Digest<T>, x: T)
  {
    forall c :: Verify(h, c) <==> c == x
  }

  /** argon.hash(x), with the salt it draws made explicit. */
  function Hash<T(==,!new)>(salt: nat, x: T): (h: Digest<T>)
    ensures IsHashOf(h, x)
  {
    Argon2(salt, x)
  }
}
