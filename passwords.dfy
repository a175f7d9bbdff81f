/** A stand-in for the salted one-way password hash (bcrypt) used by the
    account operations. Its internals are not modelled: the digest is an
    arbitrary deterministic function of the salt and the text, and the salt,
    which bcrypt draws at random, is a parameter. */
module Passwords {

  /** What the password column holds: an empty value, or a salted digest. */
  datatype StoredPassword = Empty | Hashed(salt: nat, digest: nat)

  const Modulus: nat := 1_000_000_007

  /** The digest of `text` under `salt`. */
  function Digest(salt: nat, text: string): nat
    decreases |text|
  {
    if text == [] then salt % Modulus
    else (Digest(salt, text[..|text| - 1]) * 131 + text[|text| - 1] as nat) % Modulus
  }

  /** Hashing a password with a given salt. */
  function HashPassword(text: string, salt: nat): (h: StoredPassword)
    ensures h.Hashed? && h.salt == salt
    ensures Verify(text, h)
  {
    Hashed(salt, Digest(salt, text))
  }

  /** Checking a password against a stored hash. An empty stored value
      verifies nothing (the library refuses to parse it). */
  predicate Verify(text: string, stored: StoredPassword) {
    stored.Hashed? && Digest(stored.salt, text) == stored.digest
  }
}
