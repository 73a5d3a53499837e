/**
 * Password hashing (`hash_password` and `verify_password` of app.security,
 * a module that is not part of this model). The salted one-way hash is
 * replaced by a deterministic tagging; the model relies only on the two
 * facts a real hasher provides, stated in `VerifyHashed`.
 */
module Passwords {

  const HASH_TAG := "$hashed$"

  function HashPassword(plain: string): string {
    HASH_TAG + plain
  }

  function VerifyPassword(plain: string, hashed: string): bool {
    hashed == HashPassword(plain)
  }

  /** A password verifies against its own hash and against no other password's hash. */
  lemma VerifyHashed(plain: string, other: string)
    ensures VerifyPassword(plain, HashPassword(plain))
    ensures VerifyPassword(other, HashPassword(plain)) <==> other == plain
  {
    if VerifyPassword(other, HashPassword(plain)) {
      assert HashPassword(other)[|HASH_TAG|..] == other;
      assert HashPassword(plain)[|HASH_TAG|..] == plain;
    }
  }
}
