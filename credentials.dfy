/**
 * The credential store: a teacher's salted, iterated password hash.
 * SHA-256 with hex output is a parameter `h` that the model never looks
 * inside; the random salt comes from the caller as a fresh value.
 */
module Credentials {

  /** How many times the salted password is hashed. */
  const HASH_ITERATIONS: nat := 10000

  /** `secrets.token_hex(16)` yields 16 random bytes as 32 lower-case hex digits. */
  const SALT_LENGTH: nat := 32

  predicate IsHexDigit(c: char) {
    ('0' <= c <= '9') || ('a' <= c <= 'f')
  }

  predicate IsSalt(s: string) {
    |s| == SALT_LENGTH && forall i :: 0 <= i < |s| ==> IsHexDigit(s[i])
  }

  /** The seed hashed n times over. */
  function Stretch(h: string -> string, seed: string, n: nat): string
  {
    if n == 0 then seed else h(Stretch(h, seed, n - 1))
  }

  /** What a hash function would need for distinct inputs to give distinct digests. */
  ghost predicate Injective(h: string -> string) {
    forall a, b :: h(a) == h(b) ==> a == b
  }

  /** With an injective hash, iterating it any number of times is injective too. */
  lemma {:induction false} StretchInjective(h: string -> string, a: string, b: string, n: nat)
    requires Injective(h)
    requires Stretch(h, a, n) == Stretch(h, b, n)
    ensures a == b
  {
    if n > 0 {
      StretchInjective(h, a, b, n - 1);
    }
  }

  /** Appending the same salt keeps distinct passwords distinct. */
  lemma SaltKeepsPasswordsApart(p: string, q: string, salt: string)
    requires p != q
    ensures p + salt != q + salt
  {
    if |p| == |q| {
      var i :| 0 <= i < |p| && p[i] != q[i];
      assert (p + salt)[i] == p[i] && (q + salt)[i] == q[i];
    } else {
      assert |p + salt| != |q + salt|;
    }
  }

  /** A wrong password yields a different stored hash under the same salt, when the hash is injective. */
  lemma WrongPasswordRejected(h: string -> string, p: string, q: string, salt: string)
    requires Injective(h)
    requires p != q
    ensures Stretch(h, p + salt, HASH_ITERATIONS) != Stretch(h, q + salt, HASH_ITERATIONS)
  {
    SaltKeepsPasswordsApart(p, q, salt);
    if Stretch(h, p + salt, HASH_ITERATIONS) == Stretch(h, q + salt, HASH_ITERATIONS) {
      StretchInjective(h, p + salt, q + salt, HASH_ITERATIONS);
    }
  }

  /** The loop shared by `set_password` and `check_password`: hash `raw + salt` 10000 times. */
  method HashPassword(h: string -> string, raw: string, salt: string) returns (combined: string)
    ensures combined == Stretch(h, raw + salt, HASH_ITERATIONS)
  {
    combined := raw + salt;
    for i := 0 to HASH_ITERATIONS
      invariant combined == Stretch(h, raw + salt, i)
    {
      combined := h(combined);
    }
  }

  class Teacher {
    const id: int
    const username: string
    var salt: string
    var passwordHash: string

    constructor (id: int, username: string)
      ensures this.id == id && this.username == username
      ensures salt == "" && passwordHash == ""
    {
      this.id := id;
      this.username := username;
      salt := "";
      passwordHash := "";
    }

    /** The stored credential accepts raw: rehashing it with the stored salt gives the stored hash. */
    predicate Accepts(h: string -> string, raw: string)
      reads this
    {
      Stretch(h, raw + salt, HASH_ITERATIONS) == passwordHash
    }

    /** `set_password`: store a fresh salt and the iterated hash of raw + salt, replacing both old values. */
    method SetPassword(h: string -> string, raw: string, freshSalt: string)
      requires IsSalt(freshSalt)
      modifies this
      ensures salt == freshSalt
      ensures passwordHash == Stretch(h, raw + freshSalt, HASH_ITERATIONS)
      ensures Accepts(h, raw)
      ensures Injective(h) ==> forall q :: q != raw ==> !Accepts(h, q)
    {
      salt := freshSalt;
      passwordHash := HashPassword(h, raw, salt);
      if Injective(h) {
        forall q | q != raw
          ensures !Accepts(h, q)
        {
          WrongPasswordRejected(h, raw, q, salt);
        }
      }
    }

    /** `check_password`: rehash with the stored salt and compare; reads the credential, never writes it. */
    method CheckPassword(h: string -> string, raw: string) returns (ok: bool)
      ensures ok == (Stretch(h, raw + salt, HASH_ITERATIONS) == passwordHash)
    {
      var combined := HashPassword(h, raw, salt);
      ok := combined == passwordHash;
    }
  }

  /** Checking the password just set succeeds; checking any other fails when the hash is injective. */
  method SetThenCheck(t: Teacher, h: string -> string, raw: string, other: string, freshSalt: string)
      returns (same: bool, different: bool)
    requires IsSalt(freshSalt)
    modifies t
    ensures same
    ensures Injective(h) && other != raw ==> !different
  {
    t.SetPassword(h, raw, freshSalt);
    same := t.CheckPassword(h, raw);
    different := t.CheckPassword(h, other);
    assert different == t.Accepts(h, other);
  }
}
