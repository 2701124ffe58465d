/** The password codec of apptest.py: SHA-256 digests written as 64 lower-case
    hexadecimal characters, the "looks like a digest" test applied to a stored
    password, and the three-way rule deciding whether a password is accepted.

    SHA-256 itself is not modelled: every operation that hashes takes the hash
    function as a parameter `hash`, and the facts that need the shape of its
    output require `IsDigest(hash(password))` for the password concerned. */
module Credentials {

  const HexDigits: string := "0123456789abcdef"
  const DigestLength: nat := 64
  /** Accepted for every user when the member table has no Password column. */
  const DefaultPassword: string := "password123"

  /** Python's `str.lower` restricted to ASCII. No character outside ASCII
      lower-cases to one of `HexDigits`, so the digest test below is exact. */
  function Lower(c: char): (l: char)
    ensures 'A' <= c <= 'Z' ==> 'a' <= l <= 'z' && l as int == c as int + 32
    ensures !('A' <= c <= 'Z') ==> l == c
  {
    if 'A' <= c <= 'Z' then (c as int + 32) as char else c
  }

  /** What `hash_password` returns: exactly 64 characters of lower-case hex. */
  predicate IsDigest(h: string) {
    |h| == DigestLength && forall i :: 0 <= i < |h| ==> h[i] in HexDigits
  }

  /** The test applied to a stored password: length 64 and, once lower-cased,
      hexadecimal only. Upper-case hex digits pass this test. */
  predicate LooksHashed(stored: string) {
    |stored| == DigestLength && forall i :: 0 <= i < |stored| ==> Lower(stored[i]) in HexDigits
  }

  /** `verify_password`: the digest of the candidate equals the stored digest. */
  function VerifyPassword(password: string, hashed: string, hash: string -> string): (ok: bool)
    ensures ok ==> |hashed| == |hash(password)|
    ensures ok && IsDigest(hash(password)) ==> LooksHashed(hashed)
  {
    hash(password) == hashed
  }

  /** The password step of `authenticate_user`: a stored value that looks like
      a digest is compared with the candidate's digest, any other stored value
      with the candidate itself, and without a Password column only the
      default password is accepted. */
  function PasswordAccepted(hasPasswordColumn: bool, stored: string, password: string,
                            hash: string -> string): bool
  {
    if hasPasswordColumn then
      if LooksHashed(stored) then VerifyPassword(password, stored, hash) else password == stored
    else password == DefaultPassword
  }

  predicate HasUpperHex(s: string) {
    exists i :: 0 <= i < |s| && 'A' <= s[i] <= 'F'
  }

  /** A digest is its own lower-case form and passes the stored-value test. */
  lemma DigestLooksHashed(h: string)
    requires IsDigest(h)
    ensures LooksHashed(h)
  {
    forall i | 0 <= i < |h| ensures Lower(h[i]) in HexDigits {
      assert h[i] in HexDigits;
      assert !('A' <= h[i] <= 'Z');
    }
  }

  /** A stored value written with upper-case hex digits passes the "looks
      hashed" test, so it is compared with the digest, which is lower-case:
      no password is ever accepted against it. */
  lemma UpperHexNeverVerifies(password: string, stored: string, hash: string -> string)
    requires IsDigest(hash(password))
    requires HasUpperHex(stored)
    ensures !VerifyPassword(password, stored, hash)
  {
    var i :| 0 <= i < |stored| && 'A' <= stored[i] <= 'F';
    if |hash(password)| == |stored| {
      assert hash(password)[i] in HexDigits;
      assert hash(password)[i] != stored[i];
    }
  }

  /** A password hashed by `hash_password` and stored is accepted on the
      digest branch exactly when the candidate has the same digest. */
  lemma StoredDigestRule(candidate: string, stored: string, hash: string -> string)
    requires IsDigest(stored)
    ensures PasswordAccepted(true, stored, candidate, hash) <==> hash(candidate) == stored
  {
    DigestLooksHashed(stored);
  }
}
