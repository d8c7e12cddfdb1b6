/** Canonical content-addressed storage keys. */
module ArtifactKey {
  import opened Prelude
  import Strings

  type Digest = string

  predicate IsHex(c: char) { Strings.IsLowerHex(c as int) }

  predicate IsDigest(d: Digest) { |d| == 64 && forall i :: 0 <= i < 64 ==> IsHex(d[i]) }

  function CanonicalKey(d: Digest): string
    requires IsDigest(d)
  {
    "sha256/" + d[..2] + "/" + d
  }

  /** `^sha256/([0-9a-f]{2})/([0-9a-f]{64})$` with matching groups. */
  function DigestOfKey(key: string): Option<Digest> {
    if |key| == 74 && key[..7] == "sha256/" && IsHex(key[7]) && IsHex(key[8]) && key[9] == '/'
       && IsDigest(key[10..]) && key[7..9] == key[10..][..2]
    then Some(key[10..])
    else None
  }

  /** A key is accepted exactly when it is canonical, and then names the digest it was made from. */
  lemma {:induction false} KeyRoundTrip(key: string, d: Digest)
    ensures DigestOfKey(key) == Some(d) <==> IsDigest(d) && key == CanonicalKey(d)
    ensures DigestOfKey(key) == Some(d) ==>
      |key| == 74 && key[..7] == "sha256/" && key[7..9] == key[10..12] && key[9] == '/' && key[10..] == d
  {
    if IsDigest(d) && key == CanonicalKey(d) {
      assert key[..7] == "sha256/" && key[7..9] == d[..2] && key[10..] == d;
      assert key[7] == d[0] && key[8] == d[1];
    }
    if DigestOfKey(key) == Some(d) {
      assert key == key[..7] + key[7..9] + [key[9]] + key[10..];
      assert ['/'] == "/";
    }
  }
}
