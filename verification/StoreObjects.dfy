/** Names of store objects: a 32-character base-32 digest, a dash, and a name. */
module StoreObjects {
  import opened Sequences

  const DIGEST_LENGTH := 32

  predicate IsBase32(c: char) {
    '0' <= c <= '9' || ('a' <= c <= 'z' && c != 'e' && c != 'o' && c != 't' && c != 'u')
  }

  predicate IsNameChar(c: char) {
    '0' <= c <= '9' || 'a' <= c <= 'z' || 'A' <= c <= 'Z' || c in {'-', '+', '.', '_', '?', '='}
  }

  predicate AllBase32(s: string) { forall i :: 0 <= i < |s| ==> IsBase32(s[i]) }

  predicate IsDigest(s: string) { |s| == DIGEST_LENGTH && AllBase32(s) }

  predicate IsName(s: string) { s != "" && forall i :: 0 <= i < |s| ==> IsNameChar(s[i]) }

  datatype ObjectName = ObjectName(digest: string, name: string) {
    predicate Valid() { IsDigest(digest) && IsName(name) }
    function Base(): string { digest + "-" + name }
  }

  function ParseObject(base: string): (r: Option<ObjectName>)
    ensures r.Some? ==> r.value.Valid() && r.value.Base() == base
  {
    if |base| > DIGEST_LENGTH && IsDigest(base[..DIGEST_LENGTH]) && base[DIGEST_LENGTH] == '-'
       && IsName(base[DIGEST_LENGTH + 1..])
    then Some(ObjectName(base[..DIGEST_LENGTH], base[DIGEST_LENGTH + 1..]))
    else None
  }

  lemma ParseBase(o: ObjectName)
    ensures o.Valid() ==> ParseObject(o.Base()) == Some(o)
    ensures ParseObject(o.Base()) == Some(o) ==> o.Valid()
  {
    if o.Valid() {
      assert o.Base()[..DIGEST_LENGTH] == o.digest;
      assert o.Base()[DIGEST_LENGTH + 1..] == o.name;
    }
  }

  /** The alphabets: nix-base32, without e, o, t and u, and the characters of names. */
  lemma Alphabets(c: char)
    ensures IsBase32(c) <==> c in {'0', '1', '2', '3', '4', '5', '6', '7', '8', '9', 'a', 'b', 'c', 'd', 'f', 'g',
      'h', 'i', 'j', 'k', 'l', 'm', 'n', 'p', 'q', 'r', 's', 'v', 'w', 'x', 'y', 'z'}
    ensures IsNameChar(c) <==> c in {'0', '1', '2', '3', '4', '5', '6', '7', '8', '9',
      'a', 'b', 'c', 'd', 'e', 'f', 'g', 'h', 'i', 'j', 'k', 'l', 'm', 'n', 'o', 'p', 'q', 'r', 's', 't', 'u', 'v',
      'w', 'x', 'y', 'z', 'A', 'B', 'C', 'D', 'E', 'F', 'G', 'H', 'I', 'J', 'K', 'L', 'M', 'N', 'O', 'P', 'Q', 'R',
      'S', 'T', 'U', 'V', 'W', 'X', 'Y', 'Z', '-', '+', '.', '_', '?', '='}
  {
  }

  /** A store object name is 32 base-32 characters, a dash, and at least one name character. */
  lemma NamesMeaning(base: string)
    ensures ParseObject(base).Some? <==>
      && |base| > 33 && base[32] == '-'
      && (forall i :: 0 <= i < 32 ==> IsBase32(base[i]))
      && (forall i :: 33 <= i < |base| ==> IsNameChar(base[i]))
    ensures ParseObject(base).Some? ==> ParseObject(base).value == ObjectName(base[..32], base[33..])
  {
    if |base| > 33 {
      assert forall i :: 0 <= i < 32 ==> base[..32][i] == base[i];
      assert forall i :: 0 <= i < |base| - 33 ==> base[33..][i] == base[i + 33];
      assert forall i :: 33 <= i < |base| ==> base[i] == base[33..][i - 33];
    }
  }
}
