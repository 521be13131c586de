/** Store object metadata, and the foreign functions (hashing, compression, the .narinfo text format) that
    the model takes as given. */
module NarInfos {
  import opened Sequences
  import opened StoreObjects

  datatype Hash = Hash(algorithm: string, digest: string)

  datatype StorePath = StorePath(dir: string, obj: ObjectName)

  datatype Signature = Signature(name: string, data: string)

  datatype NARInfo = NARInfo(
    storePath: StorePath,
    url: string,
    compression: string,
    fileHash: Option<Hash>,
    fileSize: int,
    narHash: Option<Hash>,
    narSize: int,
    references: seq<StorePath>,
    deriver: Option<StorePath>,
    sigs: seq<Signature>,
    ca: string,
    system: string)
  {
    function Digest(): string { storePath.obj.digest }
  }

  const SHA256 := "sha256"

  /** A NAR archive; it begins with a magic string, so it is not empty. */
  type Archive = nar: string | nar != "" witness "n"

  /** SHA-256, MD5, the base-32 text of a hash, the compressors, and the .narinfo text format. */
  datatype Codec = Codec(
    sha256: string -> string,
    md5: string -> string,
    base32: string -> string,
    compress: (string, string) -> string,
    decompress: (string, string) -> string,
    marshal: NARInfo -> Option<string>,
    unmarshal: string -> Option<NARInfo>)
  {
    /** The usual idealisation: no collisions, every encoder has its decoder, and no compressor makes an empty
        file of an archive. */
    ghost predicate Ideal() {
      && (forall a, b :: sha256(a) == sha256(b) ==> a == b)
      && (forall a, b :: base32(a) == base32(b) ==> a == b)
      && (forall a :: AllBase32(base32(a)) && base32(a) != "")
      && (forall c, nar :: decompress(c, compress(c, nar)) == nar)
      && (forall c, nar: Archive :: compress(c, nar) != "")
      && (forall info :: marshal(info).Some? ==> unmarshal(marshal(info).value) == Some(info))
    }

    function HashOf(data: string): Hash { Hash(SHA256, sha256(data)) }
  }

  /** File name extensions of the compression types a NAR URL can be built for. */
  function Extension(compression: string): Option<string> {
    if compression == "none" then Some("")
    else if compression == "bzip2" then Some(".bz2")
    else if compression == "gzip" then Some(".gz")
    else if compression == "br" then Some(".br")
    else if compression == "xz" then Some(".xz")
    else None
  }

  /** The compression types the uploader can write. */
  predicate CanCompress(compression: string) {
    compression in {"none", "gzip", "bzip2", "xz"}
  }

  // ---- bucket keys ----

  function InfoKey(digest: string): string { digest + ".narinfo" }

  function ListingKey(digest: string): string { digest + ".ls" }

  function NarKey(codec: Codec, fileDigest: string, compression: string): string {
    "nar/" + codec.base32(fileDigest) + ".nar" + Extension(compression).GetOr("")
  }

  /** The keys of .narinfo files and listings are at the root of the bucket; NARs are not. */
  predicate AtRoot(key: string) { '/' !in key }

  lemma RootKeys(digest: string)
    requires AllBase32(digest)
    ensures AtRoot(InfoKey(digest)) && AtRoot(ListingKey(digest))
    ensures forall other :: InfoKey(digest) != ListingKey(other)
  {
    forall other ensures InfoKey(digest) != ListingKey(other) {
      var a, b := InfoKey(digest), ListingKey(other);
      assert a[|a| - 1] == 'o' && b[|b| - 1] == 's';
    }
  }

  lemma InfoKeyInjective(a: string, b: string)
    requires InfoKey(a) == InfoKey(b)
    ensures a == b
  {
    assert a == InfoKey(a)[..|a|] && b == InfoKey(b)[..|a|];
  }

  /** The path below "nar/" that the uploader chooses has no special meaning in a URL. */
  predicate IsSegmentChar(c: char) {
    'a' <= c <= 'z' || 'A' <= c <= 'Z' || '0' <= c <= '9' || c == '.' || c == '-' || c == '_'
  }

  predicate IsNarPath(url: string) {
    && "nar/" <= url && url[4..] !in {"", ".", ".."}
    && forall i :: 4 <= i < |url| ==> IsSegmentChar(url[i])
  }

  lemma NarKeyIsNarPath(codec: Codec, fileDigest: string, compression: string)
    requires codec.Ideal()
    ensures IsNarPath(NarKey(codec, fileDigest, compression)) && !AtRoot(NarKey(codec, fileDigest, compression))
  {
    var key, text := NarKey(codec, fileDigest, compression), codec.base32(fileDigest);
    assert key[3] == '/';
    assert key[4..] == text + (".nar" + Extension(compression).GetOr(""));
    assert key[4] == text[0] && IsBase32(text[0]);
    forall i | 4 <= i < |key| ensures IsSegmentChar(key[i]) {
      if i < 4 + |text| { assert key[i] == text[i - 4] && IsBase32(text[i - 4]); }
    }
    assert |key[4..]| > 2;
  }

  /** The part of `s` before its first dot. */
  function BeforeDot(s: string): string {
    if s == "" || s[0] == '.' then "" else [s[0]] + BeforeDot(s[1..])
  }

  lemma {:induction false} BeforeDotAppend(text: string, rest: string)
    requires AllBase32(text) && (rest == "" || rest[0] == '.')
    ensures BeforeDot(text + rest) == text
  {
    if text == "" {
    } else {
      assert (text + rest)[1..] == text[1..] + rest;
      BeforeDotAppend(text[1..], rest);
    }
  }

  lemma NarKeyText(codec: Codec, fileDigest: string, compression: string)
    requires codec.Ideal()
    ensures BeforeDot(NarKey(codec, fileDigest, compression)[4..]) == codec.base32(fileDigest)
  {
    var rest := ".nar" + Extension(compression).GetOr("");
    assert NarKey(codec, fileDigest, compression)[4..] == codec.base32(fileDigest) + rest;
    BeforeDotAppend(codec.base32(fileDigest), rest);
  }

  /** A NAR key determines the hash of the file it is for. */
  lemma NarKeyInjective(codec: Codec, a: string, ca: string, b: string, cb: string)
    requires codec.Ideal() && NarKey(codec, a, ca) == NarKey(codec, b, cb)
    ensures a == b
  {
    NarKeyText(codec, a, ca);
    NarKeyText(codec, b, cb);
  }

  /** The keys of an object and of its files, by compression type. */
  lemma KeyTexts(codec: Codec, digest: string, file: string)
    ensures InfoKey(digest) == digest + ".narinfo" && ListingKey(digest) == digest + ".ls"
    ensures var stem := "nar/" + codec.base32(file) + ".nar";
      && NarKey(codec, file, "none") == stem && NarKey(codec, file, "gzip") == stem + ".gz"
      && NarKey(codec, file, "bzip2") == stem + ".bz2" && NarKey(codec, file, "xz") == stem + ".xz"
    ensures Extension("br") == Some(".br") && Extension("zstd") == None && Extension("") == None
  {
    var stem := "nar/" + codec.base32(file) + ".nar";
    assert stem + "" == stem;
  }
}
