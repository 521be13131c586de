/** URLs of a bucket store (internal/nixstore/bucket.go) and of the proxy (serve.go): relative resolution as
    in section 5.2 of RFC 3986, in the form of Go's net/url, and the way back from a URL to a bucket key. */
module Urls {
  import opened Sequences
  import opened StoreObjects
  import opened NarInfos

  // ---- paths as segments ----

  function Split(s: string): (segs: seq<string>)
    ensures segs != [] && forall seg :: seg in segs ==> '/' !in seg
  {
    if s == "" then [""]
    else
      var rest := Split(s[1..]);
      if s[0] == '/' then [""] + rest else [[s[0]] + rest[0]] + rest[1..]
  }

  function Join(segs: seq<string>): string {
    if segs == [] then ""
    else if |segs| == 1 then segs[0]
    else segs[0] + "/" + Join(segs[1..])
  }

  lemma {:induction false} JoinSplit(s: string)
    ensures Join(Split(s)) == s
  {
    if s == "" {
    } else {
      JoinSplit(s[1..]);
      var rest := Split(s[1..]);
      assert s == [s[0]] + s[1..];
      if s[0] == '/' {
        assert ([""] + rest)[1..] == rest;
      } else {
        assert ([[s[0]] + rest[0]] + rest[1..])[1..] == rest[1..];
        if |rest| == 1 {
          assert Split(s) == [[s[0]] + rest[0]];
        } else {
          assert [s[0]] + (rest[0] + "/" + Join(rest[1..])) == ([s[0]] + rest[0]) + "/" + Join(rest[1..]);
        }
      }
    }
  }

  lemma SplitCons(c: char, s: string)
    ensures var rest := Split(s);
      Split([c] + s) == if c == '/' then [""] + rest else [[c] + rest[0]] + rest[1..]
  {
    assert ([c] + s)[1..] == s;
  }

  lemma {:induction false} SplitAppend(a: string, b: string)
    ensures Split(a + "/" + b) == Split(a) + Split(b)
    decreases |a|
  {
    if a == "" {
      assert a + "/" + b == ['/'] + b;
      SplitCons('/', b);
    } else {
      var c, t := a[0], a[1..];
      assert a == [c] + t && a + "/" + b == [c] + (t + "/" + b);
      SplitAppend(t, b);
      SplitCons(c, t);
      SplitCons(c, t + "/" + b);
      var rest, other := Split(t), Split(b);
      assert (rest + other)[0] == rest[0] && (rest + other)[1..] == rest[1..] + other;
      ConcatAssociative([""], rest, other);
      ConcatAssociative([[c] + rest[0]], rest[1..], other);
    }
  }

  lemma {:induction false} SplitOne(s: string)
    requires '/' !in s
    ensures Split(s) == [s]
  {
    if s == "" {
    } else {
      SplitOne(s[1..]);
      assert s == [s[0]] + s[1..];
    }
  }

  lemma {:induction false} SplitJoin(segs: seq<string>)
    requires segs != [] && forall seg :: seg in segs ==> '/' !in seg
    ensures Split(Join(segs)) == segs
  {
    SplitOne(segs[0]);
    if |segs| == 1 {
    } else {
      SplitJoin(segs[1..]);
      SplitAppend(segs[0], Join(segs[1..]));
    }
  }

  predicate IsDots(seg: string) { seg == "." || seg == ".." }

  function Push(stack: seq<string>, seg: string, keepEmpty: bool): seq<string> {
    if seg == "." || (seg == "" && !keepEmpty) then stack
    else if seg == ".." then if stack == [] then [] else stack[..|stack| - 1]
    else stack + [seg]
  }

  /** A dot segment does nothing, a double one takes back what is before it, and at the root nothing. */
  lemma DotSegments(stack: seq<string>, seg: string, keepEmpty: bool)
    requires seg != "" && !IsDots(seg)
    ensures Push(stack, seg, keepEmpty) == stack + [seg]
    ensures Push(stack, ".", keepEmpty) == stack && Push(stack + [seg], "..", keepEmpty) == stack
    ensures Push([], "..", keepEmpty) == [] && Push(stack, "", keepEmpty) == if keepEmpty then stack + [""] else stack
  {
  }

  /** Removes dot segments; path.Clean also drops empty segments. */
  function Fold(segs: seq<string>, keepEmpty: bool): seq<string> {
    if segs == [] then [] else Push(Fold(segs[..|segs| - 1], keepEmpty), segs[|segs| - 1], keepEmpty)
  }

  predicate NormalSegs(segs: seq<string>) {
    forall seg :: seg in segs ==> seg != "" && !IsDots(seg) && '/' !in seg
  }

  /** A non-empty relative path without empty or dot segments. */
  predicate NormalPath(path: string) { NormalSegs(Split(path)) }

  lemma NormalInit(segs: seq<string>)
    requires NormalSegs(segs) && segs != []
    ensures var last := segs[|segs| - 1];
      NormalSegs(segs[..|segs| - 1]) && last != "" && !IsDots(last) && segs == segs[..|segs| - 1] + [last]
  {
    assert segs[|segs| - 1] in segs;
  }

  lemma {:induction false} FoldAlone(segs: seq<string>, keepEmpty: bool)
    requires NormalSegs(segs)
    ensures Fold(segs, keepEmpty) == segs
    decreases |segs|
  {
    if segs == [] {
    } else {
      NormalInit(segs);
      FoldAlone(segs[..|segs| - 1], keepEmpty);
    }
  }

  lemma {:induction false} FoldRooted(segs: seq<string>, keepEmpty: bool)
    requires NormalSegs(segs)
    ensures Fold([""] + segs, keepEmpty) == if keepEmpty then [""] + segs else segs
    decreases |segs|
  {
    var rooted := [""] + segs;
    if segs == [] {
      assert rooted == [""] && rooted[..0] == [];
    } else {
      var init, last := segs[..|segs| - 1], segs[|segs| - 1];
      NormalInit(segs);
      FoldRooted(init, keepEmpty);
      assert rooted[..|rooted| - 1] == [""] + init && rooted[|rooted| - 1] == last;
      ConcatAssociative([""], init, [last]);
    }
  }

  lemma FoldNormal(segs: seq<string>, keepEmpty: bool)
    requires NormalSegs(segs)
    ensures Fold(segs, keepEmpty) == segs
    ensures Fold([""] + segs, keepEmpty) == if keepEmpty then [""] + segs else segs
  {
    FoldAlone(segs, keepEmpty);
    FoldRooted(segs, keepEmpty);
  }

  lemma PushCleans(stack: seq<string>, seg: string)
    requires NormalSegs(stack) && '/' !in seg
    ensures NormalSegs(Push(stack, seg, false))
  {
    forall x | x in Push(stack, seg, false) ensures x in stack || (x == seg && seg != "" && !IsDots(seg)) {
    }
  }

  lemma {:induction false} FoldCleans(segs: seq<string>)
    requires forall seg :: seg in segs ==> '/' !in seg
    ensures NormalSegs(Fold(segs, false))
    decreases |segs|
  {
    if segs == [] {
    } else {
      var last := segs[|segs| - 1];
      FoldCleans(segs[..|segs| - 1]);
      assert last in segs;
      PushCleans(Fold(segs[..|segs| - 1], false), last);
    }
  }

  /** path.Clean of a rooted path. */
  function CleanRooted(path: string): string {
    "/" + Join(Fold(Split(path), false))
  }

  function LastSlash(s: string): (n: nat)
    ensures n <= |s| && '/' !in s[n..]
    ensures n > 0 ==> s[n - 1] == '/'
  {
    if s == "" then 0 else if s[|s| - 1] == '/' then |s| else LastSlash(s[..|s| - 1])
  }

  /** net/url's resolvePath: merge with the base path, then remove dot segments. */
  function ResolvePath(base: string, ref: string): string {
    var full := if ref == "" then base
                else if ref[0] != '/' then base[..LastSlash(base)] + ref
                else ref;
    if full == "" then ""
    else
      var segs := Split(full);
      var tail := if IsDots(segs[|segs| - 1]) then "/" else "";
      var r := "/" + Join(Fold(segs, true)) + tail;
      if |r| > 1 && r[1] == '/' then r[1..] else r
  }

  // ---- URLs ----

  datatype URL = URL(scheme: string, host: string, path: string, opaquePart: string, rawQuery: string, fragment: string)

  /** The reference that a relative path without reserved characters denotes. */
  function RelativeReference(path: string): URL { URL("", "", path, "", "", "") }

  function ResolveReference(base: URL, ref: URL): URL {
    var r := if ref.scheme == "" then ref.(scheme := base.scheme) else ref;
    if ref.scheme != "" || ref.host != "" then r.(path := ResolvePath(ref.path, ""))
    else if ref.opaquePart != "" then r.(host := "", path := "")
    else
      var q := if ref.path == "" && ref.rawQuery == ""
               then r.(rawQuery := base.rawQuery,
                       fragment := if ref.fragment == "" then base.fragment else ref.fragment)
               else r;
      q.(host := base.host, path := ResolvePath(base.path, ref.path))
  }

  /** URL.JoinPath with one element. */
  function JoinPath(base: URL, elem: string): URL {
    var p := if base.path != "" && base.path[0] == '/'
             then CleanRooted(base.path + "/" + elem)
             else CleanRooted("/" + base.path + "/" + elem)[1..];
    base.(path := if elem != "" && elem[|elem| - 1] == '/' && (p == "" || p[|p| - 1] != '/') then p + "/" else p)
  }

  /** The path a bucket URL is opened with (OpenBucket). */
  function OpenedPath(path: string): string {
    var p := CleanRooted("/" + path);
    if p == "/" then "" else p
  }

  lemma {:induction false} FoldTwoEmpties(segs: seq<string>)
    requires NormalSegs(segs)
    ensures Fold(["", ""] + segs, false) == segs
    decreases |segs|
  {
    var rooted := ["", ""] + segs;
    if segs == [] {
      assert rooted == ["", ""] && rooted[..1] == [""] && [""][..0] == [];
      assert Fold([""], false) == [];
    } else {
      var init, last := segs[..|segs| - 1], segs[|segs| - 1];
      NormalInit(segs);
      FoldTwoEmpties(init);
      assert rooted[..|rooted| - 1] == ["", ""] + init && rooted[|rooted| - 1] == last;
    }
  }

  lemma OneSlash(path: string)
    requires NormalPath(path)
    ensures path != "" && CleanRooted("/" + path) == "/" + path && Split("/" + path) == [""] + Split(path)
  {
    SplitOne("");
    assert path == "" ==> "" in Split(path);
    JoinSplit(path);
    SplitAppend("", path);
    assert "/" + path == "" + "/" + path;
    FoldRooted(Split(path), false);
  }

  lemma TwoSlashes(path: string)
    requires NormalPath(path)
    ensures CleanRooted("/" + ("/" + path)) == "/" + path
  {
    OneSlash(path);
    JoinSplit(path);
    SplitAppend("", "/" + path);
    assert "/" + ("/" + path) == "" + "/" + ("/" + path);
    FoldTwoEmpties(Split(path));
    ConcatAssociative([""], [""], Split(path));
    assert [""] + [""] == ["", ""];
  }

  /** A bucket opened at a normal path, given with or without its leading slash, is opened at that path. */
  lemma OpenedPathMeaning(path: string)
    requires NormalPath(path)
    ensures OpenedPath(path) == "/" + path && OpenedPath("/" + path) == "/" + path
  {
    OneSlash(path);
    TwoSlashes(path);
  }

  predicate IsBucketUrl(b: URL) {
    && b.opaquePart == "" && b.rawQuery == "" && b.fragment == ""
    && (b.path == "" || ("/" <= b.path && NormalPath(b.path[1..])))
  }

  lemma OpenedUrlIsBucketUrl(scheme: string, host: string, path: string)
    ensures IsBucketUrl(URL(scheme, host, OpenedPath(path), "", "", ""))
  {
    var segs := Fold(Split("/" + path), false);
    FoldCleans(Split("/" + path));
    var p := CleanRooted("/" + path);
    assert p[1..] == Join(segs);
    if segs != [] {
      SplitJoin(segs);
    }
  }

  /** The key of a URL in the bucket (urlKey). */
  function UrlKey(b: URL, u: URL): Option<string> {
    if u.opaquePart != "" || u.fragment != "" || u.rawQuery != "" then None
    else if u.scheme != b.scheme || u.host != b.host then None
    else if u.path == "" || u.path[0] != '/' then None
    else
      var prefix, p := b.path + "/", CleanRooted(u.path);
      if prefix <= p then Some(p[|prefix|..]) else None
  }

  lemma RootedNormal(base: string, path: string)
    requires base == "" || ("/" <= base && NormalPath(base[1..]))
    requires NormalPath(path)
    ensures var full := base + "/" + path;
      && CleanRooted(full) == full
      && NormalSegs(Split(full)[1..]) && Split(full) == [""] + Split(full)[1..]
      && Fold(Split(full), true) == Split(full)
  {
    var full := base + "/" + path;
    var segs := RootedSegs(base, path);
    JoinSplit(full);
    FoldNormal(segs, false);
    FoldNormal(segs, true);
    assert ([""] + segs)[1..] == segs;
  }

  /** A URL names a key of the bucket if and only if it is a plain URL on the bucket's host whose path, cleaned, is
      the key below the bucket's path. */
  lemma UrlKeyMeaning(b: URL, u: URL, key: string)
    ensures UrlKey(b, u) == Some(key) <==>
      && u.scheme == b.scheme && u.host == b.host
      && u.opaquePart == "" && u.rawQuery == "" && u.fragment == ""
      && "/" <= u.path && CleanRooted(u.path) == b.path + "/" + key
  {
    var prefix, p := b.path + "/", CleanRooted(u.path);
    if prefix <= p {
      assert p == prefix + p[|prefix|..];
    }
    assert (prefix + key)[|prefix|..] == key;
  }

  /** A reference to another host stays there. */
  lemma OtherHost(b: URL, key: string, ref: URL)
    requires ref.host != ""
    ensures ResolveReference(JoinPath(b, key), ref).host == ref.host
    ensures ref.host != b.host ==> UrlKey(b, ResolveReference(JoinPath(b, key), ref)) == None
  {
  }

  lemma RootedSegs(base: string, path: string) returns (segs: seq<string>)
    requires base == "" || ("/" <= base && NormalPath(base[1..]))
    requires NormalPath(path)
    ensures NormalSegs(segs) && segs != [] && Split(base + "/" + path) == [""] + segs
  {
    SplitAppend(base, path);
    if base == "" {
      segs := Split(path);
    } else {
      assert base == "" + "/" + base[1..];
      SplitAppend("", base[1..]);
      segs := Split(base[1..]) + Split(path);
      ConcatAssociative([""], Split(base[1..]), Split(path));
    }
  }

  lemma {:induction false} LastSlashIs(s: string, n: nat)
    requires n <= |s| && '/' !in s[n..] && (n > 0 ==> s[n - 1] == '/')
    ensures LastSlash(s) == n
    decreases |s|
  {
    if n == |s| {
    } else {
      var init := s[..|s| - 1];
      assert s[n..][|s| - 1 - n] == s[|s| - 1];
      assert init[n..] == s[n..][..|s| - 1 - n];
      LastSlashIs(init, n);
    }
  }

  /** The URL of a .narinfo file in the bucket. */
  lemma InfoUrlPath(b: URL, key: string)
    requires IsBucketUrl(b) && NormalPath(key) && '/' !in key
    ensures JoinPath(b, key).path == if b.path == "" then key else b.path + "/" + key
  {
    SplitOne(key);
    assert key in Split(key);
    RootedNormal(b.path, key);
    if b.path == "" {
      DoubleSlash(key);
    }
  }

  lemma DoubleSlash(key: string)
    requires NormalPath(key) && '/' !in key
    ensures CleanRooted("/" + "" + "/" + key) == "/" + key
  {
    SplitOne(key);
    assert key in Split(key);
    assert "/" + "" + "/" + key == "" + "/" + ("" + "/" + key);
    SplitAppend("", "" + "/" + key);
    SplitAppend("", key);
    var segs := ["", "", key];
    assert Split("/" + "" + "/" + key) == segs;
    FoldEmpties(key);
    assert Join([key]) == key;
  }

  lemma FoldEmpties(key: string)
    requires key != "" && !IsDots(key)
    ensures Fold(["", "", key], false) == [key]
  {
    assert ["", "", key][..2] == ["", ""];
    assert ["", ""][..1] == [""];
    assert [""][..0] == [];
    assert Fold(["", ""], false) == [];
    assert [] + [key] == [key];
  }

  lemma NormalPathFacts(path: string)
    requires NormalPath(path)
    ensures path != "" && path[0] != '/' && !IsDots(Split(path)[|Split(path)| - 1])
  {
    var segs := Split(path);
    assert segs[0] in segs && segs[|segs| - 1] in segs;
  }

  lemma ResolveAtRoot(key: string, path: string)
    requires '/' !in key && NormalPath(path)
    ensures ResolvePath(key, path) == "/" + path
  {
    NormalPathFacts(path);
    LastSlashIs(key, 0);
    FoldNormal(Split(path), true);
    JoinSplit(path);
    assert key[..0] + path == path;
  }

  lemma ResolveBelow(base: string, key: string, path: string)
    requires "/" <= base && NormalPath(base[1..]) && '/' !in key && NormalPath(path)
    ensures ResolvePath(base + "/" + key, path) == base + "/" + path
  {
    NormalPathFacts(path);
    var joined, full := base + "/" + key, base + "/" + path;
    var n := |base| + 1;
    assert joined[n..] == key && joined[..n] + path == full;
    LastSlashIs(joined, n);
    RootedNormal(base, path);
    JoinSplit(full);
    SplitAppend(base, path);
    var segs := Split(full);
    assert segs[|segs| - 1] == Split(path)[|Split(path)| - 1];
    var r := "/" + full;
    assert r[1] == '/' && r[1..] == full;
  }

  /** Resolving a relative path against the URL of a .narinfo, and taking the key of the result, gives the
      path back: what the uploader wrote under is what the proxy reads. */
  lemma ResolvedKey(b: URL, key: string, path: string)
    requires IsBucketUrl(b) && NormalPath(key) && '/' !in key && NormalPath(path)
    ensures var u := ResolveReference(JoinPath(b, key), RelativeReference(path));
      UrlKey(b, u) == Some(path) && u == URL(b.scheme, b.host, b.path + "/" + path, "", "", "") && !("//" <= u.path)
  {
    InfoUrlPath(b, key);
    RootedNormal(b.path, path);
    NormalPathFacts(path);
    if b.path == "" {
      ResolveAtRoot(key, path);
    } else {
      ResolveBelow(b.path, key, path);
    }
    var full := b.path + "/" + path;
    assert ResolvePath(JoinPath(b, key).path, path) == full;
    BelowBase(b.path, path);
    KeyBelow(b, full, path);
  }

  lemma BelowBase(base: string, path: string)
    requires base == "" || ("/" <= base && NormalPath(base[1..]))
    requires NormalPath(path)
    ensures var full := base + "/" + path; full[0] == '/' && full[|base + "/"|..] == path && !("//" <= full)
  {
    NormalPathFacts(path);
    if base != "" {
      NormalPathFacts(base[1..]);
      assert (base + "/" + path)[1] == base[1..][0];
    }
  }

  lemma KeyBelow(b: URL, full: string, path: string)
    requires full != "" && full[0] == '/' && full == b.path + "/" + path && CleanRooted(full) == full
    ensures UrlKey(b, URL(b.scheme, b.host, full, "", "", "")) == Some(path)
  {
    assert full[|b.path + "/"|..] == path;
  }

  lemma InfoKeyIsNormal(digest: string)
    requires IsDigest(digest)
    ensures NormalPath(InfoKey(digest)) && '/' !in InfoKey(digest)
  {
    RootKeys(digest);
    SplitOne(InfoKey(digest));
    assert |InfoKey(digest)| > 2;
  }

  lemma NarPathIsNormal(url: string)
    requires IsNarPath(url)
    ensures NormalPath(url)
  {
    var tail := url[4..];
    assert url == "nar" + "/" + tail;
    assert forall i :: 0 <= i < |tail| ==> tail[i] == url[i + 4] && IsSegmentChar(tail[i]);
    SplitAppend("nar", tail);
    SplitOne("nar");
    SplitOne(tail);
  }

  // ---- NAR URLs of the proxy ----

  const NAR_EXTENSION := ".nar"

  function BuildNarUrl(digest: string, compression: string): Option<string> {
    match Extension(compression)
    case Some(ext) => Some("nar/" + digest + NAR_EXTENSION + ext)
    case None => None
  }

  /** strings.LastIndex */
  function LastIndex(s: string, sub: string): (r: Option<nat>)
    ensures r.Some? ==> r.value <= |s| && sub <= s[r.value..]
    ensures r.None? ==> !(sub <= s)
  {
    if s == "" then if sub == "" then Some(0) else None
    else
      match LastIndex(s[1..], sub)
      case Some(i) => Some(i + 1)
      case None => if sub <= s then Some(0) else None
  }

  function CompressionOf(ext: string): Option<string> {
    if ext == "" then Some("none")
    else if ext == ".bz2" then Some("bzip2")
    else if ext == ".gz" then Some("gzip")
    else if ext == ".br" then Some("br")
    else if ext == ".xz" then Some("xz")
    else None
  }

  function ParseNarUrlPath(path: string): Option<(string, string)> {
    if !("/nar/" <= path) then None
    else
      var tail := path[5..];
      match LastIndex(tail, NAR_EXTENSION)
      case None => None
      case Some(i) =>
        if !IsDigest(tail[..i]) then None
        else
          match CompressionOf(tail[i + |NAR_EXTENSION|..])
          case None => None
          case Some(c) => Some((tail[..i], c))
  }

  lemma {:induction false} LastIndexSkips(text: string, rest: string, sub: string)
    requires sub != "" && LastIndex(rest, sub) == Some(0)
    ensures LastIndex(text + rest, sub) == Some(|text|)
  {
    if text != "" {
      assert (text + rest)[1..] == text[1..] + rest;
      LastIndexSkips(text[1..], rest, sub);
    } else {
      assert text + rest == rest;
    }
  }

  lemma {:induction false} NoIndex(s: string, sub: string)
    requires forall i :: 0 <= i <= |s| ==> !(sub <= s[i..])
    ensures LastIndex(s, sub) == None
  {
    if s == "" {
      assert s[0..] == s;
    } else {
      assert forall i :: 0 <= i <= |s[1..]| ==> s[1..][i..] == s[i + 1..];
      NoIndex(s[1..], sub);
      assert s[0..] == s;
    }
  }

  lemma LastIndexOfExtension(ext: string)
    requires ext in {"", ".bz2", ".gz", ".br", ".xz"}
    ensures LastIndex(NAR_EXTENSION + ext, NAR_EXTENSION) == Some(0)
  {
    var s := "nar" + ext;
    forall i | 0 <= i <= |s| ensures !(NAR_EXTENSION <= s[i..]) {
      assert |s[i..]| > 1 ==> s[i..][0] == s[i] && s[i..][1] == s[i + 1];
      assert NAR_EXTENSION[0] == '.' && NAR_EXTENSION[1] == 'n';
    }
    NoIndex(s, NAR_EXTENSION);
    assert (NAR_EXTENSION + ext)[1..] == s;
  }

  lemma BuiltPathParses(digest: string, compression: string, ext: string)
    requires IsDigest(digest) && Extension(compression) == Some(ext)
    ensures ParseNarUrlPath("/nar/" + digest + NAR_EXTENSION + ext) == Some((digest, compression))
  {
    var path := "/nar/" + digest + NAR_EXTENSION + ext;
    var tail := path[5..];
    assert tail == digest + (NAR_EXTENSION + ext);
    LastIndexOfExtension(ext);
    LastIndexSkips(digest, NAR_EXTENSION + ext, NAR_EXTENSION);
    assert tail[..|digest|] == digest && tail[|digest| + 4..] == ext;
  }

  lemma ParsedPathWasBuilt(path: string, digest: string, compression: string)
    requires ParseNarUrlPath(path) == Some((digest, compression))
    ensures IsDigest(digest) && Extension(compression).Some?
    ensures path == "/nar/" + digest + NAR_EXTENSION + Extension(compression).value
  {
    var tail := path[5..];
    var i := LastIndex(tail, NAR_EXTENSION).value;
    CutAtExtension(tail, i);
    assert path == path[..5] + tail;
  }

  lemma CutAtExtension(tail: string, i: nat)
    requires i <= |tail| && NAR_EXTENSION <= tail[i..]
    ensures i + |NAR_EXTENSION| <= |tail| && tail == tail[..i] + NAR_EXTENSION + tail[i + |NAR_EXTENSION|..]
  {
    var rest := tail[i..];
    assert rest == NAR_EXTENSION + rest[|NAR_EXTENSION|..];
  }

  /** The proxy's NAR URLs read back exactly: a path is understood if and only if it was built that way. */
  lemma NarUrlRoundTrip(path: string, digest: string, compression: string)
    ensures ParseNarUrlPath(path) == Some((digest, compression))
            <==> IsDigest(digest) && BuildNarUrl(digest, compression).Some?
                 && path == "/" + BuildNarUrl(digest, compression).value
  {
    if BuildNarUrl(digest, compression).Some? {
      var ext := Extension(compression).value;
      assert "/" + BuildNarUrl(digest, compression).value == "/nar/" + digest + NAR_EXTENSION + ext;
      if IsDigest(digest) {
        BuiltPathParses(digest, compression, ext);
      }
    }
    if ParseNarUrlPath(path) == Some((digest, compression)) {
      ParsedPathWasBuilt(path, digest, compression);
    }
  }
}
