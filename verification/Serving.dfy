/** The caching proxy in front of a bucket that uploaders keep changing (NARInfo in uicache.go, serveNAR in
    serve.go, NARInfo and Download in internal/nixstore/bucket.go): a record in the cache can be old, and must
    still describe the file that is served for it. */
module Serving {
  import opened Sequences
  import opened StoreObjects
  import opened NarInfos
  import Publication
  import opened Urls
  import opened Cache

  /** Parsing and printing of URL texts (net/url). */
  datatype UrlText = UrlText(parse: string -> Option<URL>, format: URL -> string) {
    /** A plain relative path parses as itself, and the URL of a file in the bucket survives printing. */
    ghost predicate Ideal(b: URL) {
      && (forall path :: IsNarPath(path) ==> parse(path) == Some(RelativeReference(path)))
      && (forall path: string :: "/" <= path && !("//" <= path) ==>
           var u := URL(b.scheme, b.host, path, "", "", ""); parse(format(u)) == Some(u))
    }
  }

  /** What stays fixed: the foreign functions, the bucket's URL, and the known compression types. */
  datatype Config = Config(codec: Codec, urls: UrlText, b: URL, known: set<string>) {
    ghost predicate Ideal() { codec.Ideal() && urls.Ideal(b) && IsBucketUrl(b) }
  }

  // ---- reading from the bucket ----

  /** The key that a URL text names. */
  function KeyOf(c: Config, text: string): Option<string> {
    match c.urls.parse(text)
    case None => None
    case Some(u) => UrlKey(c.b, u)
  }

  datatype Fetched = Absent | Unreadable | Read(info: NARInfo)

  /** Bucket.NARInfo: the record comes with its URL resolved against that of its .narinfo file. */
  function FetchInfo(c: Config, bucket: Publication.Objects, digest: string): Fetched {
    if !IsDigest(digest) then Unreadable
    else if InfoKey(digest) !in bucket then Absent
    else
      match c.codec.unmarshal(bucket[InfoKey(digest)])
      case None => Unreadable
      case Some(info) =>
        match c.urls.parse(info.url)
        case None => Unreadable
        case Some(u) => Read(info.(url := c.urls.format(ResolveReference(JoinPath(c.b, InfoKey(digest)), u))))
  }

  // ---- when a record can be served ----

  /** The record's URL leads to a file in the bucket that is what the record says, down to the archive in it. */
  ghost predicate Servable(c: Config, bucket: Publication.Objects, info: NARInfo) {
    var key := KeyOf(c, info.url);
    key.Some? && Publication.Backed(c.codec, bucket, info.(url := key.value))
  }

  ghost predicate RowServable(c: Config, bucket: Publication.Objects, t: Tables, d: string)
    requires d in t.objects
  {
    Servable(c, bucket, RowInfo(t, "", d, [], []))
  }

  lemma FetchedIsServable(c: Config, bucket: Publication.Objects, digest: string)
    requires c.Ideal() && Publication.NoDangling(c.codec, bucket) && FetchInfo(c, bucket, digest).Read?
    ensures Servable(c, bucket, FetchInfo(c, bucket, digest).info)
  {
    var found := c.codec.unmarshal(bucket[InfoKey(digest)]).value;
    assert Publication.ReadInfo(c.codec, bucket, digest) == Some(found);
    InfoKeyIsNormal(digest);
    NarPathIsNormal(found.url);
    ResolvedKey(c.b, InfoKey(digest), found.url);
    ResolvedPathIsRooted(c, found.url);
  }

  /** A lookup in the bucket reads the .narinfo under the digest, if it can be parsed, its URL included, and answers
      with what it says, only the URL being resolved; that URL leads back to the key the .narinfo names. */
  lemma FetchMeaning(c: Config, bucket: Publication.Objects, digest: string)
    requires IsDigest(digest)
    ensures var key, fetched := digest + ".narinfo", FetchInfo(c, bucket, digest);
      && (fetched.Absent? <==> key !in bucket)
      && (fetched.Read? <==> key in bucket && c.codec.unmarshal(bucket[key]).Some?
                             && c.urls.parse(c.codec.unmarshal(bucket[key]).value.url).Some?)
      && (fetched.Read? ==>
            var stored := c.codec.unmarshal(bucket[key]).value;
            && fetched.info.(url := stored.url) == stored
            && (c.Ideal() && Publication.NoDangling(c.codec, bucket) ==>
                  KeyOf(c, fetched.info.url) == Some(stored.url)))
  {
    if c.Ideal() && Publication.NoDangling(c.codec, bucket) && FetchInfo(c, bucket, digest).Read? {
      FetchedIsServable(c, bucket, digest);
      var stored := c.codec.unmarshal(bucket[InfoKey(digest)]).value;
      assert Publication.ReadInfo(c.codec, bucket, digest) == Some(stored);
      InfoKeyIsNormal(digest);
      NarPathIsNormal(stored.url);
      ResolvedKey(c.b, InfoKey(digest), stored.url);
      ResolvedPathIsRooted(c, stored.url);
    }
  }

  lemma ResolvedPathIsRooted(c: Config, url: string)
    requires IsBucketUrl(c.b) && IsNarPath(url)
    ensures "/" <= c.b.path + "/" + url
  {
    assert (c.b.path + "/" + url)[0] == '/';
  }

  /** Uploads never take away what a record needs. */
  lemma ServableStays(c: Config, before: Publication.Objects, after: Publication.Objects, info: NARInfo)
    requires Publication.Preserves(c.codec, before, after) && Servable(c, before, info)
    ensures Servable(c, after, info)
  {
    var key := KeyOf(c, info.url).value;
    assert Publication.Backed(c.codec, after, info.(url := key));
  }

  // ---- the proxy at work ----

  datatype Reply =
    | NotFound
    | Failure
    | File(compression: string, info: NARInfo, length: int, etag: Option<Hash>, body: string)

  /** One request, or one object being looked up by the crawl (`want` is then None). `dir` is the store directory
      it goes by, saved or not. */
  datatype Task =
    | Asked(path: string, dir: string)
    | Missed(digest: string, dir: string, want: Option<string>)
    | Storing(info: NARInfo, want: Option<string>)
    | Answering(info: NARInfo, compression: string)
    | Downloading(u: URL, info: NARInfo, compression: string)
    | Done(reply: Reply)

  datatype State = State(pub: Publication.State, tables: Tables, tasks: seq<Task>)

  /** Parse the path and look in the cache. */
  ghost function Ask(c: Config, t: Tables, path: string, dir: string): Task {
    match ParseNarUrlPath(path)
    case None => Done(NotFound)
    case Some((digest, compression)) =>
      AskRow(View(t, c.known, digest), digest, compression, dir)
  }

  function AskRow(row: Cache.Read, digest: string, compression: string, dir: string): Task {
    match row
    case Found(info) => Answering(info, compression)
    case Corrupt => Done(Failure)
    case Missing => Missed(digest, dir, Some(compression))
  }

  function Fetch(c: Config, bucket: Publication.Objects, digest: string, dir: string, want: Option<string>): Task {
    match FetchInfo(c, bucket, digest)
    case Absent => Done(NotFound)
    case Unreadable => Done(Failure)
    case Read(info) => if info.storePath.dir == dir then Storing(info, want) else Done(Failure)
  }

  function Answer(c: Config, info: NARInfo, want: string): Task {
    if info.compression != want then Done(NotFound)
    else
      match c.urls.parse(info.url)
      case None => Done(Failure)
      case Some(u) => Downloading(u, info, want)
  }

  function Download(c: Config, bucket: Publication.Objects, u: URL, info: NARInfo, want: string): Reply {
    match UrlKey(c.b, u)
    case None => NotFound
    case Some(key) => if key in bucket then File(want, info, info.fileSize, info.fileHash, bucket[key]) else NotFound
  }

  /** One step of a task; `store` is false when the database is not available for writing. */
  ghost function Advance(c: Config, bucket: Publication.Objects, t: Tables, task: Task, store: bool): (Tables, Task) {
    match task
    case Asked(path, dir) => (t, Ask(c, t, path, dir))
    case Missed(digest, dir, want) => (t, Fetch(c, bucket, digest, dir, want))
    case Storing(info, want) =>
      (if store && Storable(info) then Upserted(t, info) else t,
       match want case None => Done(NotFound) case Some(compression) => Answering(info, compression))
    case Answering(info, want) => (t, Answer(c, info, want))
    case Downloading(u, info, want) => (t, Done(Download(c, bucket, u, info, want)))
    case Done(_) => (t, task)
  }

  datatype Step =
    | Upload(step: Publication.Step)
    | LearnDirectory(dir: string)
    | Request(path: string, dir: string)
    | Crawl(digest: string, dir: string)
    | Proceed(i: nat, store: bool)
    | Fail(i: nat)

  ghost function Apply(c: Config, s: State, step: Step): Option<State>
    requires |s.pub.jobs| == |s.pub.pcs|
  {
    match step
    case Upload(step) =>
      (match Publication.Apply(c.codec, s.pub, step)
       case None => None
       case Some(pub) => Some(s.(pub := pub)))
    case LearnDirectory(dir) =>
      if s.tables.directory.None? then Some(s.(tables := s.tables.(directory := Some(dir)))) else None
    case Request(path, dir) =>
      if DirectoryFor(s.tables, Some(dir)) == Some(dir) then Some(s.(tasks := s.tasks + [Asked(path, dir)])) else None
    case Crawl(digest, dir) =>
      if DirectoryFor(s.tables, Some(dir)) == Some(dir) && digest !in s.tables.objects
      then Some(s.(tasks := s.tasks + [Missed(digest, dir, None)])) else None
    case Proceed(i, store) =>
      if i >= |s.tasks| then None
      else
        var r := Advance(c, s.pub.bucket, s.tables, s.tasks[i], store);
        Some(s.(tables := r.0, tasks := s.tasks[i := r.1]))
    case Fail(i) => if i < |s.tasks| then Some(s.(tasks := s.tasks[i := Done(Failure)])) else None
  }

  // ---- the invariant ----

  /** A file was served under headers that describe it: the ETag is its hash, the length is its size, and it
      unpacks to the archive of the record under the compression that was asked for. */
  ghost predicate Truthful(c: Config, reply: Reply) {
    reply.File? ==>
      var nar := c.codec.decompress(reply.compression, reply.body);
      && reply.etag == Some(c.codec.HashOf(reply.body)) && reply.length == |reply.body|
      && reply.info.narHash == Some(c.codec.HashOf(nar)) && reply.info.narSize == |nar|
  }

  ghost predicate TaskInv(c: Config, bucket: Publication.Objects, task: Task) {
    match task
    case Asked(_, _) => true
    case Missed(_, _, _) => true
    case Storing(info, _) => Servable(c, bucket, info)
    case Answering(info, _) => Servable(c, bucket, info)
    case Downloading(u, info, want) =>
      Servable(c, bucket, info) && c.urls.parse(info.url) == Some(u) && want == info.compression
    case Done(reply) => Truthful(c, reply)
  }

  ghost predicate RowsInv(c: Config, bucket: Publication.Objects, t: Tables) {
    t.Valid() && forall d :: d in t.objects ==> RowServable(c, bucket, t, d)
  }

  ghost predicate Inv(c: Config, s: State) {
    && Publication.Inv(c.codec, s.pub)
    && RowsInv(c, s.pub.bucket, s.tables)
    && forall i :: 0 <= i < |s.tasks| ==> TaskInv(c, s.pub.bucket, s.tasks[i])
  }

  lemma ViewIsServable(c: Config, bucket: Publication.Objects, t: Tables, d: string)
    requires RowsInv(c, bucket, t) && View(t, c.known, d).Found?
    ensures Servable(c, bucket, View(t, c.known, d).info)
  {
    assert RowServable(c, bucket, t, d);
  }

  /** Serving looks only at what a record says about the file. */
  lemma SameFile(c: Config, bucket: Publication.Objects, a: NARInfo, b: NARInfo)
    requires Servable(c, bucket, a)
    requires a.url == b.url && a.compression == b.compression && a.fileHash == b.fileHash
    requires a.narHash == b.narHash && a.narSize == b.narSize
    requires b.fileSize == if a.fileSize > 0 then a.fileSize else -1
    ensures Servable(c, bucket, b)
  {
    var key := KeyOf(c, a.url).value;
    assert Publication.Describes(c.codec, a.(url := key), bucket[key]);
    assert Publication.Describes(c.codec, b.(url := key), bucket[key]);
  }

  lemma OwnRow(c: Config, bucket: Publication.Objects, u: Tables, info: NARInfo)
    requires info.Digest() in u.objects && u.objects[info.Digest()] == RowOf(info)
    requires Servable(c, bucket, info)
    ensures RowServable(c, bucket, u, info.Digest())
  {
    SameFile(c, bucket, info, RowInfo(u, "", info.Digest(), [], []));
  }

  lemma OtherRow(c: Config, bucket: Publication.Objects, t: Tables, u: Tables, d: string)
    requires d in t.objects && d in u.objects && t.objects[d] == u.objects[d]
    requires RowServable(c, bucket, t, d)
    ensures RowServable(c, bucket, u, d)
  {
    assert RowInfo(u, "", d, [], []) == RowInfo(t, "", d, [], []);
  }

  lemma UpsertedObjects(t: Tables, info: NARInfo)
    ensures Upserted(t, info).objects == t.objects[info.Digest() := RowOf(info)]
  {
  }

  /** Caching a servable record gives a servable row; no size is lost, because no file is empty. */
  lemma UpsertKeepsRows(c: Config, bucket: Publication.Objects, t: Tables, info: NARInfo)
    requires RowsInv(c, bucket, t) && Servable(c, bucket, info) && Storable(info)
    ensures RowsInv(c, bucket, Upserted(t, info))
  {
    var u := Upserted(t, info);
    UpsertKeepsValid(t, info);
    UpsertedObjects(t, info);
    RowsAfterUpsert(c, bucket, t, u, info);
  }

  lemma RowsAfterUpsert(c: Config, bucket: Publication.Objects, t: Tables, u: Tables, info: NARInfo)
    requires RowsInv(c, bucket, t) && Servable(c, bucket, info) && u.Valid()
    requires u.objects == t.objects[info.Digest() := RowOf(info)]
    ensures RowsInv(c, bucket, u)
  {
    forall d | d in u.objects ensures RowServable(c, bucket, u, d) {
      if d == info.Digest() {
        OwnRow(c, bucket, u, info);
      } else {
        OtherRow(c, bucket, t, u, d);
      }
    }
  }

  lemma DownloadIsTruthful(c: Config, bucket: Publication.Objects, u: URL, info: NARInfo)
    requires Servable(c, bucket, info) && c.urls.parse(info.url) == Some(u)
    ensures Download(c, bucket, u, info, info.compression).File?
    ensures Truthful(c, Download(c, bucket, u, info, info.compression))
  {
  }

  lemma AskKeeps(c: Config, bucket: Publication.Objects, t: Tables, path: string, dir: string)
    requires RowsInv(c, bucket, t)
    ensures TaskInv(c, bucket, Ask(c, t, path, dir))
  {
    var parsed := ParseNarUrlPath(path);
    if parsed.Some? {
      var row := View(t, c.known, parsed.value.0);
      if row.Found? {
        ViewIsServable(c, bucket, t, parsed.value.0);
      }
      RowKeeps(c, bucket, row, parsed.value.0, parsed.value.1, dir);
    }
  }

  lemma RowKeeps(c: Config, bucket: Publication.Objects, row: Cache.Read, digest: string, compression: string,
      dir: string)
    requires row.Found? ==> Servable(c, bucket, row.info)
    ensures TaskInv(c, bucket, AskRow(row, digest, compression, dir))
  {
  }

  lemma FetchKeeps(c: Config, bucket: Publication.Objects, digest: string, dir: string, want: Option<string>)
    requires c.Ideal() && Publication.NoDangling(c.codec, bucket)
    ensures TaskInv(c, bucket, Fetch(c, bucket, digest, dir, want))
  {
    if Fetch(c, bucket, digest, dir, want).Storing? {
      FetchedIsServable(c, bucket, digest);
    }
  }

  lemma AdvanceKeeps(c: Config, bucket: Publication.Objects, t: Tables, task: Task, store: bool)
    requires c.Ideal() && Publication.GoodBucket(c.codec, bucket) && RowsInv(c, bucket, t) && TaskInv(c, bucket, task)
    ensures var (t', task') := Advance(c, bucket, t, task, store);
      RowsInv(c, bucket, t') && TaskInv(c, bucket, task')
  {
    match task
    case Asked(path, dir) => AskKeeps(c, bucket, t, path, dir);
    case Missed(digest, dir, want) => FetchKeeps(c, bucket, digest, dir, want);
    case Storing(info, _) =>
      if store && Storable(info) {
        UpsertKeepsRows(c, bucket, t, info);
      }
    case Answering(_, _) =>
    case Downloading(u, info, _) => DownloadIsTruthful(c, bucket, u, info);
    case Done(_) =>
  }

  lemma UploadKeeps(c: Config, s: State, step: Publication.Step)
    requires c.Ideal() && Inv(c, s) && Apply(c, s, Upload(step)).Some?
    ensures Inv(c, Apply(c, s, Upload(step)).value)
  {
    var s' := Apply(c, s, Upload(step)).value;
    Publication.StepKeepsInv(c.codec, s.pub, step);
    forall i | 0 <= i < |s.tasks| ensures TaskInv(c, s'.pub.bucket, s.tasks[i]) {
      TaskStays(c, s.pub.bucket, s'.pub.bucket, s.tasks[i]);
    }
    forall d | d in s.tables.objects ensures RowServable(c, s'.pub.bucket, s.tables, d) {
      assert RowServable(c, s.pub.bucket, s.tables, d);
      ServableStays(c, s.pub.bucket, s'.pub.bucket, RowInfo(s.tables, "", d, [], []));
    }
  }

  lemma TaskStays(c: Config, before: Publication.Objects, after: Publication.Objects, task: Task)
    requires Publication.Preserves(c.codec, before, after) && TaskInv(c, before, task)
    ensures TaskInv(c, after, task)
  {
    if task.Storing? || task.Answering? || task.Downloading? {
      ServableStays(c, before, after, task.info);
    }
  }

  lemma StepKeepsInv(c: Config, s: State, step: Step)
    requires c.Ideal() && Inv(c, s) && Apply(c, s, step).Some?
    ensures Inv(c, Apply(c, s, step).value)
  {
    match step
    case Upload(up) => UploadKeeps(c, s, up);
    case Proceed(i, store) => AdvanceKeeps(c, s.pub.bucket, s.tables, s.tasks[i], store);
    case LearnDirectory(dir) =>
      var t := s.tables.(directory := Some(dir));
      forall d | d in t.objects ensures RowServable(c, s.pub.bucket, t, d) {
        assert RowServable(c, s.pub.bucket, s.tables, d);
        assert RowInfo(t, "", d, [], []) == RowInfo(s.tables, "", d, [], []);
      }
    case Request(_, _) =>
    case Crawl(_, _) =>
    case Fail(_) =>
  }

  ghost predicate CanStep(c: Config, s: State, s': State) {
    |s.pub.jobs| == |s.pub.pcs| && exists step :: Apply(c, s, step) == Some(s')
  }

  /** A run starts with a good bucket and an empty cache. */
  ghost predicate IsRun(c: Config, run: seq<State>) {
    && run != [] && Publication.GoodBucket(c.codec, run[0].pub.bucket) && run[0].pub.jobs == [] && run[0].pub.pcs == []
    && run[0].tables == Tables(None, map[], {}, map[]) && run[0].tasks == []
    && forall m, n :: 0 <= m < n < |run| && n == m + 1 ==> CanStep(c, run[m], run[n])
  }

  /** Whatever uploaders, requests and the crawl do, and however their steps interleave: every cached row leads
      to a file that matches it, and every file was served under headers that describe it. */
  lemma {:induction false} StaleRowsStayServable(c: Config, run: seq<State>, n: nat)
    requires c.Ideal() && IsRun(c, run) && n < |run|
    ensures Inv(c, run[n])
    ensures forall d :: View(run[n].tables, c.known, d).Found? ==>
      Servable(c, run[n].pub.bucket, View(run[n].tables, c.known, d).info)
    ensures forall i :: 0 <= i < |run[n].tasks| && run[n].tasks[i].Done? ==> Truthful(c, run[n].tasks[i].reply)
    decreases n
  {
    if n == 0 {
    } else {
      StaleRowsStayServable(c, run, n - 1);
      assert CanStep(c, run[n - 1], run[n]);
      var step :| Apply(c, run[n - 1], step) == Some(run[n]);
      StepKeepsInv(c, run[n - 1], step);
    }
    forall d | View(run[n].tables, c.known, d).Found?
      ensures Servable(c, run[n].pub.bucket, View(run[n].tables, c.known, d).info) {
      ViewIsServable(c, run[n].pub.bucket, run[n].tables, d);
    }
  }

  // ---- the steps of a lookup are the lookup of the cache ----

  /** A task left to itself until it has its record or has failed. */
  ghost function LookUpAlone(c: Config, bucket: Publication.Objects, t: Tables, task: Task): (Tables, Task)
    decreases if task.Asked? then 3 else if task.Missed? then 2 else if task.Storing? then 1 else 0
  {
    if task.Asked? || task.Missed? || task.Storing? then
      var (t', task') := Advance(c, bucket, t, task, true);
      LookUpAlone(c, bucket, t', task')
    else (t, task)
  }

  function ReplyOf(fetched: Fetched): Option<NARInfo> {
    if fetched.Read? then Some(fetched.info) else None
  }

  /** Undisturbed, the steps of a request, the directory being settled, do what one lookup in the cache does with
      the bucket's reply. */
  lemma StepsAreLookUp(c: Config, bucket: Publication.Objects, t: Tables, path: string, dir: string, digest: string,
      compression: string)
    requires DirectoryFor(t, Some(dir)) == Some(dir) && ParseNarUrlPath(path) == Some((digest, compression))
    ensures var (t1, task) := LookUpAlone(c, bucket, t, Asked(path, dir));
      var (t2, answer) := LookUp(t, c.known, digest, Some(dir), ReplyOf(FetchInfo(c, bucket, digest)),
        Writable(false, true));
      && t1 == t2
      && if answer.Some? then task == Answering(answer.value, compression)
         else task in {Done(NotFound), Done(Failure)}
  {
    var asked := Ask(c, t, path, dir);
    assert LookUpAlone(c, bucket, t, Asked(path, dir)) == LookUpAlone(c, bucket, t, asked);
    if asked.Missed? {
      var fetched := Fetch(c, bucket, digest, dir, Some(compression));
      assert LookUpAlone(c, bucket, t, asked) == LookUpAlone(c, bucket, t, fetched);
      if fetched.Storing? {
        var t' := if Storable(fetched.info) then Upserted(t, fetched.info) else t;
        assert LookUpAlone(c, bucket, t, fetched) == LookUpAlone(c, bucket, t', Answering(fetched.info, compression));
      }
    }
  }

  // ---- from the .narinfo that the proxy serves to the NAR ----

  /** A cached request, with other things going on in between: the headers are set from the record `info` found
      in the cache, and the download is from the bucket as it is by then. */
  function ServeFound(c: Config, later: Publication.Objects, info: NARInfo, compression: string): Reply {
    match Answer(c, info, compression)
    case Downloading(u, info', compression') => Download(c, later, u, info', compression')
    case Done(reply) => reply
    case _ => Failure
  }

  /** The URL in a .narinfo that the proxy serves for a cached object leads back to the proxy's record for that
      object, and the proxy serves the file for it, however the bucket has changed since the record was cached. */
  lemma ServedUrlIsServed(c: Config, s: State, digest: string, dir: string, later: Publication.Objects)
    requires c.Ideal() && Inv(c, s) && IsDigest(digest) && View(s.tables, c.known, digest).Found?
    requires Publication.Preserves(c.codec, s.pub.bucket, later)
    requires BuildNarUrl(digest, View(s.tables, c.known, digest).info.compression).Some?
    ensures var info := View(s.tables, c.known, digest).info;
      var asked := Ask(c, s.tables, "/" + BuildNarUrl(digest, info.compression).value, dir);
      var reply := ServeFound(c, later, info, info.compression);
      asked == Answering(info, info.compression) && reply.File? && reply.info == info && Truthful(c, reply)
  {
    var info := View(s.tables, c.known, digest).info;
    NarUrlRoundTrip("/" + BuildNarUrl(digest, info.compression).value, digest, info.compression);
    ViewIsServable(c, s.pub.bucket, s.tables, digest);
    FoundIsServed(c, s.pub.bucket, later, info);
  }

  lemma FoundIsServed(c: Config, before: Publication.Objects, later: Publication.Objects, info: NARInfo)
    requires Servable(c, before, info) && Publication.Preserves(c.codec, before, later)
    ensures var reply := ServeFound(c, later, info, info.compression);
      reply.File? && reply.info == info && Truthful(c, reply)
  {
    ServableStays(c, before, later, info);
    DownloadIsTruthful(c, later, c.urls.parse(info.url).value, info);
  }
}
