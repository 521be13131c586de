/** Paging through the index while everything else goes on: uploads, requests and the crawl only ever add rows
    to the table that serveIndex pages through (serve.go), provided that a digest determines the name. */
module Browsing {
  import opened Sequences
  import opened StoreObjects
  import opened NarInfos
  import Publication
  import opened Cache
  import Crawl
  import Orders
  import Paging
  import Serving

  /** The name that goes with each digest: a store object's digest is computed from its name among other things. */
  type Naming = string -> string

  predicate Named(names: Naming, info: NARInfo) { info.storePath.obj.name == names(info.Digest()) }

  // ---- names in the bucket ----

  ghost predicate NamedBucket(codec: Codec, names: Naming, bucket: Publication.Objects) {
    forall d :: IsDigest(d) && Publication.ReadInfo(codec, bucket, d).Some? ==>
      Named(names, Publication.ReadInfo(codec, bucket, d).value)
  }

  predicate NamedPc(names: Naming, pc: Publication.Pc) {
    (pc.Merging? || pc.WritingNar? || pc.WritingListing? || pc.WritingInfo?) ==> Named(names, pc.info)
  }

  lemma WritingElsewhere(codec: Codec, names: Naming, bucket: Publication.Objects, key: string, data: string,
      w: Publication.WriteFault)
    requires NamedBucket(codec, names, bucket) && forall d :: IsDigest(d) ==> InfoKey(d) != key
    ensures NamedBucket(codec, names, Publication.Put(bucket, key, data, w))
  {
    var after := Publication.Put(bucket, key, data, w);
    forall d | IsDigest(d) ensures Publication.ReadInfo(codec, after, d) == Publication.ReadInfo(codec, bucket, d) {
    }
  }

  lemma WritingInfo(codec: Codec, names: Naming, bucket: Publication.Objects, digest: string, info: NARInfo,
      text: string, w: Publication.WriteFault)
    requires NamedBucket(codec, names, bucket) && Named(names, info) && codec.unmarshal(text) == Some(info)
    ensures NamedBucket(codec, names, Publication.Put(bucket, InfoKey(digest), text, w))
  {
    var after := Publication.Put(bucket, InfoKey(digest), text, w);
    forall d | IsDigest(d) && Publication.ReadInfo(codec, after, d).Some?
      ensures Named(names, Publication.ReadInfo(codec, after, d).value) {
      if InfoKey(d) != InfoKey(digest) {
        assert Publication.ReadInfo(codec, after, d) == Publication.ReadInfo(codec, bucket, d);
      }
    }
  }

  lemma UploaderKeepsNames(codec: Codec, names: Naming, bucket: Publication.Objects, job: Publication.Job,
      pc: Publication.Pc, env: Publication.Env)
    requires codec.Ideal() && job.Valid() && Named(names, job.info) && Publication.PcInv(codec, bucket, job, pc)
    requires NamedBucket(codec, names, bucket) && NamedPc(names, pc)
    ensures var (bucket', pc') := Publication.Advance(codec, bucket, job, pc, env);
      NamedBucket(codec, names, bucket') && NamedPc(names, pc')
  {
    match pc
    case Start =>
      if !job.overwrite && Publication.CheckOverwrite(codec, bucket, job, env).Merging? {
        assert Publication.ReadInfo(codec, bucket, job.info.Digest()).Some?;
      }
    case Merging(info, text) => WritingInfo(codec, names, bucket, job.info.Digest(), info, text, env.mergeWrite);
    case Dumping =>
    case WritingNar(info, _, file) =>
      Publication.NarKeysAreNotInfoKeys(codec, codec.sha256(file), info.compression);
      WritingElsewhere(codec, names, bucket, info.url, file, env.narWrite);
    case WritingListing(info, _) =>
      forall d | IsDigest(d) ensures InfoKey(d) != ListingKey(info.Digest()) { RootKeys(d); }
      WritingElsewhere(codec, names, bucket, ListingKey(info.Digest()), env.listing.GetOr(""), env.listingWrite);
    case WritingInfo(info, text) => WritingInfo(codec, names, bucket, job.info.Digest(), info, text, env.infoWrite);
    case Ended(_) =>
  }

  ghost predicate NamedUploads(codec: Codec, names: Naming, s: Publication.State) {
    && NamedBucket(codec, names, s.bucket)
    && (forall i :: 0 <= i < |s.jobs| ==> Named(names, s.jobs[i].info))
    && (forall i :: 0 <= i < |s.pcs| ==> NamedPc(names, s.pcs[i]))
  }

  lemma UploadsKeepNames(codec: Codec, names: Naming, s: Publication.State, step: Publication.Step)
    requires codec.Ideal() && Publication.Inv(codec, s) && NamedUploads(codec, names, s)
    requires Publication.Apply(codec, s, step).Some?
    requires step.Begin? ==> Named(names, step.job.info)
    ensures NamedUploads(codec, names, Publication.Apply(codec, s, step).value)
  {
    if step.Operate? {
      UploaderKeepsNames(codec, names, s.bucket, s.jobs[step.i], s.pcs[step.i], step.env);
    }
  }

  // ---- names in the cache ----

  ghost predicate NamedRows(names: Naming, t: Tables) { forall d :: d in t.objects ==> t.objects[d].name == names(d) }

  predicate NamedTask(names: Naming, task: Serving.Task) { task.Storing? ==> Named(names, task.info) }

  ghost predicate NamedState(c: Serving.Config, names: Naming, s: Serving.State) {
    && NamedUploads(c.codec, names, s.pub) && NamedRows(names, s.tables)
    && forall i :: 0 <= i < |s.tasks| ==> NamedTask(names, s.tasks[i])
  }

  lemma TaskKeepsNames(c: Serving.Config, names: Naming, bucket: Publication.Objects, t: Tables, task: Serving.Task,
      store: bool)
    requires NamedBucket(c.codec, names, bucket) && NamedRows(names, t) && NamedTask(names, task)
    ensures var (t', task') := Serving.Advance(c, bucket, t, task, store);
      NamedRows(names, t') && NamedTask(names, task') && Paging.Extends(Crawl.Names(t), Crawl.Names(t'))
  {
    if task.Storing? {
      Serving.UpsertedObjects(t, task.info);
    }
    if task.Missed? && Serving.FetchInfo(c, bucket, task.digest).Read? {
      assert Publication.ReadInfo(c.codec, bucket, task.digest).Some?;
    }
  }

  /** Every step, whoever takes it, leaves the rows that are there. */
  lemma StepOnlyAdds(c: Serving.Config, names: Naming, s: Serving.State, step: Serving.Step)
    requires c.Ideal() && Serving.Inv(c, s) && NamedState(c, names, s) && Serving.Apply(c, s, step).Some?
    requires step.Upload? && step.step.Begin? ==> Named(names, step.step.job.info)
    ensures var s' := Serving.Apply(c, s, step).value;
      NamedState(c, names, s') && Paging.Extends(Crawl.Names(s.tables), Crawl.Names(s'.tables))
  {
    if step.Upload? {
      UploadsKeepNames(c.codec, names, s.pub, step.step);
    }
    if step.Proceed? {
      TaskKeepsNames(c, names, s.pub.bucket, s.tables, s.tasks[step.i], step.store);
    }
  }

  // ---- whole runs ----

  /** A run in which every object that is there at the start or uploaded has the name of its digest. */
  ghost predicate NamedRun(c: Serving.Config, names: Naming, run: seq<Serving.State>) {
    && Serving.IsRun(c, run) && NamedBucket(c.codec, names, run[0].pub.bucket)
    && forall n :: 0 <= n < |run| ==> NamedJobs(names, run[n])
  }

  ghost predicate NamedJobs(names: Naming, s: Serving.State) {
    forall i :: 0 <= i < |s.pub.jobs| ==> Named(names, s.pub.jobs[i].info)
  }

  lemma RunStep(c: Serving.Config, names: Naming, run: seq<Serving.State>, n: nat)
    requires c.Ideal() && NamedRun(c, names, run) && n + 1 < |run|
    requires Serving.Inv(c, run[n]) && NamedState(c, names, run[n])
    ensures Serving.Inv(c, run[n + 1]) && NamedState(c, names, run[n + 1])
    ensures Paging.Extends(Crawl.Names(run[n].tables), Crawl.Names(run[n + 1].tables))
  {
    assert Serving.CanStep(c, run[n], run[n + 1]) && NamedJobs(names, run[n + 1]);
    var step :| Serving.Apply(c, run[n], step) == Some(run[n + 1]);
    Serving.StepKeepsInv(c, run[n], step);
    if step.Upload? && step.step.Begin? {
      assert run[n + 1].pub.jobs[|run[n].pub.jobs|] == step.step.job;
    }
    StepOnlyAdds(c, names, run[n], step);
  }

  lemma {:induction false} NamesStay(c: Serving.Config, names: Naming, run: seq<Serving.State>, n: nat)
    requires c.Ideal() && NamedRun(c, names, run) && n < |run|
    ensures Serving.Inv(c, run[n]) && NamedState(c, names, run[n])
    decreases n
  {
    if n == 0 {
    } else {
      NamesStay(c, names, run, n - 1);
      RunStep(c, names, run, n - 1);
    }
  }

  lemma GrowsOnce(c: Serving.Config, names: Naming, run: seq<Serving.State>, n: nat)
    requires c.Ideal() && NamedRun(c, names, run) && n + 1 < |run|
    ensures Paging.Extends(Paged(run, n), Paged(run, n + 1))
  {
    NamesStay(c, names, run, n);
    RunStep(c, names, run, n);
  }

  /** The table as the paging queries see it in a state of the run. */
  function Paged(run: seq<Serving.State>, n: nat): Paging.Objects
    requires n < |run|
  {
    Crawl.Names(run[n].tables)
  }

  ghost predicate Grows(run: seq<Serving.State>, m: nat, n: nat) {
    m < |run| && n < |run| && Paging.Extends(Paged(run, m), Paged(run, n))
  }

  /** The paged table only gains rows in the course of a run. */
  lemma TableOnlyGrows(c: Serving.Config, names: Naming, run: seq<Serving.State>, m: nat, n: nat)
    requires c.Ideal() && NamedRun(c, names, run) && m <= n < |run|
    ensures Paging.Extends(Paged(run, m), Paged(run, n))
  {
    forall i, j | 0 <= i < j < |run| && j == i + 1 ensures Grows(run, i, j) {
      GrowsOnce(c, names, run, i);
    }
    GrowsAll(run, m, n);
  }

  lemma {:induction false} GrowsAll(run: seq<Serving.State>, m: nat, n: nat)
    requires m <= n < |run| && forall i, j :: 0 <= i < j < |run| && j == i + 1 ==> Grows(run, i, j)
    ensures Grows(run, m, n)
    decreases n - m
  {
    if m == n {
    } else {
      GrowsAll(run, m, n - 1);
      assert Grows(run, n - 1, n);
      ExtendsTransitive(Paged(run, m), Paged(run, n - 1), Paged(run, n));
    }
  }

  lemma ExtendsTransitive(a: Paging.Objects, b: Paging.Objects, c: Paging.Objects)
    requires Paging.Extends(a, b) && Paging.Extends(b, c)
    ensures Paging.Extends(a, c)
  {
  }

  lemma DigestsAreNotEmpty(c: Serving.Config, s: Serving.State)
    requires Serving.Inv(c, s)
    ensures Paging.ValidObjects(Crawl.Names(s.tables))
  {
  }

  /** A reader's requests for pages, each answered from the table of some state of the run, in order: the first
      from state `at[0]`, with `cursor`, and so on along the links. */
  ghost predicate Reads(run: seq<Serving.State>, matches: string -> bool, cursor: string, at: seq<nat>,
      visits: seq<Paging.Visit>)
    decreases |visits|
  {
    && |at| == |visits|
    && (visits != [] ==>
          var v := visits[0];
          && at[0] < |run| && v.objs == Paged(run, at[0])
          && v.list == Paging.CachedList(v.objs, matches, cursor)
          && (|visits| > 1 ==> v.list.NextPage() != "" && at[0] <= at[1])
          && Reads(run, matches, v.list.NextPage(), at[1..], visits[1..]))
  }

  lemma {:induction false} ReadsAreCrawl(c: Serving.Config, names: Naming, run: seq<Serving.State>,
      matches: string -> bool,
                                         since: nat, cursor: string, at: seq<nat>, visits: seq<Paging.Visit>)
    requires c.Ideal() && NamedRun(c, names, run) && Reads(run, matches, cursor, at, visits)
    requires since < |run| && (at != [] ==> since <= at[0])
    ensures Paging.IsCrawl(Paged(run, since), matches, cursor, visits)
    decreases |visits|
  {
    if visits == [] {
    } else {
      TableOnlyGrows(c, names, run, since, at[0]);
      NamesStay(c, names, run, at[0]);
      DigestsAreNotEmpty(c, run[at[0]]);
      ReadsAreCrawl(c, names, run, matches, at[0], visits[0].list.NextPage(), at[1..], visits[1..]);
    }
  }

  /** Whoever pages through the index while uploaders, requests and the crawl are at work sees no object twice, in
      (name, digest) order, and none of those missing that were cached when they began. */
  lemma BrowsingIsComplete(c: Serving.Config, names: Naming, run: seq<Serving.State>, matches: string -> bool,
                           at: seq<nat>, visits: seq<Paging.Visit>)
    requires c.Ideal() && NamedRun(c, names, run) && Reads(run, matches, "", at, visits) && Paging.Finished(visits)
    ensures at[0] < |run|
    ensures Orders.Increasing(Paging.KeyLess, Paging.Visited(visits))
    ensures Paging.InOrder(Paging.Visited(visits))
    ensures forall k :: Paging.Matching(Paged(run, at[0]), matches, k) ==> k in Paging.Visited(visits)
  {
    ReadsAreCrawl(c, names, run, matches, at[0], "", at, visits);
    Paging.CrawlComplete(Paged(run, at[0]), matches, visits);
  }
}
