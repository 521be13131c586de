/** Discovery: the crawl that fills the UI's cache from a store's listing (discover in uicache.go) with
    bounded, concurrent lookups (BatchNARInfo in internal/nixstore/nixstore.go). */
module Crawl {
  import opened Sequences
  import opened NarInfos
  import opened Cache
  import Paging

  const BATCH_SIZE := 100
  const FETCHERS := 3

  /** How a lookup ends: also with another error than "not found". */
  datatype Reply = NotFound | Known(info: NARInfo) | Broken

  type Fetch = string -> Reply

  ghost predicate AnyBroken(fetch: Fetch, digests: seq<string>) {
    exists i :: 0 <= i < |digests| && fetch(digests[i]).Broken?
  }

  // ---- concurrent lookups ----

  /** The answers for the digests the store knows. */
  function Answers(fetch: Fetch, digests: seq<string>): seq<NARInfo> {
    if digests == [] then []
    else if fetch(digests[0]).Known? then [fetch(digests[0]).info] + Answers(fetch, digests[1..])
    else Answers(fetch, digests[1..])
  }

  lemma {:induction false} AnswersAppend(fetch: Fetch, a: seq<string>, b: seq<string>)
    ensures Answers(fetch, a + b) == Answers(fetch, a) + Answers(fetch, b)
  {
    if a == [] {
      assert a + b == b;
    } else {
      assert (a + b)[1..] == a[1..] + b;
      AnswersAppend(fetch, a[1..], b);
    }
  }

  /** Taking one lookup out of those in flight. */
  lemma AnswersRemove(fetch: Fetch, digests: seq<string>, i: nat)
    requires i < |digests|
    ensures multiset(Answers(fetch, digests))
         == multiset(Answers(fetch, [digests[i]])) + multiset(Answers(fetch, digests[..i] + digests[i + 1..]))
  {
    var before, one, after := digests[..i], [digests[i]], digests[i + 1..];
    CutAround(digests, i);
    AnswersAppend(fetch, before, one + after);
    AnswersAppend(fetch, one, after);
    AnswersAppend(fetch, before, after);
    MiddleOut(Answers(fetch, before), Answers(fetch, one), Answers(fetch, after));
  }

  lemma MiddleOut(a: seq<NARInfo>, b: seq<NARInfo>, c: seq<NARInfo>)
    ensures multiset(a + (b + c)) == multiset(b) + multiset(a + c)
  {
  }

  lemma CutAround(digests: seq<string>, i: nat)
    requires i < |digests|
    ensures digests == digests[..i] + ([digests[i]] + digests[i + 1..])
  {
  }

  /** What has been found and what is still being looked up is what was asked for, or less once a lookup has
      failed. */
  ghost predicate Balanced(fetch: Fetch, found: seq<NARInfo>, running: seq<string>, asked: seq<string>, failed: bool) {
    var now, all := multiset(found) + multiset(Answers(fetch, running)), multiset(Answers(fetch, asked));
    if failed then now <= all else now == all
  }

  lemma BalanceStart(fetch: Fetch, found: seq<NARInfo>, running: seq<string>, asked: seq<string>, failed: bool,
      d: string)
    requires Balanced(fetch, found, running, asked, failed)
    ensures Balanced(fetch, found, running + [d], asked + [d], failed)
  {
    AnswersAppend(fetch, running, [d]);
    AnswersAppend(fetch, asked, [d]);
  }

  lemma BalanceFinish(fetch: Fetch, found: seq<NARInfo>, running: seq<string>, asked: seq<string>, failed: bool, i: nat)
    requires i < |running| && Balanced(fetch, found, running, asked, failed)
    ensures var now := if fetch(running[i]).Known? then found + [fetch(running[i]).info] else found;
      Balanced(fetch, now, running[..i] + running[i + 1..], asked, failed)
    ensures Balanced(fetch, found, running[..i] + running[i + 1..], asked, true)
  {
    AnswersRemove(fetch, running, i);
  }

  /** A failure is known exactly when a failing lookup has ended. */
  ghost predicate FailureKnown(fetch: Fetch, running: seq<string>, asked: seq<string>, failed: bool) {
    && (failed ==> AnyBroken(fetch, asked))
    && (!failed ==> forall i :: 0 <= i < |asked| && fetch(asked[i]).Broken? ==> asked[i] in running)
  }

  lemma FailureStart(fetch: Fetch, running: seq<string>, asked: seq<string>, failed: bool, d: string)
    requires FailureKnown(fetch, running, asked, failed)
    ensures FailureKnown(fetch, running + [d], asked + [d], failed)
  {
    if failed {
      var i :| 0 <= i < |asked| && fetch(asked[i]).Broken?;
      assert (asked + [d])[i] == asked[i];
    }
  }

  lemma FailureFinish(fetch: Fetch, running: seq<string>, asked: seq<string>, failed: bool, i: nat)
    requires FailureKnown(fetch, running, asked, failed) && i < |running| && running[i] in asked
    ensures FailureKnown(fetch, running[..i] + running[i + 1..], asked, failed || fetch(running[i]).Broken?)
  {
    var left := running[..i] + running[i + 1..];
    forall x | x in running && x != running[i] ensures x in left {
      var j :| 0 <= j < |running| && running[j] == x;
      assert x == if j < i then left[j] else left[j - 1];
    }
  }

  /** Lookups under way: what has been found, which are running, which were asked for. */
  ghost predicate Looking(fetch: Fetch, found: seq<NARInfo>, running: seq<string>, asked: seq<string>, failed: bool) {
    && Balanced(fetch, found, running, asked, failed) && FailureKnown(fetch, running, asked, failed)
    && forall d :: d in running ==> d in asked
  }

  lemma LookupStarts(fetch: Fetch, found: seq<NARInfo>, running: seq<string>, asked: seq<string>, failed: bool,
      d: string)
    requires Looking(fetch, found, running, asked, failed)
    ensures Looking(fetch, found, running + [d], asked + [d], failed)
  {
    BalanceStart(fetch, found, running, asked, failed, d);
    FailureStart(fetch, running, asked, failed, d);
  }

  lemma LookupEnds(fetch: Fetch, found: seq<NARInfo>, running: seq<string>, asked: seq<string>, failed: bool, i: nat,
                   lost: bool)
    requires i < |running| && Looking(fetch, found, running, asked, failed)
    ensures var broken, left := fetch(running[i]).Broken?, running[..i] + running[i + 1..];
      var kept := fetch(running[i]).Known? && !(failed && lost);
      var now := if kept then found + [fetch(running[i]).info] else found;
      Looking(fetch, now, left, asked, failed || broken)
  {
    assert running[i] in running;
    BalanceFinish(fetch, found, running, asked, failed, i);
    FailureFinish(fetch, running, asked, failed, i);
    assert forall d :: d in running[..i] + running[i + 1..] ==> d in running;
  }

  lemma {:induction false} AnswersMember(fetch: Fetch, digests: seq<string>, info: NARInfo)
    ensures info in Answers(fetch, digests) <==> exists i :: 0 <= i < |digests| && fetch(digests[i]) == Known(info)
  {
    if digests == [] {
    } else {
      AnswersMember(fetch, digests[1..], info);
      assert forall i :: 0 < i < |digests| ==> digests[i] == digests[1..][i - 1];
      assert forall i :: 0 <= i < |digests[1..]| ==> digests[1..][i] == digests[i + 1];
    }
  }

  /** Lookups start in order, at most `maxConcurrency` at a time (`peak` is the most there were), and finish in
      any order. The first that fails cancels the others, which may then fail too or still succeed; what has been
      found is returned all the same. */
  method BatchNARInfo(fetch: Fetch, digests: seq<string>, maxConcurrency: int)
      returns (result: Option<seq<NARInfo>>, failed: bool, ghost peak: nat)
    ensures result.Some? <==> maxConcurrency >= 1
    ensures result.None? ==> failed
    ensures result.Some? ==> peak <= maxConcurrency && (failed <==> AnyBroken(fetch, digests))
    ensures result.Some? ==> multiset(result.value) <= multiset(Answers(fetch, digests))
    ensures result.Some? && !failed ==> multiset(result.value) == multiset(Answers(fetch, digests))
  {
    failed, peak := false, 0;
    if maxConcurrency < 1 {
      return None, true, 0;
    }
    var found: seq<NARInfo> := [];
    var running: seq<string> := [];
    var next := 0;
    while next < |digests| || running != []
      invariant 0 <= next <= |digests| && |running| <= peak <= maxConcurrency
      invariant Looking(fetch, found, running, digests[..next], failed)
      decreases |digests| - next, |running|
    {
      var start: bool := *;
      if running == [] || (start && next < |digests| && |running| < maxConcurrency) {
        LookupStarts(fetch, found, running, digests[..next], failed, digests[next]);
        assert digests[..next + 1] == digests[..next] + [digests[next]];
        running := running + [digests[next]];
        peak := if |running| > peak then |running| else peak;
        next := next + 1;
      } else {
        found, running, failed := FinishOne(fetch, found, running, failed, digests[..next]);
      }
    }
    assert digests[..next] == digests;
    LookedUp(fetch, found, digests, failed);
    return Some(found), failed, peak;
  }

  /** Some running lookup ends. */
  method FinishOne(fetch: Fetch, found: seq<NARInfo>, running: seq<string>, failed: bool, ghost asked: seq<string>)
      returns (found': seq<NARInfo>, running': seq<string>, failed': bool)
    requires running != [] && Looking(fetch, found, running, asked, failed)
    ensures |running'| < |running| && Looking(fetch, found', running', asked, failed')
  {
    var i :| 0 <= i < |running|;
    var lost: bool := *;
    LookupEnds(fetch, found, running, asked, failed, i, lost);
    found', failed' := found, failed;
    if fetch(running[i]).Broken? {
      failed' := true;
    } else if fetch(running[i]).Known? && !(failed && lost) {
      found' := found + [fetch(running[i]).info];
    }
    running' := running[..i] + running[i + 1..];
  }

  /** A record can be lost in this way: of two lookups under way one fails, and the other, cancelled, ends without
      its answer. The two ends are those that `FinishOne` allows. */
  lemma OneFailureHides(fetch: Fetch, bad: string, good: string)
    requires fetch(bad).Broken? && fetch(good).Known?
    ensures Looking(fetch, [], [bad, good], [bad, good], false)
    ensures Looking(fetch, [], [good], [bad, good], true)
    ensures Looking(fetch, [], [], [bad, good], true) && Answers(fetch, [bad, good]) == [fetch(good).info]
  {
    var asked := [bad, good];
    assert fetch(asked[0]).Broken? && asked[1..] == [good];
    assert Answers(fetch, asked) == Answers(fetch, [good]) == [fetch(good).info];
    assert Looking(fetch, [], asked, asked, false);
    LookupEnds(fetch, [], asked, asked, false, 0, false);
    assert asked[..0] + asked[1..] == [good];
    LookupEnds(fetch, [], [good], asked, true, 0, true);
    assert [good][..0] + [good][1..] == [];
  }

  lemma LookedUp(fetch: Fetch, found: seq<NARInfo>, asked: seq<string>, failed: bool)
    requires Looking(fetch, found, [], asked, failed)
    ensures failed <==> AnyBroken(fetch, asked)
    ensures multiset(found) <= multiset(Answers(fetch, asked))
    ensures !failed ==> multiset(found) == multiset(Answers(fetch, asked))
  {
  }

  // ---- the crawl ----

  /** A store answers about the object it is asked for. */
  ghost predicate Consistent(fetch: Fetch) {
    forall d :: fetch(d).Known? ==> fetch(d).info.Digest() == d
  }

  /** Objects the crawl adds once they are listed. */
  ghost predicate Discoverable(t: Tables, fetch: Fetch, dir: string, d: string) {
    d !in t.objects && fetch(d).Known? && fetch(d).info.storePath.dir == dir && Storable(fetch(d).info)
  }

  ghost function RowsOf(directory: Option<string>, info: NARInfo): Tables {
    Upserted(Tables(directory, map[], {}, map[]), info)
  }

  ghost predicate RowsAfter(t0: Tables, t: Tables, fetch: Fetch, dir: string, done: set<string>, d: string) {
    Only(t, d) ==
      if d in done && Discoverable(t0, fetch, dir, d) then RowsOf(t0.directory, fetch(d).info) else Only(t0, d)
  }

  /** From `t0`, the objects in `done` that were worth adding have been added, and nothing else has changed. */
  ghost predicate Crawled(t0: Tables, t: Tables, fetch: Fetch, dir: string, done: set<string>) {
    t0.directory == t.directory && forall d :: RowsAfter(t0, t, fetch, dir, done, d)
  }

  lemma CrawledSame(t0: Tables, t: Tables, fetch: Fetch, dir: string, done: set<string>, more: set<string>)
    requires Crawled(t0, t, fetch, dir, done)
    requires forall d :: Discoverable(t0, fetch, dir, d) ==> (d in done <==> d in more)
    ensures Crawled(t0, t, fetch, dir, more)
  {
    forall d ensures RowsAfter(t0, t, fetch, dir, more, d) {
      assert RowsAfter(t0, t, fetch, dir, done, d);
    }
  }

  lemma CrawledUpsert(t0: Tables, t: Tables, fetch: Fetch, dir: string, done: set<string>, d: string)
    requires Crawled(t0, t, fetch, dir, done) && Consistent(fetch) && Discoverable(t0, fetch, dir, d)
    ensures Crawled(t0, Upserted(t, fetch(d).info), fetch, dir, done + {d})
  {
    forall other ensures RowsAfter(t0, Upserted(t, fetch(d).info), fetch, dir, done + {d}, other) {
      UpsertFrame(t, fetch(d).info, other);
      assert RowsAfter(t0, t, fetch, dir, done, other);
    }
  }

  /** The objects in the cache are the old ones and the new ones. */
  lemma CrawledObjects(t0: Tables, t: Tables, fetch: Fetch, dir: string, done: set<string>, d: string)
    requires Crawled(t0, t, fetch, dir, done)
    ensures d in t.objects <==> d in t0.objects || (d in done && Discoverable(t0, fetch, dir, d))
  {
    assert RowsAfter(t0, t, fetch, dir, done, d);
    assert d in t.objects <==> d in Only(t, d).objects;
    assert d in t0.objects <==> d in Only(t0, d).objects;
    if fetch(d).Known? {
      assert fetch(d).info.Digest() in RowsOf(t0.directory, fetch(d).info).objects;
    }
  }

  /** What was looked up for a batch brings in exactly the discoverable objects of the batch. */
  lemma BatchBrings(t0: Tables, fetch: Fetch, dir: string, batch: seq<string>, infos: seq<NARInfo>, d: string)
    requires Consistent(fetch) && multiset(infos) == multiset(Answers(fetch, batch))
    requires Discoverable(t0, fetch, dir, d)
    ensures d in batch <==> exists i :: 0 <= i < |infos| && infos[i].Digest() == d
  {
    if d in batch {
      AnswersMember(fetch, batch, fetch(d).info);
      assert fetch(d).info in multiset(infos);
    }
    if i :| 0 <= i < |infos| && infos[i].Digest() == d {
      assert infos[i] in multiset(infos);
      AnswersMember(fetch, batch, infos[i]);
      var j :| 0 <= j < |batch| && fetch(batch[j]) == Known(infos[i]);
      assert fetch(batch[j]).info.Digest() == batch[j];
    }
  }

  function DigestsOf(infos: seq<NARInfo>): (r: set<string>)
    ensures forall d :: d in r <==> exists i :: 0 <= i < |infos| && infos[i].Digest() == d
  {
    set i | 0 <= i < |infos| :: infos[i].Digest()
  }

  /** Stores one batch in a transaction; records of another store directory or that the schema does not accept
      are passed over. */
  method StoreBatch(cache: UICache, dir: string, fetch: Fetch, infos: seq<NARInfo>, ghost t0: Tables,
      ghost done: set<string>)
    requires cache.Valid() && Consistent(fetch) && Crawled(t0, cache.Rows(), fetch, dir, done)
    requires forall i :: 0 <= i < |infos| ==>
      infos[i].Digest() !in t0.objects && fetch(infos[i].Digest()) == Known(infos[i])
    modifies cache
    ensures cache.Valid() && Crawled(t0, cache.Rows(), fetch, dir, done + DigestsOf(infos))
  {
    var i := 0;
    assert done + DigestsOf(infos[..0]) == done;
    while i < |infos|
      invariant 0 <= i <= |infos|
      invariant cache.Valid() && Crawled(t0, cache.Rows(), fetch, dir, done + DigestsOf(infos[..i]))
    {
      var info := infos[i];
      ghost var before, so_far := cache.Rows(), done + DigestsOf(infos[..i]);
      ghost var d := info.Digest();
      if info.storePath.dir == dir {
        var ok := cache.UpdateCachedStoreObject(info);
        if ok {
          CrawledUpsert(t0, before, fetch, dir, so_far, d);
        } else {
          CrawledSame(t0, before, fetch, dir, so_far, so_far + {d});
        }
      } else {
        CrawledSame(t0, before, fetch, dir, so_far, so_far + {d});
      }
      assert so_far + {d} == done + DigestsOf(infos[..i + 1]);
      i := i + 1;
    }
    assert infos[..i] == infos;
  }

  /** Reads the next batch of digests that are not cached yet. */
  method ReadBatch(cache: UICache, listing: seq<string>, pos: nat) returns (batch: seq<string>, next: nat, eof: bool)
    requires pos <= |listing|
    ensures pos <= next <= |listing| && |batch| <= 100
    ensures if eof then next == |listing| else next > pos && |batch| == 100
    ensures forall i :: 0 <= i < |batch| ==> batch[i] in listing[pos..next] && batch[i] !in cache.objects
    ensures forall d :: d in listing[pos..next] ==> d in cache.objects || d in batch
  {
    batch, next, eof := [], pos, false;
    while |batch| < BATCH_SIZE
      invariant pos <= next <= |listing| && |batch| <= BATCH_SIZE && |batch| <= next - pos
      invariant forall i :: 0 <= i < |batch| ==> batch[i] in listing[pos..next] && batch[i] !in cache.objects
      invariant forall d :: d in listing[pos..next] ==> d in cache.objects || d in batch
      decreases |listing| - next
    {
      if next == |listing| {
        eof := true;
        break;
      }
      var d := listing[next];
      assert listing[pos..next + 1] == listing[pos..next] + [d];
      next := next + 1;
      if d in cache.objects {
        continue;
      }
      batch := batch + [d];
    }
  }

  function Elements(s: seq<string>): (r: set<string>)
    ensures forall x :: x in r <==> x in s
  {
    set x | x in s
  }

  /** The object was in a batch in which some lookup failed. */
  ghost predicate LeftOut(fetch: Fetch, batches: seq<seq<string>>, d: string) {
    exists b :: b in batches && d in b && AnyBroken(fetch, b)
  }

  /** Of what has been listed, only objects in batches with a failing lookup may not have been added. */
  ghost predicate CrawledAll(t0: Tables, fetch: Fetch, dir: string, listed: set<string>, batches: seq<seq<string>>,
      done: set<string>) {
    done <= listed && forall d :: d in listed && Discoverable(t0, fetch, dir, d) ==>
      d in done || LeftOut(fetch, batches, d)
  }

  ghost predicate BatchesOk(t0: Tables, listed: seq<string>, batches: seq<seq<string>>) {
    forall b :: b in batches ==> |b| <= 100 && forall d :: d in b ==> d in listed && d !in t0.objects
  }

  /** A listed object that the store knows, of the store directory, with a record that the schema accepts. */
  ghost predicate Fits(fetch: Fetch, dir: string, listing: seq<string>, d: string) {
    d in listing && fetch(d).Known? && fetch(d).info.storePath.dir == dir && Storable(fetch(d).info)
  }

  /** A crawl counts all that the listing delivers before it ends or fails, duplicates included, looks up only
      objects that were not cached, at most a hundred in one batch and three at a time, and adds every listed object
      that can be cached, except perhaps some that were in one batch with an object whose lookup failed. Nothing else
      changes; when no lookup fails, nothing is left out, and the cache then has the objects it had and those that are
      listed, known to the store, in the store directory and accepted by the schema. */
  method Discover(cache: UICache, dirReply: Option<string>, w: Writable, fetch: Fetch, listing: seq<string>)
    returns (n: nat, ghost batches: seq<seq<string>>, ghost done: set<string>, ghost peak: nat)
    requires cache.Valid() && Consistent(fetch)
    modifies cache
    ensures cache.Valid() && BatchesOk(old(cache.Rows()), listing, batches) && peak <= 3
    ensures var t0, dir := WithDirectory(old(cache.Rows()), dirReply, w), DirectoryFor(old(cache.Rows()), dirReply);
      if dir.None? then n == 0 && cache.Rows() == t0
      else
        && n == |listing| && Crawled(t0, cache.Rows(), fetch, dir.value, done)
        && CrawledAll(t0, fetch, dir.value, Elements(listing), batches, done)
        && (!AnyBroken(fetch, listing) ==> Crawled(t0, cache.Rows(), fetch, dir.value, Elements(listing)))
        && (!AnyBroken(fetch, listing) ==>
              forall d :: d in cache.objects <==> d in old(cache.objects) || Fits(fetch, dir.value, listing, d))
  {
    batches, done, peak := [], {}, 0;
    var dir := cache.CacheInfo(dirReply, w);
    if dir.None? {
      return 0, batches, done, peak;
    }
    ghost var t0 := cache.Rows();
    n := 0;
    var eof := false;
    while !eof
      invariant n <= |listing| && (eof ==> n == |listing|) && cache.Valid() && t0.objects == old(cache.objects)
      invariant Crawled(t0, cache.Rows(), fetch, dir.value, done)
      invariant CrawledAll(t0, fetch, dir.value, Elements(listing[..n]), batches, done)
      invariant BatchesOk(t0, listing, batches) && peak <= 3
      decreases |listing| - n, !eof
    {
      ghost var asked, before, batches0, done0 := [], listing[..n], batches, done;
      ghost var pos := n;
      ghost var now;
      n, eof, asked, done, now := DiscoverBatch(cache, dir.value, fetch, listing, n, t0, done);
      peak := if now > peak then now else peak;
      batches := batches + [asked];
      CutAt(listing, pos, n);
      RoundDone(t0, fetch, dir.value, before, listing[pos..n], batches0, asked, done0, done);
    }
    assert listing[..n] == listing;
    WithoutFailures(t0, cache.Rows(), fetch, dir.value, listing, batches, done);
  }

  /** One round of the crawl. */
  method DiscoverBatch(cache: UICache, dir: string, fetch: Fetch, listing: seq<string>, pos: nat, ghost t0: Tables,
                       ghost done: set<string>)
    returns (next: nat, eof: bool, ghost asked: seq<string>, ghost done': set<string>, ghost peak: nat)
    requires cache.Valid() && Consistent(fetch) && pos <= |listing|
    requires Crawled(t0, cache.Rows(), fetch, dir, done)
    modifies cache
    ensures pos <= next <= |listing| && if eof then next == |listing| else next > pos
    ensures cache.Valid() && Crawled(t0, cache.Rows(), fetch, dir, done')
    ensures |asked| <= 100 && forall d :: d in asked ==> d in listing[pos..next] && d !in t0.objects
    ensures Brings(t0, fetch, dir, listing[pos..next], asked, done, done') && peak <= 3
  {
    var batch;
    ghost var t := cache.Rows();
    batch, next, eof := ReadBatch(cache, listing, pos);
    asked := batch;
    BatchIsUncached(t0, t, fetch, dir, done, batch);
    var infos, failed;
    infos, failed, peak := BatchNARInfo(fetch, batch, FETCHERS);
    BatchIsFresh(t0, fetch, batch, infos.value);
    StoreBatch(cache, dir, fetch, infos.value, t0, done);
    done' := done + DigestsOf(infos.value);
    BatchBringsAll(t0, t, fetch, dir, listing[pos..next], batch, infos.value, done);
  }

  lemma CutAt(s: seq<string>, pos: nat, next: nat)
    requires pos <= next <= |s|
    ensures s[..pos] + s[pos..next] == s[..next]
  {
  }

  lemma BatchIsUncached(t0: Tables, t: Tables, fetch: Fetch, dir: string, done: set<string>, batch: seq<string>)
    requires Crawled(t0, t, fetch, dir, done)
    requires forall i :: 0 <= i < |batch| ==> batch[i] !in t.objects
    ensures forall i :: 0 <= i < |batch| ==> batch[i] !in t0.objects
  {
    forall i | 0 <= i < |batch| ensures batch[i] !in t0.objects {
      CrawledObjects(t0, t, fetch, dir, done, batch[i]);
    }
  }

  /** What a round adds: nothing that it did not read, and everything worth adding of that, unless a lookup failed. */
  ghost predicate Brings(t0: Tables, fetch: Fetch, dir: string, now: seq<string>, asked: seq<string>,
                         done: set<string>, done': set<string>) {
    && done <= done' <= done + Elements(now)
    && forall d :: d in now && Discoverable(t0, fetch, dir, d) ==> d in done' || (d in asked && AnyBroken(fetch, asked))
  }

  lemma BatchBringsAll(t0: Tables, t: Tables, fetch: Fetch, dir: string, now: seq<string>, batch: seq<string>,
                       infos: seq<NARInfo>, done: set<string>)
    requires Consistent(fetch) && Crawled(t0, t, fetch, dir, done)
    requires multiset(infos) <= multiset(Answers(fetch, batch))
    requires !AnyBroken(fetch, batch) ==> multiset(infos) == multiset(Answers(fetch, batch))
    requires forall i :: 0 <= i < |batch| ==> batch[i] in now
    requires forall d :: d in now ==> d in t.objects || d in batch
    ensures Brings(t0, fetch, dir, now, batch, done, done + DigestsOf(infos))
  {
    forall d | d in DigestsOf(infos) ensures d in now {
      var i :| 0 <= i < |infos| && infos[i].Digest() == d;
      InfoWasAsked(fetch, batch, infos, i);
    }
    forall d | d in now && Discoverable(t0, fetch, dir, d) && !AnyBroken(fetch, batch)
      ensures d in done + DigestsOf(infos) {
      BatchBrings(t0, fetch, dir, batch, infos, d);
      CrawledObjects(t0, t, fetch, dir, done, d);
    }
    forall d | d in now && Discoverable(t0, fetch, dir, d) && d !in batch ensures d in done {
      CrawledObjects(t0, t, fetch, dir, done, d);
    }
  }

  lemma InfoWasAsked(fetch: Fetch, batch: seq<string>, infos: seq<NARInfo>, i: nat)
    requires Consistent(fetch) && multiset(infos) <= multiset(Answers(fetch, batch)) && i < |infos|
    ensures infos[i].Digest() in batch && fetch(infos[i].Digest()) == Known(infos[i])
  {
    assert infos[i] in multiset(infos);
    AnswersMember(fetch, batch, infos[i]);
  }

  lemma BatchIsFresh(t0: Tables, fetch: Fetch, batch: seq<string>, infos: seq<NARInfo>)
    requires Consistent(fetch) && multiset(infos) <= multiset(Answers(fetch, batch))
    requires forall i :: 0 <= i < |batch| ==> batch[i] !in t0.objects
    ensures forall i :: 0 <= i < |infos| ==>
      infos[i].Digest() !in t0.objects && fetch(infos[i].Digest()) == Known(infos[i])
  {
    forall i | 0 <= i < |infos|
      ensures infos[i].Digest() !in t0.objects && fetch(infos[i].Digest()) == Known(infos[i]) {
      InfoWasAsked(fetch, batch, infos, i);
    }
  }

  lemma RoundDone(t0: Tables, fetch: Fetch, dir: string, before: seq<string>, now: seq<string>,
                  batches: seq<seq<string>>, asked: seq<string>, done: set<string>, done': set<string>)
    requires CrawledAll(t0, fetch, dir, Elements(before), batches, done)
    requires Brings(t0, fetch, dir, now, asked, done, done')
    ensures CrawledAll(t0, fetch, dir, Elements(before + now), batches + [asked], done')
  {
    forall d | d in before + now && Discoverable(t0, fetch, dir, d) && d !in done'
      ensures LeftOut(fetch, batches + [asked], d) {
      if d in now {
        assert asked in batches + [asked];
      } else {
        assert LeftOut(fetch, batches, d);
        var b :| b in batches && d in b && AnyBroken(fetch, b);
        assert b in batches + [asked];
      }
    }
  }

  lemma WithoutFailures(t0: Tables, t: Tables, fetch: Fetch, dir: string, listing: seq<string>,
      batches: seq<seq<string>>, done: set<string>)
    requires Crawled(t0, t, fetch, dir, done) && CrawledAll(t0, fetch, dir, Elements(listing), batches, done)
    requires BatchesOk(t0, listing, batches)
    ensures !AnyBroken(fetch, listing) ==> Crawled(t0, t, fetch, dir, Elements(listing))
    ensures !AnyBroken(fetch, listing) ==>
      forall d :: d in t.objects <==> d in t0.objects || Fits(fetch, dir, listing, d)
  {
    if b :| b in batches && AnyBroken(fetch, b) {
      BrokenInListing(fetch, b, listing);
    } else {
      CrawledSame(t0, t, fetch, dir, done, Elements(listing));
      forall d ensures d in t.objects <==> d in t0.objects || Fits(fetch, dir, listing, d) {
        CrawledObjects(t0, t, fetch, dir, Elements(listing), d);
      }
    }
  }

  lemma BrokenInListing(fetch: Fetch, batch: seq<string>, listing: seq<string>)
    requires AnyBroken(fetch, batch) && forall d :: d in batch ==> d in listing
    ensures AnyBroken(fetch, listing)
  {
    var i :| 0 <= i < |batch| && fetch(batch[i]).Broken?;
    assert batch[i] in batch;
    var j :| 0 <= j < |listing| && listing[j] == batch[i];
  }

  /** What a reader of the cache sees after a crawl: old rows as before, new rows as the store's records. */
  lemma CrawledView(t0: Tables, t: Tables, known: set<string>, fetch: Fetch, dir: string, done: set<string>, d: string)
    requires Crawled(t0, t, fetch, dir, done) && Consistent(fetch)
    ensures View(t, known, d) ==
      if d in done && Discoverable(t0, fetch, dir, d) then
        if t0.directory.Some? && fetch(d).info.compression in known
        then Found(Normalise(fetch(d).info, t0.directory.value)) else Corrupt
      else View(t0, known, d)
  {
    assert RowsAfter(t0, t, fetch, dir, done, d);
    ViewOfOnly(t, known, d);
    ViewOfOnly(t0, known, d);
    if d in done && Discoverable(t0, fetch, dir, d) {
      var rows, empty := RowsOf(t0.directory, fetch(d).info), Tables(t0.directory, map[], {}, map[]);
      if t0.directory.Some? && fetch(d).info.compression in known {
        WriteThenRead(empty, known, fetch(d).info);
      }
      assert d in Only(t, d).objects;
    }
  }

  /** The columns that paging looks at. */
  function Names(t: Tables): Paging.Objects { map d | d in t.objects :: t.objects[d].name }

  /** To a reader who pages through the index while the crawl goes on, rows are only ever added: the complete
      and duplicate-free paging of `Paging.CrawlComplete` applies. */
  lemma CrawlOnlyAdds(t0: Tables, t1: Tables, t2: Tables, fetch: Fetch, dir: string, done1: set<string>,
      done2: set<string>)
    requires t2.Valid() && Crawled(t0, t1, fetch, dir, done1) && Crawled(t0, t2, fetch, dir, done2) && done1 <= done2
    ensures Paging.ValidObjects(Names(t2)) && Paging.Extends(Names(t1), Names(t2))
  {
    forall d | d in t1.objects ensures d in t2.objects && t2.objects[d] == t1.objects[d] {
      assert RowsAfter(t0, t1, fetch, dir, done1, d) && RowsAfter(t0, t2, fetch, dir, done2, d);
      CrawledObjects(t0, t1, fetch, dir, done1, d);
      assert d in Only(t1, d).objects && Only(t1, d) == Only(t2, d);
      assert Only(t1, d).objects[d] == t1.objects[d];
    }
  }
}
