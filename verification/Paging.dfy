/** Keyset pagination of the index page (uicache/index.sql, uicache/has_more.sql, cachedList, serveIndex). */
module Paging {
  import opened Sequences
  import opened Orders

  const PAGE_SIZE := 100

  datatype Key = Key(name: string, digest: string)

  predicate KeyLess(a: Key, b: Key) {
    Less(a.name, b.name) || (a.name == b.name && Less(a.digest, b.digest))
  }

  lemma KeyOrderIsTotal()
    ensures StrictTotalOrder(KeyLess)
  {
    forall x: Key ensures !KeyLess(x, x) {
      LessIrreflexive(x.name);
      LessIrreflexive(x.digest);
    }
    forall x: Key, y: Key, z: Key | KeyLess(x, y) && KeyLess(y, z) ensures KeyLess(x, z) {
      if Less(x.name, y.name) && Less(y.name, z.name) {
        LessTransitive(x.name, y.name, z.name);
      }
      if Less(x.digest, y.digest) && Less(y.digest, z.digest) {
        LessTransitive(x.digest, y.digest, z.digest);
      }
    }
    forall x: Key, y: Key ensures KeyLess(x, y) || x == y || KeyLess(y, x) {
      LessTrichotomy(x.name, y.name);
      LessTrichotomy(x.digest, y.digest);
    }
  }

  /** The columns of "store_objects" that paging looks at: digest to name. */
  type Objects = map<string, string>

  ghost predicate ValidObjects(objs: Objects) { "" !in objs }

  /** The bound a cursor stands for; a cursor that is not in the table has the empty name. */
  function Bound(objs: Objects, after: string): Key {
    Key(if after in objs then objs[after] else "", after)
  }

  predicate IsAfter(objs: Objects, after: string, k: Key) {
    after == "" || KeyLess(Bound(objs, after), k)
  }

  /** The rows of the where clause shared by index.sql and has_more.sql. */
  function Eligible(objs: Objects, matches: string -> bool, after: string): set<Key> {
    set d | d in objs && matches(objs[d]) && IsAfter(objs, after, Key(objs[d], d)) :: Key(objs[d], d)
  }

  lemma EligibleMember(objs: Objects, matches: string -> bool, after: string, k: Key)
    ensures k in Eligible(objs, matches, after) <==>
              k.digest in objs && objs[k.digest] == k.name && matches(k.name) && IsAfter(objs, after, k)
  {
    if k.digest in objs && objs[k.digest] == k.name {
      assert k == Key(objs[k.digest], k.digest);
    }
  }

  ghost function Page(objs: Objects, matches: string -> bool, after: string): (r: seq<Key>)
    ensures |r| <= PAGE_SIZE
  {
    KeyOrderIsTotal();
    var all := Sorted(KeyLess, Eligible(objs, matches, after));
    if |all| <= PAGE_SIZE then all else all[..PAGE_SIZE]
  }

  ghost function HasMore(objs: Objects, matches: string -> bool, after: string): bool {
    Eligible(objs, matches, after) != {}
  }

  datatype Listing = Listing(keys: seq<Key>, hasMore: bool) {
    /** The digest behind the "next page" link; empty when there is no link. */
    function NextPage(): string {
      if hasMore && keys != [] then keys[|keys| - 1].digest else ""
    }
  }

  ghost function CachedList(objs: Objects, matches: string -> bool, after: string): Listing {
    var keys := Page(objs, matches, after);
    if keys == [] then Listing(keys, false)
    else Listing(keys, HasMore(objs, matches, keys[|keys| - 1].digest))
  }

  lemma PageKeys(objs: Objects, matches: string -> bool, after: string)
    ensures var keys, eligible := Page(objs, matches, after), Eligible(objs, matches, after);
      && Increasing(KeyLess, keys)
      && (forall k :: k in keys ==> k in eligible)
      && (forall k :: k in eligible && k !in keys ==> |keys| == PAGE_SIZE && KeyLess(keys[|keys| - 1], k))
  {
    KeyOrderIsTotal();
    var eligible, keys := Eligible(objs, matches, after), Page(objs, matches, after);
    var all := Sorted(KeyLess, eligible);
    forall k | k in eligible && k !in keys ensures |keys| == PAGE_SIZE && KeyLess(keys[|keys| - 1], k) {
      var i :| 0 <= i < |all| && all[i] == k;
      assert i >= PAGE_SIZE;
    }
  }

  /** The rows after the last one of a page are the eligible rows that are not on the page. */
  lemma RestOfPage(objs: Objects, matches: string -> bool, after: string, k: Key)
    requires Page(objs, matches, after) != []
    requires ValidObjects(objs)
    ensures var keys := Page(objs, matches, after);
      k in Eligible(objs, matches, keys[|keys| - 1].digest) <==> k in Eligible(objs, matches, after) && k !in keys
  {
    KeyOrderIsTotal();
    PageKeys(objs, matches, after);
    var keys := Page(objs, matches, after);
    var last := keys[|keys| - 1];
    assert last in keys;
    EligibleMember(objs, matches, after, last);
    EligibleMember(objs, matches, after, k);
    EligibleMember(objs, matches, last.digest, k);
    assert Bound(objs, last.digest) == last;
    if k in keys {
      var i :| 0 <= i < |keys| && keys[i] == k;
      assert k == last || KeyLess(k, last);
    }
    if KeyLess(last, k) && after != "" {
      assert KeyLess(Bound(objs, after), last);
    }
  }

  /** A row of the table whose name matches. */
  predicate Matching(objs: Objects, matches: string -> bool, k: Key) {
    k.digest in objs && objs[k.digest] == k.name && matches(k.name)
  }

  /** The row comes after the cursor in the order of names and, for equal names, of digests. No cursor is before
      all rows; one that is not in the table stands before all names but the empty one. */
  predicate Beyond(objs: Objects, after: string, k: Key) {
    if after == "" then true
    else if after in objs then
      Less(objs[after], k.name) || (objs[after] == k.name && Less(after, k.digest))
    else k.name != "" || Less(after, k.digest)
  }

  lemma EligibleMeaning(objs: Objects, matches: string -> bool, after: string, k: Key)
    ensures k in Eligible(objs, matches, after) <==> Matching(objs, matches, k) && Beyond(objs, after, k)
  {
    EligibleMember(objs, matches, after, k);
  }

  ghost predicate InOrder(keys: seq<Key>) {
    forall i, j :: 0 <= i < j < |keys| ==>
      Less(keys[i].name, keys[j].name) || (keys[i].name == keys[j].name && Less(keys[i].digest, keys[j].digest))
  }

  /** One page, on the table alone: the matching rows beyond the cursor, in order of name and digest, the first
      hundred of them; and `hasMore` is true exactly when there are others. */
  lemma PageRows(objs: Objects, matches: string -> bool, after: string)
    requires ValidObjects(objs)
    ensures var list := CachedList(objs, matches, after);
      && InOrder(list.keys) && |list.keys| <= 100
      && (forall k :: k in list.keys ==> Matching(objs, matches, k) && Beyond(objs, after, k))
      && (forall k :: Matching(objs, matches, k) && Beyond(objs, after, k) && k !in list.keys ==>
            |list.keys| == 100 && InOrder([list.keys[99], k]))
      && (list.hasMore <==> exists k :: Matching(objs, matches, k) && Beyond(objs, after, k) && k !in list.keys)
  {
    PageMeaning(objs, matches, after);
    forall k ensures k in Eligible(objs, matches, after) <==> Matching(objs, matches, k) && Beyond(objs, after, k) {
      EligibleMeaning(objs, matches, after, k);
    }
    var list := CachedList(objs, matches, after);
    if list.hasMore {
      var k :| k in Eligible(objs, matches, after) && k !in list.keys;
      assert Matching(objs, matches, k) && Beyond(objs, after, k);
    }
  }

  /** One page: increasing, at most 100 rows, made of eligible rows and nothing skipped;
      `hasMore` is true exactly when some eligible row is not on the page. */
  lemma PageMeaning(objs: Objects, matches: string -> bool, after: string)
    requires ValidObjects(objs)
    ensures var list := CachedList(objs, matches, after);
      && Increasing(KeyLess, list.keys) && |list.keys| <= PAGE_SIZE
      && (forall k :: k in list.keys ==> k in Eligible(objs, matches, after))
      && (forall k :: k in Eligible(objs, matches, after) && k !in list.keys ==>
            |list.keys| == PAGE_SIZE && KeyLess(list.keys[|list.keys| - 1], k))
      && (list.hasMore <==> exists k :: k in Eligible(objs, matches, after) && k !in list.keys)
      && (list.hasMore <==> list.NextPage() != "")
  {
    PageKeys(objs, matches, after);
    var keys := Page(objs, matches, after);
    if keys != [] {
      var last := keys[|keys| - 1];
      assert last in keys;
      EligibleMember(objs, matches, after, last);
      HasMoreMeaning(objs, matches, after);
    }
  }

  lemma HasMoreMeaning(objs: Objects, matches: string -> bool, after: string)
    requires ValidObjects(objs) && Page(objs, matches, after) != []
    ensures var keys := Page(objs, matches, after);
      HasMore(objs, matches, keys[|keys| - 1].digest) <==> exists k :: k in Eligible(objs, matches, after) && k !in keys
  {
    var keys := Page(objs, matches, after);
    var rest := Eligible(objs, matches, keys[|keys| - 1].digest);
    forall k ensures k in rest <==> k in Eligible(objs, matches, after) && k !in keys {
      RestOfPage(objs, matches, after, k);
    }
    if rest != {} {
      var k :| k in rest;
      assert k in Eligible(objs, matches, after) && k !in keys;
    }
  }

  // ---- following the links ----

  /** Rows are only ever added. */
  ghost predicate Extends(earlier: Objects, later: Objects) {
    forall d :: d in earlier ==> d in later && later[d] == earlier[d]
  }

  /** One request: the table it saw, and the page it got. */
  datatype Visit = Visit(objs: Objects, list: Listing)

  /** A reader asks for the page after `cursor` and then follows the link of each page it gets;
      the table may grow between the requests. */
  ghost predicate IsCrawl(since: Objects, matches: string -> bool, cursor: string, visits: seq<Visit>)
    decreases |visits|
  {
    visits == [] ||
    (var v := visits[0];
     && ValidObjects(v.objs) && Extends(since, v.objs)
     && v.list == CachedList(v.objs, matches, cursor)
     && (|visits| > 1 ==> v.list.NextPage() != "")
     && IsCrawl(v.objs, matches, v.list.NextPage(), visits[1..]))
  }

  ghost function Visited(visits: seq<Visit>): seq<Key> {
    if visits == [] then [] else visits[0].list.keys + Visited(visits[1..])
  }

  lemma VisitedSplit(visited: seq<Key>, visits: seq<Visit>)
    requires visits != []
    ensures visited + Visited(visits) == (visited + visits[0].list.keys) + Visited(visits[1..])
    ensures |visits| == 1 ==> visited + Visited(visits) == visited + visits[0].list.keys
  {
    ConcatAssociative(visited, visits[0].list.keys, Visited(visits[1..]));
    if |visits| == 1 {
      assert Visited(visits[1..]) == [];
    }
  }

  ghost predicate Finished(visits: seq<Visit>) {
    visits != [] && visits[|visits| - 1].list.NextPage() == ""
  }

  /** What holds after some pages: no repeats, and nothing present from the start is behind the reader. */
  ghost predicate Progress(first: Objects, latest: Objects, matches: string -> bool, visited: seq<Key>,
      cursor: string) {
    && Increasing(KeyLess, visited)
    && (forall k :: k in visited ==> k in Eligible(latest, matches, ""))
    && (cursor != "" ==> visited != [] && visited[|visited| - 1].digest == cursor)
    && (forall k :: k in Eligible(first, matches, "") && k !in visited ==>
          visited != [] && (cursor != "" && KeyLess(visited[|visited| - 1], k)))
  }

  lemma OnePage(first: Objects, latest: Objects, next: Objects, matches: string -> bool, visited: seq<Key>,
      cursor: string)
    requires ValidObjects(next) && Extends(first, next) && Extends(latest, next)
    requires Progress(first, latest, matches, visited, cursor) || (visited == [] && cursor == "")
    requires visited != [] ==> cursor != ""
    ensures var list := CachedList(next, matches, cursor);
      Progress(first, next, matches, visited + list.keys, list.NextPage())
  {
    KeyOrderIsTotal();
    PageMeaning(next, matches, cursor);
    var list := CachedList(next, matches, cursor);
    var keys := list.keys;
    if visited != [] {
      var last := visited[|visited| - 1];
      assert last in visited;
      EligibleMember(latest, matches, "", last);
      assert Bound(next, cursor) == last;
      forall k | k in keys ensures KeyLess(last, k) {
        EligibleMember(next, matches, cursor, k);
      }
    }
    IncreasingAppend(KeyLess, visited, keys);
    forall k | k in visited + keys ensures k in Eligible(next, matches, "") {
      EligibleMember(latest, matches, "", k);
      EligibleMember(next, matches, cursor, k);
      EligibleMember(next, matches, "", k);
    }
    forall k | k in Eligible(first, matches, "") && k !in visited + keys
      ensures list.NextPage() != "" && KeyLess((visited + keys)[|visited + keys| - 1], k)
    {
      EligibleMember(first, matches, "", k);
      EligibleMember(next, matches, cursor, k);
      assert k in Eligible(next, matches, cursor);
    }
  }

  /** The state of the reader before it follows a link. */
  ghost predicate Reading(first: Objects, latest: Objects, matches: string -> bool, visited: seq<Key>, cursor: string) {
    && Extends(first, latest)
    && (if cursor == "" then visited == [] else Progress(first, latest, matches, visited, cursor))
  }

  lemma ReadingStep(first: Objects, latest: Objects, matches: string -> bool,
                    visited: seq<Key>, cursor: string, v: Visit)
    requires Reading(first, latest, matches, visited, cursor)
    requires ValidObjects(v.objs) && Extends(latest, v.objs) && v.list == CachedList(v.objs, matches, cursor)
    ensures Progress(first, v.objs, matches, visited + v.list.keys, v.list.NextPage())
    ensures v.list.NextPage() != "" ==>
              Reading(first, v.objs, matches, visited + v.list.keys, v.list.NextPage())
  {
    OnePage(first, latest, v.objs, matches, visited, cursor);
  }

  lemma {:induction false} CrawlProgress(first: Objects, latest: Objects, matches: string -> bool,
                                         visited: seq<Key>, cursor: string, visits: seq<Visit>)
    requires IsCrawl(latest, matches, cursor, visits) && visits != []
    requires Reading(first, latest, matches, visited, cursor)
    ensures Progress(first, visits[|visits| - 1].objs, matches, visited + Visited(visits),
      visits[|visits| - 1].list.NextPage())
    decreases |visits|
  {
    var v, rest := visits[0], visits[1..];
    var sofar := visited + v.list.keys;
    ReadingStep(first, latest, matches, visited, cursor, v);
    VisitedSplit(visited, visits);
    if rest == [] {
    } else {
      CrawlProgress(first, v.objs, matches, sofar, v.list.NextPage(), rest);
    }
  }

  /** With inserts between the pages, a finished crawl repeats nothing, goes in (name, digest) order, and
      misses no matching object that was there from the start. */
  lemma CrawlComplete(first: Objects, matches: string -> bool, visits: seq<Visit>)
    requires IsCrawl(first, matches, "", visits) && Finished(visits)
    ensures Increasing(KeyLess, Visited(visits))
    ensures forall k :: k in Eligible(first, matches, "") ==> k in Visited(visits)
    ensures forall k :: k in Visited(visits) ==> k in Eligible(visits[|visits| - 1].objs, matches, "")
    ensures InOrder(Visited(visits)) && forall k :: Matching(first, matches, k) ==> k in Visited(visits)
    ensures forall k :: k in Visited(visits) ==> Matching(visits[|visits| - 1].objs, matches, k)
  {
    assert [] + Visited(visits) == Visited(visits);
    CrawlProgress(first, first, matches, [], "", visits);
    forall k | Matching(first, matches, k) ensures k in Visited(visits) {
      EligibleMeaning(first, matches, "", k);
    }
    var last := visits[|visits| - 1].objs;
    forall k | k in Visited(visits) ensures Matching(last, matches, k) {
      EligibleMeaning(last, matches, "", k);
    }
  }

  /** On a table that does not change, the pages are exactly the sorted listing of the matching objects. */
  lemma CrawlOfFixedTable(objs: Objects, matches: string -> bool, visits: seq<Visit>)
    requires IsCrawl(objs, matches, "", visits) && Finished(visits) && visits[|visits| - 1].objs == objs
    ensures StrictTotalOrder(KeyLess) && Visited(visits) == Sorted(KeyLess, Eligible(objs, matches, ""))
    ensures InOrder(Visited(visits)) && forall k :: k in Visited(visits) <==> Matching(objs, matches, k)
  {
    KeyOrderIsTotal();
    CrawlComplete(objs, matches, visits);
    SortedUnique(KeyLess, Visited(visits), Sorted(KeyLess, Eligible(objs, matches, "")));
  }

  /** On a table that does not change, following the links comes to an end. */
  lemma {:induction false} CrawlEnds(objs: Objects, matches: string -> bool, cursor: string)
      returns (visits: seq<Visit>)
    requires ValidObjects(objs)
    ensures IsCrawl(objs, matches, cursor, visits) && Finished(visits)
    ensures forall i :: 0 <= i < |visits| ==> visits[i].objs == objs
    decreases |Eligible(objs, matches, cursor)|
  {
    PageMeaning(objs, matches, cursor);
    var list := CachedList(objs, matches, cursor);
    visits := [Visit(objs, list)];
    if list.NextPage() == "" {
    } else {
      LaterIsSmaller(objs, matches, cursor);
      var rest := CrawlEnds(objs, matches, list.NextPage());
      visits := visits + rest;
      assert visits[1..] == rest;
    }
  }

  lemma LaterIsSmaller(objs: Objects, matches: string -> bool, cursor: string)
    requires ValidObjects(objs) && CachedList(objs, matches, cursor).NextPage() != ""
    ensures |Eligible(objs, matches, CachedList(objs, matches, cursor).NextPage())| < |Eligible(objs, matches, cursor)|
  {
    PageMeaning(objs, matches, cursor);
    var list := CachedList(objs, matches, cursor);
    var last := list.keys[|list.keys| - 1];
    assert last in list.keys;
    EligibleMember(objs, matches, cursor, last);
    AfterIsSmaller(objs, matches, cursor, last);
  }

  /** Behind a row that is eligible, fewer are. */
  lemma AfterIsSmaller(objs: Objects, matches: string -> bool, cursor: string, last: Key)
    requires ValidObjects(objs) && last in Eligible(objs, matches, cursor)
    ensures |Eligible(objs, matches, last.digest)| < |Eligible(objs, matches, cursor)|
  {
    KeyOrderIsTotal();
    var now, later := Eligible(objs, matches, cursor), Eligible(objs, matches, last.digest);
    EligibleMember(objs, matches, cursor, last);
    EligibleMember(objs, matches, last.digest, last);
    forall k | k in later ensures k in now {
      EligibleMember(objs, matches, last.digest, k);
      EligibleMember(objs, matches, cursor, k);
      assert cursor == "" || (KeyLess(Bound(objs, cursor), last) && KeyLess(last, k));
    }
    assert last in now && last !in later;
    assert now == later + (now - later) && now - later != {};
  }
}
