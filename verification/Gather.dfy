/** Gathering the closure of a batch of store paths (gatherStorePathSet in upload.go). */
module Gather {

  datatype Info = Info(storePath: string, narHash: string) {
    predicate IsPresent() { narHash != "" }  // !NARHash.IsZero()
  }

  datatype QueryResult = Answer(infos: seq<Info>) | Failed

  /** The local store as `nix path-info --recursive` shows it. */
  datatype Store = Store(query: seq<string> -> QueryResult, closure: string -> set<string>, info: string -> Info)
  {
    /** A single-path query either fails or lists the path's closure, each member once; closures are
        reflexive and transitive. Nothing is assumed about queries for several paths. */
    ghost predicate Valid() {
      && (forall p :: info(p).storePath == p)
      && (forall p :: query([p]).Answer? ==> Lists(query([p]).infos, closure(p)))
      && (forall p :: query([p]).Answer? ==> p in closure(p))
      && (forall p, q :: q in closure(p) ==> closure(q) <= closure(p))
    }

    ghost predicate Lists(infos: seq<Info>, paths: set<string>) {
      && (forall i :: 0 <= i < |infos| ==> infos[i].storePath in paths && infos[i] == info(infos[i].storePath))
      && (forall p :: p in paths ==> info(p) in infos)
      && (forall i, j :: 0 <= i < j < |infos| ==> infos[i].storePath != infos[j].storePath)
    }

    predicate Resolvable(p: string) { query([p]).Answer? }
  }

  /** `p` is in the closure of some individually resolvable path of the batch. */
  ghost predicate Wanted(store: Store, paths: seq<string>, p: string) {
    exists i :: 0 <= i < |paths| && store.Resolvable(paths[i]) && p in store.closure(paths[i])
  }

  /** What the visited set and the result have in common while the batch is worked through. */
  ghost predicate Collected(store: Store, visited: set<string>, result: seq<Info>) {
    && (forall p :: p in visited && store.info(p).IsPresent() ==> store.info(p) in result)
    && (forall i :: 0 <= i < |result| ==>
          result[i].storePath in visited && result[i].IsPresent() && result[i] == store.info(result[i].storePath))
    && (forall i, j :: 0 <= i < j < |result| ==> result[i].storePath != result[j].storePath)
  }

  /** Adds the entries that have not been seen. */
  method Merge(store: Store, infos: seq<Info>, visited: set<string>, result: seq<Info>)
      returns (visited': set<string>, result': seq<Info>)
    requires store.Valid() && Collected(store, visited, result)
    requires forall i :: 0 <= i < |infos| ==> infos[i] == store.info(infos[i].storePath)
    ensures Collected(store, visited', result')
    ensures visited' == visited + set i | 0 <= i < |infos| :: infos[i].storePath
  {
    visited', result' := visited, result;
    var k := 0;
    while k < |infos|
      invariant 0 <= k <= |infos|
      invariant Collected(store, visited', result')
      invariant visited' == visited + set i | 0 <= i < k :: infos[i].storePath
    {
      var info := infos[k];
      k := k + 1;
      if info.storePath in visited' {
        continue;
      }
      visited' := visited' + {info.storePath};
      if info.IsPresent() {
        result' := result' + [info];
      }
    }
  }

  /** One query for the whole batch when that works. Otherwise every path on its own: the result then has
      no duplicate, and is exactly the closures of the individually resolvable paths without the objects
      that are not present, even though paths already visited are skipped. */
  method GatherStorePathSet(store: Store, storePaths: seq<string>) returns (result: seq<Info>)
    requires store.Valid()
    ensures store.query(storePaths).Answer? ==> result == store.query(storePaths).infos
    ensures store.query(storePaths).Failed? ==>
              && (forall i, j :: 0 <= i < j < |result| ==> result[i].storePath != result[j].storePath)
              && (forall p :: store.info(p) in result <==>
                    store.info(p).narHash != ""
                    && exists q :: q in storePaths && store.query([q]).Answer? && p in store.closure(q))
              && (forall i :: 0 <= i < |result| ==> result[i] == store.info(result[i].storePath))
  {
    var all := store.query(storePaths);
    if all.Answer? {
      return all.infos;
    }
    result := [];
    var visited: set<string> := {};
    var i := 0;
    while i < |storePaths|
      invariant 0 <= i <= |storePaths|
      invariant Collected(store, visited, result)
      invariant forall p :: p in visited <==> Wanted(store, storePaths[..i], p)
    {
      var p := storePaths[i];
      WantedStep(store, storePaths, i);
      i := i + 1;
      if p in visited {
        continue;
      }
      var individual := store.query([p]);
      if individual.Failed? {
        continue;
      }
      ghost var before := visited;
      visited, result := Merge(store, individual.infos, visited, result);
      ListedPaths(store, individual.infos, store.closure(p));
      assert visited == before + store.closure(p);
    }
    assert storePaths[..i] == storePaths;
    forall p {:trigger Wanted(store, storePaths, p)} ensures Wanted(store, storePaths, p) <==>
      exists q :: q in storePaths && store.query([q]).Answer? && p in store.closure(q) {
      WantedMeaning(store, storePaths, p);
    }
  }

  lemma WantedMeaning(store: Store, paths: seq<string>, p: string)
    ensures Wanted(store, paths, p) <==>
      exists q :: q in paths && store.query([q]).Answer? && p in store.closure(q)
  {
    if Wanted(store, paths, p) {
      var i :| 0 <= i < |paths| && store.Resolvable(paths[i]) && p in store.closure(paths[i]);
      assert paths[i] in paths;
    }
    if q :| q in paths && store.query([q]).Answer? && p in store.closure(q) {
      var i :| 0 <= i < |paths| && paths[i] == q;
      assert store.Resolvable(paths[i]);
    }
  }

  lemma ListedPaths(store: Store, infos: seq<Info>, paths: set<string>)
    requires store.Valid() && store.Lists(infos, paths)
    ensures (set i | 0 <= i < |infos| :: infos[i].storePath) == paths
  {
    forall p | p in paths ensures p in set i | 0 <= i < |infos| :: infos[i].storePath {
      var i :| 0 <= i < |infos| && infos[i] == store.info(p);
      assert infos[i].storePath == p;
    }
  }

  /** A path in the closure of an earlier one brings nothing new: closures are transitive. */
  lemma WantedStep(store: Store, paths: seq<string>, i: nat)
    requires store.Valid() && i < |paths|
    ensures forall q :: Wanted(store, paths[..i + 1], q) <==>
              Wanted(store, paths[..i], q) || (store.Resolvable(paths[i]) && q in store.closure(paths[i]))
    ensures Wanted(store, paths[..i], paths[i]) ==>
              forall q :: q in store.closure(paths[i]) ==> Wanted(store, paths[..i], q)
  {
    var now, next := paths[..i], paths[..i + 1];
    forall q ensures Wanted(store, next, q) <==>
        Wanted(store, now, q) || (store.Resolvable(paths[i]) && q in store.closure(paths[i]))
    {
      if Wanted(store, now, q) {
        var k :| 0 <= k < |now| && store.Resolvable(now[k]) && q in store.closure(now[k]);
        assert next[k] == now[k];
      }
      if store.Resolvable(paths[i]) && q in store.closure(paths[i]) {
        assert next[i] == paths[i];
      }
    }
    if Wanted(store, now, paths[i]) {
      var k :| 0 <= k < |now| && store.Resolvable(now[k]) && paths[i] in store.closure(now[k]);
      assert store.closure(paths[i]) <= store.closure(now[k]);
    }
  }
}
