/** The recursive `requisites` query behind the closure columns of the index page (uicache/index.sql). */
module Closure {
  import opened Sequences
  import opened StoreObjects

  /** A row ("path_digest", "reference") of the references table; the reference is a base name. */
  type Row = (string, string)

  /** store_path_digest(reference); None is SQL's NULL. */
  function DigestOf(reference: string): Option<string> {
    match ParseObject(reference)
    case Some(o) => Some(o.digest)
    case None => None
  }

  /** "path_digest" <> store_path_digest("reference"), which NULL does not satisfy. */
  predicate NonSelf(row: Row) {
    DigestOf(row.1).Some? && DigestOf(row.1).value != row.0
  }

  // ---- the query ----

  function BaseRows(refs: set<Row>, page: set<string>): set<Row> {
    set row | row in refs && NonSelf(row) && row.0 in page
  }

  function NextRows(refs: set<Row>, rows: set<Row>): set<Row> {
    set row | row in refs && NonSelf(row) && exists q :: q in rows && DigestOf(q.1) == Some(row.0)
  }

  /** `union` keeps adding rows until nothing new turns up; it ends on every graph, cyclic or not. */
  function Saturate(refs: set<Row>, rows: set<Row>): set<Row>
    requires rows <= refs
    decreases refs - rows
  {
    var more := NextRows(refs, rows);
    if more <= rows then rows else
      assert refs - (rows + more) < refs - rows by {
        var x :| x in more && x !in rows;
        assert x in refs - rows && x !in refs - (rows + more);
      }
      Saturate(refs, rows + more)
  }

  function Requisites(refs: set<Row>, page: set<string>): set<Row> {
    Saturate(refs, BaseRows(refs, page))
  }

  // ---- reachability, independently of the query ----

  /** `path` follows non-self reference rows, starting at digest `from`. */
  ghost predicate Chain(refs: set<Row>, from: string, path: seq<Row>)
    decreases |path|
  {
    path == [] ||
    (path[0] in refs && NonSelf(path[0]) && path[0].0 == from &&
     Chain(refs, DigestOf(path[0].1).value, path[1..]))
  }

  ghost function End(from: string, path: seq<Row>): string {
    if path == [] then from
    else match DigestOf(path[|path| - 1].1)
         case Some(d) => d
         case None => ""
  }

  lemma {:induction false} ChainSnoc(refs: set<Row>, from: string, path: seq<Row>, row: Row)
    requires Chain(refs, from, path) && row in refs && NonSelf(row) && row.0 == End(from, path)
    ensures Chain(refs, from, path + [row])
    decreases |path|
  {
    if path == [] {
    } else {
      var next := DigestOf(path[0].1).value;
      assert (path + [row])[1..] == path[1..] + [row];
      ChainSnoc(refs, next, path[1..], row);
    }
  }

  lemma {:induction false} ChainInit(refs: set<Row>, from: string, path: seq<Row>)
    requires Chain(refs, from, path) && path != []
    ensures var init, row := path[..|path| - 1], path[|path| - 1];
      && Chain(refs, from, init) && row in refs && NonSelf(row) && row.0 == End(from, init)
    decreases |path|
  {
    if |path| == 1 {
    } else {
      var next := DigestOf(path[0].1).value;
      ChainInit(refs, next, path[1..]);
      assert path[1..][..|path| - 2] == path[..|path| - 1][1..];
    }
  }

  ghost predicate Reachable(refs: set<Row>, page: set<string>, row: Row) {
    && row in refs && NonSelf(row)
    && exists p, path :: p in page && Chain(refs, p, path) && End(p, path) == row.0
  }

  lemma {:induction false} SaturateSound(refs: set<Row>, rows: set<Row>, page: set<string>)
    requires rows <= refs && forall row :: row in rows ==> Reachable(refs, page, row)
    ensures forall row :: row in Saturate(refs, rows) ==> Reachable(refs, page, row)
    decreases refs - rows
  {
    var more := NextRows(refs, rows);
    if more <= rows {
    } else {
      forall row | row in more ensures Reachable(refs, page, row) {
        var q :| q in rows && DigestOf(q.1) == Some(row.0);
        var p, path :| p in page && Chain(refs, p, path) && End(p, path) == q.0;
        ChainSnoc(refs, p, path, q);
        assert End(p, path + [q]) == row.0;
      }
      var x :| x in more && x !in rows;
      assert x in refs - rows && x !in refs - (rows + more);
      SaturateSound(refs, rows + more, page);
    }
  }

  lemma {:induction false} SaturateClosed(refs: set<Row>, rows: set<Row>)
    requires rows <= refs
    ensures rows <= Saturate(refs, rows) <= refs
    ensures NextRows(refs, Saturate(refs, rows)) <= Saturate(refs, rows)
    decreases refs - rows
  {
    var more := NextRows(refs, rows);
    if more <= rows {
    } else {
      var x :| x in more && x !in rows;
      assert x in refs - rows && x !in refs - (rows + more);
      SaturateClosed(refs, rows + more);
    }
  }

  lemma {:induction false} ReachedRowsAreRequisites(refs: set<Row>, page: set<string>, p: string, path: seq<Row>,
      row: Row)
    requires p in page && Chain(refs, p, path) && End(p, path) == row.0 && row in refs && NonSelf(row)
    ensures row in Requisites(refs, page)
    decreases |path|
  {
    var all := Requisites(refs, page);
    SaturateClosed(refs, BaseRows(refs, page));
    if path == [] {
      assert row in BaseRows(refs, page);
    } else {
      var init, q := path[..|path| - 1], path[|path| - 1];
      ChainInit(refs, p, path);
      ReachedRowsAreRequisites(refs, page, p, init, q);
      assert row in NextRows(refs, all);
    }
  }

  /** The recursion computes exactly the non-self reference rows reachable from the page. */
  lemma RequisitesAreReachable(refs: set<Row>, page: set<string>, row: Row)
    ensures row in Requisites(refs, page) <==> Reachable(refs, page, row)
  {
    forall r | r in BaseRows(refs, page) ensures Reachable(refs, page, r) {
      assert Chain(refs, r.0, []) && End(r.0, []) == r.0;
    }
    SaturateSound(refs, BaseRows(refs, page), page);
    if Reachable(refs, page, row) {
      var p, path :| p in page && Chain(refs, p, path) && End(p, path) == row.0;
      ReachedRowsAreRequisites(refs, page, p, path, row);
    }
  }

  // ---- the closure columns ----

  /** Sizes of the cached objects; None is a NULL size. */
  type Sizes = map<string, Option<int>>

  function RowSize(sizes: Sizes, row: Row): int {
    var d := DigestOf(row.1);
    if d.Some? && d.value in sizes && sizes[d.value].Some? then sizes[d.value].value else 0
  }

  /** sum(...) over the joined rows; rows without a cached object and NULL sizes add nothing. */
  ghost function Total(sizes: Sizes, rows: set<Row>): int {
    if rows == {} then 0
    else
      var row :| row in rows;
      RowSize(sizes, row) + Total(sizes, rows - {row})
  }

  lemma {:induction false} TotalInsert(sizes: Sizes, rows: set<Row>, x: Row)
    requires x !in rows
    ensures Total(sizes, rows + {x}) == Total(sizes, rows) + RowSize(sizes, x)
    decreases rows
  {
    var all := rows + {x};
    var y :| y in all && Total(sizes, all) == RowSize(sizes, y) + Total(sizes, all - {y});
    if y == x {
      assert all - {x} == rows;
    } else {
      var less := rows - {y};
      assert all - {y} == less + {x};
      TotalInsert(sizes, less, x);
      assert less + {y} == rows;
      TotalInsert(sizes, less, y);
    }
  }

  /** Sizes cannot be negative (the checks of "store_objects"). */
  ghost predicate SizesOk(sizes: Sizes) {
    forall d :: d in sizes && sizes[d].Some? ==> sizes[d].value >= 0
  }

  /** More rows never make the sum smaller, and leave it the same only if all of them add nothing. */
  lemma {:induction false} TotalOfMore(sizes: Sizes, rows: set<Row>, more: set<Row>)
    requires SizesOk(sizes) && rows !! more
    ensures Total(sizes, rows) <= Total(sizes, rows + more)
    ensures Total(sizes, rows) == Total(sizes, rows + more) <==> forall row :: row in more ==> RowSize(sizes, row) == 0
    decreases more
  {
    if more == {} {
      assert rows + more == rows;
    } else {
      var x :| x in more;
      TotalOfMore(sizes, rows, more - {x});
      TotalInsert(sizes, rows + (more - {x}), x);
      assert rows + more == rows + (more - {x}) + {x};
    }
  }

  ghost function RowsOf(rows: set<Row>, d: string): set<Row> {
    set row | row in rows && row.0 == d
  }

  /** The closure column of a page member, as the query computes it (a NULL own size reads as 0). */
  ghost function ClosureSize(sizes: Sizes, rows: set<Row>, d: string): int {
    if d in sizes && sizes[d].Some? then sizes[d].value + Total(sizes, RowsOf(rows, d)) else 0
  }

  function DirectRows(refs: set<Row>, d: string): set<Row> {
    set row | row in refs && NonSelf(row) && row.0 == d
  }

  /** The columns add up own and direct reference sizes only, whatever else is on the page. */
  lemma ClosureColumnsAreDirect(refs: set<Row>, page: set<string>, sizes: Sizes, d: string)
    requires d in page
    ensures RowsOf(Requisites(refs, page), d) == DirectRows(refs, d)
    ensures ClosureSize(sizes, Requisites(refs, page), d) == ClosureSize(sizes, DirectRows(refs, d), d)
  {
    var all := Requisites(refs, page);
    SaturateClosed(refs, BaseRows(refs, page));
    forall row ensures row in RowsOf(all, d) <==> row in DirectRows(refs, d) {
      RequisitesAreReachable(refs, page, row);
      if row in DirectRows(refs, d) {
        assert row in BaseRows(refs, page);
      }
    }
    assert RowsOf(DirectRows(refs, d), d) == DirectRows(refs, d);
  }

  // ---- a variant that carries the root, for comparison ----

  function RootUniverse(refs: set<Row>, page: set<string>): set<Row> {
    set p, row | p in page && row in refs :: (p, row.1)
  }

  function NextRootRows(refs: set<Row>, rows: set<Row>): set<Row> {
    set q, row | q in rows && row in refs && NonSelf(row) && DigestOf(q.1) == Some(row.0) :: (q.0, row.1)
  }

  function SaturateRoots(refs: set<Row>, page: set<string>, rows: set<Row>): set<Row>
    requires rows <= RootUniverse(refs, page)
    decreases RootUniverse(refs, page) - rows
  {
    var more := NextRootRows(refs, rows);
    if more <= rows then rows else
      RootsStay(refs, page, rows);
      SaturateRoots(refs, page, rows + more)
  }

  lemma RootsStay(refs: set<Row>, page: set<string>, rows: set<Row>)
    requires rows <= RootUniverse(refs, page)
    ensures NextRootRows(refs, rows) <= RootUniverse(refs, page)
    ensures var more := NextRootRows(refs, rows);
      !(more <= rows) ==> RootUniverse(refs, page) - (rows + more) < RootUniverse(refs, page) - rows
  {
    var all, more := RootUniverse(refs, page), NextRootRows(refs, rows);
    assert forall q :: q in rows ==> q in all && q.0 in page;
    if more <= rows {
    } else {
      var x :| x in more && x !in rows;
      assert x in all - rows && x !in all - (rows + more);
    }
  }

  function RootRequisites(refs: set<Row>, page: set<string>): set<Row> {
    SaturateRoots(refs, page, BaseRows(refs, page))
  }

  /** `reference` is at the end of a non-empty chain from `root`: the transitive closure. */
  ghost predicate InClosure(refs: set<Row>, root: string, reference: string) {
    exists path: seq<Row> :: path != [] && Chain(refs, root, path) && path[|path| - 1].1 == reference
  }

  /** Every row pairs a root with something in its transitive closure. */
  ghost predicate AllInClosure(refs: set<Row>, rows: set<Row>) {
    forall q :: q in rows ==> InClosure(refs, q.0, q.1)
  }

  lemma ClosureStep(refs: set<Row>, root: string, reference: string, row: Row)
    requires InClosure(refs, root, reference) && row in refs && NonSelf(row) && DigestOf(reference) == Some(row.0)
    ensures InClosure(refs, root, row.1)
  {
    var path: seq<Row> :| path != [] && Chain(refs, root, path) && path[|path| - 1].1 == reference;
    ChainSnoc(refs, root, path, row);
    assert (path + [row])[|path|].1 == row.1;
  }

  lemma NextRootSound(refs: set<Row>, rows: set<Row>)
    requires AllInClosure(refs, rows)
    ensures AllInClosure(refs, NextRootRows(refs, rows))
  {
    forall q, row | q in rows && row in refs && NonSelf(row) && DigestOf(q.1) == Some(row.0)
      ensures InClosure(refs, q.0, row.1)
    {
      ClosureStep(refs, q.0, q.1, row);
    }
  }

  lemma {:induction false} SaturateRootsSound(refs: set<Row>, page: set<string>, rows: set<Row>)
    requires rows <= RootUniverse(refs, page) && AllInClosure(refs, rows)
    ensures var r := SaturateRoots(refs, page, rows);
      r <= RootUniverse(refs, page) && AllInClosure(refs, r) && rows <= r && NextRootRows(refs, r) <= r
    decreases RootUniverse(refs, page) - rows
  {
    var more := NextRootRows(refs, rows);
    if more <= rows {
    } else {
      RootsStay(refs, page, rows);
      NextRootSound(refs, rows);
      SaturateRootsSound(refs, page, rows + more);
    }
  }

  lemma NextRootMember(refs: set<Row>, rows: set<Row>, q: Row, row: Row)
    requires q in rows && row in refs && NonSelf(row) && DigestOf(q.1) == Some(row.0)
    ensures (q.0, row.1) in NextRootRows(refs, rows)
  {
  }

  lemma {:induction false} ClosureIsComputed(refs: set<Row>, page: set<string>, root: string, path: seq<Row>)
    requires root in page && path != [] && Chain(refs, root, path)
    requires BaseRows(refs, page) <= RootRequisites(refs, page)
    requires NextRootRows(refs, RootRequisites(refs, page)) <= RootRequisites(refs, page)
    ensures (root, path[|path| - 1].1) in RootRequisites(refs, page)
    decreases |path|
  {
    var all := RootRequisites(refs, page);
    var init, row := path[..|path| - 1], path[|path| - 1];
    ChainInit(refs, root, path);
    if init == [] {
      assert row == (root, row.1);
      assert row in BaseRows(refs, page);
    } else {
      ClosureIsComputed(refs, page, root, init);
      var q := (root, init[|init| - 1].1);
      ChainInit(refs, root, init);
      NextRootMember(refs, all, q, row);
    }
  }

  /** Carrying the root yields exactly the transitive closure of every page member. */
  lemma RootVariantIsClosure(refs: set<Row>, page: set<string>, root: string, reference: string)
    ensures (root, reference) in RootRequisites(refs, page) <==> root in page && InClosure(refs, root, reference)
  {
    var base := BaseRows(refs, page);
    forall q | q in base ensures q in RootUniverse(refs, page) && InClosure(refs, q.0, q.1) {
      assert q == (q.0, q.1);
      assert Chain(refs, q.0, [q]) && [q][0].1 == q.1;
    }
    SaturateRootsSound(refs, page, base);
    if root in page && InClosure(refs, root, reference) {
      var path: seq<Row> :| path != [] && Chain(refs, root, path) && path[|path| - 1].1 == reference;
      ClosureIsComputed(refs, page, root, path);
    }
  }

  /** The object that `row` is about is a direct reference of `d`, through `q`. */
  predicate LeadsOn(refs: set<Row>, d: string, q: Row, row: Row) {
    q in DirectRows(refs, d) && row in refs && NonSelf(row) && DigestOf(q.1) == Some(row.0)
  }

  /** Whatever a direct reference refers to is itself a direct reference. */
  ghost predicate DirectlyClosed(refs: set<Row>, d: string) {
    forall q, row :: LeadsOn(refs, d, q, row) ==> (d, row.1) in DirectRows(refs, d)
  }

  lemma {:induction false} ClosedChains(refs: set<Row>, d: string, path: seq<Row>)
    requires DirectlyClosed(refs, d) && path != [] && Chain(refs, d, path)
    ensures (d, path[|path| - 1].1) in DirectRows(refs, d)
    decreases |path|
  {
    var init, row := path[..|path| - 1], path[|path| - 1];
    ChainInit(refs, d, path);
    if init == [] {
      assert row == (d, row.1);
    } else {
      ClosedChains(refs, d, init);
      ChainInit(refs, d, init);
      var q := (d, init[|init| - 1].1);
      assert LeadsOn(refs, d, q, row);
    }
  }

  lemma DirectIsInRoots(refs: set<Row>, page: set<string>, d: string)
    requires d in page
    ensures DirectRows(refs, d) <= RowsOf(RootRequisites(refs, page), d)
  {
    forall row | row in DirectRows(refs, d) ensures row in RowsOf(RootRequisites(refs, page), d) {
      assert row == (d, row.1);
      assert Chain(refs, d, [row]) && [row][0].1 == row.1;
      RootVariantIsClosure(refs, page, d, row.1);
    }
  }

  /** The query's rows for a page member are its transitive closure exactly when its direct references
      are closed under reference. */
  lemma ColumnsAreTransitiveIffClosed(refs: set<Row>, page: set<string>, d: string)
    requires d in page
    ensures RowsOf(Requisites(refs, page), d) == RowsOf(RootRequisites(refs, page), d) <==> DirectlyClosed(refs, d)
  {
    ClosureColumnsAreDirect(refs, page, map[], d);
    var direct, roots := DirectRows(refs, d), RowsOf(RootRequisites(refs, page), d);
    DirectIsInRoots(refs, page, d);
    if DirectlyClosed(refs, d) {
      forall row | row in roots ensures row in direct {
        assert row == (d, row.1);
        RootVariantIsClosure(refs, page, d, row.1);
        var path: seq<Row> :| path != [] && Chain(refs, d, path) && path[|path| - 1].1 == row.1;
        ClosedChains(refs, d, path);
      }
      assert direct == roots;
    } else {
      var q, row :| LeadsOn(refs, d, q, row) && (d, row.1) !in direct;
      var path := [q, row];
      assert path[1..] == [row];
      assert Chain(refs, DigestOf(q.1).value, [row]);
      assert Chain(refs, d, path) && path[|path| - 1].1 == row.1;
      RootVariantIsClosure(refs, page, d, row.1);
      assert (d, row.1) in roots;
    }
  }

  // ---- the columns against the transitive total ----

  predicate KnownSize(sizes: Sizes, d: string) { d in sizes && sizes[d].Some? }

  /** Everything below an object in the reference graph, by following rows; not the object itself, to which a
      cycle can lead back. */
  ghost function Below(refs: set<Row>, d: string): set<Row> {
    set r | r in refs && InClosure(refs, d, r.1) && DigestOf(r.1) != Some(d) :: (d, r.1)
  }

  /** What a closure size is meant to be: the object's own size, where known, and the sizes of all below it. */
  ghost function TransitiveTotal(refs: set<Row>, sizes: Sizes, d: string): int {
    (if KnownSize(sizes, d) then sizes[d].value else 0) + Total(sizes, Below(refs, d))
  }

  lemma BelowMember(refs: set<Row>, d: string, row: Row)
    ensures row in Below(refs, d) <==> row.0 == d && InClosure(refs, d, row.1) && DigestOf(row.1) != Some(d)
  {
    if row.0 == d && InClosure(refs, d, row.1) {
      var path: seq<Row> :| path != [] && Chain(refs, d, path) && path[|path| - 1].1 == row.1;
      ChainInit(refs, d, path);
      assert row == (d, path[|path| - 1].1);
    }
  }

  lemma DirectIsBelow(refs: set<Row>, d: string)
    ensures DirectRows(refs, d) <= Below(refs, d)
  {
    forall row | row in DirectRows(refs, d) ensures row in Below(refs, d) {
      assert Chain(refs, d, [row]) && [row][0].1 == row.1;
      BelowMember(refs, d, row);
    }
  }

  /** A closure column never shows more than the transitive total, and shows exactly that if and only if everything
      it leaves out has no size or size 0. It leaves out what the object does not refer to directly, and, when the
      object's own size is unknown, all there is. */
  lemma ColumnIsTotalIff(refs: set<Row>, page: set<string>, sizes: Sizes, d: string)
    requires d in page && SizesOk(sizes)
    ensures ClosureSize(sizes, Requisites(refs, page), d) <= TransitiveTotal(refs, sizes, d)
    ensures ClosureSize(sizes, Requisites(refs, page), d) == TransitiveTotal(refs, sizes, d) <==>
      forall row :: row in Below(refs, d) && (row !in DirectRows(refs, d) || !KnownSize(sizes, d)) ==>
        RowSize(sizes, row) == 0
  {
    var direct, below := DirectRows(refs, d), Below(refs, d);
    ClosureColumnsAreDirect(refs, page, sizes, d);
    DirectIsBelow(refs, d);
    assert RowsOf(direct, d) == direct;
    var shown := if KnownSize(sizes, d) then direct else {};
    assert shown + (below - shown) == below;
    TotalOfMore(sizes, shown, below - shown);
  }

  /** Whatever a direct reference refers to, other than the object itself, is a direct reference as well. */
  ghost predicate DirectlyClosedBelow(refs: set<Row>, d: string) {
    forall q, row :: LeadsOn(refs, d, q, row) && DigestOf(row.1) != Some(d) ==> (d, row.1) in DirectRows(refs, d)
  }

  lemma {:induction false} ClosedBelow(refs: set<Row>, d: string, path: seq<Row>)
    requires DirectlyClosedBelow(refs, d) && path != [] && Chain(refs, d, path)
    requires DigestOf(path[|path| - 1].1) != Some(d)
    ensures (d, path[|path| - 1].1) in DirectRows(refs, d)
    decreases |path|
  {
    var init, row := path[..|path| - 1], path[|path| - 1];
    ChainInit(refs, d, path);
    if row.0 == d {
      assert row == (d, row.1);
    } else {
      ClosedBelow(refs, d, init);
      ChainInit(refs, d, init);
      var q := (d, init[|init| - 1].1);
      assert LeadsOn(refs, d, q, row);
    }
  }

  lemma ClosedBelowIsDirect(refs: set<Row>, d: string)
    requires DirectlyClosedBelow(refs, d)
    ensures Below(refs, d) <= DirectRows(refs, d)
  {
    forall row | row in Below(refs, d) ensures row in DirectRows(refs, d) {
      BelowMember(refs, d, row);
      var path: seq<Row> :| path != [] && Chain(refs, d, path) && path[|path| - 1].1 == row.1;
      ClosedBelow(refs, d, path);
    }
  }

  lemma LeadsBelow(refs: set<Row>, d: string, q: Row, row: Row)
    requires LeadsOn(refs, d, q, row) && DigestOf(row.1) != Some(d)
    ensures (d, row.1) in Below(refs, d)
  {
    var path := [q, row];
    assert path[1..] == [row] && Chain(refs, DigestOf(q.1).value, [row]);
    assert Chain(refs, d, path) && path[|path| - 1].1 == row.1;
    BelowMember(refs, d, (d, row.1));
  }

  lemma BelowIsDirectIffClosed(refs: set<Row>, d: string)
    ensures Below(refs, d) == DirectRows(refs, d) <==> DirectlyClosedBelow(refs, d)
  {
    DirectIsBelow(refs, d);
    if DirectlyClosedBelow(refs, d) {
      ClosedBelowIsDirect(refs, d);
    } else {
      var q, row :| LeadsOn(refs, d, q, row) && DigestOf(row.1) != Some(d) && (d, row.1) !in DirectRows(refs, d);
      LeadsBelow(refs, d, q, row);
    }
  }

  /** When the object and everything below it are cached with sizes, none of them 0, the column is the transitive
      total if and only if the direct references are closed under reference. */
  lemma ColumnIsTotalIffClosed(refs: set<Row>, page: set<string>, sizes: Sizes, d: string)
    requires d in page && SizesOk(sizes) && KnownSize(sizes, d)
    requires forall row :: row in Below(refs, d) ==> RowSize(sizes, row) > 0
    ensures ClosureSize(sizes, Requisites(refs, page), d) == TransitiveTotal(refs, sizes, d)
            <==> DirectlyClosedBelow(refs, d)
  {
    ColumnIsTotalIff(refs, page, sizes, d);
    BelowIsDirectIffClosed(refs, d);
    DirectIsBelow(refs, d);
    assert Below(refs, d) == DirectRows(refs, d) <==>
      forall row :: row in Below(refs, d) ==> row in DirectRows(refs, d);
  }

  function SizeOf(sizes: Sizes, d: string): int { if KnownSize(sizes, d) then sizes[d].value else 0 }

  ghost function SumOfSizes(sizes: Sizes, digests: set<string>): int {
    if digests == {} then 0
    else
      var d :| d in digests;
      SizeOf(sizes, d) + SumOfSizes(sizes, digests - {d})
  }

  ghost function DigestsIn(rows: set<Row>): set<string> {
    set row | row in rows && DigestOf(row.1).Some? :: DigestOf(row.1).value
  }

  /** No two rows stand for one object: a digest goes with one name. */
  ghost predicate OneRowPerObject(rows: set<Row>) {
    && (forall row :: row in rows ==> DigestOf(row.1).Some?)
    && forall a, b :: a in rows && b in rows && DigestOf(a.1) == DigestOf(b.1) ==> a == b
  }

  lemma DigestsWithout(rows: set<Row>, row: Row)
    requires OneRowPerObject(rows) && row in rows
    ensures DigestsIn(rows - {row}) == DigestsIn(rows) - {DigestOf(row.1).value}
  {
    forall d ensures d in DigestsIn(rows - {row}) <==> d in DigestsIn(rows) - {DigestOf(row.1).value} {
      if d in DigestsIn(rows) && d != DigestOf(row.1).value {
        var other :| other in rows && DigestOf(other.1) == Some(d);
        assert other in rows - {row};
      }
    }
  }

  /** A sum over rows is a sum over objects. */
  lemma {:induction false} TotalIsOverObjects(sizes: Sizes, rows: set<Row>)
    requires OneRowPerObject(rows)
    ensures Total(sizes, rows) == SumOfSizes(sizes, DigestsIn(rows))
    decreases rows
  {
    if rows == {} {
      assert DigestsIn(rows) == {};
    } else {
      var some :| some in rows;
      assert DigestOf(some.1).value in DigestsIn(rows);
      var d := FirstOfSum(sizes, DigestsIn(rows));
      var row :| row in rows && DigestOf(row.1) == Some(d);
      TotalIsOverObjects(sizes, rows - {row});
      DigestsWithout(rows, row);
      TotalWith(sizes, rows, row);
    }
  }

  lemma TotalWith(sizes: Sizes, rows: set<Row>, row: Row)
    requires row in rows && DigestOf(row.1).Some?
    ensures Total(sizes, rows) == Total(sizes, rows - {row}) + SizeOf(sizes, DigestOf(row.1).value)
  {
    TotalInsert(sizes, rows - {row}, row);
    assert rows - {row} + {row} == rows;
  }

  lemma FirstOfSum(sizes: Sizes, digests: set<string>) returns (d: string)
    requires digests != {}
    ensures d in digests && SumOfSizes(sizes, digests) == SizeOf(sizes, d) + SumOfSizes(sizes, digests - {d})
  {
    d :| d in digests && SumOfSizes(sizes, digests) == SizeOf(sizes, d) + SumOfSizes(sizes, digests - {d});
  }

  /** In an acyclic and transitive reference relation the rows agree, and a column is the transitive total. */
  lemma AcyclicTransitiveAgree(refs: set<Row>, page: set<string>, d: string)
    requires d in page
    requires forall a, b :: a in refs && b in refs && NonSelf(a) && NonSelf(b) && DigestOf(a.1) == Some(b.0)
               ==> (a.0, b.1) in refs
    requires forall path :: path != [] && Chain(refs, d, path) ==> End(d, path) != d
    ensures RowsOf(Requisites(refs, page), d) == RowsOf(RootRequisites(refs, page), d)
    ensures forall sizes :: KnownSize(sizes, d) ==>
      ClosureSize(sizes, Requisites(refs, page), d) == TransitiveTotal(refs, sizes, d)
  {
    AcyclicIsClosed(refs, d);
    ColumnsAreTransitiveIffClosed(refs, page, d);
    forall sizes | KnownSize(sizes, d)
      ensures ClosureSize(sizes, Requisites(refs, page), d) == TransitiveTotal(refs, sizes, d) {
      ClosedColumn(refs, page, sizes, d);
    }
  }

  lemma AcyclicIsClosed(refs: set<Row>, d: string)
    requires forall a, b :: a in refs && b in refs && NonSelf(a) && NonSelf(b) && DigestOf(a.1) == Some(b.0)
               ==> (a.0, b.1) in refs
    requires forall path :: path != [] && Chain(refs, d, path) ==> End(d, path) != d
    ensures DirectlyClosed(refs, d)
  {
    forall q, row | LeadsOn(refs, d, q, row) ensures (d, row.1) in DirectRows(refs, d) {
      var path := [q, row];
      assert path[1..] == [row] && Chain(refs, DigestOf(q.1).value, [row]);
      assert Chain(refs, d, path) && End(d, path) != d;
    }
  }

  lemma ClosedColumn(refs: set<Row>, page: set<string>, sizes: Sizes, d: string)
    requires d in page && KnownSize(sizes, d) && DirectlyClosedBelow(refs, d)
    ensures ClosureSize(sizes, Requisites(refs, page), d) == TransitiveTotal(refs, sizes, d)
  {
    BelowIsDirectIffClosed(refs, d);
    ClosureColumnsAreDirect(refs, page, sizes, d);
    assert RowsOf(DirectRows(refs, d), d) == DirectRows(refs, d);
  }

  /** In general they do not: along a chain of three objects the last one is missing from the rows, and the
      column falls short of the transitive total by exactly its size. */
  lemma GrandchildIsNotCounted(a: ObjectName, b: ObjectName, c: ObjectName, sizes: Sizes)
    requires a.Valid() && b.Valid() && c.Valid()
    requires a.digest != b.digest && b.digest != c.digest && a.digest != c.digest
    ensures var refs, page, last := {(a.digest, b.Base()), (b.digest, c.Base())}, {a.digest}, (a.digest, c.Base());
      && RowsOf(Requisites(refs, page), a.digest) == {(a.digest, b.Base())}
      && RowsOf(RootRequisites(refs, page), a.digest) == {(a.digest, b.Base()), last}
      && (KnownSize(sizes, a.digest) && KnownSize(sizes, b.digest) && KnownSize(sizes, c.digest) ==>
            && ClosureSize(sizes, Requisites(refs, page), a.digest) ==
               sizes[a.digest].value + sizes[b.digest].value
            && TransitiveTotal(refs, sizes, a.digest) ==
               sizes[a.digest].value + sizes[b.digest].value + sizes[c.digest].value)
      && (KnownSize(sizes, a.digest) ==>
            TransitiveTotal(refs, sizes, a.digest)
            == ClosureSize(sizes, Requisites(refs, page), a.digest) + RowSize(sizes, last))
  {
    ParseBase(a);
    ParseBase(b);
    ParseBase(c);
    var first, second, last := (a.digest, b.Base()), (b.digest, c.Base()), (a.digest, c.Base());
    var refs, page := {first, second}, {a.digest};
    assert DirectRows(refs, a.digest) == {first};
    ChainOfThree(refs, page, first, second, last);
    BelowOfThree(refs, page, first, last);
    SumsOfThree(refs, page, sizes, first, last);
    ClosureColumnsAreDirect(refs, page, sizes, first.0);
    assert DigestOf(first.1) == Some(b.digest) && DigestOf(last.1) == Some(c.digest);
  }

  lemma BelowOfThree(refs: set<Row>, page: set<string>, first: Row, last: Row)
    requires page == {first.0} && last.0 == first.0
    requires RowsOf(RootRequisites(refs, page), first.0) == {first, last}
    requires DigestOf(first.1) != Some(first.0) && DigestOf(last.1) != Some(first.0)
    ensures Below(refs, first.0) == {first, last}
  {
    var roots := RowsOf(RootRequisites(refs, page), first.0);
    forall row ensures row in Below(refs, first.0) <==> row in roots && DigestOf(row.1) != Some(first.0) {
      BelowMember(refs, first.0, row);
      RootVariantIsClosure(refs, page, first.0, row.1);
      assert row.0 == first.0 ==> row == (first.0, row.1);
    }
  }

  lemma SumsOfThree(refs: set<Row>, page: set<string>, sizes: Sizes, first: Row, last: Row)
    requires page == {first.0} && DirectRows(refs, first.0) == {first} && Below(refs, first.0) == {first, last}
    requires DigestOf(first.1).Some? && DigestOf(last.1).Some? && DigestOf(first.1) != DigestOf(last.1)
    ensures KnownSize(sizes, first.0) ==>
      && ClosureSize(sizes, Requisites(refs, page), first.0) ==
         sizes[first.0].value + SizeOf(sizes, DigestOf(first.1).value)
      && TransitiveTotal(refs, sizes, first.0) ==
         sizes[first.0].value + SizeOf(sizes, DigestOf(first.1).value) + SizeOf(sizes, DigestOf(last.1).value)
  {
    ClosureColumnsAreDirect(refs, page, sizes, first.0);
    assert RowsOf({first}, first.0) == {first};
    TotalInsert(sizes, {}, first);
    assert {} + {first} == {first};
    TotalInsert(sizes, {first}, last);
    assert {first} + {last} == {first, last};
  }

  lemma ChainOfThree(refs: set<Row>, page: set<string>, first: Row, second: Row, last: Row)
    requires refs == {first, second} && page == {first.0} && last == (first.0, second.1)
    requires DigestOf(first.1) == Some(second.0) && NonSelf(first) && NonSelf(second)
    requires second.0 != first.0 && DigestOf(second.1).Some? && DigestOf(second.1).value !in {first.0, second.0}
    ensures RowsOf(RootRequisites(refs, page), first.0) == {first, last}
  {
    var roots := RowsOf(RootRequisites(refs, page), first.0);
    forall row ensures row in roots <==> row in {first, last} {
      RootVariantIsClosure(refs, page, first.0, row.1);
      assert row.0 == first.0 ==> row == (first.0, row.1);
      if row == first {
        assert Chain(refs, first.0, [first]) && [first][0].1 == row.1;
      }
      if row == last {
        var path := [first, second];
        assert path[1..] == [second] && Chain(refs, second.0, path[1..]);
        assert Chain(refs, first.0, path) && path[|path| - 1].1 == row.1;
      }
      if row in roots {
        var path: seq<Row> :| path != [] && Chain(refs, first.0, path) && path[|path| - 1].1 == row.1;
        ChainsOfThree(refs, path, first, second);
      }
    }
  }

  lemma ChainsOfThree(refs: set<Row>, path: seq<Row>, first: Row, second: Row)
    requires refs == {first, second} && path != [] && Chain(refs, first.0, path)
    requires DigestOf(first.1) == Some(second.0)
    requires second.0 != first.0 && DigestOf(second.1).Some? && DigestOf(second.1).value !in {first.0, second.0}
    ensures path[|path| - 1] in {first, second}
  {
    ChainInit(refs, first.0, path);
  }

  /** A cycle alone does no harm: when two objects refer to each other, the rows lead back, and the column is the
      transitive total all the same if the own size is known. If it is not, the column is 0, and the total is the
      size of the other object. */
  lemma CycleOfTwo(a: ObjectName, b: ObjectName, sizes: Sizes)
    requires a.Valid() && b.Valid() && a.digest != b.digest
    ensures var refs := {(a.digest, b.Base()), (b.digest, a.Base())};
      var column, total :=
        ClosureSize(sizes, Requisites(refs, {a.digest}), a.digest), TransitiveTotal(refs, sizes, a.digest);
      && !DirectlyClosed(refs, a.digest)
      && total == SizeOf(sizes, a.digest) + SizeOf(sizes, b.digest)
      && column == if KnownSize(sizes, a.digest) then total else 0
  {
    ParseBase(a);
    ParseBase(b);
    var there, back := (a.digest, b.Base()), (b.digest, a.Base());
    var refs := {there, back};
    assert DirectRows(refs, a.digest) == {there};
    CycleRows(refs, there, back);
    BelowIsDirectIffClosed(refs, a.digest);
    ClosureColumnsAreDirect(refs, {a.digest}, sizes, a.digest);
    assert RowsOf({there}, a.digest) == {there};
    TotalInsert(sizes, {}, there);
    assert {} + {there} == {there};
  }

  lemma CycleRows(refs: set<Row>, there: Row, back: Row)
    requires refs == {there, back} && there.0 != back.0
    requires DigestOf(there.1) == Some(back.0) && DigestOf(back.1) == Some(there.0)
    ensures !DirectlyClosed(refs, there.0) && DirectlyClosedBelow(refs, there.0)
  {
    assert LeadsOn(refs, there.0, there, back) && (there.0, back.1) !in DirectRows(refs, there.0);
  }

  /** What the rows stand for: a reference by its name refers to the object with the name's digest, and counts unless
      that is the referrer itself; text that is no object name refers to nothing. */
  lemma RowMeaning(d: string, o: ObjectName, text: string)
    requires o.Valid()
    ensures DigestOf(o.Base()) == Some(o.digest) && (NonSelf((d, o.Base())) <==> d != o.digest)
    ensures ParseObject(text).None? ==> DigestOf(text) == None && !NonSelf((d, text))
  {
    ParseBase(o);
  }
}
