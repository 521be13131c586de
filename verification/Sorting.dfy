/** Stable insertion sort by a text key, as `order by` in a query presents rows. */
module Sorting {
  import opened Sequences
  import opened Orders

  function InsertBy<T>(key: T -> string, x: T, s: seq<T>): seq<T> {
    if s == [] || LessEq(key(x), key(s[0])) then [x] + s else [s[0]] + InsertBy(key, x, s[1..])
  }

  function SortBy<T>(key: T -> string, s: seq<T>): seq<T> {
    if s == [] then [] else InsertBy(key, s[0], SortBy(key, s[1..]))
  }

  function Keys<T>(key: T -> string, s: seq<T>): (r: seq<string>)
    ensures |r| == |s|
    ensures forall i :: 0 <= i < |r| ==> r[i] == key(s[i])
  {
    seq(|s|, i requires 0 <= i < |s| => key(s[i]))
  }

  ghost predicate SortedBy<T>(key: T -> string, s: seq<T>) {
    forall i, j :: 0 <= i < j < |s| ==> LessEq(key(s[i]), key(s[j]))
  }

  ghost predicate DistinctKeys<T>(key: T -> string, s: seq<T>) {
    forall i, j :: 0 <= i < j < |s| ==> key(s[i]) != key(s[j])
  }

  lemma {:induction false} InsertByMember<T>(key: T -> string, x: T, s: seq<T>, y: T)
    ensures y in InsertBy(key, x, s) <==> y == x || y in s
  {
    if s == [] {
    } else {
      InsertByMember(key, x, s[1..], y);
      assert y in s <==> y == s[0] || y in s[1..];
    }
  }

  lemma {:induction false} InsertByLength<T>(key: T -> string, x: T, s: seq<T>)
    ensures |InsertBy(key, x, s)| == |s| + 1
  {
    if s == [] {
    } else {
      InsertByLength(key, x, s[1..]);
    }
  }

  lemma {:induction false} SortByMember<T>(key: T -> string, s: seq<T>, y: T)
    ensures y in SortBy(key, s) <==> y in s
  {
    if s == [] {
    } else {
      SortByMember(key, s[1..], y);
      InsertByMember(key, s[0], SortBy(key, s[1..]), y);
      assert y in s <==> y == s[0] || y in s[1..];
    }
  }

  lemma {:induction false} InsertBySorts<T>(key: T -> string, x: T, s: seq<T>)
    requires SortedBy(key, s)
    ensures SortedBy(key, InsertBy(key, x, s))
  {
    if s == [] {
    } else if !LessEq(key(x), key(s[0])) {
      var rest := InsertBy(key, x, s[1..]);
      InsertBySorts(key, x, s[1..]);
      LessTrichotomy(key(x), key(s[0]));
      forall i | 0 <= i < |rest| ensures LessEq(key(s[0]), key(rest[i])) {
        InsertByMember(key, x, s[1..], rest[i]);
      }
    } else {
      forall j | 0 <= j < |s| ensures LessEq(key(x), key(s[j])) {
        if j > 0 { LessEqTransitive(key(x), key(s[0]), key(s[j])); }
      }
    }
  }

  lemma {:induction false} SortBySorts<T>(key: T -> string, s: seq<T>)
    ensures SortedBy(key, SortBy(key, s))
    ensures |SortBy(key, s)| == |s|
  {
    if s == [] {
    } else {
      SortBySorts(key, s[1..]);
      InsertBySorts(key, s[0], SortBy(key, s[1..]));
      InsertByLength(key, s[0], SortBy(key, s[1..]));
    }
  }

  lemma {:induction false} InsertByAdds<T>(key: T -> string, x: T, s: seq<T>)
    ensures multiset(InsertBy(key, x, s)) == multiset{x} + multiset(s)
  {
    if s == [] {
    } else {
      InsertByAdds(key, x, s[1..]);
      assert s == [s[0]] + s[1..];
    }
  }

  /** Sorting neither loses nor repeats anything. */
  lemma {:induction false} SortByPermutes<T>(key: T -> string, s: seq<T>)
    ensures multiset(SortBy(key, s)) == multiset(s)
  {
    if s == [] {
    } else {
      SortByPermutes(key, s[1..]);
      InsertByAdds(key, s[0], SortBy(key, s[1..]));
      assert s == [s[0]] + s[1..];
    }
  }

  lemma {:induction false} SortByIdempotent<T>(key: T -> string, s: seq<T>)
    requires SortedBy(key, s)
    ensures SortBy(key, s) == s
  {
    if s == [] {
    } else {
      SortByIdempotent(key, s[1..]);
      assert s == [s[0]] + s[1..];
      if |s| > 1 { assert LessEq(key(s[0]), key(s[1])); }
    }
  }

  lemma {:induction false} InsertKeepsDistinct<T>(key: T -> string, x: T, s: seq<T>)
    requires DistinctKeys(key, s) && forall i :: 0 <= i < |s| ==> key(s[i]) != key(x)
    ensures DistinctKeys(key, InsertBy(key, x, s))
  {
    if s == [] || LessEq(key(x), key(s[0])) {
    } else {
      InsertKeepsDistinct(key, x, s[1..]);
      var rest := InsertBy(key, x, s[1..]);
      forall i | 0 <= i < |rest| ensures key(rest[i]) != key(s[0]) {
        InsertByMember(key, x, s[1..], rest[i]);
      }
    }
  }

  lemma {:induction false} DistinctAfterSorting<T>(key: T -> string, s: seq<T>)
    requires DistinctKeys(key, s)
    ensures DistinctKeys(key, SortBy(key, s))
  {
    if s == [] {
    } else {
      var rest := SortBy(key, s[1..]);
      DistinctAfterSorting(key, s[1..]);
      forall i | 0 <= i < |rest| ensures key(rest[i]) != key(s[0]) {
        SortByMember(key, s[1..], rest[i]);
        var j :| 0 <= j < |s[1..]| && s[1..][j] == rest[i];
        assert s[j + 1] == rest[i];
      }
      InsertKeepsDistinct(key, s[0], rest);
    }
  }

  function KeySet<T>(key: T -> string, s: seq<T>): (r: set<string>)
    ensures forall k :: k in r <==> exists i :: 0 <= i < |s| && key(s[i]) == k
  {
    set i | 0 <= i < |s| :: key(s[i])
  }

  /** With distinct keys, sorting gives the increasing listing of the key set. */
  lemma SortByIsSorted<T>(key: T -> string, s: seq<T>)
    requires DistinctKeys(key, s)
    ensures StrictTotalOrder(Less)
    ensures Keys(key, SortBy(key, s)) == Sorted(Less, KeySet(key, s))
  {
    ByteOrderIsTotal();
    SortBySorts(key, s);
    DistinctAfterSorting(key, s);
    var sorted := SortBy(key, s);
    var keys := Keys(key, sorted);
    forall i, j | 0 <= i < j < |keys| ensures Less(keys[i], keys[j]) {
      assert LessEq(key(sorted[i]), key(sorted[j]));
    }
    forall k ensures k in keys <==> k in KeySet(key, s) {
      if k in keys {
        var i :| 0 <= i < |keys| && keys[i] == k;
        SortByMember(key, s, sorted[i]);
      }
      if k in KeySet(key, s) {
        var i :| 0 <= i < |s| && key(s[i]) == k;
        SortByMember(key, s, s[i]);
        var j :| 0 <= j < |sorted| && sorted[j] == s[i];
        assert keys[j] == k;
      }
    }
    SortedUnique(Less, keys, Sorted(Less, KeySet(key, s)));
  }
}
