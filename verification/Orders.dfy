/** The sorted listing of a finite set under a strict total order. */
module Orders {
  import opened Sequences

  ghost predicate StrictTotalOrder<T(!new)>(less: (T, T) -> bool) {
    && (forall x :: !less(x, x))
    && (forall x, y, z :: less(x, y) && less(y, z) ==> less(x, z))
    && (forall x, y :: less(x, y) || x == y || less(y, x))
  }

  lemma ByteOrderIsTotal()
    ensures StrictTotalOrder(Less)
  {
    forall x: string ensures !Less(x, x) { LessIrreflexive(x); }
    forall x: string, y: string, z: string | Less(x, y) && Less(y, z) ensures Less(x, z) { LessTransitive(x, y, z); }
    forall x: string, y: string ensures Less(x, y) || x == y || Less(y, x) { LessTrichotomy(x, y); }
  }

  ghost predicate Increasing<T(!new)>(less: (T, T) -> bool, s: seq<T>) {
    forall i, j :: 0 <= i < j < |s| ==> less(s[i], s[j])
  }

  ghost predicate IsLeast<T(!new)>(less: (T, T) -> bool, s: set<T>, m: T) {
    m in s && forall x :: x in s && x != m ==> less(m, x)
  }

  lemma {:induction false} LeastExists<T(!new)>(less: (T, T) -> bool, s: set<T>) returns (m: T)
    requires StrictTotalOrder(less) && s != {}
    ensures IsLeast(less, s, m)
    decreases s
  {
    var x :| x in s;
    if s == {x} {
      m := x;
    } else {
      var rest := s - {x};
      assert s == rest + {x};
      var m' := LeastExists(less, rest);
      m := if less(x, m') then x else m';
      forall y | y in s && y != m ensures less(m, y) {
        if y != x {
          assert y in rest;
          assert y == m' || less(m', y);
        }
      }
    }
  }

  ghost function Sorted<T(!new)>(less: (T, T) -> bool, s: set<T>): (r: seq<T>)
    requires StrictTotalOrder(less)
    ensures Increasing(less, r)
    ensures forall x :: x in r <==> x in s
    ensures |r| == |s|
    decreases s
  {
    if s == {} then []
    else
      assert exists m :: IsLeast(less, s, m) by { var m := LeastExists(less, s); }
      var m :| IsLeast(less, s, m);
      var rest := Sorted(less, s - {m});
      assert forall i :: 0 <= i < |rest| ==> rest[i] in s - {m};
      [m] + rest
  }

  /** An increasing listing of a set is its sorted listing. */
  lemma {:induction false} SortedUnique<T(!new)>(less: (T, T) -> bool, a: seq<T>, b: seq<T>)
    requires StrictTotalOrder(less) && Increasing(less, a) && Increasing(less, b)
    requires forall x :: x in a <==> x in b
    ensures a == b
    decreases |a|
  {
    assert b != [] ==> b[0] in b;
    if a == [] {
    } else {
      assert a[0] in a && a[0] in b && b[0] in b && b[0] in a;
      var a', b' := a[1..], b[1..];
      assert a[0] == b[0];
      forall x ensures x in a' <==> x in b' {
        assert x in a <==> x == a[0] || x in a';
        assert x in b <==> x == b[0] || x in b';
        if x in a' { var i :| 0 <= i < |a'| && a'[i] == x; assert less(a[0], a[i + 1]); }
        if x in b' { var i :| 0 <= i < |b'| && b'[i] == x; assert less(b[0], b[i + 1]); }
      }
      SortedUnique(less, a', b');
    }
  }

  lemma IncreasingAppend<T(!new)>(less: (T, T) -> bool, a: seq<T>, b: seq<T>)
    requires StrictTotalOrder(less) && Increasing(less, a) && Increasing(less, b)
    requires a != [] && b != [] ==> less(a[|a| - 1], b[0])
    ensures Increasing(less, a + b)
  {
    forall i, j | 0 <= i < j < |a + b| ensures less((a + b)[i], (a + b)[j]) {
      if i < |a| <= j {
        var last, first := a[|a| - 1], b[0];
        assert a[i] == last || less(a[i], last);
        assert b[j - |a|] == first || less(first, b[j - |a|]);
      }
    }
  }
}
