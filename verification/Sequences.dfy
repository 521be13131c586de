/** Sequences of sequences: flattening, order-preserving merges, and the byte-wise order on strings.
    Throughout the project a `string` models a Go byte string: one `char` stands for one byte. */
module Sequences {

  datatype Option<+T> = None | Some(value: T) {
    function GetOr(default: T): T {
      match this
      case Some(v) => v
      case None => default
    }
  }

  lemma ConcatAssociative<T>(a: seq<T>, b: seq<T>, c: seq<T>)
    ensures a + (b + c) == (a + b) + c
    ensures a + [] == a
  {
  }

  function Flatten<T>(ss: seq<seq<T>>): seq<T> {
    if ss == [] then [] else ss[0] + Flatten(ss[1..])
  }

  lemma {:induction false} FlattenAppend<T>(a: seq<seq<T>>, b: seq<seq<T>>)
    ensures Flatten(a + b) == Flatten(a) + Flatten(b)
  {
    if a == [] {
      assert a + b == b;
    } else {
      var rest := a[1..];
      assert (a + b)[1..] == rest + b;
      FlattenAppend(rest, b);
      assert a[0] + (Flatten(rest) + Flatten(b)) == (a[0] + Flatten(rest)) + Flatten(b);
    }
  }

  lemma FlattenSnoc<T>(a: seq<seq<T>>, x: seq<T>)
    ensures Flatten(a + [x]) == Flatten(a) + x
  {
    FlattenAppend(a, [x]);
    assert Flatten([x]) == x + Flatten<T>([]);
  }

  /** `out` interleaves the queues: every queue is used up, and each keeps its own order. */
  ghost predicate IsMerge<T>(queues: seq<seq<T>>, out: seq<T>)
    decreases |out|
  {
    if out == [] then
      forall i :: 0 <= i < |queues| ==> queues[i] == []
    else
      exists i ::
        && 0 <= i < |queues|
        && queues[i] != []
        && queues[i][0] == out[0]
        && IsMerge(queues[i := queues[i][1..]], out[1..])
  }

  ghost function FlattenEach<T>(queues: seq<seq<seq<T>>>): (r: seq<seq<T>>)
    ensures |r| == |queues|
  {
    seq(|queues|, i requires 0 <= i < |queues| => Flatten(queues[i]))
  }

  /** Pushing a whole run of elements through queue `i` before a merge of the rest is still a merge. */
  lemma {:induction false} MergeFront<T>(queues: seq<seq<T>>, i: nat, run: seq<T>, out: seq<T>)
    requires i < |queues| && run <= queues[i]
    requires IsMerge(queues[i := queues[i][|run|..]], out)
    ensures IsMerge(queues, run + out)
    decreases |run|
  {
    if run == [] {
      assert queues[i := queues[i][0..]] == queues;
      assert run + out == out;
    } else {
      var next := queues[i := queues[i][1..]];
      assert next[i := next[i][|run| - 1..]] == queues[i := queues[i][|run|..]];
      MergeFront(next, i, run[1..], out);
      assert (run + out)[1..] == run[1..] + out;
    }
  }

  /** An interleaving of blocks is an interleaving of their contents. */
  lemma {:induction false} MergeFlatten<T>(queues: seq<seq<seq<T>>>, out: seq<seq<T>>)
    requires IsMerge(queues, out)
    ensures IsMerge(FlattenEach(queues), Flatten(out))
    decreases |out|
  {
    var flat := FlattenEach(queues);
    if out == [] {
      assert forall i :: 0 <= i < |queues| ==> flat[i] == [];
    } else {
      var i :| 0 <= i < |queues| && queues[i] != [] && queues[i][0] == out[0]
               && IsMerge(queues[i := queues[i][1..]], out[1..]);
      var rest := queues[i := queues[i][1..]];
      MergeFlatten(rest, out[1..]);
      assert flat[i] == out[0] + Flatten(queues[i][1..]);
      assert flat[i][|out[0]|..] == Flatten(queues[i][1..]);
      assert FlattenEach(rest) == flat[i := flat[i][|out[0]|..]];
      MergeFront(flat, i, out[0], Flatten(out[1..]));
    }
  }

  // ---- byte-wise order ----

  predicate Less(a: string, b: string) {
    if b == "" then false
    else if a == "" then true
    else a[0] < b[0] || (a[0] == b[0] && Less(a[1..], b[1..]))
  }

  predicate LessEq(a: string, b: string) { a == b || Less(a, b) }

  lemma {:induction false} LessTrichotomy(a: string, b: string)
    ensures Less(a, b) || a == b || Less(b, a)
    ensures !(Less(a, b) && Less(b, a))
    decreases |a|
  {
    if a == "" {
    } else {
      if b != "" {
        LessTrichotomy(a[1..], b[1..]);
        if a[0] == b[0] && a[1..] == b[1..] {
          assert a == [a[0]] + a[1..] == b;
        }
      }
    }
  }

  lemma {:induction false} LessIrreflexive(a: string)
    ensures !Less(a, a)
  {
    LessTrichotomy(a, a);
  }

  lemma {:induction false} LessTransitive(a: string, b: string, c: string)
    requires Less(a, b) && Less(b, c)
    ensures Less(a, c)
    decreases |a|
  {
    if a == "" || a[0] < b[0] || b[0] < c[0] {
    } else {
      LessTransitive(a[1..], b[1..], c[1..]);
    }
  }

  lemma LessEqTransitive(a: string, b: string, c: string)
    requires LessEq(a, b) && LessEq(b, c)
    ensures LessEq(a, c)
    ensures Less(a, b) || Less(b, c) ==> Less(a, c)
  {
    if Less(a, b) && Less(b, c) {
      LessTransitive(a, b, c);
    }
  }

  /** The byte-wise order: the first difference decides, and a proper prefix comes first. */
  lemma {:induction false} LessMeaning(a: string, b: string)
    ensures Less(a, b) <==> exists i :: 0 <= i <= |a| && FirstDifference(a, b, i)
    decreases |a|
  {
    if a == "" || b == "" || a[0] != b[0] {
      if Less(a, b) {
        assert FirstDifference(a, b, 0);
      }
    } else {
      LessMeaning(a[1..], b[1..]);
      if Less(a, b) {
        var i :| 0 <= i <= |a[1..]| && FirstDifference(a[1..], b[1..], i);
        assert a[..i + 1] == [a[0]] + a[1..][..i] && b[..i + 1] == [b[0]] + b[1..][..i];
        assert FirstDifference(a, b, i + 1);
      }
      if i :| 0 <= i <= |a| && FirstDifference(a, b, i) {
        assert i > 0;
        assert a[1..][..i - 1] == a[..i][1..] && b[1..][..i - 1] == b[..i][1..];
        assert FirstDifference(a[1..], b[1..], i - 1);
      }
    }
  }

  ghost predicate FirstDifference(a: string, b: string, i: nat) {
    i <= |a| && i < |b| && a[..i] == b[..i] && (i == |a| || a[i] < b[i])
  }
}
