/** Finding a store object by its digest (internal/nixstore/local.go): the binary-search form and the
    chunked form against one linear scan of the whole listing. */
module Lookup {
  import opened Sequences
  import opened StoreObjects

  /** The first entry, in listing order, that is a store object with the digest. */
  function FirstMatch(entries: seq<string>, digest: string): Option<ObjectName> {
    if entries == [] then None
    else
      var p := ParseObject(entries[0]);
      if p.Some? && p.value.digest == digest then p else FirstMatch(entries[1..], digest)
  }

  predicate Matches(entry: string, digest: string) {
    ParseObject(entry).Some? && ParseObject(entry).value.digest == digest
  }

  lemma {:induction false} NoMatchIn(entries: seq<string>, digest: string)
    requires forall i :: 0 <= i < |entries| ==> !Matches(entries[i], digest)
    ensures FirstMatch(entries, digest) == None
  {
    if entries == [] {
    } else {
      NoMatchIn(entries[1..], digest);
    }
  }

  lemma {:induction false} FirstMatchAppend(a: seq<string>, b: seq<string>, digest: string)
    ensures FirstMatch(a + b, digest) ==
      if FirstMatch(a, digest).Some? then FirstMatch(a, digest) else FirstMatch(b, digest)
  {
    if a == [] {
      assert a + b == b;
    } else {
      assert (a + b)[1..] == a[1..] + b;
      FirstMatchAppend(a[1..], b, digest);
    }
  }

  // ---- entries with a common prefix are neighbours in a sorted listing ----

  ghost predicate SortedNames(entries: seq<string>) {
    forall i, j :: 0 <= i < j < |entries| ==> LessEq(entries[i], entries[j])
  }

  lemma {:induction false} PrefixIsLessEq(p: string, s: string)
    requires p <= s
    ensures LessEq(p, s)
  {
    if p == "" {
    } else {
      PrefixIsLessEq(p[1..], s[1..]);
      if p[1..] == s[1..] {
        assert p == [p[0]] + p[1..] && s == [s[0]] + s[1..];
      }
    }
  }

  /** A name between the prefix and a name with the prefix has the prefix too. */
  lemma {:induction false} BetweenHasPrefix(p: string, a: string, b: string)
    requires LessEq(p, a) && LessEq(a, b) && p <= b
    ensures p <= a
    decreases |p|
  {
    if p == "" || a == b || a == p {
    } else {
      assert a != "" && b != "" && p[0] == b[0];
      assert a[0] == b[0];
      BetweenHasPrefix(p[1..], a[1..], b[1..]);
      assert p == [p[0]] + p[1..] && a == [a[0]] + a[1..];
    }
  }

  /** The names with a given prefix are exactly the interval from the lower bound on. */
  lemma PrefixInterval(entries: seq<string>, p: string, start: nat, end: nat)
    requires SortedNames(entries) && start <= end <= |entries|
    requires forall k :: 0 <= k < start ==> Less(entries[k], p)
    requires forall k :: start <= k < |entries| ==> LessEq(p, entries[k])
    requires forall k :: start <= k < end ==> p <= entries[k]
    requires end < |entries| ==> !(p <= entries[end])
    ensures forall k :: 0 <= k < |entries| ==> (p <= entries[k] <==> start <= k < end)
  {
    forall k | 0 <= k < |entries| && p <= entries[k] ensures start <= k < end {
      PrefixIsLessEq(p, entries[k]);
      LessTrichotomy(p, entries[k]);
      LessIrreflexive(p);
      if end <= k {
        if end < k {
          assert LessEq(entries[end], entries[k]);
        }
        BetweenHasPrefix(p, entries[end], entries[k]);
      }
    }
  }

  /** Everything outside the interval can be left out of the scan. */
  lemma ScanIntervalOnly(entries: seq<string>, digest: string, start: nat, end: nat)
    requires start <= end <= |entries|
    requires forall k :: 0 <= k < |entries| && digest <= entries[k] ==> start <= k < end
    ensures FirstMatch(entries[start..end], digest) == FirstMatch(entries, digest)
  {
    forall k | 0 <= k < |entries| && Matches(entries[k], digest) ensures digest <= entries[k] {
      assert entries[k] == ParseObject(entries[k]).value.Base();
    }
    var front, back := entries[..start], entries[end..];
    assert forall k :: 0 <= k < |back| ==> back[k] == entries[end + k];
    NoMatchIn(front, digest);
    NoMatchIn(back, digest);
    assert entries == front + (entries[start..end] + back);
    FirstMatchAppend(front, entries[start..end] + back, digest);
    FirstMatchAppend(entries[start..end], back, digest);
  }

  // ---- the code ----

  /** sort.Search for the first entry not below the digest. */
  method LowerBound(entries: seq<string>, digest: string) returns (start: nat)
    requires SortedNames(entries)
    ensures start <= |entries|
    ensures forall k :: 0 <= k < start ==> Less(entries[k], digest)
    ensures forall k :: start <= k < |entries| ==> LessEq(digest, entries[k])
  {
    start := 0;
    var hi := |entries|;
    while start < hi
      invariant 0 <= start <= hi <= |entries|
      invariant forall k :: 0 <= k < start ==> Less(entries[k], digest)
      invariant forall k :: hi <= k < |entries| ==> LessEq(digest, entries[k])
    {
      var h := (start + hi) / 2;
      if LessEq(digest, entries[h]) {
        forall k | h < k < |entries| ensures LessEq(digest, entries[k]) {
          assert LessEq(entries[h], entries[k]);
          LessEqTransitive(digest, entries[h], entries[k]);
        }
        hi := h;
      } else {
        LessTrichotomy(digest, entries[h]);
        forall k | 0 <= k < h ensures Less(entries[k], digest) {
          assert LessEq(entries[k], entries[h]);
          LessEqTransitive(entries[k], entries[h], digest);
          LessTrichotomy(entries[h], digest);
        }
        start := h + 1;
      }
    }
  }

  /** Narrowing a sorted listing first, or scanning all of it, gives the same answer. */
  method QueryPathFromHashPart(entries: seq<string>, sorted: bool, digest: string) returns (r: Option<ObjectName>)
    requires sorted ==> SortedNames(entries)
    ensures r == FirstMatch(entries, digest)
  {
    var candidates := entries;
    if sorted {
      var start := LowerBound(entries, digest);
      var end := start;
      while end < |entries| && digest <= entries[end]
        invariant start <= end <= |entries|
        invariant forall k :: start <= k < end ==> digest <= entries[k]
      {
        end := end + 1;
      }
      PrefixInterval(entries, digest, start, end);
      ScanIntervalOnly(entries, digest, start, end);
      candidates := entries[start..end];
    }
    var i := 0;
    while i < |candidates|
      invariant 0 <= i <= |candidates|
      invariant FirstMatch(candidates[i..], digest) == FirstMatch(candidates, digest)
    {
      assert candidates[i..][1..] == candidates[i + 1..];
      var p := ParseObject(candidates[i]);
      if p.Some? && p.value.digest == digest {
        return p;
      }
      i := i + 1;
    }
    return None;
  }

  /** Reading the directory piece by piece finds what one scan of the whole directory would find,
      wherever the pieces begin and end. */
  method QueryInChunks(chunks: seq<seq<string>>, digest: string) returns (r: Option<ObjectName>)
    ensures r == FirstMatch(Flatten(chunks), digest)
  {
    var i := 0;
    while i < |chunks|
      invariant 0 <= i <= |chunks|
      invariant FirstMatch(Flatten(chunks[i..]), digest) == FirstMatch(Flatten(chunks), digest)
    {
      assert chunks[i..][1..] == chunks[i + 1..];
      FirstMatchAppend(chunks[i], Flatten(chunks[i + 1..]), digest);
      r := QueryPathFromHashPart(chunks[i], false, digest);
      if r.Some? {
        return r;
      }
      i := i + 1;
    }
    return None;
  }

  /** With one object per digest, as a store has, the order of the listing does not matter either. */
  lemma {:induction false} MatchIsUnique(entries: seq<string>, digest: string, i: nat)
    requires i < |entries| && Matches(entries[i], digest)
    requires forall j :: 0 <= j < |entries| && Matches(entries[j], digest) ==> entries[j] == entries[i]
    ensures FirstMatch(entries, digest) == ParseObject(entries[i])
  {
    if Matches(entries[0], digest) {
    } else {
      MatchIsUnique(entries[1..], digest, i - 1);
    }
  }

  /** The result is the first entry that is a store object with the digest, and there is none only if no entry is. */
  lemma {:induction false} FirstMatchMeaning(entries: seq<string>, digest: string)
    ensures FirstMatch(entries, digest).None? <==> forall i :: 0 <= i < |entries| ==> !IsObject(entries[i], digest)
    ensures var found := FirstMatch(entries, digest);
      found.Some? ==>
        && found.value.Valid() && found.value.digest == digest
        && exists i :: 0 <= i < |entries| && entries[i] == found.value.Base()
                       && forall j :: 0 <= j < i ==> !IsObject(entries[j], digest)
  {
    if entries == [] {
    } else {
      IsObjectMeaning(entries[0], digest);
      if Matches(entries[0], digest) {
        assert entries[0] == FirstMatch(entries, digest).value.Base();
      } else {
        var rest := entries[1..];
        FirstMatchMeaning(rest, digest);
        assert forall i :: 0 < i < |entries| ==> entries[i] == rest[i - 1];
        if FirstMatch(rest, digest).Some? {
          var i :| 0 <= i < |rest| && rest[i] == FirstMatch(rest, digest).value.Base()
            && forall j :: 0 <= j < i ==> !IsObject(rest[j], digest);
          assert entries[i + 1] == rest[i];
        }
      }
    }
  }

  /** The entry is the name of an object with the digest. */
  ghost predicate IsObject(entry: string, digest: string) {
    exists o: ObjectName :: o.Valid() && o.digest == digest && o.Base() == entry
  }

  lemma IsObjectMeaning(entry: string, digest: string)
    ensures IsObject(entry, digest) <==> Matches(entry, digest)
  {
    if o: ObjectName :| o.Valid() && o.digest == digest && o.Base() == entry {
      ParseBase(o);
    }
  }
}
