/** The queue pipe end to end: many `send` processes, one `upload` process. */
module PipeDelivery {
  import opened Sequences
  import opened Send
  import opened Scanner

  // ---- lines through the tokenizer ----

  function DropCREach(lines: seq<string>): (r: seq<string>)
    ensures |r| == |lines|
    ensures forall i :: 0 <= i < |r| ==> r[i] == DropCR(lines[i])
  {
    seq(|lines|, i requires 0 <= i < |lines| => DropCR(lines[i]))
  }

  /** The elements before the first marker. */
  function UpToMarker(lines: seq<string>): seq<string> {
    if lines == [] || lines[0] == INLINE_EOF_LINE then [] else [lines[0]] + UpToMarker(lines[1..])
  }

  /** What the receiver is meant to see of the lines that went into the pipe. */
  function Cut(inlineEOF: bool, lines: seq<string>): seq<string> {
    if inlineEOF then UpToMarker(lines) else lines
  }

  /** What the tokenizer makes of an unterminated rest behind some lines: a token of its own, unless the marker has
      ended the stream before. */
  function LastToken(inlineEOF: bool, lines: seq<string>, rest: string): seq<string> {
    if rest == "" || (inlineEOF && INLINE_EOF_LINE in DropCREach(lines)) then [] else [DropCR(rest)]
  }

  lemma FirstLine(p: string, more: seq<string>, rest: string)
    requires '\n' !in p
    ensures var s := Encode([p] + more) + rest;
      |p| < |s| && LineEnd(s) == |p| && s[..|p|] == p && s[|p| + 1..] == Encode(more) + rest
  {
    var s := Encode([p] + more) + rest;
    assert ([p] + more)[1..] == more;
    assert s == p + "\n" + (Encode(more) + rest);
    assert s[..|p|] == p;
    LineEndUnique(s, |p|);
  }

  lemma FirstToken(inlineEOF: bool, p: string, more: seq<string>, rest: string)
    requires '\n' !in p
    ensures Tokens(inlineEOF, Encode([p] + more) + rest) ==
      if inlineEOF && DropCR(p) == INLINE_EOF_LINE then [] else [DropCR(p)] + Tokens(inlineEOF, Encode(more) + rest)
  {
    FirstLine(p, more, rest);
  }

  lemma CutFirst(inlineEOF: bool, p: string, more: seq<string>, rest: string)
    ensures var lines := [p] + more;
      Cut(inlineEOF, DropCREach(lines)) + LastToken(inlineEOF, lines, rest) ==
      if inlineEOF && DropCR(p) == INLINE_EOF_LINE then []
      else [DropCR(p)] + (Cut(inlineEOF, DropCREach(more)) + LastToken(inlineEOF, more, rest))
  {
    assert DropCREach([p] + more) == [DropCR(p)] + DropCREach(more);
    assert ([DropCR(p)] + DropCREach(more))[1..] == DropCREach(more);
    ConcatAssociative([DropCR(p)], Cut(inlineEOF, DropCREach(more)), LastToken(inlineEOF, more, rest));
  }

  /** Whole lines, and possibly the beginning of another. */
  lemma {:induction false} TokensOfPart(inlineEOF: bool, lines: seq<string>, rest: string)
    requires '\n' !in rest && forall p :: p in lines ==> '\n' !in p
    ensures Tokens(inlineEOF, Encode(lines) + rest) ==
      Cut(inlineEOF, DropCREach(lines)) + LastToken(inlineEOF, lines, rest)
  {
    if lines == [] {
      assert Encode(lines) + rest == rest;
      LineEndUnique(rest, |rest|);
    } else {
      var p, more := lines[0], lines[1..];
      assert lines == [p] + more;
      FirstToken(inlineEOF, p, more, rest);
      TokensOfPart(inlineEOF, more, rest);
      CutFirst(inlineEOF, p, more, rest);
    }
  }

  lemma TokensOfLines(inlineEOF: bool, lines: seq<string>)
    requires forall p :: p in lines ==> '\n' !in p
    ensures Tokens(inlineEOF, Encode(lines)) == Cut(inlineEOF, DropCREach(lines))
  {
    TokensOfPart(inlineEOF, lines, "");
    assert Encode(lines) + "" == Encode(lines);
  }

  /** What has arrived of some lines is whole lines and possibly the beginning of the next. */
  lemma {:induction false} PartOfLines(lines: seq<string>, part: string) returns (n: nat, rest: string)
    requires part <= Encode(lines)
    ensures n <= |lines| && part == Encode(lines[..n]) + rest
    ensures if n == |lines| then rest == "" else rest <= lines[n]
    ensures part == Encode(lines) ==> n == |lines|
  {
    if lines == [] {
      n, rest := 0, "";
    } else {
      var p, s := lines[0], Encode(lines);
      assert s == p + "\n" + Encode(lines[1..]);
      if |part| <= |p| {
        n, rest := 0, part;
        assert part == s[..|part|] == p[..|part|];
        assert Encode(lines[..0]) + rest == rest;
      } else {
        assert part[..|p| + 1] == s[..|p| + 1] == p + "\n";
        var m;
        m, rest := PartOfLines(lines[1..], part[|p| + 1..]);
        n := m + 1;
        assert lines[..n] == [p] + lines[1..][..m];
        PutBack(p, lines[1..][..m], rest, part);
      }
    }
  }

  lemma PutBack(p: string, lines: seq<string>, rest: string, part: string)
    requires |part| > |p| && part[..|p| + 1] == p + "\n" && part[|p| + 1..] == Encode(lines) + rest
    ensures part == Encode([p] + lines) + rest
  {
    assert ([p] + lines)[1..] == lines;
    assert part == part[..|p| + 1] + part[|p| + 1..];
    ConcatAssociative(p + "\n", Encode(lines), rest);
  }

  /** Exactly the lines without a trailing carriage return survive unchanged. */
  lemma RoundTripUnlessCR(lines: seq<string>)
    requires forall p :: p in lines ==> '\n' !in p
    ensures Tokens(false, Encode(lines)) == lines
            <==> forall i :: 0 <= i < |lines| ==> !EndsInCR(lines[i])
  {
    TokensOfLines(false, lines);
    if i :| 0 <= i < |lines| && EndsInCR(lines[i]) {
      assert |DropCREach(lines)[i]| < |lines[i]|;
    }
  }

  lemma MarkerIsNotMadeByCR(p: string)
    requires p == INLINE_EOF_LINE || '\0' !in p
    ensures DropCR(p) == INLINE_EOF_LINE <==> p == INLINE_EOF_LINE
  {
    if DropCR(p) == INLINE_EOF_LINE {
      assert p[0] == INLINE_EOF_LINE[0];
    }
  }

  /** Without NUL bytes in the paths, carriage returns and the marker do not interfere:
      the receiver stops exactly at the first `--finish` marker. */
  lemma {:induction false} CutBeforeOrAfterCR(inlineEOF: bool, lines: seq<string>)
    requires forall p :: p in lines ==> p == INLINE_EOF_LINE || '\0' !in p
    ensures Cut(inlineEOF, DropCREach(lines)) == DropCREach(Cut(inlineEOF, lines))
  {
    if !inlineEOF || lines == [] {
    } else {
      assert DropCREach(lines)[1..] == DropCREach(lines[1..]);
      CutBeforeOrAfterCR(inlineEOF, lines[1..]);
      MarkerIsNotMadeByCR(lines[0]);
    }
  }

  lemma {:induction false} SentLinesAreShort(lines: seq<string>, rest: string)
    requires (forall p :: p in lines ==> Sendable(p)) && (rest == "" || Sendable(rest))
    ensures LinesAtMost(Encode(lines) + rest, PIPE_BUF)
  {
    if lines == [] {
      assert Encode(lines) + rest == rest;
      LineEndUnique(rest, |rest|);
    } else {
      assert lines == [lines[0]] + lines[1..] && Sendable(lines[0]);
      FirstLine(lines[0], lines[1..], rest);
      SentLinesAreShort(lines[1..], rest);
    }
  }

  // ---- many senders ----

  /** A sender's arguments, and how many of its writes went through before it stopped. */
  datatype Sender = Sender(outPaths: seq<string>, writes: nat) {
    ghost predicate Valid() {
      && writes <= |Writes(outPaths)|
      && forall p :: p in outPaths ==> p == INLINE_EOF_LINE || '\0' !in p
    }
    function SentGroups(): seq<seq<string>>
      requires Valid()
    {
      Pack(Accepted(outPaths)).Groups()[..writes]
    }
    function SentWrites(): seq<string>
      requires Valid()
    {
      Writes(outPaths)[..writes]
    }
    /** The accepted paths that left this sender: all of them when it was not interrupted. */
    function SentLines(): seq<string>
      requires Valid()
    {
      Flatten(SentGroups())
    }
  }

  lemma SentLinesMeaning(s: Sender)
    requires s.Valid()
    ensures s.SentLines() <= Accepted(s.outPaths)
    ensures s.writes == |Writes(s.outPaths)| ==> s.SentLines() == Accepted(s.outPaths)
    ensures s.SentWrites() == EncodeEach(s.SentGroups())
    ensures forall p :: p in s.SentLines() ==> Sendable(p) && p in s.outPaths
  {
    AcceptedOrRejected(s.outPaths);
    PackIsPacking(Accepted(s.outPaths));
    var groups := Pack(Accepted(s.outPaths)).Groups();
    assert groups == groups[..s.writes] + groups[s.writes..];
    FlattenAppend(groups[..s.writes], groups[s.writes..]);
    var sent := s.SentLines();
    assert forall p :: p in sent ==> p in sent + Flatten(groups[s.writes..]);
  }

  /** An accepted command line is a sender, its marker, if any, is behind all paths, and running it leaves in the
      pipe what that sender sent, the write it gave up on counted in or not. */
  lemma CommandIsSender(finish: bool, args: seq<string>, credit: nat, written: seq<string>, torn: string, r: Outcome)
    returns (s: Sender)
    requires CommandArgs(finish, args).Ok? && Delivers(CommandArgs(finish, args).value, credit, written, torn, r)
    requires r == WriteFailed ==> torn == "" || torn == Writes(CommandArgs(finish, args).value)[|written|]
    ensures s.outPaths == CommandArgs(finish, args).value && s.Valid()
    ensures s.SentWrites() == if torn == "" then written else written + [torn]
    ensures UpToMarker(s.outPaths) == args && (INLINE_EOF_LINE in s.outPaths <==> finish)
    ensures r == Sent ==> s.SentLines() == s.outPaths
  {
    s := WhatWasSent(CommandArgs(finish, args).value, credit, written, torn, r);
    assert INLINE_EOF_LINE[0] in INLINE_EOF_LINE;
    MarkerBehind(args, finish);
  }

  lemma WhatWasSent(outPaths: seq<string>, credit: nat, written: seq<string>, torn: string, r: Outcome)
      returns (s: Sender)
    requires Delivers(outPaths, credit, written, torn, r)
    requires r == WriteFailed ==> torn == "" || torn == Writes(outPaths)[|written|]
    requires forall p :: p in outPaths ==> p == INLINE_EOF_LINE || '\0' !in p
    ensures s.outPaths == outPaths && s.Valid()
    ensures s.SentWrites() == if torn == "" then written else written + [torn]
    ensures r == Sent ==> s.SentLines() == s.outPaths
  {
    s := Sender(outPaths, if torn == "" then |written| else |written| + 1);
    if r == Sent {
      SentLinesMeaning(s);
      AcceptedAll(outPaths);
    }
  }

  lemma {:induction false} MarkerBehind(args: seq<string>, finish: bool)
    requires INLINE_EOF_LINE !in args
    ensures UpToMarker(args + if finish then [INLINE_EOF_LINE] else []) == args
  {
    var marker := if finish then [INLINE_EOF_LINE] else [];
    if args == [] {
      assert args + marker == marker;
    } else {
      assert (args + marker)[1..] == args[1..] + marker;
      MarkerBehind(args[1..], finish);
    }
  }

  lemma {:induction false} AcceptedAll(paths: seq<string>)
    requires RejectedCount(paths) == 0
    ensures Accepted(paths) == paths
  {
    if paths == [] {
    } else {
      AcceptedAll(paths[..|paths| - 1]);
    }
  }

  ghost function EncodeQueues(queues: seq<seq<seq<string>>>): (r: seq<seq<string>>)
    ensures |r| == |queues|
  {
    seq(|queues|, k requires 0 <= k < |queues| => EncodeEach(queues[k]))
  }

  /** An interleaving of encoded groups is the encoding of an interleaving of the groups. */
  lemma {:induction false} MergeOfEncodings(queues: seq<seq<seq<string>>>, written: seq<string>)
      returns (groups: seq<seq<string>>)
    requires IsMerge(EncodeQueues(queues), written)
    ensures IsMerge(queues, groups) && EncodeEach(groups) == written
    decreases |written|
  {
    var encoded := EncodeQueues(queues);
    if written == [] {
      groups := [];
      assert forall i :: 0 <= i < |queues| ==> |queues[i]| == |encoded[i]|;
    } else {
      var i :| 0 <= i < |encoded| && encoded[i] != [] && encoded[i][0] == written[0]
               && IsMerge(encoded[i := encoded[i][1..]], written[1..]);
      assert encoded[i] == EncodeEach(queues[i]);
      var rest := queues[i := queues[i][1..]];
      assert EncodeEach(rest[i]) == encoded[i][1..];
      assert EncodeQueues(rest) == encoded[i := encoded[i][1..]];
      var tail := MergeOfEncodings(rest, written[1..]);
      groups := [queues[i][0]] + tail;
      assert groups[1..] == tail;
      assert EncodeEach(groups) == [written[0]] + EncodeEach(tail);
    }
  }

  /** Elements of a merge come from the queues. */
  lemma {:induction false} MergeMembers<T>(queues: seq<seq<T>>, out: seq<T>, x: T)
    requires IsMerge(queues, out) && x in out
    ensures exists k :: 0 <= k < |queues| && x in queues[k]
    decreases |out|
  {
    var i :| 0 <= i < |queues| && queues[i] != [] && queues[i][0] == out[0]
             && IsMerge(queues[i := queues[i][1..]], out[1..]);
    if x != out[0] {
      var rest := queues[i := queues[i][1..]];
      MergeMembers(rest, out[1..], x);
      var k :| 0 <= k < |rest| && x in rest[k];
      assert x in queues[k];
    }
  }

  ghost function AllWrites(senders: seq<Sender>): seq<seq<string>>
    requires forall k :: 0 <= k < |senders| ==> senders[k].Valid()
  {
    seq(|senders|, k requires 0 <= k < |senders| => senders[k].SentWrites())
  }

  ghost function AllLines(senders: seq<Sender>): seq<seq<string>>
    requires forall k :: 0 <= k < |senders| ==> senders[k].Valid()
  {
    seq(|senders|, k requires 0 <= k < |senders| => senders[k].SentLines())
  }

  /** The pipe content is the encoding of an order-preserving merge of the senders' lines. */
  lemma StreamIsMerge(senders: seq<Sender>, written: seq<string>) returns (lines: seq<string>)
    requires forall k :: 0 <= k < |senders| ==> senders[k].Valid()
    requires IsMerge(AllWrites(senders), written)
    ensures IsMerge(AllLines(senders), lines)
    ensures Flatten(written) == Encode(lines)
    ensures forall p :: p in lines ==> Sendable(p) && (p == INLINE_EOF_LINE || '\0' !in p)
  {
    var queues := seq(|senders|, k requires 0 <= k < |senders| => senders[k].SentGroups());
    forall k | 0 <= k < |senders| ensures AllWrites(senders)[k] == EncodeQueues(queues)[k] {
      SentLinesMeaning(senders[k]);
    }
    assert AllWrites(senders) == EncodeQueues(queues);
    var groups := MergeOfEncodings(queues, written);
    MergeFlatten(queues, groups);
    assert FlattenEach(queues) == AllLines(senders);
    lines := Flatten(groups);
    EncodeFlatten(groups);
    forall p | p in lines ensures Sendable(p) && (p == INLINE_EOF_LINE || '\0' !in p) {
      MergeMembers(AllLines(senders), lines, p);
      var k :| 0 <= k < |senders| && p in AllLines(senders)[k];
      SentLinesMeaning(senders[k]);
    }
  }

  lemma TokensArrived(inlineEOF: bool, lines: seq<string>, n: nat, rest: string)
    requires forall p :: p in lines ==> Sendable(p) && (p == INLINE_EOF_LINE || '\0' !in p)
    requires n <= |lines| && (if n == |lines| then rest == "" else rest <= lines[n])
    ensures var stream, whole := Encode(lines[..n]) + rest, lines[..n];
      && LinesAtMost(stream, PIPE_BUF)
      && Tokens(inlineEOF, stream) == DropCREach(Cut(inlineEOF, whole)) + LastToken(inlineEOF, whole, rest)
  {
    var whole := lines[..n];
    assert forall p :: p in whole ==> p in lines;
    assert rest != "" ==> lines[n] in lines && Sendable(rest);
    SentLinesAreShort(whole, rest);
    TokensOfPart(inlineEOF, whole, rest);
    CutBeforeOrAfterCR(inlineEOF, whole);
  }

  lemma WithoutCR(inlineEOF: bool, lines: seq<string>, rest: string)
    requires rest == "" && forall i :: 0 <= i < |lines| ==> !EndsInCR(lines[i])
    ensures DropCREach(Cut(inlineEOF, lines)) + LastToken(inlineEOF, lines, rest) == Cut(inlineEOF, lines)
  {
    CutIsPrefix(inlineEOF, lines);
    assert DropCREach(Cut(inlineEOF, lines)) == Cut(inlineEOF, lines);
  }

  lemma {:induction false} CutIsPrefix(inlineEOF: bool, lines: seq<string>)
    ensures Cut(inlineEOF, lines) <= lines
  {
    if !inlineEOF || lines == [] {
    } else {
      CutIsPrefix(inlineEOF, lines[1..]);
    }
  }

  /** `n` whole lines have arrived, and `rest` of the next. */
  ghost predicate Arrived(stream: string, lines: seq<string>, n: nat, rest: string) {
    && n <= |lines| && (if n == |lines| then rest == "" else rest <= lines[n])
    && stream == Encode(lines[..n]) + rest
  }

  predicate EndsInCR(p: string) { p != "" && p[|p| - 1] == '\r' }

  lemma Arrival(senders: seq<Sender>, written: seq<string>, stream: string, inlineEOF: bool)
    returns (lines: seq<string>, n: nat, rest: string)
    requires forall k :: 0 <= k < |senders| ==> senders[k].Valid()
    requires IsMerge(AllWrites(senders), written) && stream <= Flatten(written)
    ensures IsMerge(AllLines(senders), lines) && Arrived(stream, lines, n, rest)
    ensures stream == Flatten(written) ==> n == |lines|
    ensures LinesAtMost(stream, PIPE_BUF)
    ensures Tokens(inlineEOF, stream) ==
      DropCREach(Cut(inlineEOF, lines[..n])) + LastToken(inlineEOF, lines[..n], rest)
  {
    lines := StreamIsMerge(senders, written);
    n, rest := PartOfLines(lines, stream);
    TokensArrived(inlineEOF, lines, n, rest);
  }

  /** End-to-end delivery. For any senders, any interleaving `written` of their atomic writes and any chunking of
      the reads, `lines` is one order-preserving merge of what the senders sent, and its first `n` lines and the
      beginning `rest` of the next have arrived; everything has, unless reading failed. The scan loop yields the
      selected ones of the arrived lines, cut exactly at the first `--finish` marker when inline EOF is enabled,
      each without its trailing carriage return, and possibly one more, made of `rest`. The scan fails only if
      reading does: the token limit is never reached. */
  method DeliverPaths(ghost senders: seq<Sender>, ghost written: seq<string>, chunks: seq<string>, readFails: bool,
                      inlineEOF: bool, select: string -> Option<string>)
      returns (paths: seq<string>, failed: bool, ghost lines: seq<string>, ghost n: nat, ghost rest: string)
    requires forall k :: 0 <= k < |senders| ==> senders[k].Valid()
    requires IsMerge(AllWrites(senders), written) && Flatten(chunks) <= Flatten(written)
    requires !readFails ==> Flatten(chunks) == Flatten(written)
    requires select("") == None
    ensures failed ==> readFails
    ensures IsMerge(AllLines(senders), lines) && Arrived(Flatten(chunks), lines, n, rest)
    ensures !readFails ==> n == |lines|
    ensures paths == Select(select, DropCREach(Cut(inlineEOF, lines[..n])) + LastToken(inlineEOF, lines[..n], rest))
    ensures rest == "" && (forall i :: 0 <= i < n ==> !EndsInCR(lines[i])) ==>
      paths == Select(select, Cut(inlineEOF, lines[..n]))
  {
    lines, n, rest := Arrival(senders, written, Flatten(chunks), inlineEOF);
    var tooLong;
    paths, tooLong, failed := ReceivePaths(inlineEOF, chunks, readFails, select, PIPE_BUF);
    if rest == "" && forall i :: 0 <= i < n ==> !EndsInCR(lines[i]) {
      WithoutCR(inlineEOF, lines[..n], rest);
    }
  }
}
