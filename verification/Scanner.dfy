/** The receiving half of `upload` (upload.go): re-tokenising the byte stream while it arrives in pieces,
    with an in-band end marker, on top of the buffered line scanner of Go 1.21. */
module Scanner {
  import opened Sequences

  const MAX_TOKEN_SIZE := 65536
  const INLINE_EOF_LINE := "\0"

  // ---- reference: what the whole stream means ----

  /** Length of the first line, without its line feed. */
  function LineEnd(s: string): (n: nat)
    ensures n <= |s| && '\n' !in s[..n]
    ensures n < |s| ==> s[n] == '\n'
  {
    if s == "" || s[0] == '\n' then 0 else 1 + LineEnd(s[1..])
  }

  function DropCR(line: string): string {
    if line != "" && line[|line| - 1] == '\r' then line[..|line| - 1] else line
  }

  /** The lines of the whole stream, up to the first line-feed-terminated marker line when `inlineEOF`. */
  function Tokens(inlineEOF: bool, s: string): seq<string> {
    if s == "" then []
    else
      var n := LineEnd(s);
      if n == |s| then [DropCR(s)]
      else if inlineEOF && DropCR(s[..n]) == INLINE_EOF_LINE then []
      else [DropCR(s[..n])] + Tokens(inlineEOF, s[n + 1..])
  }

  /** How many bytes are left from the first line-feed-terminated marker line on. */
  function MarkerTail(s: string): (tail: Option<nat>)
    ensures tail.Some? ==> 0 < tail.value <= |s|
  {
    var n := LineEnd(s);
    if n == |s| then None
    else if DropCR(s[..n]) == INLINE_EOF_LINE then Some(|s|)
    else MarkerTail(s[n + 1..])
  }

  /** The first line of a stream is a token of its own, without its line end, be that a line feed or a carriage
      return and a line feed; only the marker is not. */
  lemma FirstLineMeaning(p: string, more: string)
    requires '\n' !in p
    ensures Tokens(false, p + "\r\n" + more) == [p] + Tokens(false, more)
    ensures p == "" || p[|p| - 1] != '\r' ==> Tokens(false, p + "\n" + more) == [p] + Tokens(false, more)
    ensures p != "\0" ==> Tokens(true, p + "\r\n" + more) == [p] + Tokens(true, more)
    ensures p == "\0" ==> Tokens(true, p + "\r\n" + more) == Tokens(true, p + "\n" + more) == []
    ensures Tokens(false, p + "\r") == [p] && (p != "" && p[|p| - 1] != '\r' ==> Tokens(false, p) == [p])
  {
    EndOfLine(p + "\r", more);
    EndOfLine(p, more);
    assert p + "\r\n" + more == (p + "\r") + "\n" + more;
    LineEndUnique(p + "\r", |p| + 1);
    LineEndUnique(p, |p|);
  }

  lemma EndOfLine(p: string, more: string)
    requires '\n' !in p
    ensures var s := p + "\n" + more; LineEnd(s) == |p| && s[..|p|] == p && s[|p| + 1..] == more
  {
    var s := p + "\n" + more;
    assert s[..|p|] == p;
    LineEndUnique(s, |p|);
  }

  /** Every line of `s`, counted with its line feed, has at most `limit` bytes. */
  ghost predicate LinesAtMost(s: string, limit: nat) {
    var n := LineEnd(s);
    if n == |s| then n <= limit else n + 1 <= limit && LinesAtMost(s[n + 1..], limit)
  }

  /** The bound exists for every stream. */
  lemma {:induction false} LinesFit(s: string, limit: nat)
    requires |s| <= limit
    ensures LinesAtMost(s, limit)
    decreases |s|
  {
    var n := LineEnd(s);
    if n == |s| {
    } else {
      LinesFit(s[n + 1..], limit);
    }
  }

  lemma {:induction false} LineEndUnique(s: string, n: nat)
    requires n <= |s| && '\n' !in s[..n]
    requires n < |s| ==> s[n] == '\n'
    ensures LineEnd(s) == n
  {
    var m := LineEnd(s);
    assert forall i :: 0 <= i < n ==> s[..n][i] == s[i] != '\n';
    assert forall i :: 0 <= i < m ==> s[..m][i] == s[i] != '\n';
  }

  lemma LineEndStable(data: string, more: string)
    ensures LineEnd(data) < |data| ==> LineEnd(data + more) == LineEnd(data)
    ensures LineEnd(data) <= LineEnd(data + more)
  {
    var n, rem := LineEnd(data), data + more;
    if n < |data| {
      assert rem[..n] == data[..n];
      LineEndUnique(rem, n);
    } else {
      assert forall i :: 0 <= i < n ==> rem[i] == data[..n][i] != '\n';
    }
  }

  // ---- the split functions ----

  datatype Split = Split(advance: nat, token: Option<string>, final: bool)

  /** bufio.ScanLines */
  function ScanLines(data: string, atEOF: bool): (s: Split)
    ensures s.advance <= |data| && !s.final
  {
    var n := LineEnd(data);
    if atEOF && data == "" then Split(0, None, false)
    else if n < |data| then Split(n + 1, Some(DropCR(data[..n])), false)
    else if atEOF then Split(|data|, Some(DropCR(data)), false)
    else Split(0, None, false)
  }

  /** Positive: a whole marker line is in front. Negative: it may still become one. Zero: it is not one. */
  function MatchInlineEOF(data: string): int {
    var n := if |data| < |INLINE_EOF_LINE| then |data| else |INLINE_EOF_LINE|;
    if data[..n] != INLINE_EOF_LINE then 0
    else if n == |data| then -1
    else if data[n] == '\n' then n + 1
    else if data[n] == '\r' then
      if n + 1 >= |data| then -1
      else if data[n + 1] == '\n' then n + 2
      else 0
    else 0
  }

  function ScanLinesWithEOF(data: string, atEOF: bool): Split {
    var m := MatchInlineEOF(data);
    if m > 0 then Split(0, None, true)
    else if m < 0 && !atEOF then Split(0, None, false)
    else
      var s := ScanLines(data, atEOF);
      var m' := MatchInlineEOF(data[s.advance..]);
      if m' > 0 then Split(s.advance, s.token, true)
      else if m' < 0 && !atEOF then Split(0, None, false)
      else s
  }

  function SplitWith(inlineEOF: bool, data: string, atEOF: bool): Split {
    if inlineEOF then ScanLinesWithEOF(data, atEOF) else ScanLines(data, atEOF)
  }

  /** The marker test looks at two bytes of lookahead and agrees with the meaning of the first line. */
  lemma MatchMeaning(s: string)
    ensures MatchInlineEOF(s) > 0 <==> LineEnd(s) < |s| && DropCR(s[..LineEnd(s)]) == INLINE_EOF_LINE
    ensures MatchInlineEOF(s) < 0 <==> s == "\0" || s == "\0\r"
  {
    var n := LineEnd(s);
    if MatchInlineEOF(s) > 0 {
      LineEndUnique(s, if s[1] == '\n' then 1 else 2);
    }
    if n < |s| && DropCR(s[..n]) == INLINE_EOF_LINE {
      assert n == 1 || n == 2;
      assert s[..n][0] == '\0';
      assert n == 2 ==> s[..n][1] == '\r';
    }
    if MatchInlineEOF(s) < 0 {
      assert s == "\0" || s == "\0\r";
    }
  }

  /** A marker in front of the buffer is a marker in front of the stream. */
  lemma MarkerEndsStream(data: string, more: string)
    requires MatchInlineEOF(data) > 0
    ensures Tokens(true, data + more) == []
  {
    MatchMeaning(data);
    LineEndStable(data, more);
    var n := LineEnd(data);
    assert (data + more)[..n] == data[..n];
  }

  lemma FirstLineOfStream(inlineEOF: bool, data: string, more: string)
    requires LineEnd(data) < |data|
    requires inlineEOF ==> MatchInlineEOF(data) <= 0
    ensures Tokens(inlineEOF, data + more) ==
              [DropCR(data[..LineEnd(data)])] + Tokens(inlineEOF, data[LineEnd(data) + 1..] + more)
  {
    MatchMeaning(data);
    LineEndStable(data, more);
    CutAppended(data, more, LineEnd(data));
  }

  lemma CutAppended(data: string, more: string, n: nat)
    requires n < |data|
    ensures (data + more)[..n] == data[..n] && (data + more)[n + 1..] == data[n + 1..] + more && data + more != ""
  {
  }

  /** What one call of the split function says about the rest of the stream. */
  ghost predicate Truthful(s: Split, inlineEOF: bool, data: string, more: string, atEOF: bool) {
    var now := Tokens(inlineEOF, data + more);
    && s.advance <= |data|
    && match (s.final, s.token)
       case (true, Some(t)) => inlineEOF && now == [t]
       case (true, None) => inlineEOF && now == []
       case (false, Some(t)) =>
         && s.advance > 0
         && now == [t] + Tokens(inlineEOF, data[s.advance..] + more)
         && (s.advance == LineEnd(data) + 1 || (s.advance == |data| && more == ""))
       case (false, None) => s.advance == 0 && (atEOF ==> now == [])
  }

  /** One call of the split function on a prefix of the stream tells the truth about the whole stream. */
  lemma SplitSound(inlineEOF: bool, data: string, more: string, atEOF: bool)
    requires atEOF ==> more == ""
    ensures Truthful(SplitWith(inlineEOF, data, atEOF), inlineEOF, data, more, atEOF)
  {
    if inlineEOF && MatchInlineEOF(data) > 0 {
      MarkerEndsStream(data, more);
    } else if LineEnd(data) < |data| {
      MatchMeaning(data);
      FirstLineOfStream(inlineEOF, data, more);
      if inlineEOF {
        SoundBehindLine(data, data[LineEnd(data) + 1..], more, atEOF);
      }
    } else if atEOF {
      assert data + more == data;
      assert data[|data|..] + more == "";
    }
  }

  lemma SoundBehindLine(data: string, rest: string, more: string, atEOF: bool)
    requires LineEnd(data) < |data| && MatchInlineEOF(data) == 0 && rest == data[LineEnd(data) + 1..]
    requires Tokens(true, data + more) == [DropCR(data[..LineEnd(data)])] + Tokens(true, rest + more)
    ensures Truthful(ScanLinesWithEOF(data, atEOF), true, data, more, atEOF)
  {
    SplitBehindLine(data, atEOF);
    if MatchInlineEOF(rest) > 0 {
      MarkerEndsStream(rest, more);
    }
  }

  lemma SplitBehindLine(data: string, atEOF: bool)
    requires LineEnd(data) < |data| && MatchInlineEOF(data) == 0
    ensures var n := LineEnd(data);
      var m, token := MatchInlineEOF(data[n + 1..]), Some(DropCR(data[..n]));
      ScanLinesWithEOF(data, atEOF) == if m < 0 && !atEOF then Split(0, None, false) else Split(n + 1, token, m > 0)
  {
  }

  /** What the splitter can be holding when it asks for more input. */
  lemma HeldWhileWaiting(inlineEOF: bool, data: string, more: string, limit: nat)
    requires LinesAtMost(data + more, limit)
    requires SplitWith(inlineEOF, data, false) == Split(0, None, false)
    ensures |data| <= limit + 2
  {
    LineEndStable(data, more);
    MatchMeaning(data);
    var n := LineEnd(data);
    if n < |data| {
      MatchMeaning(data[n + 1..]);
    }
  }

  lemma LinesAtMostTail(data: string, more: string, advance: nat, limit: nat)
    requires LinesAtMost(data + more, limit) && advance <= |data|
    requires advance == LineEnd(data) + 1 || (advance == |data| && more == "")
    ensures LinesAtMost(data[advance..] + more, limit)
  {
    if advance == LineEnd(data) + 1 {
      LineEndStable(data, more);
      assert (data + more)[advance..] == data[advance..] + more;
    } else {
      assert data[advance..] + more == "";
    }
  }

  // ---- where the end marker is ----

  /** What one call of the split function says about the first marker line of the stream. `tail` is what is
      left from the marker on, and `after` the same of the stream without the bytes taken; `unread` is what has
      not been read yet. */
  predicate Located(s: Split, data: string, unread: nat, atEOF: bool, tail: Option<nat>, after: Option<nat>)
    requires s.advance <= |data|
  {
    match (s.final, s.token)
    case (true, None) => tail == Some(|data| + unread) && data != ""
    case (true, Some(_)) =>
      && 0 < s.advance < |data| && data[s.advance - 1] == '\n'
      && tail == Some(|data| + unread - s.advance)
    case (false, Some(_)) => tail == after && (tail == Some(|data| + unread - s.advance) ==> s.advance == |data|)
    case (false, None) => if atEOF then tail == None else data == "" || data[|data| - 1] != '\n'
  }

  ghost predicate LocatesMarker(s: Split, data: string, more: string, atEOF: bool) {
    s.advance <= |data|
    && Located(s, data, |more|, atEOF, MarkerTail(data + more), MarkerTail(data[s.advance..] + more))
  }

  lemma MarkerInFront(data: string, more: string)
    requires MatchInlineEOF(data) > 0
    ensures MarkerTail(data + more) == Some(|data + more|) && data != ""
  {
    MatchMeaning(data);
    LineEndStable(data, more);
    var n := LineEnd(data);
    assert (data + more)[..n] == data[..n];
  }

  lemma MarkerBehindLine(data: string, more: string)
    requires LineEnd(data) < |data| && MatchInlineEOF(data) <= 0
    ensures MarkerTail(data + more) == MarkerTail(data[LineEnd(data) + 1..] + more)
  {
    MatchMeaning(data);
    LineEndStable(data, more);
    CutAppended(data, more, LineEnd(data));
  }

  /** A marker in front of the rest shows in what has been read of it. */
  lemma MarkerNotInFront(data: string, more: string)
    requires MatchInlineEOF(data) == 0 && data != ""
    ensures MarkerTail(data + more) != Some(|data + more|)
  {
    MatchMeaning(data + more);
  }

  lemma WaitingMarker(data: string)
    requires MatchInlineEOF(data) < 0
    ensures data[|data| - 1] != '\n' && MarkerTail(data) == None
  {
    MatchMeaning(data);
    assert forall i :: 0 <= i < |data| ==> data[i] != '\n';
    LineEndUnique(data, |data|);
  }

  lemma SplitLocatesMarker(data: string, more: string, atEOF: bool)
    requires atEOF ==> more == ""
    ensures LocatesMarker(ScanLinesWithEOF(data, atEOF), data, more, atEOF)
  {
    var n := LineEnd(data);
    assert atEOF ==> data + more == data;
    if MatchInlineEOF(data) > 0 {
      MarkerInFront(data, more);
    } else if MatchInlineEOF(data) < 0 {
      WaitingMarker(data);
      assert data[|data|..] + more == more;
    } else if n < |data| {
      MarkerBehindLine(data, more);
      LocateBehindLine(data, data[n + 1..], more, atEOF);
    } else {
      assert data[|data|..] + more == more;
      if data != "" {
        assert data[..n][|data| - 1] != '\n';
      }
    }
  }

  /** What the marker test says about what comes behind a line. */
  lemma MarkerTest(rest: string, more: string, atEOF: bool)
    requires atEOF ==> more == ""
    ensures MatchInlineEOF(rest) > 0 ==> rest != "" && MarkerTail(rest + more) == Some(|rest + more|)
    ensures MatchInlineEOF(rest) < 0 ==>
      rest != "" && rest[|rest| - 1] != '\n' && (atEOF ==> MarkerTail(rest + more) == None)
    ensures MatchInlineEOF(rest) == 0 && rest != "" ==> MarkerTail(rest + more) != Some(|rest + more|)
  {
    if MatchInlineEOF(rest) > 0 {
      MarkerInFront(rest, more);
    } else if MatchInlineEOF(rest) < 0 {
      WaitingMarker(rest);
      assert atEOF ==> rest + more == rest;
    } else if rest != "" {
      MarkerNotInFront(rest, more);
    }
  }

  lemma LocateBehindLine(data: string, rest: string, more: string, atEOF: bool)
    requires (atEOF ==> more == "") && LineEnd(data) < |data| && MatchInlineEOF(data) == 0
    requires rest == data[LineEnd(data) + 1..]
    ensures var s, tail := ScanLinesWithEOF(data, atEOF), MarkerTail(rest + more);
      && s.advance <= |data| && (s.advance > 0 ==> s.advance == LineEnd(data) + 1)
      && Located(s, data, |more|, atEOF, tail, tail)
  {
    MarkerTest(rest, more, atEOF);
    SplitBehindLine(data, atEOF);
    var s, tail := ScanLinesWithEOF(data, atEOF), MarkerTail(rest + more);
    LocateCases(s, data, |more|, atEOF, tail, LineEnd(data), MatchInlineEOF(rest));
  }

  lemma LocateCases(s: Split, data: string, unread: nat, atEOF: bool, tail: Option<nat>, n: nat, m: int)
    requires n < |data| && data[n] == '\n'
    requires s.token.Some? || !s.final
    requires if m < 0 && !atEOF then s.token == None else s.token.Some? && s.advance == n + 1 && (s.final <==> m > 0)
    requires s.advance <= |data|
    requires m > 0 ==> n + 1 < |data| && tail == Some(|data| + unread - (n + 1))
    requires m < 0 ==> n + 1 < |data| && data[|data| - 1] != '\n' && (atEOF ==> tail == None)
    requires m == 0 && n + 1 < |data| ==> tail != Some(|data| + unread - (n + 1))
    ensures Located(s, data, unread, atEOF, tail, tail)
  {
  }

  // ---- read boundaries ----

  /** What is left of the stream at its start and after each of the first `n` chunks. */
  function Boundaries(chunks: seq<string>, n: nat): set<nat>
    requires n <= |chunks|
  {
    set i | 0 <= i <= n :: |Flatten(chunks[i..])|
  }

  lemma {:induction false} LaterIsShorter(chunks: seq<string>, i: nat, j: nat)
    requires i <= j <= |chunks|
    ensures |Flatten(chunks[j..])| <= |Flatten(chunks[i..])|
    decreases j - i
  {
    if i == j {
    } else {
      assert chunks[i..][1..] == chunks[i + 1..];
      LaterIsShorter(chunks, i + 1, j);
    }
  }

  /** Boundaries beyond what has been read lie behind everything that has been read. */
  lemma ReadBoundaries(chunks: seq<string>, n: nat, tail: nat)
    requires n <= |chunks| && tail > |Flatten(chunks[n..])|
    ensures tail in Boundaries(chunks, n) <==> tail in Boundaries(chunks, |chunks|)
  {
    if tail in Boundaries(chunks, |chunks|) {
      var i :| 0 <= i <= |chunks| && tail == |Flatten(chunks[i..])|;
      if i > n {
        LaterIsShorter(chunks, n, i);
      }
    }
  }

  /** Chunks are read whole, one after the other. */
  ghost predicate Tracked(source: seq<string>, nread: nat, chunks: seq<string>, cuts: set<nat>) {
    nread <= |source| && chunks == source[nread..] && cuts == Boundaries(source, nread)
  }

  lemma TrackRead(source: seq<string>, nread: nat, chunks: seq<string>, cuts: set<nat>)
    requires Tracked(source, nread, chunks, cuts) && chunks != []
    ensures Tracked(source, nread + 1, chunks[1..], cuts + {|Flatten(chunks[1..])|})
  {
    assert chunks[1..] == source[nread + 1..];
  }

  /** No chunk is too big for the room that is left in the buffer. */
  ghost predicate AllFit(chunks: seq<string>, limit: nat) {
    forall c :: c in chunks ==> |c| + limit + 2 <= MAX_TOKEN_SIZE
  }

  lemma TooBig(source: seq<string>, nread: nat, chunks: seq<string>, cuts: set<nat>, held: nat, limit: nat)
    requires AllFit(source, limit) ==> Tracked(source, nread, chunks, cuts)
    requires chunks != [] && |chunks[0]| + held > MAX_TOKEN_SIZE && held <= limit + 2
    ensures !AllFit(source, limit)
  {
  }

  /** Counted from the end of the stream, `c` is not just behind a line feed. */
  predicate NotBehindLine(rest: string, c: nat) { c < |rest| ==> rest[|rest| - c - 1] != '\n' }

  /** Of a stream of which `rest` is left to turn into tokens and `unread` bytes to read: a boundary inside the
      bytes held is not behind a line feed, because the splitter asked for more there; and a marker in front is
      at a boundary. */
  ghost predicate CutsFit(rest: string, unread: nat, cuts: set<nat>) {
    && (forall c :: c in cuts ==> c >= unread && (c > unread ==> NotBehindLine(rest, c)))
    && (MarkerTail(rest) == Some(|rest|) ==> |rest| in cuts)
  }

  lemma CutRead(rest: string, before: nat, after: nat, cuts: set<nat>)
    requires CutsFit(rest, before, cuts) && after <= before && NotBehindLine(rest, before)
    ensures CutsFit(rest, after, cuts + {after})
  {
  }

  lemma CutToken(rest: string, advance: nat, after: string, unread: nat, cuts: set<nat>)
    requires CutsFit(rest, unread, cuts) && unread in cuts && advance + unread <= |rest|
    requires after == rest[advance..] && (MarkerTail(after) == Some(|after|) ==> |after| == unread)
    ensures CutsFit(after, unread, cuts)
  {
    forall c | c in cuts && unread < c < |after| ensures NotBehindLine(after, c) {
      assert NotBehindLine(rest, c) && after[|after| - c - 1] == rest[|rest| - c - 1];
    }
  }

  lemma CutMarker(rest: string, advance: nat, unread: nat, cuts: set<nat>)
    requires CutsFit(rest, unread, cuts) && 0 < advance < |rest| - unread && rest[advance - 1] == '\n'
    ensures |rest| - advance !in cuts
  {
  }

  // ---- one call of the split function ----

  /** The last token: the line before the marker, or a blank one when the marker is at a boundary. */
  ghost predicate LastToken(inlineEOF: bool, rest: string, unread: nat, cuts: set<nat>, token: string) {
    var tail := MarkerTail(rest);
    && inlineEOF && tail.Some? && tail.value > unread
    && (if tail.value in cuts then Tokens(inlineEOF, rest) == [] && token == "" else Tokens(inlineEOF, rest) == [token])
  }

  ghost predicate NextToken(inlineEOF: bool, rest: string, after: string, token: string) {
    && Tokens(inlineEOF, rest) == [token] + Tokens(inlineEOF, after) && |after| < |rest|
    && (inlineEOF ==> MarkerTail(rest) == MarkerTail(after))
  }

  ghost predicate Nothing(inlineEOF: bool, rest: string) {
    Tokens(inlineEOF, rest) == [] && (inlineEOF ==> MarkerTail(rest) == None)
  }

  lemma SplitAdvances(inlineEOF: bool, data: string, more: string, atEOF: bool)
    ensures var s := SplitWith(inlineEOF, data, atEOF); s.advance <= |data| && (s.final ==> inlineEOF)
  {
  }

  lemma SplitLast(data: string, more: string, atEOF: bool, cuts: set<nat>)
    requires (atEOF ==> more == "") && CutsFit(data + more, |more|, cuts) && SplitWith(true, data, atEOF).final
    ensures var s := SplitWith(true, data, atEOF);
      LastToken(true, data + more, |more|, cuts, if s.token.Some? then s.token.value else "")
  {
    var s := SplitWith(true, data, atEOF);
    SplitSound(true, data, more, atEOF);
    SplitLocatesMarker(data, more, atEOF);
    if s.token.Some? {
      assert (data + more)[s.advance - 1] == data[s.advance - 1];
      CutMarker(data + more, s.advance, |more|, cuts);
    }
  }

  lemma SplitNext(inlineEOF: bool, data: string, more: string, atEOF: bool, limit: nat)
    requires (atEOF ==> more == "") && LinesAtMost(data + more, limit)
    requires SplitWith(inlineEOF, data, atEOF).token.Some? && !SplitWith(inlineEOF, data, atEOF).final
    requires SplitWith(inlineEOF, data, atEOF).advance <= |data|
    ensures var s := SplitWith(inlineEOF, data, atEOF);
      var after := data[s.advance..] + more;
      && Tokens(inlineEOF, data + more) == [s.token.value] + Tokens(inlineEOF, after) && |after| < |data + more|
      && LinesAtMost(after, limit)
  {
    SplitSound(inlineEOF, data, more, atEOF);
    LinesAtMostTail(data, more, SplitWith(inlineEOF, data, atEOF).advance, limit);
  }

  lemma NextMarker(s: Split, data: string, more: string, atEOF: bool, cuts: set<nat>)
    requires LocatesMarker(s, data, more, atEOF) && s.token.Some? && !s.final
    requires |more| in cuts && CutsFit(data + more, |more|, cuts)
    ensures var after := data[s.advance..] + more;
      CutsFit(after, |more|, cuts) && MarkerTail(data + more) == MarkerTail(after)
  {
    CutAdvance(data, more, s.advance);
    CutToken(data + more, s.advance, data[s.advance..] + more, |more|, cuts);
  }

  lemma CutAdvance(data: string, more: string, advance: nat)
    requires advance <= |data|
    ensures (data + more)[advance..] == data[advance..] + more
  {
  }

  lemma SplitWaits(inlineEOF: bool, data: string, more: string, atEOF: bool, limit: nat)
    requires (atEOF ==> more == "") && LinesAtMost(data + more, limit)
    requires SplitWith(inlineEOF, data, atEOF).token.None? && !SplitWith(inlineEOF, data, atEOF).final
    ensures if atEOF then Nothing(inlineEOF, data + more)
            else |data| <= limit + 2 && (inlineEOF ==> NotBehindLine(data + more, |more|))
  {
    SplitSound(inlineEOF, data, more, atEOF);
    if inlineEOF {
      SplitLocatesMarker(data, more, atEOF);
      assert data != "" ==> (data + more)[|data| - 1] == data[|data| - 1];
    }
    if !atEOF {
      HeldWhileWaiting(inlineEOF, data, more, limit);
    }
  }

  // ---- the scanner ----

  /** bufio.Scanner over a reader that hands out `chunks` one by one and then reports the end of the file, or
      an error when `readFails`. No line, counted with its line feed, is longer than `limit`. */
  class LineScanner {
    const inlineEOF: bool
    const readFails: bool
    ghost const limit: nat
    ghost const source: seq<string>  // all the chunks there were
    var chunks: seq<string>
    var pending: string
    var atEOF: bool
    var done: bool
    var tooLong: bool
    var token: string
    ghost var peak: nat       // the most bytes held while asking for more
    ghost var nread: nat      // how many reads there were
    ghost var cuts: set<nat>  // bytes not yet read, at the start and after each read

    constructor (inlineEOF: bool, chunks: seq<string>, readFails: bool, ghost limit: nat)
      requires LinesAtMost(Flatten(chunks), limit)
      ensures this.inlineEOF == inlineEOF && this.readFails == readFails && this.limit == limit && source == chunks
      ensures Valid() && !done && !tooLong && Rest() == Flatten(chunks)
    {
      this.inlineEOF, this.chunks, this.readFails, this.limit, source := inlineEOF, chunks, readFails, limit, chunks;
      pending, atEOF, done, tooLong, token, peak := "", false, false, false, "", 0;
      nread, cuts := 0, {|Flatten(chunks)|};
      new;
      assert chunks[0..] == chunks && Rest() == Flatten(chunks);
    }

    /** The part of the stream that has not been turned into tokens. */
    ghost function Rest(): string
      reads this
    {
      pending + Flatten(chunks)
    }

    ghost predicate Valid()
      reads this
    {
      && (atEOF ==> chunks == []) && |pending| <= MAX_TOKEN_SIZE && peak <= limit + 2
      && LinesAtMost(Rest(), limit) && CutsValid()
    }

    ghost predicate CutsValid()
      reads this
    {
      && (AllFit(source, limit) ==> Tracked(source, nread, chunks, cuts))
      && |Flatten(chunks)| in cuts && (inlineEOF && !done ==> CutsFit(Rest(), |Flatten(chunks)|, cuts))
    }

    /** Copies from the first chunk into the free part of the buffer; a chunk that does not fit is read in two
        pieces. */
    method Fill()
      requires chunks != [] && |pending| < MAX_TOKEN_SIZE
      modifies this`pending, this`chunks
      ensures Rest() == old(Rest()) && |pending| <= MAX_TOKEN_SIZE
      ensures |chunks| + |Flatten(chunks)| < |old(chunks)| + |Flatten(old(chunks))|
      ensures |Flatten(chunks)| <= |Flatten(old(chunks))|
      ensures |old(chunks)[0]| + |old(pending)| <= MAX_TOKEN_SIZE ==> chunks == old(chunks)[1..]
    {
      var c, space := chunks[0], MAX_TOKEN_SIZE - |pending|;
      if |c| <= space {
        ReadWhole(pending, chunks);
        pending, chunks := pending + c, chunks[1..];
      } else {
        ReadPart(pending, chunks, space);
        pending, chunks := pending + c[..space], [c[space..]] + chunks[1..];
      }
    }

    /** One read. */
    method Read()
      requires Valid() && !atEOF && !done && |pending| < MAX_TOKEN_SIZE && |pending| <= limit + 2
      requires inlineEOF ==> NotBehindLine(Rest(), |Flatten(chunks)|)
      modifies this
      ensures Valid() && Rest() == old(Rest())
      ensures done == old(done) && tooLong == old(tooLong)
      ensures atEOF <==> old(chunks) == []
      ensures !atEOF ==> |chunks| + |Flatten(chunks)| < |old(chunks)| + |Flatten(old(chunks))|
    {
      if chunks == [] {
        atEOF := true;
        return;
      }
      ghost var before := |Flatten(chunks)|;
      if |chunks[0]| + |pending| > MAX_TOKEN_SIZE {
        TooBig(source, nread, chunks, cuts, |pending|, limit);
      } else if AllFit(source, limit) {
        TrackRead(source, nread, chunks, cuts);
      }
      Fill();
      if inlineEOF {
        CutRead(Rest(), before, |Flatten(chunks)|, cuts);
      }
      nread, cuts := nread + 1, cuts + {|Flatten(chunks)|};
    }

    /** What a call of Scan has to tell about the stream when it returns a token. */
    ghost predicate Emitted(before: string)
      reads this
    {
      if done then LastToken(inlineEOF, before, |Flatten(chunks)|, cuts, token)
      else NextToken(inlineEOF, before, Rest(), token)
    }

    /** Asks the split function about the bytes held so far. */
    method TrySplit() returns (found: bool)
      requires Valid() && !done
      modifies this`pending, this`token, this`done
      ensures Valid()
      ensures found ==> Emitted(old(Rest()))
      ensures !found ==> pending == old(pending) && !done
      ensures !found && atEOF ==> Nothing(inlineEOF, Rest())
      ensures !found && !atEOF ==> |pending| <= limit + 2 && (inlineEOF ==> NotBehindLine(Rest(), |Flatten(chunks)|))
    {
      var s := SplitWith(inlineEOF, pending, atEOF);
      ghost var more := Flatten(chunks);
      SplitAdvances(inlineEOF, pending, more, atEOF);
      if s.final {
        SplitLast(pending, more, atEOF, cuts);
        done, token := true, if s.token.Some? then s.token.value else "";
        return true;
      }
      if s.token.Some? {
        SplitNext(inlineEOF, pending, more, atEOF, limit);
        if inlineEOF {
          SplitLocatesMarker(pending, more, atEOF);
          NextMarker(s, pending, more, atEOF, cuts);
        }
        pending, token := pending[s.advance..], s.token.value;
        return true;
      }
      SplitWaits(inlineEOF, pending, more, atEOF, limit);
      return false;
    }

    /** Scanner.Scan: one more token, or false at the end. */
    method Scan() returns (ok: bool)
      requires Valid() && !tooLong
      modifies this
      ensures Valid()
      ensures old(done) ==> !ok && !tooLong
      ensures tooLong ==> !ok && peak >= MAX_TOKEN_SIZE
      ensures !old(done) && ok ==> Emitted(old(Rest()))
      ensures !old(done) && !ok && !tooLong ==> atEOF && Nothing(inlineEOF, old(Rest()))
    {
      if done {
        return false;
      }
      while true
        invariant Valid() && !done && !tooLong && Rest() == old(Rest())
        decreases if atEOF then 0 else 1, |chunks| + |Flatten(chunks)|
      {
        if pending != "" || atEOF {
          var found := TrySplit();
          if found {
            return true;
          }
        }
        if atEOF {
          return false;
        }
        ReadMore();
        if tooLong {
          return false;
        }
      }
    }

    /** Makes room and reads, unless the token is too long already. */
    method ReadMore()
      requires Valid() && !atEOF && !done && !tooLong && |pending| <= limit + 2
      requires inlineEOF ==> NotBehindLine(Rest(), |Flatten(chunks)|)
      modifies this
      ensures Valid() && !done && Rest() == old(Rest())
      ensures tooLong ==> peak >= MAX_TOKEN_SIZE
      ensures !tooLong && !atEOF ==> |chunks| + |Flatten(chunks)| < |old(chunks)| + |Flatten(old(chunks))|
    {
      if peak < |pending| {
        peak := |pending|;
      }
      if |pending| >= MAX_TOKEN_SIZE {
        tooLong := true;
      } else {
        Read();
      }
    }

    /** Scanner.Err: whether the scan ended for another reason than the end of the file or the marker. */
    predicate Err() reads this { tooLong || (atEOF && readFails) }
  }

  lemma ReadWhole(pending: string, chunks: seq<string>)
    requires chunks != []
    ensures (pending + chunks[0]) + Flatten(chunks[1..]) == pending + Flatten(chunks)
    ensures |Flatten(chunks)| == |chunks[0]| + |Flatten(chunks[1..])|
  {
  }

  lemma ReadPart(pending: string, chunks: seq<string>, space: nat)
    requires chunks != [] && 0 < space < |chunks[0]|
    ensures var left := [chunks[0][space..]] + chunks[1..];
      && (pending + chunks[0][..space]) + Flatten(left) == pending + Flatten(chunks)
      && |Flatten(chunks)| == space + |Flatten(left)|
  {
    var c, left := chunks[0], [chunks[0][space..]] + chunks[1..];
    assert left[1..] == chunks[1..];
    assert c == c[..space] + c[space..];
  }

  /** Keeps the tokens that `select` accepts: the blank-line and store-path checks of the scan loop. */
  function Select(select: string -> Option<string>, tokens: seq<string>): seq<string> {
    if tokens == [] then []
    else
      var rest := Select(select, tokens[1..]);
      match select(tokens[0])
      case Some(p) => [p] + rest
      case None => rest
  }

  lemma {:induction false} SelectAppend(select: string -> Option<string>, a: seq<string>, b: seq<string>)
    ensures Select(select, a + b) == Select(select, a) + Select(select, b)
  {
    if a == [] {
      assert a + b == b;
    } else {
      SelectAppend(select, a[1..], b);
      assert (a + b)[1..] == a[1..] + b;
      if select(a[0]).Some? { ConcatAssociative([select(a[0]).value], Select(select, a[1..]), Select(select, b)); }
    }
  }

  /** The blank token at the end: there is one exactly when the first marker line begins where a read had
      left off, or at the start of the stream. */
  function MarkerBlank(inlineEOF: bool, stream: string, cuts: set<nat>): seq<string> {
    var tail := MarkerTail(stream);
    if inlineEOF && tail.Some? && tail.value in cuts then [""] else []
  }

  /** Runs a scanner to its end. Any chunking gives the reference tokens, and the blank token exactly as it has
      to; a stream of short lines never makes the scanner hold more than two bytes beyond the longest line.
      `cuts` is what was left of the stream at its start and after each read. */
  method ScanAll(inlineEOF: bool, chunks: seq<string>, readFails: bool, ghost limit: nat)
      returns (tokens: seq<string>, tooLong: bool, failed: bool, ghost peak: nat, ghost cuts: set<nat>)
    requires LinesAtMost(Flatten(chunks), limit)
    ensures var all := Tokens(inlineEOF, Flatten(chunks));
      if tooLong then tokens <= all else tokens == all + MarkerBlank(inlineEOF, Flatten(chunks), cuts)
    ensures AllFit(chunks, limit) && !tooLong ==>
      MarkerBlank(inlineEOF, Flatten(chunks), cuts) ==
      MarkerBlank(inlineEOF, Flatten(chunks), Boundaries(chunks, |chunks|))
    ensures peak <= limit + 2
    ensures tooLong ==> failed && peak >= 65536
    ensures failed ==> tooLong || readFails
    ensures readFails && !failed ==> inlineEOF && MarkerTail(Flatten(chunks)).Some?
  {
    var scanner := new LineScanner(inlineEOF, chunks, readFails, limit);
    ghost var whole := Flatten(chunks);
    ghost var all := Tokens(inlineEOF, whole);
    tokens := [];
    while true
      invariant fresh(scanner) && scanner.Valid() && !scanner.done && !scanner.tooLong
      invariant scanner.inlineEOF == inlineEOF && scanner.limit == limit && scanner.source == chunks
      invariant scanner.readFails == readFails
      invariant all == tokens + Tokens(inlineEOF, scanner.Rest())
      invariant inlineEOF ==> MarkerTail(whole) == MarkerTail(scanner.Rest())
      decreases |scanner.Rest()|
    {
      ghost var before := scanner.Rest();
      var ok := scanner.Scan();
      cuts := scanner.cuts;
      if !ok {
        return tokens, scanner.tooLong, scanner.Err(), scanner.peak, cuts;
      }
      ConcatAssociative(tokens, [scanner.token], Tokens(inlineEOF, scanner.Rest()));
      tokens := tokens + [scanner.token];
      if scanner.done {
        if AllFit(chunks, limit) {
          ReadBoundaries(chunks, scanner.nread, MarkerTail(whole).value);
        }
        return tokens, false, scanner.Err(), scanner.peak, cuts;
      }
    }
  }

  lemma OneChunk(s: string)
    ensures Flatten([s]) == s && Boundaries([s], 1) == {|s|, 0}
  {
    var chunks: seq<string> := [s];
    assert chunks[0..] == chunks && chunks[1..] == [];
    assert |Flatten(chunks[0..])| in Boundaries(chunks, 1) && |Flatten(chunks[1..])| in Boundaries(chunks, 1);
  }

  /** So the number of tokens depends on how a stream arrives: read at once, the marker behind a line ends the
      scan silently; read separately, it adds a blank token. In front it always does. */
  lemma ChunkingShows()
    ensures var line, marker := "a\n", INLINE_EOF_LINE + "\n";
      && Flatten([line, marker]) == Flatten([line + marker])
      && Tokens(true, line + marker) == ["a"] && Tokens(true, marker) == []
      && MarkerBlank(true, line + marker, Boundaries([line, marker], 2)) == [""]
      && MarkerBlank(true, line + marker, Boundaries([line + marker], 1)) == []
      && MarkerBlank(true, marker, Boundaries([marker], 1)) == [""]
  {
    var line, marker := "a\n", INLINE_EOF_LINE + "\n";
    var stream := line + marker;
    LineEndUnique(stream, 1);
    LineEndUnique(marker, 1);
    assert stream[2..] == marker && stream[..1] == "a" && marker[..1] == INLINE_EOF_LINE;
    assert MarkerTail(stream) == Some(2);
    var apart: seq<string>, once: seq<string>, alone: seq<string> := [line, marker], [stream], [marker];
    OneChunk(stream);
    OneChunk(marker);
    assert apart[1..] == alone;
    assert |Flatten(apart[1..])| == 2;
  }

  /** The scan loop of `runUpload`: the selected paths do not depend on the chunking at all. */
  method ReceivePaths(inlineEOF: bool, chunks: seq<string>, readFails: bool, select: string -> Option<string>,
      ghost limit: nat)
      returns (paths: seq<string>, tooLong: bool, failed: bool)
    requires select("") == None
    requires LinesAtMost(Flatten(chunks), limit)
    ensures !tooLong ==> paths == Select(select, Tokens(inlineEOF, Flatten(chunks)))
    ensures limit + 2 < 65536 ==> !tooLong
    ensures failed ==> tooLong || readFails
    ensures readFails && !failed ==> inlineEOF && MarkerTail(Flatten(chunks)).Some?
  {
    var tokens; ghost var peak, cuts;
    tokens, tooLong, failed, peak, cuts := ScanAll(inlineEOF, chunks, readFails, limit);
    SelectAppend(select, Tokens(inlineEOF, Flatten(chunks)), MarkerBlank(inlineEOF, Flatten(chunks), cuts));
    paths := Select(select, tokens);
  }

  /** What is selected is what `select` makes of the tokens, in order. */
  lemma SelectInOrder(select: string -> Option<string>, a: seq<string>, token: string, b: seq<string>)
    ensures Select(select, a + [token] + b) ==
      Select(select, a) + (if select(token).Some? then [select(token).value] else []) + Select(select, b)
  {
    SelectAppend(select, a + [token], b);
    SelectAppend(select, a, [token]);
    assert Select(select, [token]) == if select(token).Some? then [select(token).value] else [];
  }
}
