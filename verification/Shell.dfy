/** Building a remote command line (internal/nixstore/ssh.go), against token recognition and quote removal
    as in sections 2.2.1, 2.2.2, 2.3 and 2.6.7 of the POSIX.1-2017 Shell Command Language. */
module Shell {
  import opened Sequences

  // ---- the shell's side ----

  /** A character of a word, and whether quoting took away its special meaning. */
  datatype Quotable = Quotable(c: char, quoted: bool)
  type Word = seq<Quotable>

  predicate IsBlank(c: char) { c == ' ' || c == '\t' }

  /** The characters that section 2.2 lists as having to be quoted to stand for themselves, always or under certain
      circumstances, and those that other shells expand. */
  predicate IsSpecial(c: char) {
    c in {'|', '&', ';', '<', '>', '(', ')', '$', '`', '\\', '"', '\'', ' ', '\t', '\n',
          '*', '?', '[', '#', '~', '=', '%', '{', '}', '!'}
  }

  /** Characters that, unquoted, start an operator, an expansion or another kind of quoting. */
  predicate EndsSimpleWords(c: char) {
    c in {'|', '&', ';', '<', '>', '(', ')', '$', '`', '"', '\n'}
  }

  function Extend(cur: Option<Word>, w: Word): Option<Word> {
    Some((match cur case Some(soFar) => soFar case None => []) + w)
  }

  /** Splits a command line into words. `cur` is the word being read. The result is None when the line is
      not a plain sequence of words: an operator, an expansion, a comment or an unterminated quote. */
  function Lex(s: string, cur: Option<Word>, inSingleQuotes: bool): Option<seq<Word>>
    decreases |s|
  {
    if s == "" then
      if inSingleQuotes then None else Some(match cur case Some(w) => [w] case None => [])
    else
      var c, rest := s[0], s[1..];
      if inSingleQuotes then
        if c == '\'' then Lex(rest, cur, false) else Lex(rest, Extend(cur, [Quotable(c, true)]), true)
      else if IsBlank(c) then
        match cur
        case None => Lex(rest, None, false)
        case Some(w) =>
          (match Lex(rest, None, false)
           case Some(words) => Some([w] + words)
           case None => None)
      else if c == '\'' then Lex(rest, Extend(cur, []), true)
      else if c == '\\' then
        if rest == "" then None
        else if rest[0] == '\n' then Lex(rest[1..], cur, false)
        else Lex(rest[1..], Extend(cur, [Quotable(rest[0], true)]), false)
      else if EndsSimpleWords(c) || (c == '#' && cur == None) then None
      else Lex(rest, Extend(cur, [Quotable(c, false)]), false)
  }

  function Mark(s: string, quoted: bool): (w: Word)
    ensures |w| == |s|
  {
    if s == "" then [] else [Quotable(s[0], quoted)] + Mark(s[1..], quoted)
  }

  /** Quote removal. */
  function Text(w: Word): (s: string)
    ensures |s| == |w|
  {
    if w == [] then "" else [w[0].c] + Text(w[1..])
  }

  lemma {:induction false} TextOfMark(s: string, quoted: bool)
    ensures Text(Mark(s, quoted)) == s
    ensures forall q :: q in Mark(s, quoted) ==> q.quoted == quoted && q.c in s
  {
    if s == "" {
    } else {
      TextOfMark(s[1..], quoted);
    }
  }

  lemma {:induction false} TextAppend(a: Word, b: Word)
    ensures Text(a + b) == Text(a) + Text(b)
  {
    if a == [] {
      assert a + b == b;
    } else {
      TextAppend(a[1..], b);
      assert (a + b)[1..] == a[1..] + b;
      ConcatAssociative([a[0].c], Text(a[1..]), Text(b));
    }
  }

  // ---- the program's side ----

  predicate IsShellSafe(b: char) {
    'A' <= b <= 'Z' || 'a' <= b <= 'z' || '0' <= b <= '9' || b == '-' || b == '_' || b == '/' || b == '.'
  }

  predicate AllSafe(s: string) { forall i :: 0 <= i < |s| ==> IsShellSafe(s[i]) }

  const SINGLE_QUOTE_ESCAPE := "'\\''"

  function EscapeBody(s: string): string {
    if s == "" then ""
    else EscapeBody(s[..|s| - 1]) + (if s[|s| - 1] == '\'' then SINGLE_QUOTE_ESCAPE else [s[|s| - 1]])
  }

  function Escape(s: string): string {
    if s == "" then "''" else if AllSafe(s) then s else "'" + EscapeBody(s) + "'"
  }

  const ASSIGNMENT := "NIX_STORE_DIR="

  function EscapeArgs(args: seq<string>): string {
    if args == [] then "" else " " + Escape(args[0]) + EscapeArgs(args[1..])
  }

  function Command(assignment: string, dir: string, exe: string, args: seq<string>): string {
    assignment + Escape(dir) + " " + Escape(exe) + EscapeArgs(args)
  }

  function CommandLine(dir: string, exe: string, args: seq<string>): string {
    Command(ASSIGNMENT, dir, exe, args)
  }

  class StringBuilder {
    var buf: string

    constructor ()
      ensures buf == ""
    {
      buf := "";
    }

    method WriteString(s: string)
      modifies this
      ensures buf == old(buf) + s
    {
      buf := buf + s;
    }
  }

  /** Appends the escaped argument. `reserved` is the room asked for before the quoted branch writes,
      and that branch fills it exactly. */
  method ShellEscape(sb: StringBuilder, s: string) returns (reserved: nat)
    modifies sb
    ensures sb.buf == old(sb.buf) + Escape(s)
    ensures reserved == if s == "" || AllSafe(s) then 0 else |Escape(s)|
  {
    if s == "" {
      sb.WriteString("''");
      return 0;
    }
    var safe, newSize, i := true, 0, 0;
    while i < |s|
      invariant 0 <= i <= |s|
      invariant safe <==> AllSafe(s[..i])
      invariant newSize == |EscapeBody(s[..i])|
    {
      assert s[..i + 1][..i] == s[..i];
      if s[i] == '\'' {
        newSize := newSize + |SINGLE_QUOTE_ESCAPE|;
      } else {
        newSize := newSize + 1;
      }
      if !IsShellSafe(s[i]) {
        assert !IsShellSafe(s[..i + 1][i]);
        safe := false;
      }
      i := i + 1;
    }
    assert s[..i] == s;
    if safe {
      sb.WriteString(s);
      return 0;
    }
    reserved := newSize + |"''"|;
    ghost var before := sb.buf;
    sb.WriteString("'");
    i := 0;
    while i < |s|
      invariant 0 <= i <= |s|
      invariant sb.buf == before + "'" + EscapeBody(s[..i])
    {
      EscapeBodyStep(before + "'", s, i);
      if s[i] == '\'' {
        sb.WriteString(SINGLE_QUOTE_ESCAPE);
      } else {
        sb.WriteString([s[i]]);
      }
      i := i + 1;
    }
    assert s[..i] == s;
    sb.WriteString("'");
    Enclose(before, "'", EscapeBody(s));
  }

  lemma EscapeBodyStep(soFar: string, s: string, i: nat)
    requires i < |s|
    ensures soFar + EscapeBody(s[..i + 1]) ==
      soFar + EscapeBody(s[..i]) + if s[i] == '\'' then SINGLE_QUOTE_ESCAPE else [s[i]]
  {
    assert s[..i + 1][..i] == s[..i];
    ConcatAssociative(soFar, EscapeBody(s[..i]), if s[i] == '\'' then SINGLE_QUOTE_ESCAPE else [s[i]]);
  }

  lemma Enclose(before: string, quote: string, body: string)
    ensures before + quote + body + quote == before + (quote + body + quote)
  {
  }

  method NewCommand(dir: string, exe: string, args: seq<string>) returns (command: string)
    ensures command == CommandLine(dir, exe, args)
  {
    var sb := new StringBuilder();
    WriteCommand(sb, ASSIGNMENT, dir, exe, args);
    command := sb.buf;
  }

  method WriteCommand(sb: StringBuilder, assignment: string, dir: string, exe: string, args: seq<string>)
    requires sb.buf == ""
    modifies sb
    ensures sb.buf == Command(assignment, dir, exe, args)
  {
    sb.WriteString(assignment);
    assert sb.buf == assignment;
    var _ := ShellEscape(sb, dir);
    WriteArgument(sb, exe);
    assert sb.buf == assignment + Escape(dir) + " " + Escape(exe);
    WriteArguments(sb, args);
  }

  method WriteArguments(sb: StringBuilder, args: seq<string>)
    modifies sb
    ensures sb.buf == old(sb.buf) + EscapeArgs(args)
  {
    var i := 0;
    while i < |args|
      invariant 0 <= i <= |args|
      invariant sb.buf + EscapeArgs(args[i..]) == old(sb.buf) + EscapeArgs(args)
    {
      EscapeArgsStep(sb.buf, args, i);
      WriteArgument(sb, args[i]);
      i := i + 1;
    }
    assert EscapeArgs(args[i..]) == "" && sb.buf + "" == sb.buf;
  }

  method WriteArgument(sb: StringBuilder, arg: string)
    modifies sb
    ensures sb.buf == old(sb.buf) + " " + Escape(arg)
  {
    sb.WriteString(" ");
    var _ := ShellEscape(sb, arg);
  }

  lemma EscapeArgsStep(soFar: string, args: seq<string>, i: nat)
    requires i < |args|
    ensures soFar + EscapeArgs(args[i..]) == soFar + " " + Escape(args[i]) + EscapeArgs(args[i + 1..])
  {
    var rest := EscapeArgs(args[i + 1..]);
    assert args[i..][1..] == args[i + 1..];
    Regroup(soFar, Escape(args[i]), rest);
  }

  lemma Regroup(a: string, b: string, c: string)
    ensures a + (" " + b + c) == a + " " + b + c
  {
  }

  // ---- what the shell makes of it ----

  /** The word the shell reads from one escaped argument. */
  function ArgWord(s: string): Word { Mark(s, s == "" || !AllSafe(s)) }

  lemma ExtendTwice(cur: Option<Word>, a: Word, b: Word)
    ensures Extend(Extend(cur, a), b) == Extend(cur, a + b)
    ensures Extend(None, a) == Some(a)
    ensures cur.Some? ==> Extend(cur, []) == cur
  {
    assert [] + a == a;
    match cur
    case Some(w) => assert w + [] == w; assert (w + a) + b == w + (a + b);
    case None => assert ([] + a) + b == [] + (a + b);
  }

  /** Characters that are part of a word wherever they stand. */
  predicate Plain(s: string) {
    forall i :: 0 <= i < |s| ==>
      !IsBlank(s[i]) && !EndsSimpleWords(s[i]) && s[i] != '\'' && s[i] != '\\' && s[i] != '#'
  }

  lemma {:induction false} LexPlain(s: string, tail: string, cur: Option<Word>)
    requires Plain(s) && s != ""
    ensures Lex(s + tail, cur, false) == Lex(tail, Extend(cur, Mark(s, false)), false)
    decreases |s|
  {
    var q, rest := [Quotable(s[0], false)], s[1..];
    var next := Extend(cur, q);
    assert (s + tail)[0] == s[0] && (s + tail)[1..] == rest + tail;
    assert Lex(s + tail, cur, false) == Lex(rest + tail, next, false);
    if rest == "" {
      assert rest + tail == tail;
      assert Mark(s, false) == q;
    } else {
      LexPlain(rest, tail, next);
      ExtendTwice(cur, q, Mark(rest, false));
    }
  }

  lemma MarkSnoc(s: string, c: char, quoted: bool)
    ensures Mark(s + [c], quoted) == Mark(s, quoted) + [Quotable(c, quoted)]
  {
    if s != "" {
      assert (s + [c])[1..] == s[1..] + [c];
      MarkSnoc(s[1..], c, quoted);
    }
  }

  lemma LexQuoteEscape(tail: string, cur: Option<Word>)
    ensures Lex(SINGLE_QUOTE_ESCAPE + tail, cur, true) == Lex(tail, Extend(cur, [Quotable('\'', true)]), true)
  {
    var t := SINGLE_QUOTE_ESCAPE + tail;
    var closed, escaped, reentered := t[1..], t[1..][1..], t[1..][1..][1..];
    assert closed == "\\''" + tail && escaped == "''" + tail && reentered == "'" + tail && reentered[1..] == tail;
    var end := Extend(cur, [Quotable('\'', true)]);
    ExtendTwice(end, [], []);
    assert Lex(t, cur, true) == Lex(closed, cur, false);
    assert Lex(closed, cur, false) == Lex(reentered, end, false);
    assert Lex(reentered, end, false) == Lex(tail, Extend(end, []), true);
  }

  /** Inside single quotes the body reads back character by character; the quote escape leaves them,
      adds one backslash-quoted quote, and enters them again. */
  lemma {:induction false} LexBody(s: string, tail: string, cur: Option<Word>)
    requires cur.Some?
    ensures Lex(EscapeBody(s) + tail, cur, true) == Lex(tail, Extend(cur, Mark(s, true)), true)
    decreases |s|
  {
    if s == "" {
      assert EscapeBody(s) + tail == tail;
      ExtendTwice(cur, [], []);
    } else {
      var init, c := s[..|s| - 1], s[|s| - 1];
      var piece := if c == '\'' then SINGLE_QUOTE_ESCAPE else [c];
      var mid := Extend(cur, Mark(init, true));
      var end := Extend(mid, [Quotable(c, true)]);
      ExtendTwice(cur, Mark(init, true), [Quotable(c, true)]);
      assert EscapeBody(s) + tail == EscapeBody(init) + (piece + tail);
      LexBody(init, piece + tail, cur);
      if c == '\'' {
        LexQuoteEscape(tail, mid);
      } else {
        assert (piece + tail)[1..] == tail;
      }
      MarkSnoc(init, c, true);
      assert s == init + [c];
    }
  }

  lemma LexEscape(s: string, tail: string, cur: Option<Word>)
    ensures Lex(Escape(s) + tail, cur, false) == Lex(tail, Extend(cur, ArgWord(s)), false)
  {
    if s != "" && AllSafe(s) {
      LexPlain(s, tail, cur);
    } else {
      assert EscapeBody("") == "" && Escape(s) == "'" + EscapeBody(s) + "'";
      var t, entered := Escape(s) + tail, Extend(cur, []);
      assert t[0] == '\'' && t[1..] == EscapeBody(s) + ("'" + tail);
      assert Lex(t, cur, false) == Lex(t[1..], entered, true);
      LexBody(s, "'" + tail, entered);
      ExtendTwice(cur, [], Mark(s, true));
      assert [] + Mark(s, true) == Mark(s, true);
      assert ("'" + tail)[1..] == tail;
    }
  }

  function ArgWords(args: seq<string>): (r: seq<Word>)
    ensures |r| == |args|
    ensures forall i :: 0 <= i < |r| ==> r[i] == ArgWord(args[i])
  {
    seq(|args|, i requires 0 <= i < |args| => ArgWord(args[i]))
  }

  lemma LexOneMore(arg: string, more: string, w: Word, words: seq<Word>)
    requires Lex(more, Some(ArgWord(arg)), false) == Some(words)
    ensures Lex(" " + Escape(arg) + more, Some(w), false) == Some([w] + words)
  {
    var s, rest := " " + Escape(arg) + more, Escape(arg) + more;
    assert s[0] == ' ' && s[1..] == rest;
    LexEscape(arg, more, None);
    ExtendTwice(None, ArgWord(arg), []);
    assert Lex(rest, None, false) == Some(words);
  }

  lemma {:induction false} LexArgs(args: seq<string>, w: Word)
    ensures Lex(EscapeArgs(args), Some(w), false) == Some([w] + ArgWords(args))
    decreases |args|
  {
    if args == [] {
      assert [w] + ArgWords(args) == [w];
    } else {
      LexArgs(args[1..], ArgWord(args[0]));
      LexOneMore(args[0], EscapeArgs(args[1..]), w, [ArgWord(args[0])] + ArgWords(args[1..]));
      assert [ArgWord(args[0])] + ArgWords(args[1..]) == ArgWords(args);
    }
  }

  lemma LexCommand(prefix: string, dir: string, exe: string, args: seq<string>)
    requires Plain(prefix) && prefix != ""
    ensures Lex(prefix + Escape(dir) + " " + Escape(exe) + EscapeArgs(args), None, false) ==
              Some([Mark(prefix, false) + ArgWord(dir), ArgWord(exe)] + ArgWords(args))
  {
    var head, rest := Mark(prefix, false), EscapeArgs(args);
    var first, tail := head + ArgWord(dir), " " + Escape(exe) + rest;
    LexArgs(args, ArgWord(exe));
    LexOneMore(exe, rest, first, [ArgWord(exe)] + ArgWords(args));
    RegroupCommand(prefix, Escape(dir), " ", Escape(exe), rest);
    LexPlain(prefix, Escape(dir) + tail, None);
    LexEscape(dir, tail, Extend(None, head));
    ExtendTwice(None, head, ArgWord(dir));
    ExtendTwice(None, first, []);
    PairThen(first, ArgWord(exe), ArgWords(args));
  }

  lemma PairThen(a: Word, b: Word, more: seq<Word>)
    ensures [a] + ([b] + more) == [a, b] + more
  {
  }

  lemma RegroupCommand(a: string, b: string, space: string, c: string, d: string)
    ensures a + b + space + c + d == a + (b + (space + c + d))
  {
  }

  /** No character of the word has a special meaning left, neither for the shell's grammar nor for its
      expansions. */
  predicate Inert(w: Word) { forall q :: q in w && !q.quoted ==> !IsSpecial(q.c) }

  lemma ArgWordInert(s: string)
    ensures Text(ArgWord(s)) == s && Inert(ArgWord(s))
  {
    TextOfMark(s, s == "" || !AllSafe(s));
    forall q | q in ArgWord(s) && !q.quoted ensures !IsSpecial(q.c) {
      SafeIsNotSpecial(q.c);
    }
  }

  lemma SafeIsNotSpecial(c: char)
    requires IsShellSafe(c)
    ensures !IsSpecial(c)
  {
  }

  /** Exactly the non-empty strings of letters, digits and `-_/.` are written as they are. */
  lemma BareIff(s: string)
    ensures Escape(s) == s <==> s != "" && forall i :: 0 <= i < |s| ==>
      s[i] in {'a', 'b', 'c', 'd', 'e', 'f', 'g', 'h', 'i', 'j', 'k', 'l', 'm', 'n', 'o', 'p', 'q', 'r', 's', 't',
               'u', 'v', 'w', 'x', 'y', 'z', 'A', 'B', 'C', 'D', 'E', 'F', 'G', 'H', 'I', 'J', 'K', 'L', 'M', 'N',
               'O', 'P', 'Q', 'R', 'S', 'T', 'U', 'V', 'W', 'X', 'Y', 'Z', '0', '1', '2', '3', '4', '5', '6', '7',
               '8', '9', '-', '_', '/', '.'}
  {
    if s != "" && !AllSafe(s) {
      EscapeBodyGrows(s);
    }
  }

  lemma {:induction false} EscapeBodyGrows(s: string)
    ensures |EscapeBody(s)| >= |s|
    decreases |s|
  {
    if s == "" {
    } else {
      EscapeBodyGrows(s[..|s| - 1]);
    }
  }

  /** The words are an unquoted `assignment` followed by the directory, the program, and the arguments. */
  predicate ReadsAs(words: seq<Word>, assignment: string, dir: string, exe: string, args: seq<string>) {
    && |words| == 2 + |args|
    && Text(words[0]) == assignment + dir && Text(words[1]) == exe
    && (forall i :: 0 <= i < |args| ==> Text(words[i + 2]) == args[i])
    && |assignment| <= |words[0]| && words[0][..|assignment|] == Mark(assignment, false)
    && Inert(words[0][|assignment|..])
    && (forall i :: 1 <= i < |words| ==> Inert(words[i]))
  }

  lemma CommandRoundTrip(prefix: string, dir: string, exe: string, args: seq<string>) returns (words: seq<Word>)
    requires Plain(prefix) && prefix != ""
    ensures Lex(Command(prefix, dir, exe, args), None, false) == Some(words)
    ensures ReadsAs(words, prefix, dir, exe, args)
  {
    LexCommand(prefix, dir, exe, args);
    words := [Mark(prefix, false) + ArgWord(dir), ArgWord(exe)] + ArgWords(args);
    TextAppend(Mark(prefix, false), ArgWord(dir));
    TextOfMark(prefix, false);
    ArgWordInert(dir);
    ArgWordInert(exe);
    assert words[0][|prefix|..] == ArgWord(dir);
    forall i | 2 <= i < |words| ensures Inert(words[i]) && Text(words[i]) == args[i - 2] {
      ArgWordInert(args[i - 2]);
    }
  }

  /** Quoting round trip: the shell reads exactly the assignment, the program and the arguments,
      and no character in them has a special meaning left. */
  lemma CommandLineRoundTrip(dir: string, exe: string, args: seq<string>) returns (words: seq<Word>)
    ensures Lex(CommandLine(dir, exe, args), None, false) == Some(words)
    ensures ReadsAs(words, "NIX_STORE_DIR=", dir, exe, args)
  {
    words := CommandRoundTrip(ASSIGNMENT, dir, exe, args);
  }
}
