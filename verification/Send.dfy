/** The `send` command (send.go): store paths are packed, one per line, into writes small enough for
    the pipe to keep each write in one piece. */
module Send {
  import opened Sequences
  import Scanner

  const PIPE_BUF := 512

  datatype Result<T> = Ok(value: T) | Err(message: string)

  /** Argument validation and the `--finish` marker. */
  function CommandArgs(finish: bool, args: seq<string>): (r: Result<seq<string>>)
    ensures r.Ok? <==> (finish || args != []) && forall i :: 0 <= i < |args| ==> '\0' !in args[i]
    ensures r.Ok? ==> r.value == args + (if finish then [Scanner.INLINE_EOF_LINE] else [])
  {
    if !finish && |args| < 1 then Err("requires at least 1 arg")
    else if exists i :: 0 <= i < |args| && '\0' in args[i] then Err("arg contains a NUL byte")
    else if finish then Ok(args + [Scanner.INLINE_EOF_LINE])
    else Ok(args)
  }

  predicate Sendable(p: string) {
    '\n' !in p && |p| + 1 <= PIPE_BUF
  }

  function Accepted(paths: seq<string>): seq<string> {
    if paths == [] then []
    else
      var init := Accepted(paths[..|paths| - 1]);
      var p := paths[|paths| - 1];
      if Sendable(p) then init + [p] else init
  }

  function RejectedCount(paths: seq<string>): nat {
    if paths == [] then 0
    else RejectedCount(paths[..|paths| - 1]) + if Sendable(paths[|paths| - 1]) then 0 else 1
  }

  /** Every argument is either accepted or counted as rejected. */
  lemma {:induction false} AcceptedOrRejected(paths: seq<string>)
    ensures |Accepted(paths)| + RejectedCount(paths) == |paths|
    ensures forall p :: p in Accepted(paths) <==> p in paths && '\n' !in p && |p| <= 511
  {
    if paths == [] {
    } else {
      AcceptedOrRejected(paths[..|paths| - 1]);
      assert paths == paths[..|paths| - 1] + [paths[|paths| - 1]];
    }
  }

  /** The accepted paths keep their order and number. */
  lemma {:induction false} AcceptedInOrder(a: seq<string>, p: string, b: seq<string>)
    ensures Accepted(a + [p] + b) ==
      Accepted(a) + (if '\n' !in p && |p| <= 511 then [p] else []) + Accepted(b)
    decreases |b|
  {
    var one := if '\n' !in p && |p| <= 511 then [p] else [];
    if b == [] {
      assert a + [p] + b == a + [p] && (a + [p])[..|a|] == a;
      assert Accepted(a) + one + [] == Accepted(a) + one;
    } else {
      var init, last := b[..|b| - 1], b[|b| - 1];
      var all := a + [p] + b;
      assert all[..|all| - 1] == a + [p] + init && all[|all| - 1] == last;
      AcceptedInOrder(a, p, init);
      ConcatAssociative(Accepted(a) + one, Accepted(init), [last]);
    }
  }

  /** The byte stream for some lines: each line followed by a line feed. */
  function Encode(lines: seq<string>): string {
    if lines == [] then "" else lines[0] + "\n" + Encode(lines[1..])
  }

  lemma {:induction false} EncodeAppend(a: seq<string>, b: seq<string>)
    ensures Encode(a + b) == Encode(a) + Encode(b)
  {
    if a == [] {
      assert a + b == b;
    } else {
      var rest := a[1..];
      assert (a + b)[1..] == rest + b;
      EncodeAppend(rest, b);
      assert a[0] + "\n" + (Encode(rest) + Encode(b)) == (a[0] + "\n" + Encode(rest)) + Encode(b);
    }
  }

  lemma EncodeSnoc(a: seq<string>, p: string)
    ensures Encode(a + [p]) == Encode(a) + p + "\n"
  {
    EncodeAppend(a, [p]);
    assert Encode([p]) == p + "\n" + Encode([]);
  }

  function EncodeEach(groups: seq<seq<string>>): (r: seq<string>)
    ensures |r| == |groups|
    ensures forall i :: 0 <= i < |r| ==> r[i] == Encode(groups[i])
  {
    seq(|groups|, i requires 0 <= i < |groups| => Encode(groups[i]))
  }

  lemma {:induction false} EncodeFlatten(groups: seq<seq<string>>)
    ensures Encode(Flatten(groups)) == Flatten(EncodeEach(groups))
  {
    if groups == [] {
    } else {
      EncodeFlatten(groups[1..]);
      EncodeAppend(groups[0], Flatten(groups[1..]));
      assert EncodeEach(groups)[1..] == EncodeEach(groups[1..]);
    }
  }

  /** Greedy packing: groups already written, and the group still in the buffer. */
  datatype Packed = Packed(done: seq<seq<string>>, open: seq<string>) {
    function Add(line: string): Packed {
      if |Encode(open)| + |line| + 1 > PIPE_BUF
      then Packed(done + [open], [line])
      else Packed(done, open + [line])
    }
    function Groups(): seq<seq<string>> {
      if open == [] then done else done + [open]
    }
  }

  function Pack(lines: seq<string>): Packed {
    if lines == [] then Packed([], []) else Pack(lines[..|lines| - 1]).Add(lines[|lines| - 1])
  }

  function Writes(outPaths: seq<string>): seq<string> {
    EncodeEach(Pack(Accepted(outPaths)).Groups())
  }

  /** An order-preserving way of dividing `lines` into writes of whole lines that the pipe keeps whole. */
  ghost predicate IsPacking(groups: seq<seq<string>>, lines: seq<string>) {
    && Flatten(groups) == lines
    && forall i :: 0 <= i < |groups| ==> |Encode(groups[i])| <= 512
  }

  ghost predicate Sound(p: Packed, lines: seq<string>) {
    && Flatten(p.done) + p.open == lines
    && (forall i :: 0 <= i < |p.done| ==> p.done[i] != [] && |Encode(p.done[i])| <= PIPE_BUF)
    && |Encode(p.open)| <= PIPE_BUF
    && (p.open == [] <==> lines == [])
    && (lines == [] ==> p.done == [])
  }

  lemma AddSound(p: Packed, lines: seq<string>, line: string)
    requires Sound(p, lines) && Sendable(line)
    ensures Sound(p.Add(line), lines + [line])
    ensures |Encode(p.Add(line).open)| == |line| + 1 + (if p.Add(line).done == p.done then |Encode(p.open)| else 0)
  {
    EncodeSnoc(p.open, line);
    EncodeSnoc([], line);
    assert [] + [line] == [line];
    FlattenSnoc(p.done, p.open);
  }

  lemma {:induction false} PackSound(lines: seq<string>)
    requires forall p :: p in lines ==> Sendable(p)
    ensures Sound(Pack(lines), lines)
    decreases |lines|
  {
    if lines == [] {
    } else {
      var init, line := lines[..|lines| - 1], lines[|lines| - 1];
      PackSound(init);
      AddSound(Pack(init), init, line);
      assert lines == init + [line];
    }
  }

  /** The writes are whole lines in order, none empty, none over PIPE_BUF. */
  lemma PackIsPacking(lines: seq<string>)
    requires forall p :: p in lines ==> Sendable(p)
    ensures IsPacking(Pack(lines).Groups(), lines)
    ensures forall i :: 0 <= i < |Pack(lines).Groups()| ==> Pack(lines).Groups()[i] != []
  {
    PackSound(lines);
    FlattenSnoc(Pack(lines).done, Pack(lines).open);
  }

  /** Taking the last line away from a packing leaves a packing of the other lines. */
  lemma DropLastLine(lines: seq<string>, front: seq<seq<string>>, last: seq<string>) returns (shorter: seq<seq<string>>)
    requires lines != [] && last != []
    requires IsPacking(front + [last], lines)
    ensures last[|last| - 1] == lines[|lines| - 1]
    ensures IsPacking(shorter, lines[..|lines| - 1])
    ensures shorter == if |last| == 1 then front else front + [last[..|last| - 1]]
  {
    var trimmed, line := last[..|last| - 1], last[|last| - 1];
    assert last == trimmed + [line];
    FlattenSnoc(front, last);
    FlattenSnoc(front, trimmed);
    EncodeSnoc(trimmed, line);
    shorter := if trimmed == [] then front else front + [trimmed];
    assert Flatten(shorter) == Flatten(front) + trimmed == lines[..|lines| - 1];
    forall i | 0 <= i < |shorter| ensures |Encode(shorter[i])| <= PIPE_BUF {
      if i < |front| { assert shorter[i] == (front + [last])[i]; } else { assert last == (front + [last])[i]; }
    }
  }

  /** One more line, for the greedy packing and for one whose last write was `trimmed` without it. */
  lemma GreedyAdd(p: Packed, lines: seq<string>, line: string, n: nat, trimmed: seq<string>)
    requires Sound(p, lines) && Sendable(line) && |Encode(trimmed + [line])| <= PIPE_BUF
    requires lines != [] && trimmed == [] ==> |p.done| < n
    requires lines != [] && trimmed != [] ==>
      |p.done| <= n && (|p.done| == n ==> |Encode(p.open)| <= |Encode(trimmed)|)
    ensures |p.Add(line).done| <= n
    ensures |p.Add(line).done| == n ==> |Encode(p.Add(line).open)| <= |Encode(trimmed + [line])|
  {
    AddSound(p, lines, line);
    EncodeSnoc(trimmed, line);
  }

  /** Greedy stays ahead: no packing is shorter, and one of equal length leaves no smaller last write. */
  lemma {:induction false} GreedyStaysAhead(lines: seq<string>, other: seq<seq<string>>)
    requires forall p :: p in lines ==> Sendable(p)
    requires IsPacking(other, lines)
    requires lines != []
    ensures |Pack(lines).done| < |other|
    ensures |Pack(lines).done| + 1 == |other| ==>
              |Encode(Pack(lines).open)| <= |Encode(other[|other| - 1])|
    decreases |lines| + |other|
  {
    var n := |other| - 1;
    assert other != [];
    var front, last := other[..n], other[n];
    assert other == front + [last];
    if last == [] {
      FlattenSnoc(front, last);
      assert IsPacking(front, lines);
      GreedyStaysAhead(lines, front);
    } else {
      var shorter := DropLastLine(lines, front, last);
      var init, line := lines[..|lines| - 1], lines[|lines| - 1];
      PackSound(init);
      if init != [] {
        GreedyStaysAhead(init, shorter);
      }
      assert last == (front + [last])[|front|];
      assert last == last[..|last| - 1] + [line];
      GreedyAdd(Pack(init), init, line, |front|, last[..|last| - 1]);
    }
  }

  /** Batching is exact and uses as few writes as any order-preserving packing can. */
  lemma SendBatchingOptimal(outPaths: seq<string>, other: seq<seq<string>>)
    requires IsPacking(other, Accepted(outPaths))
    ensures Flatten(Writes(outPaths)) == Encode(Accepted(outPaths))
    ensures forall i :: 0 <= i < |Writes(outPaths)| ==> 0 < |Writes(outPaths)[i]| <= 512
    ensures |Writes(outPaths)| <= |other|
  {
    var lines := Accepted(outPaths);
    AcceptedOrRejected(outPaths);
    PackIsPacking(lines);
    EncodeFlatten(Pack(lines).Groups());
    PackSound(lines);
    if lines != [] {
      GreedyStaysAhead(lines, other);
    }
  }

  /** Later lines never disturb the groups already written. */
  lemma {:induction false} PackGrows(lines: seq<string>, k: nat)
    requires k <= |lines|
    requires forall p :: p in lines ==> Sendable(p)
    ensures Pack(lines[..k]).done <= Pack(lines).done
    decreases |lines|
  {
    if k == |lines| {
      assert lines[..k] == lines;
    } else {
      var init := lines[..|lines| - 1];
      assert init[..k] == lines[..k];
      PackGrows(init, k);
    }
  }

  lemma {:induction false} AcceptedPrefix(paths: seq<string>, k: nat)
    requires k <= |paths|
    ensures Accepted(paths[..k]) <= Accepted(paths)
    decreases |paths|
  {
    if k == |paths| {
      assert paths[..k] == paths;
    } else {
      assert paths[..|paths| - 1][..k] == paths[..k];
      AcceptedPrefix(paths[..|paths| - 1], k);
    }
  }

  /** The queue end of the pipe. The environment decides whether opening and closing work and how many writes
      succeed (`credit`). `torn` is the part of a failed write that took effect all the same: a write can also
      be given up on while it is going on. */
  class Pipe {
    const opens: bool
    const closes: bool
    var writes: seq<string>
    var credit: nat
    var torn: string

    constructor (opens: bool, closes: bool, credit: nat)
      ensures writes == [] && this.opens == opens && this.closes == closes && this.credit == credit && torn == ""
    {
      this.opens, this.closes := opens, closes;
      this.writes, this.credit, torn := [], credit, "";
    }

    method Open() returns (ok: bool)
      modifies this`torn
      ensures ok == opens && torn == ""
    {
      ok, torn := opens, "";
    }

    method Write(data: string) returns (ok: bool)
      modifies this
      ensures ok == (old(credit) > 0)
      ensures credit == if ok then old(credit) - 1 else 0
      ensures writes == if ok then old(writes) + [data] else old(writes)
      ensures if ok then torn == old(torn) else torn <= data
    {
      ok := credit > 0;
      if ok {
        writes, credit := writes + [data], credit - 1;
      } else {
        var k: nat :| k <= |data|;
        torn := data[..k];
      }
    }
  }

  datatype Outcome = Sent | Rejected(count: nat) | OpenFailed | WriteFailed | CloseFailed

  /** Copies one line and its line feed to the end of the buffer. */
  method AppendLine(buf: array<char>, n: nat, p: string)
    requires n + |p| + 1 <= buf.Length
    modifies buf
    ensures buf[..n + |p| + 1] == old(buf[..n]) + p + "\n"
  {
    forall j | 0 <= j < |p| {
      buf[n + j] := p[j];
    }
    buf[n + |p|] := '\n';
  }

  lemma PackStep(outPaths: seq<string>, i: nat, lines: seq<string>)
    requires i < |outPaths| && lines == Accepted(outPaths[..i])
    ensures Accepted(outPaths[..i + 1]) == if Sendable(outPaths[i]) then lines + [outPaths[i]] else lines
    ensures RejectedCount(outPaths[..i + 1]) ==
              RejectedCount(outPaths[..i]) + if Sendable(outPaths[i]) then 0 else 1
    ensures Pack(lines + [outPaths[i]]) == Pack(lines).Add(outPaths[i])
  {
    assert outPaths[..i + 1][..i] == outPaths[..i];
    assert (lines + [outPaths[i]])[..|lines|] == lines;
  }

  lemma AddEncodes(p: Packed, line: string)
    ensures Encode([line]) == line + "\n"
    ensures Encode(p.open + [line]) == Encode(p.open) + line + "\n"
    ensures EncodeEach(p.done + [p.open]) == EncodeEach(p.done) + [Encode(p.open)]
  {
    EncodeSnoc(p.open, line);
    EncodeSnoc([], line);
    assert [] + [line] == [line];
  }

  /** Queues one acceptable line: flushes the buffer first when the line does not fit. */
  method Enqueue(dst: Pipe, buf: array<char>, n: nat, p: string, ghost packed: Packed, ghost before: seq<string>)
    returns (m: nat, ok: bool)
    requires buf.Length == PIPE_BUF && n <= PIPE_BUF && Sendable(p)
    requires buf[..n] == Encode(packed.open) && dst.writes == before + EncodeEach(packed.done)
    modifies dst, buf
    ensures m <= PIPE_BUF
    ensures ok ==> buf[..m] == Encode(packed.Add(p).open)
    ensures ok ==> dst.credit + |packed.Add(p).done| == old(dst.credit) + |packed.done|
    ensures ok ==> dst.writes == before + EncodeEach(packed.Add(p).done) && dst.torn == old(dst.torn)
    ensures !ok ==> dst.torn <= Encode(packed.open)
    ensures !ok ==> packed.Add(p).done == packed.done + [packed.open] && dst.writes == old(dst.writes)
    ensures !ok ==> old(dst.credit) == dst.credit == 0
  {
    AddEncodes(packed, p);
    ghost var next := packed.Add(p);
    assert |Encode(packed.open)| == n;
    m, ok := n, true;
    var lineSize := |p| + 1;
    if m + lineSize > PIPE_BUF {
      ok := dst.Write(buf[..m]);
      if !ok {
        return;
      }
      m := 0;
      assert buf[..m] + p + "\n" == p + "\n";
    }
    assert Encode(next.open) == buf[..m] + p + "\n";
    assert dst.writes == before + EncodeEach(next.done);
    AppendLine(buf, m, p);
    m := m + lineSize;
  }

  /** What the batching loop does to the pipe: everything is written and the exact number of rejected paths
      reported, or the pipe gives out after `credit` writes, at most a part of the next one takes effect, and
      the command ends at once. */
  ghost predicate Delivers(outPaths: seq<string>, credit: nat, written: seq<string>, torn: string, r: Outcome) {
    var ws, rejected := Writes(outPaths), RejectedCount(outPaths);
    if |ws| <= credit
    then written == ws && torn == "" && r == (if rejected == 0 then Sent else Rejected(rejected))
    else written == ws[..credit] && torn <= ws[credit] && r == WriteFailed
  }

  lemma FailsMidway(outPaths: seq<string>, k: nat, packed: Packed, torn: string)
    requires k <= |outPaths| && packed.done + [packed.open] <= Pack(Accepted(outPaths[..k])).done
    requires torn <= Encode(packed.open)
    ensures Delivers(outPaths, |packed.done|, EncodeEach(packed.done), torn, WriteFailed)
  {
    AcceptedPrefix(outPaths, k);
    AcceptedOrRejected(outPaths);
    var lines, part := Accepted(outPaths), Accepted(outPaths[..k]);
    assert lines[..|part|] == part;
    PackGrows(lines, |part|);
    var groups := Pack(lines).Groups();
    assert groups[..|packed.done|] == packed.done;
    assert groups[|packed.done|] == (packed.done + [packed.open])[|packed.done|];
    assert EncodeEach(groups)[..|packed.done|] == EncodeEach(packed.done);
  }

  lemma LastFlush(outPaths: seq<string>, packed: Packed)
    requires packed == Pack(Accepted(outPaths))
    ensures packed.open == [] <==> Encode(packed.open) == ""
    ensures Writes(outPaths) ==
              EncodeEach(packed.done) + (if packed.open == [] then [] else [Encode(packed.open)])
  {
    AddEncodes(packed, "");
  }

  method FlushRest(dst: Pipe, buf: array<char>, n: nat, nfailed: nat,
                   ghost outPaths: seq<string>, ghost packed: Packed, ghost before: seq<string>) returns (r: Outcome)
    requires n <= buf.Length && packed == Pack(Accepted(outPaths)) && nfailed == RejectedCount(outPaths)
    requires buf[..n] == Encode(packed.open) && dst.writes == before + EncodeEach(packed.done)
    requires dst.torn == ""
    modifies dst
    ensures before <= dst.writes
    ensures Delivers(outPaths, |packed.done| + old(dst.credit), dst.writes[|before|..], dst.torn, r)
  {
    LastFlush(outPaths, packed);
    if n > 0 {
      var ok := dst.Write(buf[..n]);
      if !ok {
        assert Writes(outPaths)[..|packed.done|] == EncodeEach(packed.done);
        return WriteFailed;
      }
    }
    r := if nfailed == 0 then Sent else Rejected(nfailed);
  }

  /** One pass of the batching loop: `p` is skipped and counted, or queued. */
  method SendOne(dst: Pipe, buf: array<char>, n: nat, nfailed: nat, outPaths: seq<string>, i: nat,
                 ghost packed: Packed, ghost before: seq<string>)
    returns (m: nat, failed: nat, ok: bool, ghost packed': Packed)
    requires buf.Length == PIPE_BUF && n <= PIPE_BUF && i < |outPaths|
    requires packed == Pack(Accepted(outPaths[..i])) && nfailed == RejectedCount(outPaths[..i])
    requires buf[..n] == Encode(packed.open) && dst.writes == before + EncodeEach(packed.done)
    requires dst.torn == ""
    modifies dst, buf
    ensures m <= PIPE_BUF
    ensures ok ==> dst.torn == ""
    ensures ok ==> packed' == Pack(Accepted(outPaths[..i + 1])) && failed == RejectedCount(outPaths[..i + 1])
    ensures ok ==> buf[..m] == Encode(packed'.open) && dst.writes == before + EncodeEach(packed'.done)
    ensures ok ==> |packed'.done| + dst.credit == |packed.done| + old(dst.credit)
    ensures !ok ==> before <= dst.writes && old(dst.credit) == 0
    ensures !ok ==> Delivers(outPaths, |packed.done|, dst.writes[|before|..], dst.torn, WriteFailed)
  {
    var p := outPaths[i];
    m, failed, ok, packed' := n, nfailed, true, packed;
    PackStep(outPaths, i, Accepted(outPaths[..i]));
    if '\n' in p {
      failed := failed + 1;
    } else if |p| + 1 > PIPE_BUF {
      failed := failed + 1;
    } else {
      packed' := packed.Add(p);
      m, ok := Enqueue(dst, buf, n, p, packed, before);
      if !ok {
        FailsMidway(outPaths, i + 1, packed, dst.torn);
      }
    }
  }

  /** The batching loop over a fixed 512-byte buffer. */
  method SendBatches(dst: Pipe, outPaths: seq<string>) returns (r: Outcome)
    requires dst.torn == ""
    modifies dst
    ensures old(dst.writes) <= dst.writes
    ensures Delivers(outPaths, old(dst.credit), dst.writes[|old(dst.writes)|..], dst.torn, r)
  {
    var buf := new char[PIPE_BUF];
    var n, nfailed, i := 0, 0, 0;
    ghost var packed := Packed([], []);
    while i < |outPaths|
      invariant 0 <= i <= |outPaths| && 0 <= n <= PIPE_BUF && fresh(buf)
      invariant packed == Pack(Accepted(outPaths[..i])) && nfailed == RejectedCount(outPaths[..i])
      invariant buf[..n] == Encode(packed.open)
      invariant dst.writes == old(dst.writes) + EncodeEach(packed.done)
      invariant |packed.done| + dst.credit == old(dst.credit) && dst.torn == ""
    {
      var ok;
      n, nfailed, ok, packed := SendOne(dst, buf, n, nfailed, outPaths, i, packed, old(dst.writes));
      if !ok {
        return WriteFailed;
      }
      i := i + 1;
    }
    assert outPaths[..i] == outPaths;
    r := FlushRest(dst, buf, n, nfailed, outPaths, packed, old(dst.writes));
  }

  /** The whole command. An error in closing is reported when there is no other. */
  method RunSend(dst: Pipe, outPaths: seq<string>) returns (r: Outcome)
    modifies dst
    ensures old(dst.writes) <= dst.writes
    ensures if !dst.opens then r == OpenFailed && dst.writes == old(dst.writes)
            else Delivers(outPaths, old(dst.credit), dst.writes[|old(dst.writes)|..], dst.torn,
                          if r == CloseFailed then Sent else r)
    ensures (r == Sent ==> dst.closes) && (r == CloseFailed ==> !dst.closes)
  {
    var ok := dst.Open();
    if !ok {
      return OpenFailed;
    }
    r := SendBatches(dst, outPaths);
    if r == Sent && !dst.closes {
      r := CloseFailed;
    }
  }
}
