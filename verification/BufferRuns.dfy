/** Runs of calls on one buffer: what lines come out does not depend on how the
    input was cut into chunks, nor on when they are read.
 */
module BufferRuns {
  import opened Buffer

  datatype Op = Fill(chunk: string) | Read | Flush | Clear

  /** What a call returns: whether the chunk was taken, a line, all the contents, or nothing. */
  datatype Reply = Taken(whole: bool) | Line(text: string) | Rest(text: string) | Nothing

  datatype State = State(contents: string, valid: bool)

  /** The place of the first newline from `i` on, or the end. */
  function Newline(s: string, i: nat): (r: nat)
    requires i <= |s|
    ensures i <= r <= |s| && (r < |s| ==> s[r] == '\n') && forall j :: i <= j < r ==> s[j] != '\n'
    decreases |s| - i
  {
    if i == |s| || s[i] == '\n' then i else Newline(s, i + 1)
  }

  function ReplyTo(s: State, maxSize: nat, op: Op): Reply {
    match op
    case Fill(chunk) => Taken(s.valid && |s.contents| + |chunk| <= maxSize)
    case Read =>
      var i := Newline(s.contents, 0);
      if s.valid && i < |s.contents| then Line(s.contents[..i]) else Nothing
    case Flush => if s.valid && s.contents != [] then Rest(s.contents) else Nothing
    case Clear => Nothing
  }

  function Next(s: State, maxSize: nat, op: Op): State {
    match op
    case Fill(chunk) =>
      if ReplyTo(s, maxSize, op).whole then s.(contents := s.contents + chunk) else s.(valid := false)
    case Read =>
      if ReplyTo(s, maxSize, op).Line? then s.(contents := s.contents[Newline(s.contents, 0) + 1..]) else s
    case Flush => s
    case Clear => State([], true)
  }

  /** A new buffer after the first `n` calls. */
  function At(maxSize: nat, ops: seq<Op>, n: nat): State
    requires n <= |ops|
  {
    if n == 0 then State([], true) else Next(At(maxSize, ops, n - 1), maxSize, ops[n - 1])
  }

  function ReplyAt(maxSize: nat, ops: seq<Op>, n: nat): Reply
    requires n < |ops|
  {
    ReplyTo(At(maxSize, ops, n), maxSize, ops[n])
  }

  /** What was filled in since the last clear, taken or not. */
  function Input(ops: seq<Op>, n: nat): string
    requires n <= |ops|
  {
    if n == 0 || ops[n - 1].Clear? then []
    else Input(ops, n - 1) + if ops[n - 1].Fill? then ops[n - 1].chunk else []
  }

  /** What was taken since the last clear. */
  function Accepted(maxSize: nat, ops: seq<Op>, n: nat): string
    requires n <= |ops|
  {
    if n == 0 || ops[n - 1].Clear? then []
    else
      Accepted(maxSize, ops, n - 1)
      + if ops[n - 1].Fill? && ReplyAt(maxSize, ops, n - 1).whole then ops[n - 1].chunk else []
  }

  /** The lines read since the last clear. */
  function LinesRead(maxSize: nat, ops: seq<Op>, n: nat): seq<string>
    requires n <= |ops|
  {
    if n == 0 || ops[n - 1].Clear? then []
    else
      var reply := ReplyAt(maxSize, ops, n - 1);
      LinesRead(maxSize, ops, n - 1) + if reply.Line? then [reply.text] else []
  }

  // ----- the buffer behaves like that

  lemma NewlineAt(a: string, s: string)
    ensures var x := a + ['\n'] + s;
            x[|a|] == '\n' && x[..|a|] == a && x[|a| + 1..] == s && forall i :: 0 <= i < |a| ==> x[i] == a[i]
  {
  }

  lemma FirstNewline(line: string, rest: string)
    requires NoNewline(line)
    ensures var x := line + ['\n'] + rest;
            Newline(x, 0) == |line| && x[..|line|] == line && x[|line| + 1..] == rest
  {
    NewlineAt(line, rest);
  }

  /** A read of valid contents gets the text before the first newline and leaves what is
      behind it. */
  lemma ReadGetsLine(s: State, maxSize: nat, line: string, rest: string)
    requires s.valid && NoNewline(line) && s.contents == line + ['\n'] + rest
    ensures ReplyTo(s, maxSize, Read) == Line(line) && Next(s, maxSize, Read) == State(rest, true)
  {
    FirstNewline(line, rest);
  }

  /** Without a newline, or invalid, it gets nothing and changes nothing. */
  lemma ReadGetsNothing(s: State, maxSize: nat)
    requires !s.valid || NoNewline(s.contents)
    ensures ReplyTo(s, maxSize, Read) == Nothing && Next(s, maxSize, Read) == s
  {
    var i := Newline(s.contents, 0);
    assert i < |s.contents| ==> s.contents[i] == '\n';
  }

  /** One call on a buffer that has come to the state `s`; `dst` and `size` are the
      caller's memory for texts.  The length of a line shows in how much the buffer shrinks. */
  method Call(buffer: Buffer, op: Op, dst: array<char>, size: nat, ghost s: State)
    returns (reply: Reply, dst': array<char>, size': nat)
    requires buffer.Valid() && size <= dst.Length && dst != buffer.data
    requires s == State(buffer.Contents(), buffer.valid)
    modifies buffer, buffer.data, dst
    ensures buffer.Valid() && (buffer.data == old(buffer.data) || fresh(buffer.data))
    ensures size' <= dst'.Length && dst' != buffer.data && (dst' == dst || fresh(dst'))
    ensures State(buffer.Contents(), buffer.valid) == Next(s, buffer.maxSize, op)
    ensures reply == ReplyTo(s, buffer.maxSize, op)
  {
    reply, dst', size' := Nothing, dst, size;
    match op
    case Fill(chunk) =>
      var accepted := buffer.Fill(chunk);
      reply := Taken(accepted);
    case Read =>
      var before := buffer.len;
      var found;
      ghost var line;
      found, dst', size', line := buffer.ReadLine(dst, size);
      if found {
        FirstNewline(line, buffer.Contents());
        reply := Line(dst'[..before - buffer.len - 1]);
      }
    case Flush =>
      var flushed;
      flushed, dst', size' := buffer.Flush(dst, size);
      if flushed {
        reply := Rest(dst'[..buffer.len]);
      }
    case Clear =>
      buffer.Clear();
  }

  /** Any sequence of calls on a new buffer. */
  method Run(maxSize: nat, ops: seq<Op>) returns (buffer: Buffer, replies: seq<Reply>)
    requires 0 < maxSize <= BUFFER_LIMIT
    ensures fresh(buffer) && buffer.Valid() && State(buffer.Contents(), buffer.valid) == At(maxSize, ops, |ops|)
    ensures |replies| == |ops| && forall i :: 0 <= i < |ops| ==> replies[i] == ReplyAt(maxSize, ops, i)
  {
    buffer := new Buffer(maxSize);
    replies := [];
    var dst: array<char>, size: nat := new char[0], 0;
    for n := 0 to |ops|
      invariant buffer.Valid() && fresh(buffer) && fresh(buffer.data) && buffer.maxSize == maxSize
      invariant fresh(dst) && dst != buffer.data && size <= dst.Length
      invariant State(buffer.Contents(), buffer.valid) == At(maxSize, ops, n)
      invariant |replies| == n && forall i :: 0 <= i < n ==> replies[i] == ReplyAt(maxSize, ops, i)
    {
      var reply;
      reply, dst, size := Call(buffer, ops[n], dst, size, At(maxSize, ops, n));
      replies := replies + [reply];
    }
  }

  // ----- draining

  /** `lines` were read and `rest` is left of what was accepted. */
  ghost predicate Drained(lines: seq<string>, rest: string, accepted: string) {
    Lines(lines) && Joined(lines, 0) + rest == accepted
  }

  lemma DrainedFill(lines: seq<string>, rest: string, accepted: string, chunk: string)
    requires Drained(lines, rest, accepted)
    ensures Drained(lines, rest + chunk, accepted + chunk)
  {
    Regroup(Joined(lines, 0), rest, chunk);
  }

  lemma DrainedRead(lines: seq<string>, rest: string, rest': string, accepted: string, line: string)
    requires Drained(lines, rest, accepted) && NoNewline(line) && rest == (line + ['\n']) + rest'
    ensures Drained(lines + [line], rest', accepted)
  {
    JoinedMore(lines, line, 0);
    Regroup(Joined(lines, 0), line + ['\n'], rest');
  }

  lemma Unfilled(lines: seq<string>, accepted: string)
    ensures lines + [] == lines && accepted + [] == accepted
  {
  }

  /** After any calls, the lines read, with their newlines put back, and the contents
      are together exactly what was accepted. */
  lemma {:induction false} RunDrains(maxSize: nat, ops: seq<Op>, n: nat)
    requires n <= |ops|
    ensures Drained(LinesRead(maxSize, ops, n), At(maxSize, ops, n).contents, Accepted(maxSize, ops, n))
  {
    if n > 0 && !ops[n - 1].Clear? {
      RunDrains(maxSize, ops, n - 1);
      var s, lines, accepted := At(maxSize, ops, n - 1), LinesRead(maxSize, ops, n - 1), Accepted(maxSize, ops, n - 1);
      var reply := ReplyAt(maxSize, ops, n - 1);
      Unfilled(lines, accepted);
      if reply.Taken? && reply.whole {
        DrainedFill(lines, s.contents, accepted, ops[n - 1].chunk);
      } else if reply.Line? {
        var i := Newline(s.contents, 0);
        CutAt(s.contents, i);
        DrainedRead(lines, s.contents, s.contents[i + 1..], accepted, reply.text);
      }
    }
  }

  /** Reads come to the end of the lines: `k` of them leave no newline, or have made the
      contents shorter by `k`. */
  lemma {:induction false} ReadsDrain(maxSize: nat, ops: seq<Op>, n: nat, k: nat)
    requires n + k <= |ops| && At(maxSize, ops, n).valid && forall i :: n <= i < n + k ==> ops[i] == Read
    ensures At(maxSize, ops, n + k).valid
    ensures NoNewline(At(maxSize, ops, n + k).contents) || |At(maxSize, ops, n + k).contents| + k <= |At(maxSize, ops, n).contents|
  {
    if k > 0 {
      ReadsDrain(maxSize, ops, n, k - 1);
      var s := At(maxSize, ops, n + k - 1);
      if NoNewline(s.contents) {
        ReadGetsNothing(s, maxSize);
      } else {
        var i := Newline(s.contents, 0);
        CutAt(s.contents, i);
        ReadGetsLine(s, maxSize, s.contents[..i], s.contents[i + 1..]);
      }
    }
  }

  /** Input within the maximum is always taken. */
  lemma {:induction false} SmallInputAccepted(maxSize: nat, ops: seq<Op>, n: nat)
    requires n <= |ops| && |Input(ops, n)| <= maxSize
    ensures At(maxSize, ops, n).valid && Accepted(maxSize, ops, n) == Input(ops, n)
    ensures |At(maxSize, ops, n).contents| <= |Input(ops, n)|
  {
    if n > 0 && !ops[n - 1].Clear? {
      SmallInputAccepted(maxSize, ops, n - 1);
    }
  }

  /** What starts with a line is cut at its newline, whatever follows. */
  lemma FirstLine(a: string, b: string, s: string, t: string)
    requires NoNewline(a) && NoNewline(b) && a + ['\n'] + s == b + ['\n'] + t
    ensures a == b && s == t
  {
    NewlineAt(a, s);
    NewlineAt(b, t);
  }

  lemma NoLineLeft(a: string, s: string)
    ensures !NoNewline(a + ['\n'] + s)
  {
    NewlineAt(a, s);
  }

  /** There is one way to split a text into lines and a rest without a newline. */
  lemma {:induction false} SplitIsUnique(lines: seq<string>, lines': seq<string>, rest: string, rest': string, n: nat)
    requires Lines(lines) && Lines(lines') && NoNewline(rest) && NoNewline(rest') && n <= |lines| && n <= |lines'|
    requires Joined(lines, n) + rest == Joined(lines', n) + rest'
    ensures |lines| == |lines'| && (forall i :: n <= i < |lines| ==> lines[i] == lines'[i]) && rest == rest'
    decreases |lines| - n
  {
    assert [] + rest == rest && [] + rest' == rest';
    if n < |lines| {
      Regroup(lines[n] + ['\n'], Joined(lines, n + 1), rest);
      NoLineLeft(lines[n], Joined(lines, n + 1) + rest);
    }
    if n < |lines'| {
      Regroup(lines'[n] + ['\n'], Joined(lines', n + 1), rest');
      NoLineLeft(lines'[n], Joined(lines', n + 1) + rest');
    }
    if n < |lines| && n < |lines'| {
      FirstLine(lines[n], lines'[n], Joined(lines, n + 1) + rest, Joined(lines', n + 1) + rest');
      SplitIsUnique(lines, lines', rest, rest', n + 1);
    }
  }

  /** Two runs that accepted the same input in whatever chunks, and have no line left to
      read, have read the same lines and keep the same rest. */
  lemma ChunkingIsIrrelevant(maxSize: nat, ops: seq<Op>, n: nat, maxSize': nat, ops': seq<Op>, n': nat)
    requires n <= |ops| && n' <= |ops'| && Accepted(maxSize, ops, n) == Accepted(maxSize', ops', n')
    requires NoNewline(At(maxSize, ops, n).contents) && NoNewline(At(maxSize', ops', n').contents)
    ensures LinesRead(maxSize, ops, n) == LinesRead(maxSize', ops', n')
    ensures At(maxSize, ops, n).contents == At(maxSize', ops', n').contents
  {
    RunDrains(maxSize, ops, n);
    RunDrains(maxSize', ops', n');
    SplitIsUnique(LinesRead(maxSize, ops, n), LinesRead(maxSize', ops', n'),
                  At(maxSize, ops, n).contents, At(maxSize', ops', n').contents, 0);
  }

  /** The same in terms of the callers' input, as long as it fits. */
  lemma SameInputSameLines(maxSize: nat, ops: seq<Op>, n: nat, maxSize': nat, ops': seq<Op>, n': nat)
    requires n <= |ops| && n' <= |ops'| && Input(ops, n) == Input(ops', n')
    requires |Input(ops, n)| <= maxSize && |Input(ops, n)| <= maxSize'
    requires NoNewline(At(maxSize, ops, n).contents) && NoNewline(At(maxSize', ops', n').contents)
    ensures LinesRead(maxSize, ops, n) == LinesRead(maxSize', ops', n')
    ensures At(maxSize, ops, n).contents == At(maxSize', ops', n').contents
  {
    SmallInputAccepted(maxSize, ops, n);
    SmallInputAccepted(maxSize', ops', n');
    ChunkingIsIrrelevant(maxSize, ops, n, maxSize', ops', n');
  }
}
