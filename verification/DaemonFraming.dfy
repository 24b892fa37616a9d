/** The line framing of the daemon's answers (runtime/daemon_client.py). */
module DaemonFraming {
  import opened Wrappers

  type Byte = b: int | 0 <= b < 256

  /** What one receive call brings before the end of the stream; it is never empty. */
  type Chunk = s: seq<Byte> | |s| > 0 witness [0]

  const NEWLINE: Byte := 0x0A

  /** The bytes that `bytes.strip` removes. */
  predicate IsBlankByte(b: Byte) {
    b == 0x20 || 0x09 <= b <= 0x0D
  }

  predicate IsBlankLine(line: seq<Byte>) {
    forall i | 0 <= i < |line| :: IsBlankByte(line[i])
  }

  function Flatten(chunks: seq<Chunk>): seq<Byte> {
    if chunks == [] then [] else Flatten(chunks[..|chunks| - 1]) + chunks[|chunks| - 1]
  }

  // ---------------------------------------------------------------------------
  // The lines of a stream
  // ---------------------------------------------------------------------------

  function FirstLine(s: seq<Byte>): (line: seq<Byte>)
    ensures |line| <= |s|
  {
    if s == [] || s[0] == NEWLINE then [] else [s[0]] + FirstLine(s[1..])
  }

  predicate HasNewline(s: seq<Byte>) {
    NEWLINE in s
  }

  /** What follows the first newline. */
  function AfterFirstLine(s: seq<Byte>): (rest: seq<Byte>)
    ensures HasNewline(s) ==> |rest| < |s|
  {
    if s == [] then [] else if s[0] == NEWLINE then s[1..] else
      assert HasNewline(s) ==> HasNewline(s[1..]);
      AfterFirstLine(s[1..])
  }

  /** The newline-separated parts of a stream, the last one unterminated. */
  function Lines(s: seq<Byte>): seq<seq<Byte>>
    decreases |s|
  {
    if HasNewline(s) then [FirstLine(s)] + Lines(AfterFirstLine(s)) else [s]
  }

  function NonBlank(lines: seq<seq<Byte>>): seq<seq<Byte>> {
    if lines == [] then []
    else (if IsBlankLine(lines[0]) then [] else [lines[0]]) + NonBlank(lines[1..])
  }

  function Join(lines: seq<seq<Byte>>): seq<Byte> {
    if lines == [] then [] else if |lines| == 1 then lines[0] else lines[0] + [10] + Join(lines[1..])
  }

  lemma {:induction false} FirstLineSplits(s: seq<Byte>)
    ensures !HasNewline(FirstLine(s))
    ensures s == FirstLine(s) + if HasNewline(s) then [NEWLINE] + AfterFirstLine(s) else []
  {
    if s != [] && s[0] != NEWLINE {
      FirstLineSplits(s[1..]);
      assert HasNewline(s) <==> HasNewline(s[1..]);
      assert s == [s[0]] + s[1..];
    }
  }

  /** The lines are what the newlines separate: no line has one, and joined they give the stream. */
  lemma {:induction false} LinesAreRight(s: seq<Byte>)
    ensures Lines(s) != [] && Join(Lines(s)) == s
    ensures forall k | 0 <= k < |Lines(s)| :: 10 !in Lines(s)[k]
    decreases |s|
  {
    if HasNewline(s) {
      FirstLineSplits(s);
      LinesAreRight(AfterFirstLine(s));
      assert Lines(s)[1..] == Lines(AfterFirstLine(s));
    }
  }

  lemma {:induction false} FirstLineOf(a: seq<Byte>, b: seq<Byte>)
    requires HasNewline(a)
    ensures FirstLine(a + b) == FirstLine(a) && AfterFirstLine(a + b) == AfterFirstLine(a) + b && HasNewline(a + b)
  {
    if a[0] == NEWLINE {
      assert (a + b)[1..] == a[1..] + b;
    } else {
      FirstLineOf(a[1..], b);
      assert (a + b)[1..] == a[1..] + b;
    }
    assert a <= a + b;
  }

  /** Something else than spaces, tabs, line and page breaks. */
  ghost predicate SaysSomething(line: seq<Byte>) {
    exists b :: b in line && b !in [9, 10, 11, 12, 13, 32]
  }

  lemma BlankOrNot(line: seq<Byte>)
    ensures IsBlankLine(line) <==> !SaysSomething(line)
  {
    if !IsBlankLine(line) {
      var i :| 0 <= i < |line| && !IsBlankByte(line[i]);
      assert line[i] in line;
    }
  }

  /** Exactly the lines that say something are kept. */
  lemma {:induction false} NonBlankKeeps(lines: seq<seq<Byte>>, line: seq<Byte>)
    ensures line in NonBlank(lines) <==> line in lines && SaysSomething(line)
  {
    if lines != [] {
      BlankOrNot(lines[0]);
      NonBlankKeeps(lines[1..], line);
      assert lines == [lines[0]] + lines[1..];
    }
  }

  lemma NonBlankOneMore(line: seq<Byte>, rest: seq<seq<Byte>>)
    ensures NonBlank([line] + rest) == (if IsBlankLine(line) then [] else [line]) + NonBlank(rest)
  {
    assert ([line] + rest)[1..] == rest;
  }

  // ---------------------------------------------------------------------------
  // The readers
  // ---------------------------------------------------------------------------

  /** The inner loop of `daemon_stream_request`: yield the complete lines and keep the rest. */
  method CutLines(received: seq<Byte>, yielded: seq<seq<Byte>>, ghost future: seq<Byte>)
    returns (buffer: seq<Byte>, lines: seq<seq<Byte>>)
    ensures !HasNewline(buffer)
    ensures lines + NonBlank(Lines(buffer + future)) == yielded + NonBlank(Lines(received + future))
    ensures yielded <= lines
  {
    buffer, lines := received, yielded;
    while HasNewline(buffer)
      invariant lines + NonBlank(Lines(buffer + future)) == yielded + NonBlank(Lines(received + future))
      invariant yielded <= lines
      decreases |buffer|
    {
      FirstLineOf(buffer, future);
      NonBlankOneMore(FirstLine(buffer), Lines(AfterFirstLine(buffer) + future));
      var line := FirstLine(buffer);
      buffer := AfterFirstLine(buffer);
      if !IsBlankLine(line) {
        lines := lines + [line];
      }
    }
  }

  function FlattenFrom(chunks: seq<Chunk>, i: nat): seq<Byte>
    requires i <= |chunks|
    decreases |chunks| - i
  {
    if i == |chunks| then [] else chunks[i] + FlattenFrom(chunks, i + 1)
  }

  lemma {:induction false} FlattenSplits(chunks: seq<Chunk>, i: nat)
    requires i <= |chunks|
    ensures Flatten(chunks) == Flatten(chunks[..i]) + FlattenFrom(chunks, i)
    decreases |chunks| - i
  {
    if i == |chunks| {
      assert chunks[..i] == chunks;
    } else {
      FlattenSplits(chunks, i + 1);
      assert chunks[..i + 1][..i] == chunks[..i];
    }
  }

  /** `daemon_stream_request`: whatever the chunks, the lines are those of the whole stream that are
      not blank, in order, and the unterminated last one among them. */
  method StreamLines(chunks: seq<Chunk>) returns (lines: seq<seq<Byte>>)
    ensures lines == NonBlank(Lines(Flatten(chunks)))
    ensures forall line :: line in lines <==> line in Lines(Flatten(chunks)) && SaysSomething(line)
  {
    var buffer: seq<Byte> := [];
    lines := [];
    FlattenSplits(chunks, 0);
    for i := 0 to |chunks|
      invariant !HasNewline(buffer)
      invariant lines + NonBlank(Lines(buffer + FlattenFrom(chunks, i))) == NonBlank(Lines(Flatten(chunks)))
    {
      assert buffer + FlattenFrom(chunks, i) == buffer + chunks[i] + FlattenFrom(chunks, i + 1);
      buffer, lines := CutLines(buffer + chunks[i], lines, FlattenFrom(chunks, i + 1));
    }
    assert buffer + [] == buffer;
    if !IsBlankLine(buffer) {
      lines := lines + [buffer];
    }
    forall line ensures line in lines <==> line in Lines(Flatten(chunks)) && SaysSomething(line) {
      NonBlankKeeps(Lines(Flatten(chunks)), line);
    }
  }

  /** `daemon_payload_request`: it stops at the first chunk with a newline, and its answer is the
      first line of the whole stream; an empty one is an error. */
  method PayloadLine(chunks: seq<Chunk>) returns (line: Option<seq<Byte>>, read: nat)
    ensures read <= |chunks|
    ensures line == if FirstLine(Flatten(chunks)) == [] then None else Some(FirstLine(Flatten(chunks)))
    ensures forall i | 0 <= i < read - 1 :: !HasNewline(chunks[i])
    ensures read < |chunks| ==> read > 0 && HasNewline(chunks[read - 1])
  {
    var received: seq<Byte> := [];
    read := 0;
    var done := false;
    while read < |chunks| && !done
      invariant read <= |chunks| && received == Flatten(chunks[..read])
      invariant forall i | 0 <= i < read - 1 :: !HasNewline(chunks[i])
      invariant if done then read > 0 && HasNewline(chunks[read - 1])
                else forall i | 0 <= i < read :: !HasNewline(chunks[i])
      decreases |chunks| - read
    {
      assert chunks[..read + 1][..read] == chunks[..read];
      received := received + chunks[read];
      done := HasNewline(chunks[read]);
      read := read + 1;
    }
    FlattenSplits(chunks, read);
    if done {
      var before := Flatten(chunks[..read - 1]);
      assert chunks[..read][..read - 1] == chunks[..read - 1];
      assert NEWLINE in chunks[read - 1];
      assert NEWLINE in received;
      FirstLineOf(received, FlattenFrom(chunks, read));
    } else {
      assert received + [] == received;
    }
    var first := FirstLine(received);
    line := if first == [] then None else Some(first);
  }
}
