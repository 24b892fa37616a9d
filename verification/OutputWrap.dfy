/** Wrapping of command-line output (common/cli_output.py). */
module OutputWrap {
  import opened Text

  // ---------------------------------------------------------------------------
  // One line
  // ---------------------------------------------------------------------------

  /** `remaining.rfind(" ", 0, limit)`, or -1. */
  function LastBlankBefore(s: string, limit: nat): (at: int)
    ensures -1 <= at < limit && (at >= 0 ==> at < |s| && s[at] == ' ')
    ensures forall i | at < i < limit && 0 <= i < |s| :: s[i] != ' '
  {
    if limit == 0 then -1
    else if limit - 1 < |s| && s[limit - 1] == ' ' then limit - 1
    else LastBlankBefore(s, limit - 1)
  }

  type Width = n: nat | n > 0 witness 1

  function SoftFloor(width: Width): Width {
    if width / 2 < 1 then 1 else width / 2
  }

  /** At the last blank that fits, unless that is in the first half: then at the full width. */
  function SoftBreak(line: string, width: Width): (at: Width)
    ensures at <= width
  {
    var blank := LastBlankBefore(line, width + 1);
    if blank < SoftFloor(width) then width else blank
  }

  /** Where a line that is too long is broken: not after blanks alone. */
  function BreakAt(line: string, width: Width): (at: Width)
    requires |line| > width
    ensures at <= width
  {
    var at := SoftBreak(line, width);
    if TrimRight(line[..at]) == [] then width else at
  }

  /** The piece before the break; where there would be none, all of the width. */
  function FirstPiece(line: string, width: Width): (piece: string)
    requires |line| > width
    ensures 0 < |piece| <= width
  {
    var head := TrimRight(line[..SoftBreak(line, width)]);
    if head == [] then line[..width] else head
  }

  function WrapLine(line: string, width: Width): seq<string>
    decreases |line|
  {
    if |line| <= width then [line]
    else [FirstPiece(line, width)] + WrapLine(TrimLeft(line[BreakAt(line, width)..]), width)
  }

  /** What follows the break, without the blanks it starts with. */
  function Remaining(line: string, width: Width): string
    requires |line| > width
  {
    TrimLeft(line[BreakAt(line, width)..])
  }

  /** A blank a line may be broken at: it fits, and is not in the first half. */
  ghost predicate FitsBlank(line: string, width: nat, i: nat) {
    i < |line| && line[i] == ' ' && 1 <= i && width / 2 <= i <= width
  }

  /** The last such blank, or the full width when there is none. */
  ghost predicate IsLastBlank(line: string, width: nat, at: nat) {
    if exists i: nat :: FitsBlank(line, width, i) then
      FitsBlank(line, width, at) && forall i: nat | FitsBlank(line, width, i) :: i <= at
    else at == width
  }

  /** `piece` is `text` without the blanks at its end. */
  ghost predicate IsTrimmedRight(piece: string, text: string) {
    && piece <= text && (piece != [] ==> !IsSpace(piece[|piece| - 1]))
    && forall k | |piece| <= k < |text| :: IsSpace(text[k])
  }

  /** `rest` is `text` without the blanks at its start. */
  ghost predicate IsTrimmedLeft(rest: string, text: string) {
    && |rest| <= |text| && rest == text[|text| - |rest|..] && (rest != [] ==> !IsSpace(rest[0]))
    && forall k | 0 <= k < |text| - |rest| :: IsSpace(text[k])
  }

  /** A line is cut at its last blank that fits, the blanks around the cut left out; where that would leave
      nothing, after the full width. */
  ghost predicate IsCut(line: string, width: nat, at: nat, piece: string, rest: string)
    requires at <= |line| && width <= |line|
  {
    if forall k | 0 <= k < at :: IsSpace(line[k]) then piece == line[..width] && IsTrimmedLeft(rest, line[width..])
    else IsTrimmedRight(piece, line[..at]) && IsTrimmedLeft(rest, line[at..])
  }

  lemma SoftBreakIsLastBlank(line: string, width: Width)
    requires |line| > width
    ensures IsLastBlank(line, width, SoftBreak(line, width))
  {
    var blank := LastBlankBefore(line, width + 1);
    if blank >= SoftFloor(width) {
      assert FitsBlank(line, width, blank);
    }
  }

  lemma TrimRightIsTrimmed(text: string)
    ensures IsTrimmedRight(TrimRight(text), text)
  {
    TrimRightSplits(text);
    var n := |TrimRight(text)|;
    assert forall k | n <= k < |text| :: text[k] == text[n..][k - n];
  }

  lemma TrimLeftIsTrimmed(text: string)
    ensures IsTrimmedLeft(TrimLeft(text), text)
  {
    TrimLeftSplits(text);
    assert forall k | 0 <= k < |LeadingBlank(text)| :: text[k] == LeadingBlank(text)[k];
  }

  /** Where a line is cut, and what the cut leaves. */
  lemma BreaksAtLastBlank(line: string, width: Width)
    requires |line| > width
    ensures IsLastBlank(line, width, SoftBreak(line, width))
    ensures IsCut(line, width, SoftBreak(line, width), FirstPiece(line, width), Remaining(line, width))
  {
    SoftBreakIsLastBlank(line, width);
    var at, from := SoftBreak(line, width), BreakAt(line, width);
    var head := TrimRight(line[..at]);
    TrimRightIsTrimmed(line[..at]);
    TrimLeftIsTrimmed(line[from..]);
    if head == [] {
      assert forall k | 0 <= k < at :: line[k] == line[..at][k];
    } else {
      assert line[..at][|head| - 1] == head[|head| - 1] == line[|head| - 1];
    }
  }

  method TakePiece(line: string, width: Width, softFloor: Width) returns (chunk: string, rest: string)
    requires |line| > width && softFloor == SoftFloor(width)
    ensures chunk == FirstPiece(line, width) && rest == Remaining(line, width)
  {
    var breakAt := LastBlankBefore(line, width + 1);
    if breakAt < softFloor {
      breakAt := width;
    }
    chunk := TrimRight(line[..breakAt]);
    if chunk == [] {
      chunk := line[..width];
      breakAt := width;
    }
    rest := TrimLeft(line[breakAt..]);
  }

  lemma Regroup(a: seq<string>, b: string, c: seq<string>)
    ensures a + [b] + c == a + ([b] + c)
  {
  }

  /** `_wrap_output_line` */
  method WrapOutputLine(line: string, width: Width) returns (chunks: seq<string>)
    ensures chunks == WrapLine(line, width)
  {
    if |line| <= width {
      return [line];
    }
    chunks := [];
    var remaining := line;
    var softFloor := SoftFloor(width);
    while |remaining| > width
      invariant chunks + WrapLine(remaining, width) == WrapLine(line, width)
      decreases |remaining|
    {
      var chunk, rest := TakePiece(remaining, width, softFloor);
      Regroup(chunks, chunk, WrapLine(rest, width));
      chunks := chunks + [chunk];
      remaining := rest;
    }
    chunks := chunks + [remaining];
  }

  // ---------------------------------------------------------------------------
  // What a wrapped line keeps
  // ---------------------------------------------------------------------------

  /** The characters that are not blank. */
  function Solid(s: string): string {
    if s == [] then [] else (if IsSpace(s[0]) then [] else [s[0]]) + Solid(s[1..])
  }

  function SolidAll(lines: seq<string>): string {
    if lines == [] then [] else Solid(lines[0]) + SolidAll(lines[1..])
  }

  lemma {:induction false} SolidTogether(a: string, b: string)
    ensures Solid(a + b) == Solid(a) + Solid(b)
  {
    if a == [] {
      assert a + b == b;
    } else {
      assert (a + b)[1..] == a[1..] + b;
      SolidTogether(a[1..], b);
    }
  }

  lemma {:induction false} SolidOfBlank(s: string)
    requires Blank(s)
    ensures Solid(s) == []
  {
    if s != [] {
      SolidOfBlank(s[1..]);
    }
  }

  lemma {:induction false} SolidOfSolid(s: string)
    requires NoSpace(s)
    ensures Solid(s) == s
  {
    if s != [] {
      SolidOfSolid(s[1..]);
      assert s == [s[0]] + s[1..];
    }
  }

  lemma SolidTrimmed(s: string)
    ensures Solid(TrimLeft(s)) == Solid(s) == Solid(TrimRight(s))
  {
    TrimLeftSplits(s);
    SolidOfBlank(LeadingBlank(s));
    SolidTogether(LeadingBlank(s), TrimLeft(s));
    TrimRightSplits(s);
    var tail := s[|TrimRight(s)|..];
    SolidOfBlank(tail);
    SolidTogether(TrimRight(s), tail);
    assert s == TrimRight(s) + tail;
  }

  lemma {:induction false} BreakIsRight(line: string, width: Width)
    requires |line| > width
    ensures Solid(FirstPiece(line, width)) + Solid(Remaining(line, width)) == Solid(line)
  {
    var at := BreakAt(line, width);
    assert line == line[..at] + line[at..];
    SolidTogether(line[..at], line[at..]);
    SolidTrimmed(line[..at]);
    SolidTrimmed(line[at..]);
  }

  /** A wrapped line keeps every character that is not blank, in order, in pieces that fit. */
  lemma {:induction false} WrapKeepsText(line: string, width: Width)
    ensures SolidAll(WrapLine(line, width)) == Solid(line)
    ensures WrapLine(line, width) != []
    ensures forall k | 0 <= k < |WrapLine(line, width)| :: |WrapLine(line, width)[k]| <= width
    decreases |line|
  {
    if |line| > width {
      var rest := Remaining(line, width);
      WrapKeepsText(rest, width);
      BreakIsRight(line, width);
      assert WrapLine(line, width)[1..] == WrapLine(rest, width);
    } else {
      assert [line][1..] == [];
      assert Solid(line) + SolidAll([]) == Solid(line);
    }
  }

  // ---------------------------------------------------------------------------
  // A text
  // ---------------------------------------------------------------------------

  predicate OneLine(s: string) {
    forall i | 0 <= i < |s| :: s[i] != '\n'
  }

  function NewlineAt(s: string): (n: nat)
    ensures n <= |s| && (n < |s| ==> s[n] == '\n')
  {
    if s == [] || s[0] == '\n' then 0 else 1 + NewlineAt(s[1..])
  }

  /** The parts between the newlines. */
  function Lines(s: string): seq<string>
    decreases |s|
  {
    var n := NewlineAt(s);
    if n == |s| then [s] else [s[..n]] + Lines(s[n + 1..])
  }

  function Join(lines: seq<string>): string {
    if lines == [] then [] else if |lines| == 1 then lines[0] else lines[0] + ("\n" + Join(lines[1..]))
  }

  /** What the wrapping looks at besides the text: whether a text is a JSON document is left open. */
  datatype Options = Options(width: int, keepDocuments: bool, keepLines: bool, isJson: string -> bool) {
    predicate KeepsLine(line: string) {
      keepLines && |line| > width && isJson(line)
    }

    function Pieces(line: string): seq<string>
      requires width > 0
    {
      if KeepsLine(line) then [line] else WrapLine(line, width)
    }

    function AllPieces(lines: seq<string>): seq<string>
      requires width > 0
    {
      if lines == [] then [] else Pieces(lines[0]) + AllPieces(lines[1..])
    }

    predicate Untouched(text: string) {
      width <= 0 || text == [] || (keepDocuments && isJson(text))
    }

    /** What `wrap_cli_output_text` gives. */
    function Wrapped(text: string): string {
      if Untouched(text) then text else Join(AllPieces(Lines(text)))
    }
  }

  lemma {:induction false} JoinTogether(a: seq<string>, b: seq<string>)
    requires a != [] && b != []
    ensures Join(a + b) == Join(a) + ("\n" + Join(b))
  {
    if |a| == 1 {
      assert (a + b)[1..] == b;
    } else {
      JoinTogether(a[1..], b);
      assert (a + b)[1..] == a[1..] + b;
      Glue(a[0], "\n", Join(a[1..]), "\n" + Join(b));
    }
  }

  lemma Glue(a: string, b: string, c: string, d: string)
    ensures a + (b + (c + d)) == a + (b + c) + d
  {
  }

  lemma PiecesAreSome(o: Options, line: string)
    requires o.width > 0
    ensures o.Pieces(line) != []
  {
    WrapKeepsText(line, o.width);
  }

  /** The wrapped text line by line. */
  lemma WrappedLast(o: Options, s: string)
    requires o.width > 0 && NewlineAt(s) == |s|
    ensures Join(o.AllPieces(Lines(s))) == Join(o.Pieces(s))
  {
    assert [s][1..] == [];
    assert o.AllPieces([s]) == o.Pieces(s) + [] == o.Pieces(s);
  }

  lemma WrappedFirst(o: Options, s: string, n: nat)
    requires o.width > 0 && n == NewlineAt(s) < |s|
    ensures Join(o.AllPieces(Lines(s))) == Join(o.Pieces(s[..n])) + ("\n" + Join(o.AllPieces(Lines(s[n + 1..]))))
  {
    var rest := Lines(s[n + 1..]);
    assert Lines(s)[0] == s[..n] && Lines(s)[1..] == rest;
    assert o.AllPieces(Lines(s)) == o.Pieces(s[..n]) + o.AllPieces(rest);
    PiecesAreSome(o, s[..n]);
    AllPiecesAreSome(o, rest);
    JoinTogether(o.Pieces(s[..n]), o.AllPieces(rest));
  }

  lemma AllPiecesAreSome(o: Options, lines: seq<string>)
    requires o.width > 0 && lines != []
    ensures o.AllPieces(lines) != []
  {
    PiecesAreSome(o, lines[0]);
  }

  /** The inner loop of `wrap_cli_output_text`: the pieces of a line, a newline after each but the
      last, and after that one when the line had one. */
  method AppendPieces(out: string, pieces: seq<string>, hasNewline: bool) returns (r: string)
    requires pieces != []
    ensures r == out + (Join(pieces) + if hasNewline then "\n" else "")
  {
    r := out;
    var end := if hasNewline then "\n" else "";
    var index := 0;
    while index < |pieces|
      invariant 0 <= index <= |pieces|
      invariant if index < |pieces| then r + (Join(pieces[index..]) + end) == out + (Join(pieces) + end)
                else r == out + (Join(pieces) + end)
    {
      ghost var rest := pieces[index..];
      assert rest[0] == pieces[index] && rest[1..] == pieces[index + 1..];
      ghost var before := r;
      r := r + pieces[index];
      if hasNewline || index < |pieces| - 1 {
        r := r + "\n";
      }
      PieceAppended(before, rest, end);
      index := index + 1;
    }
  }

  lemma PieceAppended(r: string, rest: seq<string>, end: string)
    requires rest != []
    ensures |rest| > 1 ==> r + rest[0] + "\n" + (Join(rest[1..]) + end) == r + (Join(rest) + end)
    ensures |rest| == 1 ==> r + rest[0] + end == r + (Join(rest) + end)
    ensures r + rest[0] + "" == r + rest[0]
  {
    if |rest| > 1 {
      var tail := Join(rest[1..]);
      assert Join(rest) == rest[0] + ("\n" + tail);
      Regroup5(r, rest[0], "\n", tail, end);
    } else {
      assert Join(rest) == rest[0];
      Regroup3(r, rest[0], end);
    }
  }

  lemma Regroup3(a: string, b: string, c: string)
    ensures a + b + c == a + (b + c)
  {
  }

  lemma Regroup5(a: string, b: string, c: string, d: string, e: string)
    ensures a + b + c + (d + e) == a + (b + (c + d) + e)
  {
  }

  /** `wrap_cli_output_text`, for text whose only line separator is the newline. */
  method WrapText(text: string, o: Options) returns (out: string)
    ensures out == o.Wrapped(text)
  {
    if o.width <= 0 || text == [] {
      return text;
    }
    if o.keepDocuments && o.isJson(text) {
      return text;
    }
    out := "";
    var rest := text;
    while rest != []
      invariant out + Join(o.AllPieces(Lines(rest))) == Join(o.AllPieces(Lines(text)))
      decreases |rest|
    {
      var n := NewlineAt(rest);
      var line, hasNewline := rest[..n], n < |rest|;
      var pieces;
      if o.keepLines && |line| > o.width && o.isJson(line) {
        pieces := [line];
      } else {
        pieces := WrapOutputLine(line, o.width);
      }
      PiecesAreSome(o, line);
      if hasNewline {
        WrappedFirst(o, rest, n);
      } else {
        assert line == rest;
        WrappedLast(o, rest);
      }
      ghost var before := out;
      out := AppendPieces(out, pieces, hasNewline);
      rest := if hasNewline then rest[n + 1..] else [];
      StepDone(o, before, Join(pieces), rest, hasNewline);
    }
    NothingWrapped(o);
    assert out + "" == out;
  }

  lemma NothingWrapped(o: Options)
    requires o.width > 0
    ensures Join(o.AllPieces(Lines(""))) == ""
  {
    assert Lines("") == [""] && [""][1..] == [];
    assert WrapLine("", o.width) == [""];
    assert o.Pieces("") == [""] && o.AllPieces([""]) == [""] + [] == [""];
  }

  lemma StepDone(o: Options, before: string, joined: string, rest: string, hasNewline: bool)
    requires o.width > 0 && (!hasNewline ==> rest == [])
    ensures hasNewline ==>
      before + (joined + "\n") + Join(o.AllPieces(Lines(rest)))
          == before + (joined + ("\n" + Join(o.AllPieces(Lines(rest)))))
    ensures !hasNewline ==> before + (joined + "") + Join(o.AllPieces(Lines(rest))) == before + (joined + "")
  {
    NothingWrapped(o);
  }

  // ---------------------------------------------------------------------------
  // What a wrapped text is like
  // ---------------------------------------------------------------------------

  lemma JoinFirst(first: string, rest: seq<string>)
    requires rest != []
    ensures Join([first] + rest) == first + ("\n" + Join(rest))
  {
    assert ([first] + rest)[1..] == rest;
  }

  lemma CutAt(s: string, n: nat)
    requires n < |s| && s[n] == '\n'
    ensures s == s[..n] + ("\n" + s[n + 1..])
  {
  }

  predicate AllOneLine(lines: seq<string>) {
    forall k | 0 <= k < |lines| :: OneLine(lines[k])
  }

  lemma {:induction false} LinesAreLines(s: string)
    ensures Lines(s) != [] && Join(Lines(s)) == s && AllOneLine(Lines(s))
    decreases |s|
  {
    var n := NewlineAt(s);
    NoNewlineBefore(s);
    if n == |s| {
      assert s[..n] == s;
    } else {
      var first, tail := s[..n], s[n + 1..];
      LinesAreLines(tail);
      JoinFirst(first, Lines(tail));
      CutAt(s, n);
      assert Lines(s) == [first] + Lines(tail);
    }
  }

  lemma {:induction false} NoNewlineBefore(s: string)
    ensures OneLine(s[..NewlineAt(s)])
  {
    if s != [] && s[0] != '\n' {
      NoNewlineBefore(s[1..]);
      assert s[..NewlineAt(s)] == [s[0]] + s[1..][..NewlineAt(s[1..])];
    }
  }

  lemma {:induction false} NewlineAfter(line: string, rest: string)
    requires OneLine(line) && (rest == [] || rest[0] == '\n')
    ensures NewlineAt(line + rest) == |line|
  {
    if line == [] {
      assert line + rest == rest;
    } else {
      assert (line + rest)[1..] == line[1..] + rest;
      NewlineAfter(line[1..], rest);
    }
  }

  lemma {:induction false} LinesOfJoined(lines: seq<string>)
    requires lines != [] && forall k | 0 <= k < |lines| :: OneLine(lines[k])
    ensures Lines(Join(lines)) == lines
  {
    if |lines| == 1 {
      NewlineAfter(lines[0], "");
      assert lines[0] + "" == lines[0];
    } else {
      var rest := "\n" + Join(lines[1..]);
      NewlineAfter(lines[0], rest);
      LinesOfJoined(lines[1..]);
      assert (lines[0] + rest)[|lines[0]| + 1..] == Join(lines[1..]);
      assert (lines[0] + rest)[..|lines[0]|] == lines[0];
    }
  }

  lemma {:induction false} TrimmedIsOneLine(s: string)
    requires OneLine(s)
    ensures OneLine(TrimLeft(s)) && OneLine(TrimRight(s))
  {
    if s != [] {
      TrimmedIsOneLine(s[1..]);
      TrimmedIsOneLine(s[..|s| - 1]);
    }
  }

  lemma PartsAreOneLine(s: string, n: nat)
    requires OneLine(s) && n <= |s|
    ensures OneLine(s[..n]) && OneLine(s[n..])
  {
  }

  lemma FirstPieceIsOneLine(line: string, width: Width)
    requires |line| > width && OneLine(line)
    ensures OneLine(FirstPiece(line, width)) && OneLine(Remaining(line, width))
  {
    PartsAreOneLine(line, SoftBreak(line, width));
    PartsAreOneLine(line, width);
    PartsAreOneLine(line, BreakAt(line, width));
    TrimmedIsOneLine(line[..SoftBreak(line, width)]);
    TrimmedIsOneLine(line[BreakAt(line, width)..]);
  }

  lemma {:induction false} PiecesAreOneLine(line: string, width: Width)
    requires OneLine(line)
    ensures forall k | 0 <= k < |WrapLine(line, width)| :: OneLine(WrapLine(line, width)[k])
    decreases |line|
  {
    if |line| > width {
      FirstPieceIsOneLine(line, width);
      PiecesAreOneLine(Remaining(line, width), width);
    }
  }

  /** A piece that fits the output: short enough, or a JSON line that is to be kept. */
  predicate Fits(o: Options, line: string) {
    OneLine(line) && (|line| <= o.width || (o.keepLines && o.isJson(line)))
  }

  lemma {:induction false} AllPiecesFit(o: Options, lines: seq<string>)
    requires o.width > 0 && forall k | 0 <= k < |lines| :: OneLine(lines[k])
    ensures forall k | 0 <= k < |o.AllPieces(lines)| :: Fits(o, o.AllPieces(lines)[k])
    ensures SolidAll(o.AllPieces(lines)) == SolidAll(lines)
  {
    if lines != [] {
      var line := lines[0];
      AllPiecesFit(o, lines[1..]);
      WrapKeepsText(line, o.width);
      PiecesAreOneLine(line, o.width);
      SolidAllTogether(o.Pieces(line), o.AllPieces(lines[1..]));
      assert SolidAll([line]) == Solid(line) + SolidAll([]) == Solid(line);
    }
  }

  lemma {:induction false} SolidAllTogether(a: seq<string>, b: seq<string>)
    ensures SolidAll(a + b) == SolidAll(a) + SolidAll(b)
  {
    if a == [] {
      assert a + b == b;
    } else {
      assert (a + b)[1..] == a[1..] + b;
      SolidAllTogether(a[1..], b);
    }
  }

  lemma {:induction false} SolidOfJoined(lines: seq<string>)
    ensures Solid(Join(lines)) == SolidAll(lines)
  {
    if |lines| == 1 {
      assert lines[1..] == [] && Solid(lines[0]) + SolidAll([]) == Solid(lines[0]);
    } else if lines != [] {
      SolidOfJoined(lines[1..]);
      SolidTogether(lines[0], "\n" + Join(lines[1..]));
      SolidAfterNewline(Join(lines[1..]));
    }
  }

  lemma SolidAfterNewline(s: string)
    ensures Solid("\n" + s) == Solid(s)
  {
    assert IsSpace('\n') && ("\n" + s)[1..] == s;
  }

  lemma {:induction false} FittingStays(o: Options, lines: seq<string>)
    requires o.width > 0 && forall k | 0 <= k < |lines| :: Fits(o, lines[k])
    ensures o.AllPieces(lines) == lines
  {
    if lines != [] {
      assert Fits(o, lines[0]);
      FittingStays(o, lines[1..]);
      assert o.Pieces(lines[0]) == [lines[0]];
      assert lines == [lines[0]] + lines[1..];
    }
  }

  lemma {:induction false} FittingIsKept(o: Options, lines: seq<string>, line: string)
    requires o.width > 0 && line in lines && Fits(o, line)
    ensures line in o.AllPieces(lines)
  {
    if line == lines[0] {
      assert o.Pieces(line) == [line];
    } else {
      assert lines == [lines[0]] + lines[1..];
      FittingIsKept(o, lines[1..], line);
    }
  }

  /** Text that is wrapped has only lines that fit, those that did are still there, and every character
      that is not blank is kept in order. */
  lemma WrappingFitsAndKeeps(o: Options, text: string)
    ensures Solid(o.Wrapped(text)) == Solid(text)
    ensures if o.width <= 0 || (o.keepDocuments && o.isJson(text)) then o.Wrapped(text) == text
            else
              && (forall k | 0 <= k < |Lines(o.Wrapped(text))| :: Fits(o, Lines(o.Wrapped(text))[k]))
              && forall line | line in Lines(text) && Fits(o, line) :: line in Lines(o.Wrapped(text))
  {
    if !o.Untouched(text) {
      var lines := Lines(text);
      LinesAreLines(text);
      AllPiecesAreSome(o, lines);
      AllPiecesFit(o, lines);
      SolidOfJoined(lines);
      SolidOfJoined(o.AllPieces(lines));
      LinesOfJoined(o.AllPieces(lines));
      forall line | line in lines && Fits(o, line) ensures line in o.AllPieces(lines) {
        FittingIsKept(o, lines, line);
      }
    }
  }

  /** Wrapping wrapped text again changes nothing, whatever counts as a JSON document. */
  lemma WrappingIsIdempotent(o: Options, text: string)
    ensures o.Wrapped(o.Wrapped(text)) == o.Wrapped(text)
  {
    if !o.Untouched(text) {
      var pieces := o.AllPieces(Lines(text));
      LinesAreLines(text);
      AllPiecesAreSome(o, Lines(text));
      AllPiecesFit(o, Lines(text));
      LinesOfJoined(pieces);
      FittingStays(o, pieces);
    }
  }
}
