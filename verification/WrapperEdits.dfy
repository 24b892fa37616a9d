/** What stripping, retargeting and writing the wrapper's words do to a launch command
    (overlay/wrapper_tokens.py). */
module WrapperEdits {
  import opened Text
  import opened CommandWords
  import opened WrapperTokens
  import opened Wrappers

  // ---------------------------------------------------------------------------
  // Quoting a word
  // ---------------------------------------------------------------------------

  /** The characters `shlex.quote` leaves bare. */
  predicate IsBare(c: char) {
    IsLetterOrDigit(c) || c in "_@%+=:,./-"
  }

  predicate AllBare(s: string) {
    forall i | 0 <= i < |s| :: IsBare(s[i])
  }

  function EscapeQuotes(s: string): string {
    if s == [] then [] else (if s[0] == '\'' then "'\"'\"'" else [s[0]]) + EscapeQuotes(s[1..])
  }

  /** `shlex.quote` */
  function ShellQuote(s: string): string {
    if s == [] then "''" else if AllBare(s) then s else "'" + (EscapeQuotes(s) + "'")
  }

  /** Neither a blank nor one of the characters quoting is made of. */
  predicate IsPlainChar(c: char) {
    !IsSpace(c) && c != '\\' && c != '\'' && c != '"'
  }

  predicate AllPlain(s: string) {
    forall i | 0 <= i < |s| :: IsPlainChar(s[i])
  }

  /** One shell word that is closed and read as `word`. */
  predicate Reads(raw: string, word: string) {
    IsRawWord(raw) && Closed(raw) && WordOf(raw) == word
  }

  lemma OneChar(q: Quoting, c: char, rest: string)
    ensures After(q, [c] + rest) == After(Next(q, c), rest)
    ensures WordFrom(q, [c] + rest) <==> !(q.Plain? && IsSpace(c)) && WordFrom(Next(q, c), rest)
    ensures var u := Unquoted(Next(q, c), rest);
            Unquoted(q, [c] + rest) == if u.None? then None else Some(Emit(q, c) + u.value)
  {
    assert ([c] + rest)[1..] == rest;
  }

  /** `rest`, read from `q` on, ends the word and adds `word` to it. */
  predicate Ends(q: Quoting, rest: string, word: string) {
    After(q, rest).Plain? && WordFrom(q, rest) && Unquoted(q, rest) == Some(word)
  }

  lemma OneMoreEnds(q: Quoting, c: char, rest: string, word: string)
    requires Ends(Next(q, c), rest, word) && !(q.Plain? && IsSpace(c))
    ensures Ends(q, [c] + rest, Emit(q, c) + word)
  {
    OneChar(q, c, rest);
  }

  lemma {:induction false} PlainTextEnds(s: string)
    requires AllPlain(s)
    ensures Ends(Plain, s, s)
  {
    if s != [] {
      assert IsPlainChar(s[0]);
      PlainTextEnds(s[1..]);
      OneMoreEnds(Plain, s[0], s[1..], s[1..]);
      assert [s[0]] + s[1..] == s;
    }
  }

  lemma {:induction false} EscapedTextEnds(s: string)
    ensures Ends(Single, EscapeQuotes(s) + "'", s)
  {
    if s == [] {
      OneMoreEnds(Single, '\'', "", "");
      assert EscapeQuotes(s) + "'" == ['\''] + "";
      assert Emit(Single, '\'') + "" == s;
    } else {
      var rest := EscapeQuotes(s[1..]) + "'";
      EscapedTextEnds(s[1..]);
      if s[0] == '\'' {
        QuoteInQuotes(rest, s[1..]);
        assert EscapeQuotes(s) + "'" == "'\"'\"'" + rest;
        assert "'" + s[1..] == s;
      } else {
        OneMoreEnds(Single, s[0], rest, s[1..]);
        assert EscapeQuotes(s) + "'" == [s[0]] + rest;
        assert [s[0]] + s[1..] == s;
      }
    }
  }

  lemma QuoteInQuotes(rest: string, word: string)
    requires Ends(Single, rest, word)
    ensures Ends(Single, "'\"'\"'" + rest, "'" + word)
  {
    assert "" + word == word && "" + ("'" + word) == "'" + word;
    OneMoreEnds(Plain, '\'', rest, word);
    OneMoreEnds(Double, '"', ['\''] + rest, word);
    OneMoreEnds(Double, '\'', ['"'] + (['\''] + rest), word);
    OneMoreEnds(Plain, '"', ['\''] + (['"'] + (['\''] + rest)), "'" + word);
    OneMoreEnds(Single, '\'', ['"'] + (['\''] + (['"'] + (['\''] + rest))), "'" + word);
    assert ['\''] + (['"'] + (['\''] + (['"'] + (['\''] + rest)))) == "'\"'\"'" + rest;
  }

  /** A quoted word is one closed shell word and reads back as the text that was quoted. */
  lemma QuotedReadsBack(s: string)
    ensures Reads(ShellQuote(s), s)
  {
    if s == [] {
      assert "" + "" == "";
      OneMoreEnds(Single, '\'', "", "");
      OneMoreEnds(Plain, '\'', ['\''] + "", "");
      assert ShellQuote(s) == ['\''] + (['\''] + "");
    } else if AllBare(s) {
      assert forall i | 0 <= i < |s| :: IsBare(s[i]) && IsPlainChar(s[i]);
      PlainTextEnds(s);
    } else {
      EscapedTextEnds(s);
      OneMoreEnds(Plain, '\'', EscapeQuotes(s) + "'", s);
      assert "" + s == s;
    }
  }

  ghost predicate IsListed(c: char) {
    c in LOWER || c in UPPER || c in DIGITS || c in "@%+=:,./-_"
  }

  lemma BareIsListed(c: char)
    ensures IsBare(c) <==> IsListed(c)
  {
    LowerLetters(c);
    UpperLetters(c);
    DecimalDigits(c);
  }

  /** Exactly the texts of these characters are left bare. */
  lemma BareIs(s: string)
    ensures ShellQuote(s) == s <==> s != "" && forall i | 0 <= i < |s| :: IsListed(s[i])
  {
    forall i | 0 <= i < |s| ensures IsBare(s[i]) <==> IsListed(s[i]) {
      BareIsListed(s[i]);
    }
    if s != "" && !AllBare(s) && ShellQuote(s) == s {
      EscapedIsLonger(s);
    }
  }

  lemma {:induction false} EscapedIsLonger(s: string)
    ensures |EscapeQuotes(s)| >= |s|
  {
    if s != "" {
      EscapedIsLonger(s[1..]);
    }
  }

  /** What is written one after the other is read one after the other. */
  lemma {:induction false} ReadTogether(q: Quoting, a: string, word: string, b: string, word': string)
    requires Ends(q, a, word) && Ends(Plain, b, word')
    ensures Ends(q, a + b, word + word')
    decreases |a|
  {
    if a == "" {
      assert a + b == b && word + word' == word';
    } else {
      var rest := a[1..];
      assert a == [a[0]] + rest;
      OneChar(q, a[0], rest);
      var tail := Unquoted(Next(q, a[0]), rest);
      ReadTogether(Next(q, a[0]), rest, tail.value, b, word');
      OneMoreEnds(q, a[0], rest + b, tail.value + word');
      assert a + b == [a[0]] + (rest + b);
      assert Emit(q, a[0]) + (tail.value + word') == word + word';
    }
  }

  lemma {:induction false} InsideQuotes(q: Quoting, quote: char, text: string)
    requires (q.Single? && quote == '\'') || (q.Double? && quote == '"')
    requires quote !in text && (q.Double? ==> '\\' !in text)
    ensures Ends(q, text + [quote], text)
  {
    if text == "" {
      OneMoreEnds(q, quote, "", "");
      assert text + [quote] == [quote] + "" && Emit(q, quote) + "" == text;
    } else {
      assert text[0] in text && forall c | c in text[1..] :: c in text;
      InsideQuotes(q, quote, text[1..]);
      OneMoreEnds(q, text[0], text[1..] + [quote], text[1..]);
      assert text + [quote] == [text[0]] + (text[1..] + [quote]);
      assert [text[0]] + text[1..] == text;
    }
  }

  /** How the parts of a word are read: single quotes keep everything, double quotes all but a quote or a
      backslash; a backslash outside quotes keeps the next character, and inside double quotes it stays
      unless a quote or a backslash follows. */
  lemma PartsOfAWord(text: string, c: char)
    ensures '\'' !in text ==> Reads("'" + text + "'", text)
    ensures '"' !in text && '\\' !in text ==> Reads("\"" + text + "\"", text)
    ensures Reads(['\\', c], [c])
    ensures Reads(['"', '\\', c, '"'], if c == '"' || c == '\\' then [c] else ['\\', c])
  {
    if '\'' !in text {
      InsideQuotes(Single, '\'', text);
      OneMoreEnds(Plain, '\'', text + "'", text);
      assert "" + text == text && "'" + text + "'" == ['\''] + (text + "'");
    }
    if '"' !in text && '\\' !in text {
      InsideQuotes(Double, '"', text);
      OneMoreEnds(Plain, '"', text + "\"", text);
      assert "" + text == text && "\"" + text + "\"" == ['"'] + (text + "\"");
    }
    OneMoreEnds(Escaped, c, "", "");
    OneMoreEnds(Plain, '\\', [c] + "", [c] + "");
    assert ['\\'] + ([c] + "") == ['\\', c] && "" + ([c] + "") == [c];
    var kept := if c == '"' || c == '\\' then [c] else ['\\', c];
    InsideQuotes(Double, '"', "");
    assert "" + ['"'] == ['"'];
    OneMoreEnds(DoubleEscaped, c, ['"'], "");
    OneMoreEnds(Double, '\\', [c] + ['"'], kept + "");
    OneMoreEnds(Plain, '"', ['\\'] + ([c] + ['"']), "" + (kept + ""));
    assert ['"'] + (['\\'] + ([c] + ['"'])) == ['"', '\\', c, '"'] && "" + ("" + (kept + "")) == kept;
  }

  /** A word whose quoting is not closed is compared as it is written. */
  lemma {:induction false} OpenIsNotRead(q: Quoting, s: string)
    ensures !After(q, s).Plain? <==> Unquoted(q, s).None?
    decreases |s|
  {
    if s != "" {
      OpenIsNotRead(Next(q, s[0]), s[1..]);
    }
  }

  lemma PlainReads(s: string)
    requires s != [] && AllPlain(s)
    ensures Reads(s, s)
  {
    PlainTextEnds(s);
  }

  // ---------------------------------------------------------------------------
  // Retargeting
  // ---------------------------------------------------------------------------

  function RetargetItem(item: Item, executable: string): Item {
    if IsWrapper(item.Word()) then Item(ShellQuote(executable), item.gap) else item
  }

  function RetargetItems(items: seq<Item>, executable: string): seq<Item> {
    if items == [] then [] else [RetargetItem(items[0], executable)] + RetargetItems(items[1..], executable)
  }

  /** What `replace_wrapper_executable` gives. */
  function Retargeted(value: string, executable: string): string {
    var c := Parse(value);
    c.lead + RenderItems(RetargetItems(c.items, executable))
  }

  lemma {:induction false} RetargetedItems(items: seq<Item>, executable: string)
    requires WellFormedItems(items)
    ensures var t := RetargetItems(items, executable);
            && WellFormedItems(t) && |t| == |items|
            && forall k | 0 <= k < |items| :: t[k] == RetargetItem(items[k], executable)
  {
    if items != [] {
      FirstParts(items);
      RetargetedItems(items[1..], executable);
      QuotedReadsBack(executable);
      WellFormedOneMore(RetargetItem(items[0], executable), RetargetItems(items[1..], executable));
    }
  }

  /** Retargeting changes the wrapper words, each into one word that reads as the new executable,
      and nothing else: every other word stays as written, and so do all blanks. */
  lemma OnlyWrapperWordsChange(value: string, executable: string)
    ensures var c, d := Parse(value), Parse(Retargeted(value, executable));
            && d.lead == c.lead && |d.items| == |c.items|
            && forall k | 0 <= k < |c.items| ::
                 && d.items[k].gap == c.items[k].gap
                 && (if IsWrapper(c.items[k].Word()) then d.items[k].Word() == executable
                     else d.items[k].raw == c.items[k].raw)
  {
    var c := Parse(value);
    ParseIsRight(value);
    RetargetedItems(c.items, executable);
    QuotedReadsBack(executable);
    ParseIsUnique(Command(c.lead, RetargetItems(c.items, executable)));
  }

  lemma {:induction false} BeforeEach(value: string, index: nat)
    requires index <= |Parse(value).items|
    ensures var rest := Parse(value).items[index..];
            |RenderItems(rest)| <= |value| &&
              Before(value, FoundFrom(0, value), index, |value| - |RenderItems(rest)|, rest)
    decreases index
  {
    var c := Parse(value);
    if index == 0 {
      BeforeStart(value);
      ParseIsRight(value);
      assert c.items[0..] == c.items;
    } else {
      BeforeEach(value, index - 1);
      var rest := c.items[index - 1..];
      BeforeNext(value, FoundFrom(0, value), index - 1, |value| - |RenderItems(rest)|, rest);
      FirstParts(rest);
      assert rest[1..] == c.items[index..];
    }
  }

  ghost function Offset(value: string, index: nat): int
    requires index <= |Parse(value).items|
  {
    |value| - |RenderItems(Parse(value).items[index..])|
  }

  /** The command when the words from `index` on are retargeted. */
  ghost function RetargetedFrom(value: string, index: nat, executable: string): string
    requires index <= |Parse(value).items| && 0 <= Offset(value, index)
  {
    value[..Offset(value, index)] + RenderItems(RetargetItems(Parse(value).items[index..], executable))
  }

  lemma {:induction false} OneFoundEach(pos: nat, items: seq<Item>)
    ensures |FoundAt(pos, items)| == |items|
    decreases |items|
  {
    if items != [] {
      OneFoundEach(pos + |items[0].raw| + |items[0].gap|, items[1..]);
    }
  }

  lemma WordAt(value: string, index: nat)
    requires index < |Parse(value).items|
    ensures 0 <= Offset(value, index) && index < |FoundFrom(0, value)|
    ensures var item, pos := Parse(value).items[index], Offset(value, index);
            && FoundFrom(0, value)[index] == Found(pos, pos + |item.raw|, item.Word())
            && Offset(value, index + 1) == pos + |item.raw| + |item.gap| <= |value|
            && value[pos..Offset(value, index + 1)] == item.raw + item.gap
  {
    var rest := Parse(value).items[index..];
    OneFoundEach(|LeadingBlank(value)|, Parse(value).items);
    BeforeEach(value, index);
    AtWord(value, FoundFrom(0, value), index, Offset(value, index), rest);
    FirstParts(rest);
    assert rest[1..] == Parse(value).items[index + 1..];
  }

  /** The word at `index` in the command whose later words are retargeted. */
  lemma SplitAt(value: string, index: nat, executable: string)
    requires index < |Parse(value).items|
    requires 0 <= Offset(value, index) <= Offset(value, index + 1) <= |value|
    requires value[Offset(value, index)..Offset(value, index + 1)]
          == Parse(value).items[index].raw + Parse(value).items[index].gap
    ensures var item, before := Parse(value).items[index], value[..Offset(value, index)];
            var after := RenderItems(RetargetItems(Parse(value).items[index + 1..], executable));
            && RetargetedFrom(value, index + 1, executable) == before + (item.raw + (item.gap + after))
            && RetargetedFrom(value, index, executable)
               == before + (RetargetItem(item, executable).raw + (item.gap + after))
  {
    var rest := Parse(value).items[index..];
    var later := Parse(value).items[index + 1..];
    assert rest == [rest[0]] + later;
    Glue(value, Offset(value, index), Offset(value, index + 1), rest[0], RenderItems(RetargetItems(later, executable)));
    RenderRetargeted(rest[0], later, executable);
  }

  lemma Glue(value: string, pos: nat, next: nat, item: Item, after: string)
    requires pos <= next <= |value| && value[pos..next] == item.raw + item.gap
    ensures value[..next] + after == value[..pos] + (item.raw + (item.gap + after))
  {
    assert value[..next] == value[..pos] + value[pos..next];
  }

  lemma RenderRetargeted(item: Item, rest: seq<Item>, executable: string)
    ensures RenderItems(RetargetItems([item] + rest, executable))
         == RetargetItem(item, executable).raw + (item.gap + RenderItems(RetargetItems(rest, executable)))
  {
    assert ([item] + rest)[1..] == rest;
    RenderFirst(RetargetItem(item, executable), RetargetItems(rest, executable));
  }

  lemma RenderFirst(item: Item, rest: seq<Item>)
    ensures RenderItems([item] + rest) == item.raw + (item.gap + RenderItems(rest))
  {
    assert ([item] + rest)[1..] == rest;
  }

  lemma SpliceOut(before: string, raw: string, after: string, other: string)
    ensures var r := before + (raw + after);
            r[..|before|] + other + r[|before| + |raw|..] == before + (other + after)
  {
    var r := before + (raw + after);
    assert r[..|before|] == before && r[|before| + |raw|..] == after;
  }

  /** One round of the loop: the word at `index`. */
  method ReplaceWord(value: string, index: nat, found: Found, executable: string, r: string) returns (r': string)
    requires index < |Parse(value).items| == |FoundFrom(0, value)| && found == FoundFrom(0, value)[index]
    requires 0 <= Offset(value, index + 1) && r == RetargetedFrom(value, index + 1, executable)
    ensures 0 <= Offset(value, index) && r' == RetargetedFrom(value, index, executable)
  {
    WordAt(value, index);
    SplitAt(value, index, executable);
    r' := r;
    if IsWrapper(found.word) {
      ghost var item, before := Parse(value).items[index], value[..Offset(value, index)];
      ghost var after := item.gap + RenderItems(RetargetItems(Parse(value).items[index + 1..], executable));
      SpliceOut(before, item.raw, after, ShellQuote(executable));
      r' := r[..found.start] + ShellQuote(executable) + r[found.end..];
    }
  }

  /** `replace_wrapper_executable`: from the last word to the first. */
  method ReplaceExecutable(value: string, executable: string) returns (r: string)
    ensures r == Retargeted(value, executable)
  {
    var words := CommandWords.CommandWords(value);
    ghost var c := Parse(value);
    ParseIsRight(value);
    OneFoundEach(|LeadingBlank(value)|, c.items);
    r := value;
    var index := |words|;
    assert c.items[index..] == [] && value[..|value|] + "" == value;
    while index > 0
      invariant 0 <= index <= |words| == |c.items| && 0 <= Offset(value, index)
      invariant r == RetargetedFrom(value, index, executable)
    {
      index := index - 1;
      r := ReplaceWord(value, index, words[index], executable, r);
    }
    assert c.items[0..] == c.items;
    assert value[..Offset(value, 0)] == c.lead;
  }
}
