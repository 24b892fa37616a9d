/** Launch commands and the wrapper's words in them (overlay/wrapper_tokens.py). */
module CommandWords {
  import opened Text
  import opened Wrappers

  // ---------------------------------------------------------------------------
  // Quoting
  // ---------------------------------------------------------------------------

  /** Where a reader of shell text stands after some of it. */
  datatype Quoting = Plain | Single | Double | Escaped | DoubleEscaped

  function Next(q: Quoting, c: char): Quoting {
    match q
    case Plain => if c == '\\' then Escaped else if c == '\'' then Single else if c == '"' then Double else Plain
    case Single => if c == '\'' then Plain else Single
    case Double => if c == '\\' then DoubleEscaped else if c == '"' then Plain else Double
    case Escaped => Plain
    case DoubleEscaped => Double
  }

  function After(q: Quoting, s: string): Quoting
    decreases s
  {
    if s == [] then q else After(Next(q, s[0]), s[1..])
  }

  /** What a character adds to the word, read in POSIX mode. */
  function Emit(q: Quoting, c: char): string {
    match q
    case Plain => if c == '\\' || c == '\'' || c == '"' then "" else [c]
    case Single => if c == '\'' then "" else [c]
    case Double => if c == '\\' || c == '"' then "" else [c]
    case Escaped => [c]
    case DoubleEscaped => if c == '\\' || c == '"' then [c] else ['\\', c]
  }

  /** `shlex.split` of text without a blank outside quoting: one word, or none when a quote or an
      escape is left open. */
  function Unquoted(q: Quoting, s: string): Option<string>
    decreases s
  {
    if s == [] then (if q.Plain? then Some("") else None)
    else
      var rest := Unquoted(Next(q, s[0]), s[1..]);
      if rest.None? then None else Some(Emit(q, s[0]) + rest.value)
  }

  /** The word that raw text is compared as. */
  function WordOf(raw: string): string {
    var word := Unquoted(Plain, raw);
    if word.Some? then word.value else raw
  }

  // ---------------------------------------------------------------------------
  // Commands
  // ---------------------------------------------------------------------------

  /** A word as written, and the blanks after it. */
  datatype Item = Item(raw: string, gap: string) {
    function Word(): string {
      WordOf(raw)
    }
  }

  datatype Command = Command(lead: string, items: seq<Item>) {
    function Render(): string {
      lead + RenderItems(items)
    }

    predicate WellFormed() {
      Blank(lead) && WellFormedItems(items)
    }
  }

  function RenderItems(items: seq<Item>): string {
    if items == [] then "" else items[0].raw + items[0].gap + RenderItems(items[1..])
  }

  /** No character is a blank outside quoting. */
  predicate WordFrom(q: Quoting, s: string)
    decreases s
  {
    s == [] || (!(q.Plain? && IsSpace(s[0])) && WordFrom(Next(q, s[0]), s[1..]))
  }

  predicate IsRawWord(s: string) {
    s != [] && WordFrom(Plain, s)
  }

  predicate Closed(raw: string) {
    After(Plain, raw).Plain?
  }

  /** Words with blanks between them; only the last one may be left open. */
  predicate WellFormedItems(items: seq<Item>) {
    forall k | 0 <= k < |items| ::
      && IsRawWord(items[k].raw) && Blank(items[k].gap)
      && (items[k].gap != [] ==> Closed(items[k].raw))
      && (k < |items| - 1 ==> items[k].gap != [])
  }

  /** The raw word that `v` starts with. */
  function FirstWord(q: Quoting, v: string): string
    decreases v
  {
    if v == [] || (q.Plain? && IsSpace(v[0])) then [] else [v[0]] + FirstWord(Next(q, v[0]), v[1..])
  }

  function AfterWord(q: Quoting, v: string): (rest: string)
    ensures |rest| <= |v|
    decreases v
  {
    if v == [] || (q.Plain? && IsSpace(v[0])) then v else AfterWord(Next(q, v[0]), v[1..])
  }

  function ParseItems(v: string): seq<Item>
    decreases |v|
  {
    if v == [] || IsSpace(v[0]) then []
    else
      var rest := AfterWord(Plain, v);
      [Item(FirstWord(Plain, v), LeadingBlank(rest))] + ParseItems(TrimLeft(rest))
  }

  /** The words of a command and the blanks around them. */
  function Parse(v: string): Command {
    Command(LeadingBlank(v), ParseItems(TrimLeft(v)))
  }

  lemma {:induction false} FirstWordIsWord(q: Quoting, v: string)
    ensures FirstWord(q, v) + AfterWord(q, v) == v && WordFrom(q, FirstWord(q, v))
    ensures AfterWord(q, v) != [] ==> After(q, FirstWord(q, v)).Plain? && IsSpace(AfterWord(q, v)[0])
    decreases v
  {
    if v != [] && !(q.Plain? && IsSpace(v[0])) {
      FirstWordIsWord(Next(q, v[0]), v[1..]);
      assert FirstWord(q, v)[1..] == FirstWord(Next(q, v[0]), v[1..]);
      assert FirstWord(q, v) + AfterWord(q, v) == [v[0]] + v[1..];
    }
  }

  lemma {:induction false} ParseItemsIsRight(v: string)
    requires v == [] || !IsSpace(v[0])
    ensures RenderItems(ParseItems(v)) == v && WellFormedItems(ParseItems(v))
    decreases |v|
  {
    if v != [] {
      var after := AfterWord(Plain, v);
      var item, rest := Item(FirstWord(Plain, v), LeadingBlank(after)), ParseItems(TrimLeft(after));
      FirstWordIsWord(Plain, v);
      TrimLeftSplits(after);
      ParseItemsIsRight(TrimLeft(after));
      assert v == item.raw + item.gap + TrimLeft(after);
      WellFormedOneMore(item, rest);
    }
  }

  lemma WellFormedOneMore(item: Item, rest: seq<Item>)
    requires WellFormedItems(rest) && IsRawWord(item.raw) && Blank(item.gap)
    requires item.gap != [] ==> Closed(item.raw)
    requires rest != [] ==> item.gap != []
    ensures WellFormedItems([item] + rest)
  {
    assert forall k | 1 <= k < |[item] + rest| :: ([item] + rest)[k] == rest[k - 1];
  }

  /** Reading a command loses nothing. */
  lemma ParseIsRight(v: string)
    ensures Parse(v).Render() == v && Parse(v).WellFormed()
  {
    TrimLeftSplits(v);
    ParseItemsIsRight(TrimLeft(v));
  }

  lemma {:induction false} FirstWordOf(q: Quoting, raw: string, rest: string)
    requires WordFrom(q, raw) && (rest == [] || (After(q, raw).Plain? && IsSpace(rest[0])))
    ensures FirstWord(q, raw + rest) == raw && AfterWord(q, raw + rest) == rest
    decreases raw
  {
    if raw == [] {
      assert raw + rest == rest;
    } else {
      assert (raw + rest)[1..] == raw[1..] + rest;
      FirstWordOf(Next(q, raw[0]), raw[1..], rest);
    }
  }

  lemma FirstIsNoSpace(items: seq<Item>)
    requires WellFormedItems(items)
    ensures RenderItems(items) == [] || !IsSpace(RenderItems(items)[0])
  {
    if items != [] {
      assert IsRawWord(items[0].raw);
      assert RenderItems(items)[0] == items[0].raw[0];
    }
  }

  lemma LaterAreWellFormed(items: seq<Item>)
    requires items != [] && WellFormedItems(items)
    ensures WellFormedItems(items[1..])
    ensures items[1..] != [] ==> items[0].gap != []
  {
    var rest := items[1..];
    forall k | 0 <= k < |rest|
      ensures IsRawWord(rest[k].raw) && Blank(rest[k].gap) && (rest[k].gap != [] ==> Closed(rest[k].raw))
              && (k < |rest| - 1 ==> rest[k].gap != [])
    {
      assert rest[k] == items[k + 1];
    }
  }

  lemma {:induction false} ParseItemsRendered(items: seq<Item>)
    requires WellFormedItems(items)
    ensures RenderItems(items) == [] || !IsSpace(RenderItems(items)[0])
    ensures ParseItems(RenderItems(items)) == items
  {
    FirstIsNoSpace(items);
    if items != [] {
      var item, later := items[0], items[1..];
      var rest := RenderItems(later);
      LaterAreWellFormed(items);
      FirstIsNoSpace(later);
      ParseItemsRendered(later);
      FirstItemIsRead(item, rest);
      RenderedInParts(items, item, later);
      assert items == [item] + later;
    }
  }

  lemma RenderedInParts(items: seq<Item>, item: Item, later: seq<Item>)
    requires items != [] && item == items[0] && later == items[1..]
    ensures RenderItems(items) == item.raw + (item.gap + RenderItems(later))
    ensures RenderItems(later) != [] ==> later != []
  {
    assert item.raw + item.gap + RenderItems(later) == item.raw + (item.gap + RenderItems(later));
  }

  lemma FirstItemIsRead(item: Item, rest: string)
    requires IsRawWord(item.raw) && Blank(item.gap) && (item.gap != [] ==> Closed(item.raw))
    requires rest == [] || (!IsSpace(rest[0]) && item.gap != [])
    ensures ParseItems(item.raw + (item.gap + rest)) == [item] + ParseItems(rest)
  {
    FirstWordOf(Plain, item.raw, item.gap + rest);
    TrimLeftPrepended(item.gap, rest);
    assert item.gap + LeadingBlank(rest) == item.gap;
  }

  /** There is one way to read a command: words with blanks between them are found again. */
  lemma ParseIsUnique(c: Command)
    requires c.WellFormed()
    ensures Parse(c.Render()) == c
  {
    ParseItemsRendered(c.items);
    TrimLeftPrepended(c.lead, RenderItems(c.items));
    assert c.lead + LeadingBlank(RenderItems(c.items)) == c.lead;
  }

  // ---------------------------------------------------------------------------
  // The scanner
  // ---------------------------------------------------------------------------

  datatype Found = Found(start: nat, end: nat, word: string)

  function FoundAt(pos: nat, items: seq<Item>): seq<Found>
    decreases items
  {
    if items == [] then []
    else [Found(pos, pos + |items[0].raw|, items[0].Word())]
         + FoundAt(pos + |items[0].raw| + |items[0].gap|, items[1..])
  }

  function FoundFrom(pos: nat, v: string): seq<Found> {
    FoundAt(pos + |LeadingBlank(v)|, Parse(v).items)
  }

  lemma FoundAfterBlank(pos: nat, v: string)
    requires v != [] && IsSpace(v[0])
    ensures FoundFrom(pos, v) == FoundFrom(pos + 1, v[1..])
  {
  }

  lemma ParseAtWord(v: string)
    requires v != [] && !IsSpace(v[0])
    ensures Parse(v) == Command([], [Item(FirstWord(Plain, v), LeadingBlank(AfterWord(Plain, v)))]
                                    + Parse(AfterWord(Plain, v)).items)
  {
  }

  lemma FoundAfterWord(pos: nat, v: string, raw: string, rest: string)
    requires v != [] && !IsSpace(v[0])
    requires raw == FirstWord(Plain, v) && rest == AfterWord(Plain, v)
    ensures FoundFrom(pos, v) == [Found(pos, pos + |raw|, WordOf(raw))] + FoundFrom(pos + |raw|, rest)
  {
    var item, items := Item(raw, LeadingBlank(rest)), Parse(rest).items;
    assert LeadingBlank(v) == [] && Parse(v).items == [item] + items by {
      ParseAtWord(v);
    }
    assert FoundAt(pos, [item] + items) == [Found(pos, pos + |raw|, WordOf(raw))]
                                           + FoundAt(pos + |raw| + |LeadingBlank(rest)|, items) by {
      FoundAtOneMore(pos, item, items);
    }
  }

  lemma FoundAtOneMore(pos: nat, item: Item, rest: seq<Item>)
    ensures FoundAt(pos, [item] + rest)
         == [Found(pos, pos + |item.raw|, item.Word())] + FoundAt(pos + |item.raw| + |item.gap|, rest)
  {
    assert ([item] + rest)[1..] == rest;
  }

  /** The word that starts at `start` goes on at `index`, where the quoting is `q`. */
  ghost predicate GoesOn(q: Quoting, value: string, start: nat, index: nat)
    requires start <= index <= |value|
  {
    && value[start..index] + FirstWord(q, value[index..]) == FirstWord(Plain, value[start..])
    && AfterWord(q, value[index..]) == AfterWord(Plain, value[start..])
  }

  lemma GoesOnOneMore(q: Quoting, value: string, start: nat, index: nat)
    requires start <= index < |value| && !(q.Plain? && IsSpace(value[index])) && GoesOn(q, value, start, index)
    ensures GoesOn(Next(q, value[index]), value, start, index + 1)
  {
    var rest := value[index..];
    assert rest[1..] == value[index + 1..];
    assert FirstWord(q, rest) == [value[index]] + FirstWord(Next(q, value[index]), rest[1..]);
    assert value[start..index + 1] == value[start..index] + [value[index]];
  }

  lemma GoesOnTwoMore(q: Quoting, value: string, start: nat, index: nat)
    requires start <= index && index + 2 <= |value| && GoesOn(q, value, start, index)
    requires value[index] == '\\' && (q.Plain? || q.Double?)
    ensures GoesOn(q, value, start, index + 2)
  {
    GoesOnOneMore(q, value, start, index);
    GoesOnOneMore(Next(q, value[index]), value, start, index + 1);
  }

  lemma WordEndsHere(q: Quoting, value: string, start: nat, index: nat)
    requires start <= index <= |value| && GoesOn(q, value, start, index)
    requires index < |value| ==> q.Plain? && IsSpace(value[index])
    ensures value[start..index] == FirstWord(Plain, value[start..])
    ensures value[index..] == AfterWord(Plain, value[start..])
  {
    assert FirstWord(q, value[index..]) == [];
  }

  /** The inner loop of `_command_words`: the end of the word that starts at `start`. */
  method WordEnd(value: string, start: nat) returns (index: nat)
    requires start < |value| && !IsSpace(value[start])
    ensures start < index <= |value| && value[start..index] == FirstWord(Plain, value[start..])
    ensures value[index..] == AfterWord(Plain, value[start..])
  {
    index := start;
    var quote := Plain;
    ghost var cut := false;
    while index < |value|
      invariant start <= index <= |value| && (index == start ==> quote.Plain?)
      invariant quote.Plain? || quote.Single? || quote.Double?
      invariant if cut then index == |value| && exists q :: GoesOn(q, value, start, index)
                else GoesOn(quote, value, start, index)
      decreases |value| - index
    {
      var c := value[index];
      if c == '\\' && !quote.Single? {
        if index + 2 <= |value| {
          GoesOnTwoMore(quote, value, start, index);
        } else {
          GoesOnOneMore(quote, value, start, index);
          cut := true;
        }
        index := if index + 2 < |value| then index + 2 else |value|;
        continue;
      }
      if quote.Plain? && IsSpace(c) {
        break;
      }
      GoesOnOneMore(quote, value, start, index);
      if !quote.Plain? {
        if (quote.Single? && c == '\'') || (quote.Double? && c == '"') {
          quote := Plain;
        }
      } else if c == '\'' {
        quote := Single;
      } else if c == '"' {
        quote := Double;
      }
      index := index + 1;
    }
    ghost var q := if cut then var q :| GoesOn(q, value, start, index); q else quote;
    WordEndsHere(q, value, start, index);
  }

  /** `_command_words` */
  method CommandWords(value: string) returns (words: seq<Found>)
    ensures words == FoundFrom(0, value)
  {
    words := [];
    var index := 0;
    while index < |value|
      invariant 0 <= index <= |value|
      invariant words + FoundFrom(index, value[index..]) == FoundFrom(0, value)
      decreases |value| - index
    {
      if IsSpace(value[index]) {
        FoundAfterBlank(index, value[index..]);
        assert value[index..][1..] == value[index + 1..];
        index := index + 1;
        continue;
      }
      var end := WordEnd(value, index);
      FoundAfterWord(index, value[index..], value[index..end], value[end..]);
      words := words + [Found(index, end, WordOf(value[index..end]))];
      index := end;
    }
    assert value[index..] == [];
  }

  // ---------------------------------------------------------------------------
  // The spans
  // ---------------------------------------------------------------------------

  /** The spans lie in order between `pos` and the end of the text, apart from one another, and
      around them there are only blanks. */
  ghost predicate Covers(pos: nat, value: string, words: seq<Found>) {
    && (forall k | 0 <= k < |words| ::
          pos <= words[k].start < words[k].end <= |value|)
    && (forall j, k | 0 <= j < k < |words| :: words[j].end < words[k].start)
    && (forall i | pos <= i < |value| && !IsSpace(value[i]) :: InSpan(words, i))
  }

  /** Each word is what the text of its span is compared as. */
  ghost predicate TellsWords(value: string, words: seq<Found>) {
    forall k | 0 <= k < |words| :: TellsWord(value, words[k])
  }

  ghost predicate TellsWord(value: string, f: Found) {
    f.start <= f.end <= |value| && f.word == WordOf(value[f.start..f.end])
  }

  lemma {:induction false} FoundAtTells(pos: nat, value: string, items: seq<Item>)
    requires pos <= |value| && value[pos..] == RenderItems(items) && WellFormedItems(items)
    ensures TellsWords(value, FoundAt(pos, items))
    decreases |items|
  {
    if items != [] {
      var raw, gap := items[0].raw, items[0].gap;
      FirstParts(items);
      PartsOfRest(pos, value, raw, gap, RenderItems(items[1..]));
      assert TellsWord(value, Found(pos, pos + |raw|, items[0].Word()));
      FoundAtTells(pos + |raw| + |gap|, value, items[1..]);
    }
  }

  ghost predicate InSpan(words: seq<Found>, i: int) {
    exists k :: 0 <= k < |words| && words[k].start <= i < words[k].end
  }

  ghost predicate BlankBetween(value: string, low: nat, high: nat)
    requires low <= high <= |value|
  {
    forall i | low <= i < high :: IsSpace(value[i])
  }

  lemma CoversOneMore(pos: nat, next: nat, value: string, f: Found, rest: seq<Found>)
    requires pos == f.start < f.end <= next <= |value| && (rest != [] ==> f.end < next)
    requires BlankBetween(value, f.end, next)
    requires Covers(next, value, rest)
    ensures Covers(pos, value, [f] + rest)
  {
    var words := [f] + rest;
    assert forall k | 1 <= k < |words| :: words[k] == rest[k - 1];
    forall i | pos <= i < |value| && !IsSpace(value[i]) ensures InSpan(words, i) {
      if i < f.end {
        assert words[0].start <= i < words[0].end;
      } else {
        assert InSpan(rest, i);
        var k :| 0 <= k < |rest| && rest[k].start <= i < rest[k].end;
        assert words[k + 1].start <= i < words[k + 1].end;
      }
    }
  }

  lemma PartsOfRest(pos: nat, value: string, raw: string, gap: string, rest: string)
    requires pos <= |value| && value[pos..] == raw + (gap + rest) && Blank(gap)
    ensures pos + |raw| + |gap| <= |value|
    ensures value[pos..pos + |raw|] == raw && BlankBetween(value, pos + |raw|, pos + |raw| + |gap|)
    ensures value[pos + |raw| + |gap|..] == rest
  {
    var tail := value[pos..];
    assert forall i | pos <= i < |value| :: value[i] == tail[i - pos];
    assert forall i | 0 <= i < |raw| :: tail[i] == raw[i];
    assert forall i | 0 <= i < |gap| :: tail[|raw| + i] == gap[i];
    assert forall i | 0 <= i < |rest| :: tail[|raw| + |gap| + i] == rest[i];
  }

  lemma FirstParts(items: seq<Item>)
    requires items != [] && WellFormedItems(items)
    ensures RenderItems(items) == items[0].raw + (items[0].gap + RenderItems(items[1..]))
    ensures items[0].raw != [] && Blank(items[0].gap) && WellFormedItems(items[1..])
    ensures items[1..] != [] ==> items[0].gap != []
  {
    assert IsRawWord(items[0].raw);
  }

  lemma {:induction false} FoundAtCovers(pos: nat, value: string, items: seq<Item>)
    requires pos <= |value| && value[pos..] == RenderItems(items) && WellFormedItems(items)
    ensures Covers(pos, value, FoundAt(pos, items))
    decreases |items|
  {
    if items == [] {
      assert |value[pos..]| == 0;
    } else {
      FirstParts(items);
      FirstSpan(pos, value, items[0], items[1..]);
      FoundAtCovers(pos + |items[0].raw| + |items[0].gap|, value, items[1..]);
      CoversFirst(pos, value, items[0], items[1..]);
      assert items == [items[0]] + items[1..];
    }
  }

  lemma FirstSpan(pos: nat, value: string, item: Item, rest: seq<Item>)
    requires pos <= |value| && value[pos..] == item.raw + (item.gap + RenderItems(rest)) && Blank(item.gap)
    ensures pos + |item.raw| + |item.gap| <= |value| && value[pos + |item.raw| + |item.gap|..] == RenderItems(rest)
  {
    PartsOfRest(pos, value, item.raw, item.gap, RenderItems(rest));
  }

  lemma CoversFirst(pos: nat, value: string, item: Item, rest: seq<Item>)
    requires pos <= |value| && value[pos..] == item.raw + (item.gap + RenderItems(rest)) && Blank(item.gap)
    requires item.raw != [] && (rest != [] ==> item.gap != [])
    requires pos + |item.raw| + |item.gap| <= |value|
    requires Covers(pos + |item.raw| + |item.gap|, value, FoundAt(pos + |item.raw| + |item.gap|, rest))
    ensures Covers(pos, value, FoundAt(pos, [item] + rest))
  {
    var next := pos + |item.raw| + |item.gap|;
    PartsOfRest(pos, value, item.raw, item.gap, RenderItems(rest));
    FoundAtOneMore(pos, item, rest);
    CoversOneMore(pos, next, value, Found(pos, pos + |item.raw|, item.Word()), FoundAt(next, rest));
  }

  /** For every text, also one with an open quote, the words found are in order and apart, and all
      that is not blank lies in one of them. */
  lemma WordsCoverTheText(value: string)
    ensures Covers(0, value, FoundFrom(0, value)) && TellsWords(value, FoundFrom(0, value))
  {
    var c := Parse(value);
    ParseIsRight(value);
    assert value == c.lead + RenderItems(c.items);
    assert value[|c.lead|..] == RenderItems(c.items);
    FoundAtCovers(|c.lead|, value, c.items);
    FoundAtTells(|c.lead|, value, c.items);
    assert forall i | 0 <= i < |c.lead| :: value[i] == c.lead[i];
  }
}
