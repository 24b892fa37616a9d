/** The wrapper's own words in a launch command (overlay/wrapper_tokens.py): which they are,
    taking them out, retargeting them, and writing them. */
module WrapperTokens {
  import opened Text
  import opened CommandWords

  const WRAPPER := "PENGUIN_BURNER"
  const FLAG_START := "--pb-"
  const VARIABLE_START := "PB_"

  const OVERLAY_FLAG := FlagText("overlay", "1")
  const OVERLAY_OFF_FLAG := FlagText("overlay", "0")
  const OVERLAY_ASSIGNMENT := VariableText("OVERLAY", "1")
  const INGAME_LATENCY_ASSIGNMENT := VariableText("INGAME_LATENCY", "1")
  const INGAME_LATENCY_FLAG := FlagText("ingame-latency", "1")
  const INGAME_LATENCY_START := VariableText("INGAME_LATENCY", "")

  /** `--pb-<name>=<value>` */
  function FlagText(name: string, value: string): string {
    FLAG_START + (name + ("=" + value))
  }

  /** `PB_<name>=<value>` */
  function VariableText(name: string, value: string): string {
    VARIABLE_START + (name + ("=" + value))
  }

  lemma FlagTexts()
    ensures OVERLAY_FLAG == "--pb-overlay=1" && OVERLAY_OFF_FLAG == "--pb-overlay=0"
    ensures INGAME_LATENCY_FLAG == "--pb-ingame-latency=1"
  {
  }

  lemma VariableTexts()
    ensures OVERLAY_ASSIGNMENT == "PB_OVERLAY=1"
    ensures INGAME_LATENCY_ASSIGNMENT == "PB_INGAME_LATENCY=1" && INGAME_LATENCY_START == "PB_INGAME_LATENCY="
  {
  }

  // ---------------------------------------------------------------------------
  // The wrapper's words
  // ---------------------------------------------------------------------------

  function LastSlash(path: string): (n: nat)
    ensures n <= |path|
  {
    if path == [] || path[|path| - 1] == '/' then |path| else LastSlash(path[..|path| - 1])
  }

  /** `PurePosixPath(path).name`: the last component that is neither empty nor a dot. */
  function Name(path: string): string
    decreases |path|
  {
    var from := LastSlash(path);
    var part := path[from..];
    if part != "" && part != "." then part else if from == 0 then "" else Name(path[..from - 1])
  }

  /** `_wrapper_word` */
  predicate IsWrapper(word: string) {
    word == WRAPPER || ("/" <= word && Name(word) == WRAPPER)
  }

  function Run(s: string, accepts: char -> bool): (n: nat)
    ensures n <= |s|
  {
    if s == [] || !accepts(s[0]) then 0 else 1 + Run(s[1..], accepts)
  }

  predicate IsLetterOrDigit(c: char) {
    'a' <= c <= 'z' || 'A' <= c <= 'Z' || '0' <= c <= '9'
  }

  predicate InFlagName(c: char) {
    'a' <= c <= 'z' || '0' <= c <= '9' || c == '-'
  }

  predicate InVariable(c: char) {
    IsLetterOrDigit(c) || c == '_'
  }

  /** One or more accepted characters, an equals sign, and no blank after it. */
  predicate Assigns(s: string, accepts: char -> bool) {
    var n := Run(s, accepts);
    0 < n < |s| && s[n] == '=' && NoSpace(s[n + 1..])
  }

  /** A full match of `_PB_TOKEN_RE`. */
  predicate IsToken(word: string) {
    || (FLAG_START <= word && Assigns(word[|FLAG_START|..], InFlagName))
    || (VARIABLE_START <= word && Assigns(word[|VARIABLE_START|..], InVariable))
    || (WRAPPER <= word && IsWrapperAssignment(word[|WRAPPER|..]))
  }

  predicate IsWrapperAssignment(rest: string) {
    || rest == ""
    || ("=" <= rest && NoSpace(rest[1..]))
    || ("_" <= rest && Assigns(rest[1..], InVariable))
  }

  lemma RunIsAccepted(s: string, accepts: char -> bool)
    ensures forall i | 0 <= i < Run(s, accepts) :: accepts(s[i])
    ensures Run(s, accepts) < |s| ==> !accepts(s[Run(s, accepts)])
  {
  }

  /** `text` is a name of the given letters, an equals sign, and a value without a blank. */
  ghost predicate IsSetting(text: string, letters: string) {
    exists name, value :: IsNameAndValue(text, letters, name, value)
  }

  ghost predicate IsNameAndValue(text: string, letters: string, name: string, value: string) {
    text == name + ("=" + value) && name != "" && (forall c | c in name :: c in letters) && NoSpace(value)
  }

  lemma {:induction false} RunIs(name: string, rest: string, accepts: char -> bool)
    requires rest != "" && !accepts(rest[0]) && forall c | c in name :: accepts(c)
    ensures Run(name + rest, accepts) == |name|
  {
    if name == "" {
      assert name + rest == rest;
    } else {
      assert name[0] in name && (name + rest)[1..] == name[1..] + rest;
      RunIs(name[1..], rest, accepts);
    }
  }

  lemma AssignsIsSetting(s: string, accepts: char -> bool, letters: string)
    requires !accepts('=') && forall c :: accepts(c) <==> c in letters
    ensures Assigns(s, accepts) <==> IsSetting(s, letters)
  {
    if Assigns(s, accepts) {
      RunIsAccepted(s, accepts);
      var n := Run(s, accepts);
      assert s == s[..n] + ("=" + s[n + 1..]);
      assert IsNameAndValue(s, letters, s[..n], s[n + 1..]);
    }
    if IsSetting(s, letters) {
      var name, value :| IsNameAndValue(s, letters, name, value);
      RunIs(name, "=" + value, accepts);
      assert s[|name| + 1..] == value;
    }
  }

  const LOWER := "abcdefghijklmnopqrstuvwxyz"
  const UPPER := "ABCDEFGHIJKLMNOPQRSTUVWXYZ"
  const DIGITS := "0123456789"

  lemma LowerLetters(c: char)
    ensures c in LOWER <==> 'a' <= c <= 'z'
  {
    assert 'a' <= c <= 'z' ==> LOWER[c as int - 'a' as int] == c;
  }

  lemma UpperLetters(c: char)
    ensures c in UPPER <==> 'A' <= c <= 'Z'
  {
    assert 'A' <= c <= 'Z' ==> UPPER[c as int - 'A' as int] == c;
  }

  lemma DecimalDigits(c: char)
    ensures c in DIGITS <==> '0' <= c <= '9'
  {
    assert '0' <= c <= '9' ==> DIGITS[c as int - '0' as int] == c;
  }

  lemma FlagLetters(c: char)
    ensures InFlagName(c) <==> c in LOWER + DIGITS + "-"
  {
    LowerLetters(c);
    DecimalDigits(c);
  }

  lemma VariableLetters(c: char)
    ensures InVariable(c) <==> c in UPPER + LOWER + DIGITS + "_"
  {
    UpperLetters(c);
    LowerLetters(c);
    DecimalDigits(c);
  }

  lemma FlagIsSetting(s: string)
    ensures Assigns(s, InFlagName) <==> IsSetting(s, LOWER + DIGITS + "-")
  {
    forall c ensures InFlagName(c) <==> c in LOWER + DIGITS + "-" {
      FlagLetters(c);
    }
    AssignsIsSetting(s, InFlagName, LOWER + DIGITS + "-");
  }

  lemma VariableIsSetting(s: string)
    ensures Assigns(s, InVariable) <==> IsSetting(s, UPPER + LOWER + DIGITS + "_")
  {
    forall c ensures InVariable(c) <==> c in UPPER + LOWER + DIGITS + "_" {
      VariableLetters(c);
    }
    AssignsIsSetting(s, InVariable, UPPER + LOWER + DIGITS + "_");
  }

  /** What a token is, in the words of its pattern: a flag, a variable, or the wrapper's name, alone, with a
      value, or as the start of a variable. */
  lemma TokenIs(word: string)
    ensures IsToken(word)
       <==> || ("--pb-" <= word && IsSetting(word[5..], LOWER + DIGITS + "-"))
            || ("PB_" <= word && IsSetting(word[3..], UPPER + LOWER + DIGITS + "_"))
            || word == "PENGUIN_BURNER"
            || ("PENGUIN_BURNER=" <= word && NoSpace(word[15..]))
            || ("PENGUIN_BURNER_" <= word && IsSetting(word[15..], UPPER + LOWER + DIGITS + "_"))
  {
    if "--pb-" <= word {
      FlagIsSetting(word[5..]);
    }
    if "PB_" <= word {
      VariableIsSetting(word[3..]);
    }
    WrapperAssignmentIs(word);
  }

  lemma WrapperAssignmentIs(word: string)
    ensures WRAPPER <= word && IsWrapperAssignment(word[|WRAPPER|..])
       <==> || word == "PENGUIN_BURNER"
            || ("PENGUIN_BURNER=" <= word && NoSpace(word[15..]))
            || ("PENGUIN_BURNER_" <= word && IsSetting(word[15..], UPPER + LOWER + DIGITS + "_"))
  {
    WrapperTail(word, '=');
    WrapperTail(word, '_');
    if WRAPPER <= word {
      var rest := word[14..];
      assert word == WRAPPER + rest;
      if rest != "" {
        assert rest[1..] == word[15..];
        VariableIsSetting(rest[1..]);
      }
    }
  }

  lemma WrapperTail(word: string, c: char)
    ensures WRAPPER + [c] <= word <==> WRAPPER <= word && [c] <= word[14..]
  {
    if WRAPPER <= word && [c] <= word[14..] {
      assert word[14] == c;
      assert WRAPPER + [c] == word[..15];
    }
  }

  lemma {:induction false} LastSlashIs(dir: string, name: string)
    requires '/' !in name
    ensures LastSlash(dir + ("/" + name)) == |dir| + 1
  {
    var path := dir + ("/" + name);
    if name != "" {
      assert path[|path| - 1] == name[|name| - 1] && name[|name| - 1] in name;
      assert path[..|path| - 1] == dir + ("/" + name[..|name| - 1]);
      LastSlashIs(dir, name[..|name| - 1]);
    }
  }

  /** The name of a path is its last part, parts that are empty or a dot left out. */
  lemma NameOfPath(dir: string, name: string)
    requires '/' !in name
    ensures Name(dir + ("/" + name)) == if name == "" || name == "." then Name(dir) else name
  {
    LastSlashIs(dir, name);
    var path := dir + ("/" + name);
    assert path[|dir| + 1..] == name && path[..|dir|] == dir;
  }

  predicate IsOurs(word: string) {
    IsWrapper(word) || IsToken(word)
  }

  // ---------------------------------------------------------------------------
  // Taking them out
  // ---------------------------------------------------------------------------

  /** Whether a word goes, given the word after it (empty when there is none), both as written. */
  type Rule = (string, string) -> bool

  /** The rule that looks at the words as they are compared. */
  function ByWord(goes: (string, string) -> bool): Rule {
    (raw, next) => goes(WordOf(raw), WordOf(next))
  }

  lemma ByWordApplies(goes: (string, string) -> bool, raw: string, next: string)
    ensures ByWord(goes)(raw, next) == goes(WordOf(raw), WordOf(next))
    ensures WordOf("") == ""
  {
  }

  /** Our words go, and `env` where it introduces the opt-in. */
  predicate OursGo(word: string, next: string) {
    IsOurs(word) || (word == "env" && INGAME_LATENCY_START <= next)
  }

  function HeadRaw(items: seq<Item>): string {
    if items == [] then "" else items[0].raw
  }

  predicate FirstGoes(items: seq<Item>, goes: Rule)
    requires items != []
  {
    goes(items[0].raw, HeadRaw(items[1..]))
  }

  function KeptItems(items: seq<Item>, goes: Rule): seq<Item> {
    if items == [] then []
    else (if FirstGoes(items, goes) then [] else [items[0]]) + KeptItems(items[1..], goes)
  }

  /** The words that stay, each with the blanks after it, trimmed at both ends. */
  function StrippedBy(value: string, goes: Rule): string {
    var c := Parse(value);
    Trim(c.lead + RenderItems(KeptItems(c.items, goes)))
  }

  /** What `strip_penguin_burner_tokens` gives. */
  function Stripped(value: string): string {
    StrippedBy(value, ByWord(OursGo))
  }

  /** The loop of `strip_penguin_burner_tokens` stands before `rest`, at `pos`. */
  ghost predicate Before(value: string, words: seq<Found>, index: nat, pos: nat, rest: seq<Item>) {
    && index <= |words| && pos <= |value|
    && words[index..] == FoundAt(pos, rest)
    && value[pos..] == RenderItems(rest)
    && WellFormedItems(rest)
  }

  lemma BeforeStart(value: string)
    ensures var c := Parse(value);
            Before(value, FoundFrom(0, value), 0, |c.lead|, c.items) && value[..|c.lead|] == c.lead
  {
    var c := Parse(value);
    ParseIsRight(value);
    assert value == c.lead + RenderItems(c.items);
  }

  /** The word at hand, the blanks after it, and what comes next. */
  lemma AtWord(value: string, words: seq<Found>, index: nat, pos: nat, rest: seq<Item>)
    requires Before(value, words, index, pos, rest) && index < |words|
    ensures rest != [] && words[index] == Found(pos, pos + |rest[0].raw|, rest[0].Word())
    ensures var end, next := pos + |rest[0].raw|, pos + |rest[0].raw| + |rest[0].gap|;
            && next <= |value| && value[pos..end] == rest[0].raw && BlankBetween(value, end, next)
            && value[pos..next] == rest[0].raw + rest[0].gap
            && (next < |value| ==> !IsSpace(value[next]))
    ensures if index + 1 < |words| then rest[1..] != [] && words[index + 1].word == rest[1].Word() else rest[1..] == []
  {
    assert rest != [];
    var item := rest[0];
    FirstParts(rest);
    PartsOfRest(pos, value, item.raw, item.gap, RenderItems(rest[1..]));
    assert rest == [item] + rest[1..];
    FoundAtOneMore(pos, item, rest[1..]);
    assert words[index] == words[index..][0];
    assert words[index + 1..] == words[index..][1..];
    var end, next := pos + |item.raw|, pos + |item.raw| + |item.gap|;
    FirstIsNoSpace(rest[1..]);
    assert next < |value| ==> value[next] == value[next..][0];
    assert value[pos..next] == value[pos..][..|item.raw| + |item.gap|];
    if index + 1 < |words| {
      assert words[index + 1] == words[index + 1..][0];
    }
  }

  lemma BeforeNext(value: string, words: seq<Found>, index: nat, pos: nat, rest: seq<Item>)
    requires Before(value, words, index, pos, rest) && index < |words|
    ensures rest != [] && Before(value, words, index + 1, pos + |rest[0].raw| + |rest[0].gap|, rest[1..])
  {
    assert rest != [];
    FirstParts(rest);
    PartsOfRest(pos, value, rest[0].raw, rest[0].gap, RenderItems(rest[1..]));
    assert rest == [rest[0]] + rest[1..];
    FoundAtOneMore(pos, rest[0], rest[1..]);
    assert words[index + 1..] == words[index..][1..];
  }

  method SkipBlanks(value: string, start: nat) returns (end: nat)
    requires start <= |value|
    ensures start <= end <= |value| && BlankBetween(value, start, end) && (end < |value| ==> !IsSpace(value[end]))
  {
    end := start;
    while end < |value| && IsSpace(value[end])
      invariant start <= end <= |value| && BlankBetween(value, start, end)
    {
      end := end + 1;
    }
  }

  lemma OneBlankRun(value: string, start: nat, a: nat, b: nat)
    requires start <= a <= |value| && BlankBetween(value, start, a) && (a < |value| ==> !IsSpace(value[a]))
    requires start <= b <= |value| && BlankBetween(value, start, b) && (b < |value| ==> !IsSpace(value[b]))
    ensures a == b
  {
  }

  lemma FirstGone(rest: seq<Item>, goes: Rule)
    requires rest != [] && FirstGoes(rest, goes)
    ensures KeptItems(rest, goes) == KeptItems(rest[1..], goes)
  {
  }

  lemma FirstKept(rest: seq<Item>, goes: Rule)
    requires rest != [] && !FirstGoes(rest, goes)
    ensures RenderItems(KeptItems(rest, goes)) == rest[0].raw + rest[0].gap + RenderItems(KeptItems(rest[1..], goes))
  {
    assert KeptItems(rest, goes)[1..] == KeptItems(rest[1..], goes);
  }

  /** The text kept so far, the text still to be looked at before `pos`, and what will be kept. */
  ghost function Result(value: string, kept: string, cursor: nat, pos: nat, rest: seq<Item>, goes: Rule): string
    requires cursor <= pos <= |value|
  {
    kept + (value[cursor..pos] + RenderItems(KeptItems(rest, goes)))
  }

  /** Passing over a word that goes, and leaving one that stays, both keep the result. */
  lemma ResultStays(value: string, kept: string, cursor: nat, pos: nat, next: nat, rest: seq<Item>, goes: Rule)
    requires cursor <= pos <= next <= |value| && rest != []
    requires value[pos..next] == rest[0].raw + rest[0].gap
    ensures FirstGoes(rest, goes) ==>
      Result(value, kept + value[cursor..pos], next, next, rest[1..], goes)
      == Result(value, kept, cursor, pos, rest, goes)
    ensures !FirstGoes(rest, goes) ==>
      Result(value, kept, cursor, next, rest[1..], goes) == Result(value, kept, cursor, pos, rest, goes)
  {
    if FirstGoes(rest, goes) {
      FirstGone(rest, goes);
      assert value[next..next] == "";
    } else {
      FirstKept(rest, goes);
      assert value[cursor..next] == value[cursor..pos] + value[pos..next];
    }
  }

  /** One word: left in place, or passed over together with the blanks after it. */
  method PassOver(value: string, kept: string, cursor: nat, f: Found, goes: bool, ghost next: nat)
    returns (kept': string, cursor': nat)
    requires cursor <= f.start <= f.end <= next <= |value| && BlankBetween(value, f.end, next)
    requires next < |value| ==> !IsSpace(value[next])
    ensures goes ==> kept' == kept + value[cursor..f.start] && cursor' == next
    ensures !goes ==> kept' == kept && cursor' == cursor
  {
    kept', cursor' := kept, cursor;
    if goes {
      kept' := kept + value[cursor..f.start];
      cursor' := SkipBlanks(value, f.end);
      OneBlankRun(value, f.end, cursor', next);
    }
  }

  method StripOne(value: string, words: seq<Found>, index: nat, kept: string, cursor: nat,
                  goes: (string, string) -> bool, ghost pos: nat, ghost rest: seq<Item>)
    returns (kept': string, cursor': nat)
    requires Before(value, words, index, pos, rest) && index < |words| && cursor <= pos
    ensures rest != [] && cursor' <= pos + |rest[0].raw| + |rest[0].gap| <= |value|
    ensures Result(value, kept', cursor', pos + |rest[0].raw| + |rest[0].gap|, rest[1..], ByWord(goes))
         == Result(value, kept, cursor, pos, rest, ByWord(goes))
  {
    AtWord(value, words, index, pos, rest);
    ghost var next := pos + |rest[0].raw| + |rest[0].gap|;
    var f := words[index];
    var nextWord := if index + 1 < |words| then words[index + 1].word else "";
    ByWordApplies(goes, rest[0].raw, HeadRaw(rest[1..]));
    kept', cursor' := PassOver(value, kept, cursor, f, goes(f.word, nextWord), next);
    ResultStays(value, kept, cursor, pos, next, rest, ByWord(goes));
  }

  /** The loop of `strip_penguin_burner_tokens`, for any rule. */
  method StripBy(value: string, goes: (string, string) -> bool) returns (r: string)
    ensures r == StrippedBy(value, ByWord(goes))
  {
    var words := CommandWords.CommandWords(value);
    var kept, cursor: nat := "", 0;
    ghost var c := Parse(value);
    ghost var pos: nat, rest := |c.lead|, c.items;
    BeforeStart(value);
    assert Result(value, kept, cursor, pos, rest, ByWord(goes))
        == c.lead + RenderItems(KeptItems(c.items, ByWord(goes)));
    for index := 0 to |words|
      invariant Before(value, words, index, pos, rest) && cursor <= pos
      invariant Result(value, kept, cursor, pos, rest, ByWord(goes))
             == c.lead + RenderItems(KeptItems(c.items, ByWord(goes)))
    {
      kept, cursor := StripOne(value, words, index, kept, cursor, goes, pos, rest);
      BeforeNext(value, words, index, pos, rest);
      pos, rest := pos + |rest[0].raw| + |rest[0].gap|, rest[1..];
    }
    ResultAtEnd(value, kept, cursor, pos, rest, ByWord(goes));
    r := Trim(kept + value[cursor..]);
  }

  /** `strip_penguin_burner_tokens` */
  method StripTokens(value: string) returns (r: string)
    ensures r == Stripped(value)
  {
    r := StripBy(value, OursGo);
  }

  lemma ResultAtEnd(value: string, kept: string, cursor: nat, pos: nat, rest: seq<Item>, goes: Rule)
    requires cursor <= pos <= |value| && [] == FoundAt(pos, rest) && value[pos..] == RenderItems(rest)
    ensures Result(value, kept, cursor, pos, rest, goes) == kept + value[cursor..]
  {
    assert rest == [];
    assert |value[pos..]| == 0;
    assert value[cursor..pos] + "" == value[cursor..];
  }

  // ---------------------------------------------------------------------------
  // What is left
  // ---------------------------------------------------------------------------

  /** The kept words once the end of the text is trimmed: a last word that ends in a blank (an
      escaped one, or one in an open quote) loses it. */
  function TrimLast(items: seq<Item>): seq<Item> {
    if items == [] then []
    else items[..|items| - 1] + [Item(TrimRight(items[|items| - 1].raw), "")]
  }

  lemma {:induction false} KeptIsWellFormed(items: seq<Item>, goes: Rule)
    requires WellFormedItems(items)
    ensures WellFormedItems(KeptItems(items, goes))
  {
    if items != [] {
      KeptIsWellFormed(items[1..], goes);
      if !FirstGoes(items, goes) {
        WellFormedOneMore(items[0], KeptItems(items[1..], goes));
      }
    }
  }

  lemma {:induction false} PrefixOfWord(q: Quoting, raw: string, n: nat)
    requires WordFrom(q, raw) && n <= |raw|
    ensures WordFrom(q, raw[..n])
    decreases n
  {
    if n > 0 {
      PrefixOfWord(Next(q, raw[0]), raw[1..], n - 1);
      assert raw[..n][1..] == raw[1..][..n - 1];
    }
  }

  lemma {:induction false} TrimRightOfLast(a: string, b: string)
    requires TrimRight(b) != []
    ensures TrimRight(a + b) == a + TrimRight(b)
    decreases |b|
  {
    assert (a + b)[|a + b| - 1] == b[|b| - 1];
    if IsSpace(b[|b| - 1]) {
      TrimRightOfLast(a, b[..|b| - 1]);
      assert (a + b)[..|a + b| - 1] == a + b[..|b| - 1];
    }
  }

  lemma {:induction false} RenderAppended(a: seq<Item>, b: seq<Item>)
    ensures RenderItems(a + b) == RenderItems(a) + RenderItems(b)
  {
    if a == [] {
      assert a + b == b;
    } else {
      RenderAppended(a[1..], b);
      assert (a + b)[1..] == a[1..] + b;
      var first, x, y := a[0].raw + a[0].gap, RenderItems(a[1..]), RenderItems(b);
      assert RenderItems(a + b) == first + (x + y);
      assert first + (x + y) == (first + x) + y;
    }
  }

  lemma RenderOne(item: Item)
    ensures RenderItems([item]) == item.raw + item.gap
  {
  }

  lemma {:induction false} TrimRightKeepsText(s: string)
    requires s != [] && !IsSpace(s[0])
    ensures TrimRight(s) != []
  {
    if IsSpace(s[|s| - 1]) {
      TrimRightKeepsText(s[..|s| - 1]);
    }
  }

  lemma TrimmedWord(raw: string)
    requires IsRawWord(raw)
    ensures TrimRight(raw) != [] && IsRawWord(TrimRight(raw))
  {
    TrimRightSplits(raw);
    TrimRightKeepsText(raw);
    PrefixOfWord(Plain, raw, |TrimRight(raw)|);
    assert raw[..|TrimRight(raw)|] == TrimRight(raw);
  }

  lemma TrimmedItems(items: seq<Item>)
    requires WellFormedItems(items)
    ensures RenderItems(TrimLast(items)) == Trim(RenderItems(items)) && WellFormedItems(TrimLast(items))
  {
    if items != [] {
      var n := |items| - 1;
      var init, last := items[..n], items[n];
      assert items == init + [last];
      FirstIsNoSpace(items);
      TrimmedWord(last.raw);
      assert TrimRight(last.raw + last.gap) == TrimRight(last.raw) by {
        TrimRightAppended(last.raw, last.gap);
      }
      RenderedUpTo(init, last);
      RenderedUpTo(init, Item(TrimRight(last.raw), ""));
      assert TrimRight(last.raw) + "" == TrimRight(last.raw);
      TrimRightOfLast(RenderItems(init), last.raw + last.gap);
      TrimmedLastIsWellFormed(items);
    }
  }

  lemma TrimmedLastIsWellFormed(items: seq<Item>)
    requires items != [] && WellFormedItems(items) && IsRawWord(TrimRight(items[|items| - 1].raw))
    ensures WellFormedItems(TrimLast(items))
  {
    assert forall k | 0 <= k < |items| - 1 :: TrimLast(items)[k] == items[k];
  }

  lemma RenderedUpTo(init: seq<Item>, last: Item)
    ensures RenderItems(init + [last]) == RenderItems(init) + (last.raw + last.gap)
  {
    RenderAppended(init, [last]);
    RenderOne(last);
  }

  /** What a stripped command is read as: the kept words, in order and as written, with their
      blanks; only the end of the last one may be cut. */
  lemma StrippedIsRead(value: string, goes: Rule)
    ensures Parse(StrippedBy(value, goes)) == Command("", TrimLast(KeptItems(Parse(value).items, goes)))
  {
    var c := Parse(value);
    var kept := KeptItems(c.items, goes);
    ParseIsRight(value);
    KeptIsWellFormed(c.items, goes);
    TrimmedItems(kept);
    TrimLeftPrepended(c.lead, RenderItems(kept));
    ParseIsUnique(Command("", TrimLast(kept)));
    assert "" + RenderItems(TrimLast(kept)) == StrippedBy(value, goes);
  }
}
