/** Writing the wrapper's tokens into a launch command and taking them out again
    (overlay/wrapper_tokens.py). */
module WrapperWriting {
  import opened Text
  import opened CommandWords
  import opened WrapperTokens
  import opened WrapperEdits
  import GameKey

  // ---------------------------------------------------------------------------
  // The tokens
  // ---------------------------------------------------------------------------

  datatype Settings = Settings(overlay: bool, gameKey: string, latency: bool, latencyAsFlag: bool, executable: string)

  function EnvWords(s: Settings): seq<string> {
    if s.latencyAsFlag || !s.latency then [] else ["env", INGAME_LATENCY_ASSIGNMENT]
  }

  function WrapperWords(s: Settings): seq<string> {
    [ShellQuote(s.executable), FlagText("overlay", if s.overlay then "1" else "0")]
  }

  function LatencyWords(s: Settings): seq<string> {
    if s.latency && s.latencyAsFlag then [INGAME_LATENCY_FLAG] else []
  }

  function KeyWords(s: Settings): seq<string> {
    var key := Trim(s.gameKey);
    if key != "" then [GameKey.Flag(key)] else []
  }

  /** The words of `wrapper_tokens`, in order. */
  function TokenWords(s: Settings): seq<string> {
    EnvWords(s) + (WrapperWords(s) + (LatencyWords(s) + KeyWords(s)))
  }

  /** The words in the text they are written in. */
  lemma WordsWritten(s: Settings)
    ensures EnvWords(s) == if s.latency && !s.latencyAsFlag then ["env", "PB_INGAME_LATENCY=1"] else []
    ensures WrapperWords(s) == [ShellQuote(s.executable), if s.overlay then "--pb-overlay=1" else "--pb-overlay=0"]
    ensures LatencyWords(s) == if s.latency && s.latencyAsFlag then ["--pb-ingame-latency=1"] else []
    ensures KeyWords(s) == if Trim(s.gameKey) == "" then [] else [GameKey.Flag(Trim(s.gameKey))]
    ensures TokenWords(s) == EnvWords(s) + WrapperWords(s) + LatencyWords(s) + KeyWords(s)
  {
    FlagTexts();
    VariableTexts();
    Reassociated(EnvWords(s), WrapperWords(s), LatencyWords(s), KeyWords(s));
  }

  lemma Reassociated(a: seq<string>, b: seq<string>, c: seq<string>, d: seq<string>)
    ensures a + (b + (c + d)) == a + b + c + d
  {
  }

  function JoinWords(words: seq<string>): string {
    if words == [] then "" else if |words| == 1 then words[0] else words[0] + " " + JoinWords(words[1..])
  }

  /** `wrapper_tokens` */
  function Tokens(s: Settings): string {
    JoinWords(TokenWords(s))
  }

  /** The words with a blank after each but the last, which has `gap`. */
  function Spaced(words: seq<string>, gap: string): seq<Item> {
    if words == [] then []
    else [Item(words[0], if |words| == 1 then gap else " ")] + Spaced(words[1..], gap)
  }

  predicate ClosedWord(w: string) {
    IsRawWord(w) && Closed(w)
  }

  lemma {:induction false} SpacedItems(words: seq<string>, gap: string)
    ensures |Spaced(words, gap)| == |words|
    ensures forall k | 0 <= k < |words| ::
      Spaced(words, gap)[k] == Item(words[k], if k == |words| - 1 then gap else " ")
  {
    if words != [] {
      SpacedItems(words[1..], gap);
    }
  }

  lemma {:induction false} SpacedText(words: seq<string>, gap: string)
    requires words != []
    ensures RenderItems(Spaced(words, gap)) == JoinWords(words) + gap
  {
    var item, rest := Item(words[0], if |words| == 1 then gap else " "), words[1..];
    RenderFirst(item, Spaced(rest, gap));
    if rest != [] {
      SpacedText(rest, gap);
      assert words[0] + (" " + (JoinWords(rest) + gap)) == words[0] + " " + JoinWords(rest) + gap;
    } else {
      assert words[0] + (gap + "") == words[0] + gap;
    }
  }

  lemma SpacedIsRead(words: seq<string>, gap: string)
    requires Blank(gap) && forall k | 0 <= k < |words| :: ClosedWord(words[k])
    ensures WellFormedItems(Spaced(words, gap)) && |Spaced(words, gap)| == |words|
    ensures forall k | 0 <= k < |words| ::
      Spaced(words, gap)[k] == Item(words[k], if k == |words| - 1 then gap else " ")
    ensures words != [] ==> RenderItems(Spaced(words, gap)) == JoinWords(words) + gap
  {
    SpacedItems(words, gap);
    assert IsSpace(' ');
    if words != [] {
      SpacedText(words, gap);
    }
  }

  // ---------------------------------------------------------------------------
  // All of them are ours
  // ---------------------------------------------------------------------------

  lemma {:induction false} RunStopsAt(name: string, rest: string, accepts: char -> bool)
    requires rest != [] && !accepts(rest[0]) && forall i | 0 <= i < |name| :: accepts(name[i])
    ensures Run(name + rest, accepts) == |name|
  {
    if name == [] {
      assert name + rest == rest;
    } else {
      assert accepts(name[0]);
      assert (name + rest)[1..] == name[1..] + rest;
      RunStopsAt(name[1..], rest, accepts);
    }
  }

  lemma AssignsParts(name: string, value: string, accepts: char -> bool)
    requires name != [] && !accepts('=') && NoSpace(value) && forall i | 0 <= i < |name| :: accepts(name[i])
    ensures Assigns(name + ("=" + value), accepts)
  {
    RunStopsAt(name, "=" + value, accepts);
    assert (name + ("=" + value))[|name| + 1..] == value;
  }

  lemma FlagIsToken(name: string, value: string)
    requires name != [] && NoSpace(value) && forall i | 0 <= i < |name| :: InFlagName(name[i])
    ensures IsToken(FlagText(name, value))
  {
    AssignsParts(name, value, InFlagName);
    assert FlagText(name, value)[|FLAG_START|..] == name + ("=" + value);
  }

  lemma VariableIsToken(name: string, value: string)
    requires name != [] && NoSpace(value) && forall i | 0 <= i < |name| :: InVariable(name[i])
    ensures IsToken(VariableText(name, value))
  {
    AssignsParts(name, value, InVariable);
    assert VariableText(name, value)[|VARIABLE_START|..] == name + ("=" + value);
  }

  lemma FlagIsPlain(name: string, value: string)
    requires AllPlain(name) && AllPlain(value)
    ensures AllPlain(FlagText(name, value)) && AllPlain(VariableText(name, value))
  {
    assert AllPlain(FLAG_START) && AllPlain(VARIABLE_START) && AllPlain("=");
  }

  /** One closed shell word, and one of ours. */
  ghost predicate IsOurWord(raw: string) {
    ClosedWord(raw) && IsOurs(WordOf(raw))
  }

  lemma PlainTokenIsOurWord(w: string)
    requires w != [] && AllPlain(w) && IsToken(w)
    ensures IsOurWord(w) && WordOf(w) == w
  {
    PlainReads(w);
  }

  lemma FlagIsOurWord(name: string, value: string)
    requires name != [] && AllPlain(name) && AllPlain(value) && forall i | 0 <= i < |name| :: InFlagName(name[i])
    ensures IsOurWord(FlagText(name, value)) && WordOf(FlagText(name, value)) == FlagText(name, value)
  {
    assert forall i | 0 <= i < |value| :: IsPlainChar(value[i]);
    FlagIsToken(name, value);
    FlagIsPlain(name, value);
    PlainTokenIsOurWord(FlagText(name, value));
  }

  lemma AssignmentIsOurWord()
    ensures IsOurWord(INGAME_LATENCY_ASSIGNMENT) && WordOf(INGAME_LATENCY_ASSIGNMENT) == INGAME_LATENCY_ASSIGNMENT
  {
    VariableIsToken("INGAME_LATENCY", "1");
    FlagIsPlain("INGAME_LATENCY", "1");
    PlainTokenIsOurWord(INGAME_LATENCY_ASSIGNMENT);
  }

  lemma GameKeyPrefixIsFlag()
    ensures GameKey.GAME_KEY_FLAG_PREFIX == FLAG_START + ("game-id" + "=")
  {
  }

  lemma GameKeyFlagIsFlag(key: string) returns (value: string)
    ensures GameKey.Flag(key) == FlagText("game-id", value) && AllPlain(value)
  {
    var flag, n := GameKey.Flag(key), |GameKey.GAME_KEY_FLAG_PREFIX|;
    GameKey.FlagIsOneWord(key);
    value := flag[n..];
    assert forall i | 0 <= i < |value| :: value[i] in flag && IsPlainChar(value[i]);
    assert flag == GameKey.GAME_KEY_FLAG_PREFIX + value;
    GameKeyPrefixIsFlag();
    Regrouped(FLAG_START, "game-id", "=", value);
  }

  lemma Regrouped(a: string, b: string, c: string, d: string)
    ensures a + (b + c) + d == a + (b + (c + d))
  {
  }

  lemma GameKeyFlagIsOurWord(key: string) returns (value: string)
    ensures IsOurWord(GameKey.Flag(key))
    ensures WordOf(GameKey.Flag(key)) == GameKey.Flag(key) == FlagText("game-id", value)
  {
    value := GameKeyFlagIsFlag(key);
    FlagIsOurWord("game-id", value);
  }

  /** Every word goes, the last one whatever comes after it. */
  ghost predicate AllGo(words: seq<string>, goes: Rule) {
    && (forall k | 0 <= k < |words| :: ClosedWord(words[k]))
    && (forall k | 0 <= k < |words| - 1 :: goes(words[k], words[k + 1]))
    && (words != [] ==> GoesAnyway(words[|words| - 1], goes))
  }

  predicate Applies(goes: Rule, raw: string, next: string) {
    goes(raw, next)
  }

  ghost predicate GoesAnyway(raw: string, goes: Rule) {
    forall next: string :: Applies(goes, raw, next)
  }

  lemma AllGoTogether(a: seq<string>, b: seq<string>, goes: Rule)
    requires AllGo(a, goes) && AllGo(b, goes)
    ensures AllGo(a + b, goes)
  {
    var c := a + b;
    forall k | 0 <= k < |c| - 1 ensures goes(c[k], c[k + 1]) {
      if k == |a| - 1 {
        assert c[k] == a[|a| - 1] && Applies(goes, c[k], c[k + 1]);
      } else if k < |a| {
        assert c[k] == a[k] && c[k + 1] == a[k + 1];
      } else {
        assert c[k] == b[k - |a|] && c[k + 1] == b[k - |a| + 1];
      }
    }
  }

  lemma OurWordGoes(raw: string)
    requires IsOurWord(raw)
    ensures AllGo([raw], ByWord(OursGo))
  {
    forall next: string ensures Applies(ByWord(OursGo), raw, next) {
      ByWordApplies(OursGo, raw, next);
    }
  }

  lemma EnvWordsGo(s: Settings)
    ensures AllGo(EnvWords(s), ByWord(OursGo))
  {
    if EnvWords(s) != [] {
      AssignmentIsOurWord();
      OurWordGoes(INGAME_LATENCY_ASSIGNMENT);
      EnvIntroduces();
      IntroducedGoes("env", INGAME_LATENCY_ASSIGNMENT, ByWord(OursGo));
    }
  }

  lemma EnvIntroduces()
    ensures ByWord(OursGo)("env", INGAME_LATENCY_ASSIGNMENT) && ClosedWord("env")
  {
    PlainReads("env");
    AssignmentIsOurWord();
    ByWordApplies(OursGo, "env", INGAME_LATENCY_ASSIGNMENT);
    assert INGAME_LATENCY_START <= INGAME_LATENCY_ASSIGNMENT;
  }

  lemma IntroducedGoes(a: string, b: string, goes: Rule)
    requires ClosedWord(a) && AllGo([b], goes) && goes(a, b)
    ensures AllGo([a, b], goes)
  {
    assert ClosedWord([b][0]);
  }

  lemma WrapperWordsGo(s: Settings)
    requires IsWrapper(s.executable)
    ensures AllGo(WrapperWords(s), ByWord(OursGo))
  {
    ExecutableGoes(s.executable);
    OverlayFlagGoes(s.overlay);
    TwoGo(ShellQuote(s.executable), FlagText("overlay", if s.overlay then "1" else "0"), ByWord(OursGo));
  }

  lemma ExecutableGoes(executable: string)
    requires IsWrapper(executable)
    ensures AllGo([ShellQuote(executable)], ByWord(OursGo))
  {
    QuotedReadsBack(executable);
    assert IsOurWord(ShellQuote(executable));
    OurWordGoes(ShellQuote(executable));
  }

  lemma OverlayFlagGoes(overlay: bool)
    ensures AllGo([FlagText("overlay", if overlay then "1" else "0")], ByWord(OursGo))
  {
    FlagIsOurWord("overlay", if overlay then "1" else "0");
    OurWordGoes(FlagText("overlay", if overlay then "1" else "0"));
  }

  lemma TwoGo(a: string, b: string, goes: Rule)
    requires AllGo([a], goes) && AllGo([b], goes)
    ensures AllGo([a, b], goes)
  {
    AllGoTogether([a], [b], goes);
    assert [a] + [b] == [a, b];
  }

  lemma LatencyWordsGo(s: Settings)
    ensures AllGo(LatencyWords(s), ByWord(OursGo))
  {
    FlagIsOurWord("ingame-latency", "1");
    OurWordGoes(INGAME_LATENCY_FLAG);
  }

  lemma KeyWordsGo(s: Settings)
    ensures AllGo(KeyWords(s), ByWord(OursGo))
  {
    var value := GameKeyFlagIsOurWord(Trim(s.gameKey));
    OurWordGoes(GameKey.Flag(Trim(s.gameKey)));
  }

  lemma FourGo(a: seq<string>, b: seq<string>, c: seq<string>, d: seq<string>, goes: Rule)
    requires AllGo(a, goes) && AllGo(b, goes) && AllGo(c, goes) && AllGo(d, goes)
    ensures AllGo(a + (b + (c + d)), goes)
  {
    AllGoTogether(c, d, goes);
    AllGoTogether(b, c + d, goes);
    AllGoTogether(a, b + (c + d), goes);
  }

  /** All tokens are recognised, whatever the settings. */
  lemma TokensGo(s: Settings)
    requires IsWrapper(s.executable)
    ensures AllGo(TokenWords(s), ByWord(OursGo))
  {
    EnvWordsGo(s);
    WrapperWordsGo(s);
    LatencyWordsGo(s);
    KeyWordsGo(s);
    FourGo(EnvWords(s), WrapperWords(s), LatencyWords(s), KeyWords(s), ByWord(OursGo));
  }

  // ---------------------------------------------------------------------------
  // Keeping words over a seam
  // ---------------------------------------------------------------------------

  lemma KeptFirst(item: Item, rest: seq<Item>, goes: Rule)
    ensures KeptItems([item] + rest, goes)
         == (if goes(item.raw, HeadRaw(rest)) then [] else [item]) + KeptItems(rest, goes)
  {
    assert ([item] + rest)[1..] == rest;
  }

  lemma {:induction false} ItemsGone(items: seq<Item>, rest: seq<Item>, goes: Rule)
    requires forall k | 0 <= k < |items| - 1 :: goes(items[k].raw, items[k + 1].raw)
    requires items != [] ==> GoesAnyway(items[|items| - 1].raw, goes)
    ensures KeptItems(items + rest, goes) == KeptItems(rest, goes)
  {
    if items == [] {
      assert items + rest == rest;
    } else {
      var more := items[1..] + rest;
      assert forall k | 0 <= k < |items| - 1 :: items[1..][k] == items[k + 1];
      ItemsGone(items[1..], rest, goes);
      assert items + rest == [items[0]] + more;
      assert |items| == 1 ==> Applies(goes, items[0].raw, HeadRaw(more));
      KeptFirst(items[0], more, goes);
    }
  }

  lemma TokensGone(words: seq<string>, gap: string, rest: seq<Item>, goes: Rule)
    requires AllGo(words, goes)
    ensures KeptItems(Spaced(words, gap) + rest, goes) == KeptItems(rest, goes)
  {
    var items := Spaced(words, gap);
    SpacedItems(words, gap);
    assert forall k | 0 <= k < |words| :: items[k].raw == words[k];
    ItemsGone(items, rest, goes);
  }

  /** What becomes of the last word does not depend on what follows. */
  predicate Settled(a: seq<Item>, b: seq<Item>, goes: Rule) {
    a != [] ==> goes(a[|a| - 1].raw, HeadRaw(b)) == goes(a[|a| - 1].raw, "")
  }

  lemma {:induction false} KeptTogether(a: seq<Item>, b: seq<Item>, goes: Rule)
    requires Settled(a, b, goes)
    ensures KeptItems(a + b, goes) == KeptItems(a, goes) + KeptItems(b, goes)
    decreases |a|
  {
    if a == [] {
      assert a + b == b;
    } else {
      var item, more := a[0], a[1..];
      assert more != [] ==> more[|more| - 1] == a[|a| - 1];
      KeptTogether(more, b, goes);
      SeamAfterFirst(item, more, b, goes);
      assert a == [item] + more;
    }
  }

  lemma SeamAfterFirst(item: Item, more: seq<Item>, b: seq<Item>, goes: Rule)
    requires KeptItems(more + b, goes) == KeptItems(more, goes) + KeptItems(b, goes)
    requires more == [] ==> goes(item.raw, HeadRaw(b)) == goes(item.raw, "")
    ensures KeptItems([item] + more + b, goes) == KeptItems([item] + more, goes) + KeptItems(b, goes)
  {
    var first := if goes(item.raw, HeadRaw(more)) then [] else [item];
    var km, kb := KeptItems(more, goes), KeptItems(b, goes);
    assert (if goes(item.raw, HeadRaw(more + b)) then [] else [item]) == first by {
      HeadOfSeam(more, b);
      HeadOfSeam([], b);
    }
    assert KeptItems([item] + (more + b), goes) == first + (km + kb) by {
      KeptFirst(item, more + b, goes);
    }
    assert KeptItems([item] + more, goes) == first + km by {
      KeptFirst(item, more, goes);
    }
    RegroupItems([item], more, b);
    RegroupItems(first, km, kb);
  }

  lemma HeadOfSeam(more: seq<Item>, b: seq<Item>)
    ensures HeadRaw(more + b) == if more == [] then HeadRaw(b) else HeadRaw(more)
  {
    if more == [] {
      assert more + b == b;
    }
  }

  lemma RegroupItems(a: seq<Item>, b: seq<Item>, c: seq<Item>)
    ensures a + b + c == a + (b + c)
  {
  }

  /** The same words, and the same blanks but for the last. */
  predicate SameButLastGap(a: seq<Item>, b: seq<Item>) {
    && |a| == |b|
    && (forall k | 0 <= k < |a| :: a[k].raw == b[k].raw)
    && (forall k | 0 <= k < |a| - 1 :: a[k].gap == b[k].gap)
  }

  lemma {:induction false} KeptButLastGap(a: seq<Item>, b: seq<Item>, goes: Rule)
    requires SameButLastGap(a, b)
    ensures SameButLastGap(KeptItems(a, goes), KeptItems(b, goes))
  {
    if a != [] {
      KeptButLastGap(a[1..], b[1..], goes);
      assert HeadRaw(a[1..]) == HeadRaw(b[1..]);
      assert |a| > 1 ==> a[0] == b[0];
    }
  }

  lemma TrimLastOfSame(a: seq<Item>, b: seq<Item>)
    requires SameButLastGap(a, b)
    ensures TrimLast(a) == TrimLast(b)
  {
    assert forall k | 0 <= k < |a| - 1 :: a[k] == b[k];
  }

  // ---------------------------------------------------------------------------
  // Commands side by side
  // ---------------------------------------------------------------------------

  predicate AllSpaced(items: seq<Item>) {
    forall k | 0 <= k < |items| :: items[k].gap != []
  }

  lemma JoinedIsRead(a: Command, b: seq<Item>)
    requires a.WellFormed() && AllSpaced(a.items) && WellFormedItems(b)
    ensures Parse(a.Render() + RenderItems(b)) == Command(a.lead, a.items + b)
    ensures WellFormedItems(a.items + b)
  {
    var items := a.items + b;
    assert forall k | 0 <= k < |a.items| :: items[k] == a.items[k];
    assert forall k | 0 <= k < |b| :: items[|a.items| + k] == b[k];
    RenderAppended(a.items, b);
    assert a.lead + (RenderItems(a.items) + RenderItems(b)) == a.lead + RenderItems(a.items) + RenderItems(b);
    ParseIsUnique(Command(a.lead, items));
  }

  lemma {:induction false} AfterAppended(q: Quoting, a: string, b: string)
    ensures After(q, a + b) == After(After(q, a), b)
    decreases a
  {
    if a == [] {
      assert a + b == b;
    } else {
      AfterAppended(Next(q, a[0]), a[1..], b);
      assert (a + b)[1..] == a[1..] + b;
    }
  }

  lemma {:induction false} BlankStaysPlain(gap: string)
    requires Blank(gap)
    ensures After(Plain, gap).Plain?
  {
    if gap != [] {
      assert IsSpace(gap[0]);
      BlankStaysPlain(gap[1..]);
    }
  }

  lemma {:induction false} ItemsAreClosed(items: seq<Item>)
    requires WellFormedItems(items) && Closed(RenderItems(items))
    ensures forall k | 0 <= k < |items| :: Closed(items[k].raw)
  {
    if items != [] {
      var raw, gap, rest := items[0].raw, items[0].gap, RenderItems(items[1..]);
      FirstParts(items);
      AfterAppended(Plain, raw, gap + rest);
      AfterAppended(Plain, gap, rest);
      BlankStaysPlain(gap);
      assert gap + rest == [] || gap != [];
      ItemsAreClosed(items[1..]);
      assert forall k | 1 <= k < |items| :: items[k] == items[1..][k - 1];
    }
  }

  /** A closed text, read again with a blank behind it. */
  lemma BlankBehind(p: string)
    requires Closed(p)
    ensures var c, d := Parse(p), Parse(p + " ");
            SameButLastGap(c.items, d.items) && AllSpaced(d.items) && d.WellFormed() && d.Render() == p + " "
  {
    var c := Parse(p);
    ParseIsRight(p);
    AfterAppended(Plain, c.lead, RenderItems(c.items));
    BlankStaysPlain(c.lead);
    ItemsAreClosed(c.items);
    SpacedBehind(c);
    ParseIsUnique(WithBlank(c));
  }

  function WithBlank(c: Command): Command {
    var n := |c.items| - 1;
    if n < 0 then Command(c.lead + " ", [])
    else Command(c.lead, c.items[..n] + [Item(c.items[n].raw, c.items[n].gap + " ")])
  }

  lemma SpacedBehind(c: Command)
    requires c.WellFormed() && forall k | 0 <= k < |c.items| :: Closed(c.items[k].raw)
    ensures WithBlank(c).WellFormed() && AllSpaced(WithBlank(c).items) && SameButLastGap(c.items, WithBlank(c).items)
    ensures WithBlank(c).Render() == c.Render() + " "
  {
    var n := |c.items| - 1;
    assert IsSpace(' ');
    if n >= 0 {
      var last := Item(c.items[n].raw, c.items[n].gap + " ");
      assert c.items == c.items[..n] + [c.items[n]];
      RenderedUpTo(c.items[..n], c.items[n]);
      RenderedUpTo(c.items[..n], last);
      var init := RenderItems(c.items[..n]);
      assert c.lead + (init + (last.raw + last.gap)) == c.lead + (init + (c.items[n].raw + c.items[n].gap)) + " ";
    }
  }
}
