/** The laws that hold launch commands together (overlay/wrapper_tokens.py): what is written can
    be taken out again and read back. */
module WrapperLaws {
  import opened Text
  import opened CommandWords
  import opened WrapperTokens
  import opened WrapperEdits
  import opened WrapperWriting
  import opened WrapperStripping

  // ---------------------------------------------------------------------------
  // Writing, then stripping
  // ---------------------------------------------------------------------------

  lemma TrailingBlankIsNothing(p: string, goes: Rule)
    requires Closed(p)
    ensures StrippedBy(p + " ", goes) == StrippedBy(p, goes)
  {
    var c, d := Parse(p), Parse(p + " ");
    BlankBehind(p);
    KeptButLastGap(c.items, d.items, goes);
    TrimLastOfSame(KeptItems(c.items, goes), KeptItems(d.items, goes));
    StrippedIsRead(p, goes);
    StrippedIsRead(p + " ", goes);
    ParseIsRight(StrippedBy(p, goes));
    ParseIsRight(StrippedBy(p + " ", goes));
  }

  /** The command before the tokens, and a blank. */
  function Front(p: string): Command {
    Parse(p + " ")
  }

  function Middle(s: Settings, q: string): seq<Item> {
    Spaced(TokenWords(s), " " + LeadingBlank(q))
  }

  lemma TokensAreWords(s: Settings)
    requires IsWrapper(s.executable)
    ensures forall k | 0 <= k < |TokenWords(s)| :: ClosedWord(TokenWords(s)[k])
    ensures TokenWords(s) != []
  {
    TokensGo(s);
  }

  lemma MiddleIsRight(s: Settings, q: string)
    requires IsWrapper(s.executable)
    ensures WellFormedItems(Middle(s, q)) && AllSpaced(Middle(s, q)) && Middle(s, q) != []
    ensures RenderItems(Middle(s, q)) == Tokens(s) + (" " + LeadingBlank(q))
    ensures |Middle(s, q)| == |TokenWords(s)|
    ensures forall k | 0 <= k < |TokenWords(s)| :: Middle(s, q)[k].raw == TokenWords(s)[k]
  {
    TokensAreWords(s);
    SpacedWords(TokenWords(s), q);
  }

  lemma SpacedWords(words: seq<string>, q: string)
    requires words != [] && forall k | 0 <= k < |words| :: ClosedWord(words[k])
    ensures var items := Spaced(words, " " + LeadingBlank(q));
            && WellFormedItems(items) && AllSpaced(items) && |items| == |words|
            && RenderItems(items) == JoinWords(words) + (" " + LeadingBlank(q))
            && forall k | 0 <= k < |words| :: items[k].raw == words[k]
  {
    TrimLeftSplits(q);
    assert IsSpace(' ');
    SpacedIsRead(words, " " + LeadingBlank(q));
  }

  /** How a command with tokens in it is read. */
  lemma WrittenIsRead(p: string, s: Settings, q: string)
    requires Closed(p) && IsWrapper(s.executable)
    ensures Parse(p + " " + Tokens(s) + " " + q)
         == Command(Front(p).lead, Front(p).items + (Middle(s, q) + Parse(q).items))
    ensures Parse(p + " " + TrimLeft(q)) == Command(Front(p).lead, Front(p).items + Parse(q).items)
  {
    var rest := Parse(q).items;
    BlankBehind(p);
    MiddleIsRight(s, q);
    ParseIsRight(q);
    TrimLeftSplits(q);
    assert RenderItems(rest) == TrimLeft(q) by {
      RestAfterLead(q);
    }
    JoinedIsRead(Command("", Middle(s, q)), rest);
    JoinedIsRead(Front(p), Middle(s, q) + rest);
    JoinedIsRead(Front(p), rest);
    RenderAppended(Middle(s, q), rest);
    Seam(p, Tokens(s), LeadingBlank(q), TrimLeft(q), q);
  }

  lemma RestAfterLead(q: string)
    ensures RenderItems(Parse(q).items) == TrimLeft(q)
  {
    ParseItemsIsRight(TrimLeft(q));
  }

  lemma Seam(p: string, tokens: string, lead: string, rest: string, q: string)
    requires lead + rest == q
    ensures p + " " + (tokens + (" " + lead) + rest) == p + " " + tokens + " " + q
  {
  }

  /** What follows `p` does not change the fate of its last word: that word is not an `env` about
      to introduce an opt-in of the user's own. */
  predicate NoIntroduction(p: string, q: string) {
    var items := Parse(p).items;
    items != [] ==> !(items[|items| - 1].Word() == "env" && INGAME_LATENCY_START <= WordOf(HeadRaw(Parse(q).items)))
  }

  lemma SettledBy(items: seq<Item>, rest: seq<Item>)
    requires items != [] ==> !(items[|items| - 1].Word() == "env" && INGAME_LATENCY_START <= WordOf(HeadRaw(rest)))
    ensures Settled(items, rest, ByWord(OursGo))
  {
    if items != [] {
      ByWordApplies(OursGo, items[|items| - 1].raw, HeadRaw(rest));
      ByWordApplies(OursGo, items[|items| - 1].raw, "");
    }
  }

  lemma FirstTokenWord(s: Settings)
    ensures TokenWords(s) != []
    ensures WordOf(TokenWords(s)[0]) == "env" || WordOf(TokenWords(s)[0]) == s.executable
  {
    if EnvWords(s) != [] {
      PlainReads("env");
      assert TokenWords(s)[0] == "env";
    } else {
      QuotedReadsBack(s.executable);
      assert TokenWords(s)[0] == ShellQuote(s.executable);
    }
  }

  lemma HeadOfSpaced(words: seq<string>, gap: string)
    requires words != []
    ensures HeadRaw(Spaced(words, gap)) == words[0]
  {
  }

  lemma FirstTokenIsNoOptIn(s: Settings, q: string)
    requires IsWrapper(s.executable)
    ensures !(INGAME_LATENCY_START <= WordOf(HeadRaw(Middle(s, q))))
  {
    FirstTokenWord(s);
    WrapperWordStart(s.executable);
    NoOptIn(WordOf(TokenWords(s)[0]));
    HeadOfSpaced(TokenWords(s), " " + LeadingBlank(q));
  }

  lemma WrapperWordStart(w: string)
    requires IsWrapper(w)
    ensures w == WRAPPER || "/" <= w
    ensures !(VARIABLE_START <= w) && !(FLAG_START <= w)
  {
    assert WRAPPER[0] == 'P' && WRAPPER[1] == 'E';
    assert VARIABLE_START[0] == 'P' && VARIABLE_START[1] == 'B' && FLAG_START[0] == '-';
  }

  lemma StrippingUndoesWritingHere(p: string, s: Settings, q: string)
    requires Closed(p) && IsWrapper(s.executable) && NoIntroduction(p, q)
    ensures Stripped(p + " " + Tokens(s) + " " + q) == Stripped(p + " " + TrimLeft(q))
  {
    var front, middle, rest := Front(p).items, Middle(s, q), Parse(q).items;
    WrittenIsRead(p, s, q);
    BlankBehind(p);
    FirstTokenIsNoOptIn(s, q);
    MiddleIsRight(s, q);
    assert HeadRaw(middle + rest) == HeadRaw(middle);
    SettledBy(front, middle + rest);
    SettledBy(front, rest);
    KeptTogether(front, middle + rest, ByWord(OursGo));
    KeptTogether(front, rest, ByWord(OursGo));
    MiddleGoes(s, q);
  }

  lemma IntroductionIsLost(p: string, s: Settings, q: string)
    requires Closed(p) && IsWrapper(s.executable) && !NoIntroduction(p, q)
    ensures Stripped(p + " " + Tokens(s) + " " + q) != Stripped(p + " " + TrimLeft(q))
  {
    WrittenIsRead(p, s, q);
    BlankBehind(p);
    FirstTokenIsNoOptIn(s, q);
    MiddleIsRight(s, q);
    MiddleGoes(s, q);
    EnvInFront(Front(p).items, Middle(s, q), Parse(q).items);
    DifferByCount(p + " " + Tokens(s) + " " + q, p + " " + TrimLeft(q));
  }

  lemma MiddleGoes(s: Settings, q: string)
    requires IsWrapper(s.executable)
    ensures var rest := Parse(q).items;
            KeptItems(Middle(s, q) + rest, ByWord(OursGo)) == KeptItems(rest, ByWord(OursGo))
  {
    TokensGo(s);
    TokensGone(TokenWords(s), " " + LeadingBlank(q), Parse(q).items, ByWord(OursGo));
  }

  lemma EnvInFront(front: seq<Item>, middle: seq<Item>, rest: seq<Item>)
    requires front != [] && front[|front| - 1].Word() == "env" && middle != []
    requires INGAME_LATENCY_START <= WordOf(HeadRaw(rest)) && !(INGAME_LATENCY_START <= WordOf(HeadRaw(middle)))
    requires KeptItems(middle + rest, ByWord(OursGo)) == KeptItems(rest, ByWord(OursGo))
    ensures |KeptItems(front + (middle + rest), ByWord(OursGo))| == |KeptItems(front + rest, ByWord(OursGo))| + 1
  {
    var init, env := front[..|front| - 1], front[|front| - 1];
    EnvSettles(init, env);
    EnvDecides(env, rest);
    EnvDecides(env, middle);
    assert front == init + [env];
    OneMoreKept(init, env, middle, rest, ByWord(OursGo));
  }

  lemma OneMoreKept(init: seq<Item>, env: Item, middle: seq<Item>, rest: seq<Item>, goes: Rule)
    requires Settled(init, [env], goes) && middle != []
    requires goes(env.raw, HeadRaw(rest)) && !goes(env.raw, HeadRaw(middle))
    requires KeptItems(middle + rest, goes) == KeptItems(rest, goes)
    ensures |KeptItems(init + [env] + (middle + rest), goes)| == |KeptItems(init + [env] + rest, goes)| + 1
  {
    HeadOfSeam(middle, rest);
    EnvKept(init, env, middle + rest, goes);
    EnvKept(init, env, rest, goes);
  }

  lemma EnvKept(init: seq<Item>, env: Item, rest: seq<Item>, goes: Rule)
    requires Settled(init, [env], goes)
    ensures |KeptItems(init + [env] + rest, goes)|
         == |KeptItems(init, goes)| + (if goes(env.raw, HeadRaw(rest)) then 0 else 1) + |KeptItems(rest, goes)|
  {
    HeadOfSeam([env], rest);
    KeptTogether(init, [env] + rest, goes);
    RegroupItems(init, [env], rest);
    KeptFirst(env, rest, goes);
  }

  lemma EnvDecides(env: Item, rest: seq<Item>)
    requires env.Word() == "env"
    ensures ByWord(OursGo)(env.raw, HeadRaw(rest)) <==> INGAME_LATENCY_START <= WordOf(HeadRaw(rest))
  {
    EnvIsNotOurs();
    ByWordApplies(OursGo, env.raw, HeadRaw(rest));
  }

  lemma EnvSettles(init: seq<Item>, env: Item)
    requires env.Word() == "env"
    ensures Settled(init, [env], ByWord(OursGo))
  {
    NoOptIn("env");
    SettledBy(init, [env]);
  }

  lemma DifferByCount(a: string, b: string)
    requires |Kept(a)| != |Kept(b)|
    ensures Stripped(a) != Stripped(b)
  {
    StrippedIsRead(a, ByWord(OursGo));
    StrippedIsRead(b, ByWord(OursGo));
    assert |TrimLast(Kept(a))| == |Kept(a)| && |TrimLast(Kept(b))| == |Kept(b)|;
  }

  /** Tokens written between `p` and `q` are taken out again, so that stripping gives what it gives
      without them, exactly when they do not part an `env` from an opt-in of the user's own. */
  lemma StrippingUndoesWriting(p: string, s: Settings, q: string)
    requires Closed(p) && IsWrapper(s.executable)
    ensures Stripped(p + " " + Tokens(s) + " " + q) == Stripped(p + " " + TrimLeft(q)) <==> NoIntroduction(p, q)
  {
    if NoIntroduction(p, q) {
      StrippingUndoesWritingHere(p, s, q);
    } else {
      IntroductionIsLost(p, s, q);
    }
  }

  lemma TokensAreClosed(p: string, s: Settings)
    requires Closed(p) && IsWrapper(s.executable)
    ensures Closed(p + " " + Tokens(s))
  {
    TokensGo(s);
    JoinIsClosed(TokenWords(s));
    AfterAppended(Plain, p + " ", Tokens(s));
    AfterAppended(Plain, p, " ");
    assert IsSpace(' ');
    BlankStaysPlain(" ");
  }

  lemma {:induction false} JoinIsClosed(words: seq<string>)
    requires forall k | 0 <= k < |words| :: ClosedWord(words[k])
    ensures Closed(JoinWords(words))
  {
    if |words| > 1 {
      var rest := JoinWords(words[1..]);
      assert forall k | 0 <= k < |words| - 1 :: words[1..][k] == words[k + 1];
      JoinIsClosed(words[1..]);
      AfterAppended(Plain, words[0] + " ", rest);
      AfterAppended(Plain, words[0], " ");
      assert ClosedWord(words[0]) && IsSpace(' ');
      BlankStaysPlain(" ");
    } else if |words| == 1 {
      assert ClosedWord(words[0]);
    }
  }

  /** Tokens appended to a command are taken out again. */
  lemma StrippingUndoesAppending(p: string, s: Settings)
    requires Closed(p) && IsWrapper(s.executable)
    ensures Stripped(p + " " + Tokens(s)) == Stripped(p)
  {
    assert HeadRaw(Parse("").items) == "" && WordOf("") == "";
    StrippingUndoesWriting(p, s, "");
    TokensAreClosed(p, s);
    TrailingBlankIsNothing(p + " " + Tokens(s), ByWord(OursGo));
    TrailingBlankIsNothing(p, ByWord(OursGo));
    assert p + " " + Tokens(s) + " " + "" == p + " " + Tokens(s) + " ";
    assert p + " " + TrimLeft("") == p + " ";
  }

  // ---------------------------------------------------------------------------
  // Reading the switches back
  // ---------------------------------------------------------------------------

  predicate IsOverlaySwitch(word: string) {
    word == OVERLAY_FLAG || word == OVERLAY_ASSIGNMENT
  }

  predicate IsLatencySwitch(word: string) {
    word == INGAME_LATENCY_ASSIGNMENT || word == INGAME_LATENCY_FLAG
  }

  lemma SwitchesInText(word: string)
    ensures IsOverlaySwitch(word) <==> word in ["--pb-overlay=1", "PB_OVERLAY=1"]
    ensures IsLatencySwitch(word) <==> word in ["PB_INGAME_LATENCY=1", "--pb-ingame-latency=1"]
  {
    FlagTexts();
    VariableTexts();
  }

  /** `overlay_present` and `ingame_latency_present` */
  ghost predicate OverlayPresent(value: string) {
    AnyWord(Parse(value).items, IsOverlaySwitch)
  }

  ghost predicate LatencyPresent(value: string) {
    AnyWord(Parse(value).items, IsLatencySwitch)
  }

  lemma AnyWordTogether(a: seq<Item>, b: seq<Item>, f: string -> bool)
    ensures AnyWord(a + b, f) <==> AnyWord(a, f) || AnyWord(b, f)
  {
    assert forall k | 0 <= k < |a| :: (a + b)[k] == a[k];
    assert forall k | 0 <= k < |b| :: (a + b)[|a| + k] == b[k];
  }

  lemma AnyWordSame(a: seq<Item>, b: seq<Item>, f: string -> bool)
    requires SameButLastGap(a, b)
    ensures AnyWord(a, f) <==> AnyWord(b, f)
  {
    assert forall k | 0 <= k < |a| :: HasWord(a[k], f) == HasWord(b[k], f);
  }

  ghost predicate AnyOf(words: seq<string>, f: string -> bool) {
    exists k :: 0 <= k < |words| && Says(words[k], f)
  }

  predicate Says(raw: string, f: string -> bool) {
    f(WordOf(raw))
  }

  lemma AnyOfTogether(a: seq<string>, b: seq<string>, f: string -> bool)
    ensures AnyOf(a + b, f) <==> AnyOf(a, f) || AnyOf(b, f)
  {
    assert forall k | 0 <= k < |a| :: (a + b)[k] == a[k];
    assert forall k | 0 <= k < |b| :: (a + b)[|a| + k] == b[k];
  }

  /** In a command with tokens in it, a word is found before them, among them, or after them. */
  lemma FoundWhereWritten(p: string, s: Settings, q: string, f: string -> bool)
    requires Closed(p) && IsWrapper(s.executable)
    ensures AnyWord(Parse(p + " " + Tokens(s) + " " + q).items, f)
       <==> AnyWord(Parse(p).items, f) || AnyOf(TokenWords(s), f) || AnyWord(Parse(q).items, f)
  {
    var front, middle, rest := Front(p).items, Middle(s, q), Parse(q).items;
    WrittenIsRead(p, s, q);
    AnyWordTogether(front, middle + rest, f);
    AnyWordTogether(middle, rest, f);
    BlankBehind(p);
    AnyWordSame(Parse(p).items, front, f);
    MiddleIsRight(s, q);
    AnyRaw(middle, TokenWords(s), f);
  }

  lemma AnyRaw(items: seq<Item>, words: seq<string>, f: string -> bool)
    requires |items| == |words| && forall k | 0 <= k < |words| :: items[k].raw == words[k]
    ensures AnyWord(items, f) <==> AnyOf(words, f)
  {
    assert forall k | 0 <= k < |words| :: HasWord(items[k], f) == Says(words[k], f);
  }

  lemma NoSwitch(w: string)
    requires !(FLAG_START <= w) && !(VARIABLE_START <= w)
    ensures !IsOverlaySwitch(w) && !IsLatencySwitch(w)
  {
    assert FLAG_START <= OVERLAY_FLAG && FLAG_START <= INGAME_LATENCY_FLAG;
    assert VARIABLE_START <= OVERLAY_ASSIGNMENT && VARIABLE_START <= INGAME_LATENCY_ASSIGNMENT;
  }

  /** Which switch a flag is can be told from the first letter of its name. */
  lemma FlagSwitch(name: string, value: string)
    requires name != []
    ensures name[0] != 'o' ==> !IsOverlaySwitch(FlagText(name, value))
    ensures name[0] != 'i' ==> !IsLatencySwitch(FlagText(name, value))
  {
    var flag, n := FlagText(name, value), |FLAG_START|;
    assert flag[0] == FLAG_START[0] == '-' && flag[n] == name[0];
    assert OVERLAY_FLAG[n] == "overlay"[0] == 'o' && INGAME_LATENCY_FLAG[n] == "ingame-latency"[0] == 'i';
    assert OVERLAY_ASSIGNMENT[0] == VARIABLE_START[0] == 'P' && INGAME_LATENCY_ASSIGNMENT[0] == VARIABLE_START[0];
  }

  lemma AssignmentSwitch()
    ensures IsLatencySwitch(INGAME_LATENCY_ASSIGNMENT) && !IsOverlaySwitch(INGAME_LATENCY_ASSIGNMENT)
  {
    var n := |VARIABLE_START|;
    assert INGAME_LATENCY_ASSIGNMENT[n] == "INGAME_LATENCY"[0] == 'I' && OVERLAY_ASSIGNMENT[n] == "OVERLAY"[0] == 'O';
    assert INGAME_LATENCY_ASSIGNMENT[0] == VARIABLE_START[0] == 'P' && OVERLAY_FLAG[0] == FLAG_START[0] == '-';
  }

  lemma OverlaySwitch(overlay: bool)
    ensures IsOverlaySwitch(FlagText("overlay", if overlay then "1" else "0")) <==> overlay
  {
    var off := OVERLAY_OFF_FLAG;
    assert off[|off| - 1] == '0' && OVERLAY_FLAG[|OVERLAY_FLAG| - 1] == '1';
    assert off[0] == FLAG_START[0] == '-' && OVERLAY_ASSIGNMENT[0] == VARIABLE_START[0] == 'P';
  }

  lemma TwoOf(a: string, b: string, f: string -> bool)
    ensures AnyOf([a, b], f) <==> Says(a, f) || Says(b, f)
  {
    assert [a, b][0] == a && [a, b][1] == b;
  }

  lemma EnvSays()
    ensures !Says("env", IsOverlaySwitch) && !Says("env", IsLatencySwitch)
  {
    PlainReads("env");
    assert "env"[0] == 'e' && FLAG_START[0] == '-' && VARIABLE_START[0] == 'P';
    NoSwitch("env");
  }

  lemma AssignmentSays()
    ensures Says(INGAME_LATENCY_ASSIGNMENT, IsLatencySwitch) && !Says(INGAME_LATENCY_ASSIGNMENT, IsOverlaySwitch)
  {
    AssignmentIsOurWord();
    AssignmentSwitch();
  }

  lemma EnvSwitches(s: Settings)
    ensures !AnyOf(EnvWords(s), IsOverlaySwitch)
    ensures AnyOf(EnvWords(s), IsLatencySwitch) <==> s.latency && !s.latencyAsFlag
  {
    if EnvWords(s) != [] {
      EnvSays();
      AssignmentSays();
      TwoOf("env", INGAME_LATENCY_ASSIGNMENT, IsOverlaySwitch);
      TwoOf("env", INGAME_LATENCY_ASSIGNMENT, IsLatencySwitch);
    }
  }

  lemma ExecutableSays(executable: string)
    requires IsWrapper(executable)
    ensures var raw := ShellQuote(executable);
            Says(raw, IsWrapper) && !Says(raw, IsOverlaySwitch) && !Says(raw, IsLatencySwitch)
  {
    QuotedReadsBack(executable);
    WrapperWordStart(executable);
    NoSwitch(executable);
  }

  lemma OverlayFlagSays(overlay: bool)
    ensures var raw := FlagText("overlay", if overlay then "1" else "0");
            (Says(raw, IsOverlaySwitch) <==> overlay) && !Says(raw, IsLatencySwitch)
  {
    FlagIsOurWord("overlay", if overlay then "1" else "0");
    FlagSwitch("overlay", if overlay then "1" else "0");
    OverlaySwitch(overlay);
  }

  lemma WrapperSwitches(s: Settings)
    requires IsWrapper(s.executable)
    ensures AnyOf(WrapperWords(s), IsOverlaySwitch) <==> s.overlay
    ensures !AnyOf(WrapperWords(s), IsLatencySwitch)
    ensures AnyOf(WrapperWords(s), IsWrapper)
  {
    var raw, flag := ShellQuote(s.executable), FlagText("overlay", if s.overlay then "1" else "0");
    ExecutableSays(s.executable);
    OverlayFlagSays(s.overlay);
    TwoOf(raw, flag, IsOverlaySwitch);
    TwoOf(raw, flag, IsLatencySwitch);
    TwoOf(raw, flag, IsWrapper);
  }

  lemma LatencySwitches(s: Settings)
    ensures !AnyOf(LatencyWords(s), IsOverlaySwitch)
    ensures AnyOf(LatencyWords(s), IsLatencySwitch) <==> s.latency && s.latencyAsFlag
  {
    FlagIsOurWord("ingame-latency", "1");
    FlagSwitch("ingame-latency", "1");
    if LatencyWords(s) != [] {
      assert Says(LatencyWords(s)[0], IsLatencySwitch);
    }
  }

  lemma KeySwitches(s: Settings)
    ensures !AnyOf(KeyWords(s), IsOverlaySwitch) && !AnyOf(KeyWords(s), IsLatencySwitch)
  {
    var value := GameKeyFlagIsOurWord(Trim(s.gameKey));
    FlagSwitch("game-id", value);
  }

  lemma TokenSwitches(s: Settings)
    requires IsWrapper(s.executable)
    ensures AnyOf(TokenWords(s), IsOverlaySwitch) <==> s.overlay
    ensures AnyOf(TokenWords(s), IsLatencySwitch) <==> s.latency
    ensures AnyOf(TokenWords(s), IsWrapper)
  {
    EnvSwitches(s);
    WrapperSwitches(s);
    LatencySwitches(s);
    KeySwitches(s);
    AnyOfFour(EnvWords(s), WrapperWords(s), LatencyWords(s), KeyWords(s), IsOverlaySwitch);
    AnyOfFour(EnvWords(s), WrapperWords(s), LatencyWords(s), KeyWords(s), IsLatencySwitch);
    AnyOfFour(EnvWords(s), WrapperWords(s), LatencyWords(s), KeyWords(s), IsWrapper);
  }

  lemma AnyOfFour(a: seq<string>, b: seq<string>, c: seq<string>, d: seq<string>, f: string -> bool)
    ensures AnyOf(a + (b + (c + d)), f) <==> AnyOf(a, f) || AnyOf(b, f) || AnyOf(c, f) || AnyOf(d, f)
  {
    AnyOfTogether(c, d, f);
    AnyOfTogether(b, c + d, f);
    AnyOfTogether(a, b + (c + d), f);
  }

  /** The switches read back as they were written, besides what the user's own words say. */
  lemma SwitchesReadBack(p: string, s: Settings, q: string)
    requires Closed(p) && IsWrapper(s.executable)
    ensures var written := p + " " + Tokens(s) + " " + q;
            && WrapperPresent(written)
            && (OverlayPresent(written) <==> s.overlay || OverlayPresent(p) || OverlayPresent(q))
            && (LatencyPresent(written) <==> s.latency || LatencyPresent(p) || LatencyPresent(q))
  {
    TokenSwitches(s);
    FoundWhereWritten(p, s, q, IsWrapper);
    FoundWhereWritten(p, s, q, IsOverlaySwitch);
    FoundWhereWritten(p, s, q, IsLatencySwitch);
  }

  /** Retargeting to a wrapper keeps the wrapper present, and to anything else removes it. */
  lemma RetargetedPresence(value: string, executable: string)
    ensures WrapperPresent(Retargeted(value, executable)) <==> WrapperPresent(value) && IsWrapper(executable)
  {
    var c, d := Parse(value), Parse(Retargeted(value, executable));
    OnlyWrapperWordsChange(value, executable);
    assert forall k | 0 <= k < |c.items| ::
      HasWord(d.items[k], IsWrapper) <==> HasWord(c.items[k], IsWrapper) && IsWrapper(executable);
  }
}
