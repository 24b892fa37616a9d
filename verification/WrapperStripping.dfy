/** What stripping leaves of a launch command (overlay/wrapper_tokens.py): when something of the
    wrapper's is left, and when a second strip would change the command again. */
module WrapperStripping {
  import opened Text
  import opened CommandWords
  import opened WrapperTokens
  import opened WrapperEdits
  import opened WrapperWriting
  import opened Wrappers

  // ---------------------------------------------------------------------------
  // Words of a command
  // ---------------------------------------------------------------------------

  ghost predicate AnyWord(items: seq<Item>, f: string -> bool) {
    exists k :: 0 <= k < |items| && HasWord(items[k], f)
  }

  predicate HasWord(item: Item, f: string -> bool) {
    f(item.Word())
  }

  lemma {:induction false} KeptHaveNot(items: seq<Item>, goes: Rule, f: string -> bool)
    requires forall item: Item, next: string :: HasWord(item, f) ==> Applies(goes, item.raw, next)
    ensures forall k | 0 <= k < |KeptItems(items, goes)| :: !HasWord(KeptItems(items, goes)[k], f)
  {
    if items != [] {
      KeptHaveNot(items[1..], goes, f);
      var next := HeadRaw(items[1..]);
      assert HasWord(items[0], f) ==> Applies(goes, items[0].raw, next);
    }
  }

  lemma OursAlwaysGo()
    ensures forall item: Item, next: string :: HasWord(item, IsOurs) ==> Applies(ByWord(OursGo), item.raw, next)
  {
    forall item: Item, next: string ensures HasWord(item, IsOurs) ==> Applies(ByWord(OursGo), item.raw, next) {
      ByWordApplies(OursGo, item.raw, next);
    }
  }

  /** `wrapper_present` */
  ghost predicate WrapperPresent(value: string) {
    AnyWord(Parse(value).items, IsWrapper)
  }

  function Kept(value: string): seq<Item> {
    KeptItems(Parse(value).items, ByWord(OursGo))
  }

  // ---------------------------------------------------------------------------
  // The words that stay
  // ---------------------------------------------------------------------------

  /** Whether word `k` goes, given its neighbour. */
  predicate GoesAt(items: seq<Item>, k: nat, goes: Rule)
    requires k < |items|
  {
    goes(items[k].raw, if k + 1 < |items| then items[k + 1].raw else "")
  }

  predicate Stays(items: seq<Item>, k: nat)
    requires k < |items|
  {
    !GoesAt(items, k, ByWord(OursGo))
  }

  /** Word `k` stays and no later one does. */
  predicate StaysLast(items: seq<Item>, k: nat)
    requires k < |items|
  {
    Stays(items, k) && forall j | k < j < |items| :: !Stays(items, j)
  }

  /** The two words stay and all between them go. */
  predicate Meet(items: seq<Item>, i: nat, j: nat)
    requires i < j < |items|
  {
    Stays(items, i) && Stays(items, j) && forall k | i < k < j :: !Stays(items, k)
  }

  /** What word `k` reads as after the strip: the last one loses the blanks at its end. */
  function ReadLeft(items: seq<Item>, k: nat): string
    requires k < |items|
  {
    WordOf(if StaysLast(items, k) then TrimRight(items[k].raw) else items[k].raw)
  }

  predicate Marked(stays: seq<bool>, i: nat) {
    i < |stays| && stays[i]
  }

  /** Where the marked ones among the words from `m` on stand. */
  ghost predicate PlacesFrom(items: seq<Item>, stays: seq<bool>, m: nat, kept: seq<Item>, places: seq<nat>) {
    && |stays| == |items| && |places| == |kept|
    && (forall k | 0 <= k < |places| :: m <= places[k] < |items| && stays[places[k]] && kept[k] == items[places[k]])
    && (forall k, l | 0 <= k < l < |places| :: places[k] < places[l])
    && (forall i: nat | m <= i && Marked(stays, i) :: i in places)
  }

  lemma FoundBehind(m: nat, places: seq<nat>, i: nat)
    requires i == m || i in places
    ensures i in [m] + places
  {
    if i in places {
      var k :| 0 <= k < |places| && places[k] == i;
      assert ([m] + places)[k + 1] == i;
    } else {
      assert ([m] + places)[0] == i;
    }
  }

  lemma FirstPlaceGoes(items: seq<Item>, stays: seq<bool>, m: nat, kept: seq<Item>, places: seq<nat>)
    requires m < |items| && PlacesFrom(items, stays, m + 1, kept, places) && !stays[m]
    ensures PlacesFrom(items, stays, m, kept, places)
  {
    forall i: nat | m <= i && Marked(stays, i) ensures i in places {
      assert i != m;
    }
  }

  lemma FirstPlaceStays(items: seq<Item>, stays: seq<bool>, m: nat, kept: seq<Item>, places: seq<nat>)
    requires m < |items| && PlacesFrom(items, stays, m + 1, kept, places) && stays[m]
    ensures PlacesFrom(items, stays, m, [items[m]] + kept, [m] + places)
  {
    forall i: nat | m <= i && Marked(stays, i) ensures i in [m] + places {
      assert i > m ==> i in places;
      FoundBehind(m, places, i);
    }
  }

  /** Which words stay. */
  function Staying(items: seq<Item>, goes: Rule): seq<bool> {
    seq(|items|, k requires 0 <= k < |items| => !GoesAt(items, k, goes))
  }

  lemma KeptFrom(items: seq<Item>, goes: Rule, m: nat)
    requires m < |items|
    ensures KeptItems(items[m..], goes)
         == (if Staying(items, goes)[m] then [items[m]] else []) + KeptItems(items[m + 1..], goes)
  {
    assert items[m..] == [items[m]] + items[m + 1..];
    KeptFirst(items[m], items[m + 1..], goes);
  }

  lemma {:induction false} KeptPlaces(items: seq<Item>, goes: Rule, m: nat) returns (places: seq<nat>)
    requires m <= |items|
    ensures PlacesFrom(items, Staying(items, goes), m, KeptItems(items[m..], goes), places)
    decreases |items| - m
  {
    places := [];
    if m < |items| {
      var kept := KeptItems(items[m + 1..], goes);
      places := KeptPlaces(items, goes, m + 1);
      KeptFrom(items, goes, m);
      if Staying(items, goes)[m] {
        FirstPlaceStays(items, Staying(items, goes), m, kept, places);
        places := [m] + places;
      } else {
        FirstPlaceGoes(items, Staying(items, goes), m, kept, places);
        assert [] + kept == kept;
      }
    }
  }

  lemma StaysAt(items: seq<Item>, k: nat)
    requires k < |items|
    ensures Staying(items, ByWord(OursGo))[k] == Stays(items, k)
  {
  }

  /** The words that stay are the kept ones, in order. */
  ghost predicate InOrder(items: seq<Item>, kept: seq<Item>, places: seq<nat>) {
    && |places| == |kept|
    && (forall k | 0 <= k < |places| ::
      places[k] < |items| && !GoesAt(items, places[k], ByWord(OursGo)) && kept[k] == items[places[k]])
    && (forall k, m | 0 <= k < m < |places| :: places[k] < places[m])
    && (forall i: nat | i < |items| && Stays(items, i) :: i in places)
  }

  lemma PlacesOf(items: seq<Item>) returns (places: seq<nat>)
    ensures InOrder(items, KeptItems(items, ByWord(OursGo)), places)
  {
    places := KeptPlaces(items, ByWord(OursGo), 0);
    assert items[0..] == items;
    forall k | 0 <= k < |places| ensures places[k] < |items| && Stays(items, places[k]) {
      StaysAt(items, places[k]);
    }
    forall i: nat | i < |items| && Stays(items, i) ensures i in places {
      StaysAt(items, i);
    }
  }

  lemma NeighboursMeet(items: seq<Item>, places: seq<nat>, k: nat)
    requires InOrder(items, KeptItems(items, ByWord(OursGo)), places) && k + 1 < |places|
    ensures Meet(items, places[k], places[k + 1])
  {
    forall i | places[k] < i < places[k + 1] ensures !Stays(items, i) {
      assert i !in places;
    }
  }

  lemma MeetingAreNeighbours(items: seq<Item>, places: seq<nat>, i: nat, j: nat) returns (k: nat)
    requires InOrder(items, KeptItems(items, ByWord(OursGo)), places) && i < j < |items| && Meet(items, i, j)
    ensures k + 1 < |places| && places[k] == i && places[k + 1] == j
  {
    k :| k < |places| && places[k] == i;
    var m :| 0 <= m < |places| && places[m] == j;
    assert k < m;
    assert forall n | 0 <= n < |places| :: Stays(items, places[n]) && !(i < places[n] < j);
  }

  lemma LastPlace(items: seq<Item>, places: seq<nat>, k: nat)
    requires InOrder(items, KeptItems(items, ByWord(OursGo)), places) && k < |places|
    ensures StaysLast(items, places[k]) <==> k == |places| - 1
  {
    if k == |places| - 1 {
      forall j | places[k] < j < |items| ensures !Stays(items, j) {
        assert j !in places;
      }
    } else {
      assert Stays(items, places[k + 1]);
    }
  }

  /** A kept word, once the end is trimmed, reads as the word at its place is said to. */
  lemma PlaceReads(items: seq<Item>, places: seq<nat>, k: nat)
    requires InOrder(items, KeptItems(items, ByWord(OursGo)), places) && k < |places|
    ensures TrimLast(KeptItems(items, ByWord(OursGo)))[k].Word() == ReadLeft(items, places[k])
    ensures k < |places| - 1 ==> ReadLeft(items, places[k]) == items[places[k]].Word()
  {
    LastPlace(items, places, k);
  }

  lemma LastLeftReads(items: seq<Item>, f: string -> bool)
    ensures var left := TrimLast(KeptItems(items, ByWord(OursGo)));
      (left != [] && HasWord(left[|left| - 1], f))
      <==> exists k: nat :: k < |items| && StaysLast(items, k) && f(ReadLeft(items, k))
  {
    var left := TrimLast(KeptItems(items, ByWord(OursGo)));
    var places := PlacesOf(items);
    if left != [] {
      LastPlace(items, places, |places| - 1);
      PlaceReads(items, places, |places| - 1);
    }
    if exists k: nat :: k < |items| && StaysLast(items, k) && f(ReadLeft(items, k)) {
      var k: nat :| k < |items| && StaysLast(items, k) && f(ReadLeft(items, k));
      var m :| 0 <= m < |places| && places[m] == k;
      LastPlace(items, places, m);
    }
  }

  // ---------------------------------------------------------------------------
  // What is left of ours
  // ---------------------------------------------------------------------------

  lemma LastDecides(kept: seq<Item>, f: string -> bool)
    requires forall k | 0 <= k < |kept| :: !HasWord(kept[k], f)
    ensures AnyWord(TrimLast(kept), f) <==> kept != [] && HasWord(TrimLast(kept)[|kept| - 1], f)
  {
    assert forall k | 0 <= k < |kept| - 1 :: TrimLast(kept)[k] == kept[k];
  }

  lemma LeftIff(value: string, f: string -> bool)
    requires forall word :: f(word) ==> IsOurs(word)
    ensures var items := Parse(value).items;
      AnyWord(Parse(Stripped(value)).items, f)
      <==> exists k: nat :: k < |items| && StaysLast(items, k) && f(ReadLeft(items, k))
  {
    StrippedIsRead(value, ByWord(OursGo));
    OursAlwaysGo();
    forall item: Item, next: string ensures HasWord(item, f) ==> Applies(ByWord(OursGo), item.raw, next) {
      if HasWord(item, f) {
        assert f(item.Word());
        assert HasWord(item, IsOurs);
      }
    }
    KeptHaveNot(Parse(value).items, ByWord(OursGo), f);
    LastDecides(Kept(value), f);
    LastLeftReads(Parse(value).items, f);
  }

  /** A word of ours is left in exactly one case: the last word of the command that stays becomes one
      of ours when the blanks at its end are trimmed. */
  lemma NothingOfOursIsLeft(value: string)
    ensures var items := Parse(value).items;
      AnyWord(Parse(Stripped(value)).items, IsOurs)
      <==> exists k: nat :: k < |items| && StaysLast(items, k) && IsOurs(ReadLeft(items, k))
  {
    LeftIff(value, IsOurs);
  }

  /** In particular nothing of ours is left when the last word that stays does not end in a blank. */
  lemma CleanEndLeavesNothing(value: string)
    requires var items := Parse(value).items;
      forall k: nat | k < |items| && StaysLast(items, k) :: TrimRight(items[k].raw) == items[k].raw
    ensures !AnyWord(Parse(Stripped(value)).items, IsOurs)
  {
    var items := Parse(value).items;
    NothingOfOursIsLeft(value);
    forall k: nat | k < |items| && StaysLast(items, k) ensures !IsOurs(ReadLeft(items, k)) {
      OursGoOrIntroduce(items[k], if k + 1 < |items| then items[k + 1] else items[k]);
    }
  }

  /** Likewise for the words that stand for the wrapper itself. */
  lemma WrapperIsLeftIff(value: string)
    ensures var items := Parse(value).items;
      WrapperPresent(Stripped(value))
      <==> exists k: nat :: k < |items| && StaysLast(items, k) && IsWrapper(ReadLeft(items, k))
  {
    LeftIff(value, IsWrapper);
  }

  lemma {:induction false} OpenIsNoWord(q: Quoting, s: string)
    ensures Unquoted(q, s).None? <==> !After(q, s).Plain?
    decreases s
  {
    if s != [] {
      OpenIsNoWord(Next(q, s[0]), s[1..]);
    }
  }

  lemma AfterLast(s: string)
    requires s != []
    ensures After(Plain, s) == Next(After(Plain, s[..|s| - 1]), s[|s| - 1])
  {
    var n := |s| - 1;
    assert s == s[..n] + [s[n]];
    AfterAppended(Plain, s[..n], [s[n]]);
    assert [s[n]][1..] == [];
  }

  /** The state before the blank at the end of a closed word is an escape. */
  lemma BlankAtEndIsEscaped(raw: string)
    requires raw != [] && WordFrom(Plain, raw) && Closed(raw) && IsSpace(raw[|raw| - 1])
    ensures After(Plain, raw[..|raw| - 1]).Escaped?
  {
    AfterLast(raw);
    BlankInWord(Plain, raw, |raw| - 1);
  }

  lemma TrimmedToBackslash(s: string)
    requires |s| >= 2 && IsSpace(s[|s| - 1]) && s[|s| - 2] == '\\'
    ensures TrimRight(s) == s[..|s| - 1]
  {
    var t := s[..|s| - 1];
    assert t[|t| - 1] == '\\';
  }

  /** A closed word that ends in a blank ends in an escaped one; trimmed, it is open, and reads as it is
      written, with the backslash at its end. */
  lemma TrimmedClosedWord(raw: string)
    requires IsRawWord(raw) && Closed(raw)
    ensures TrimRight(raw) != raw ==>
      && |raw| >= 2 && raw[|raw| - 2] == '\\' && IsSpace(raw[|raw| - 1])
      && TrimRight(raw) == raw[..|raw| - 1] && WordOf(TrimRight(raw)) == TrimRight(raw)
  {
    if TrimRight(raw) != raw {
      BlankAtEndIsEscaped(raw);
      EscapeIsBackslash(raw[..|raw| - 1]);
      TrimmedToBackslash(raw);
      OpenIsNoWord(Plain, raw[..|raw| - 1]);
    }
  }

  lemma {:induction false} BlankInWord(q: Quoting, raw: string, n: nat)
    requires WordFrom(q, raw) && n < |raw| && IsSpace(raw[n])
    ensures !After(q, raw[..n]).Plain?
    decreases n
  {
    if n > 0 {
      BlankInWord(Next(q, raw[0]), raw[1..], n - 1);
      assert raw[..n][1..] == raw[1..][..n - 1];
    }
  }

  lemma EscapeIsBackslash(s: string)
    requires After(Plain, s).Escaped?
    ensures s != [] && s[|s| - 1] == '\\'
  {
    if s != [] {
      AfterLast(s);
    }
  }

  lemma NameKeepsItsEnd(path: string)
    requires path != [] && path[|path| - 1] == '\\'
    ensures !IsWrapper(path)
  {
    var from := LastSlash(path);
    assert from <= |path| - 1;
    var part := path[from..];
    assert part[|part| - 1] == '\\' && WRAPPER[|WRAPPER| - 1] == 'R';
    assert Name(path) == part;
  }

  lemma WordsAreClosed(value: string)
    requires Closed(value)
    ensures forall k | 0 <= k < |Parse(value).items| :: ClosedWord(Parse(value).items[k].raw)
  {
    var c := Parse(value);
    ParseIsRight(value);
    AfterAppended(Plain, c.lead, RenderItems(c.items));
    BlankStaysPlain(c.lead);
    ItemsAreClosed(c.items);
  }

  /** The word is what precedes a last, escaped blank, and with the backslash it is a token. */
  predicate IsTokenBeforeBlank(raw: string) {
    && |raw| >= 2 && raw[|raw| - 2] == '\\' && IsSpace(raw[|raw| - 1])
    && IsToken(raw[..|raw| - 1])
  }

  /** The one way in which a closed word that stays is one of ours after the trimming. */
  lemma ClosedWordReadLeft(items: seq<Item>, k: nat)
    requires k < |items| && StaysLast(items, k) && ClosedWord(items[k].raw)
    ensures !IsWrapper(ReadLeft(items, k))
    ensures IsOurs(ReadLeft(items, k)) <==> IsTokenBeforeBlank(items[k].raw)
  {
    var raw := items[k].raw;
    TrimmedClosedWord(raw);
    OursGoOrIntroduce(items[k], if k + 1 < |items| then items[k + 1] else items[k]);
    if TrimRight(raw) == raw {
      assert !IsOurs(WordOf(raw));
      assert !IsSpace(raw[|raw| - 1]);
    } else {
      NameKeepsItsEnd(TrimRight(raw));
    }
  }

  /** When every quote is closed, no word for the wrapper itself is ever left. */
  lemma NoWrapperIsLeft(value: string)
    requires Closed(value)
    ensures !WrapperPresent(Stripped(value))
  {
    var items := Parse(value).items;
    WrapperIsLeftIff(value);
    WordsAreClosed(value);
    forall k: nat | k < |items| && StaysLast(items, k) ensures !IsWrapper(ReadLeft(items, k)) {
      ClosedWordReadLeft(items, k);
    }
  }

  /** And a token is left exactly when the last word that stays is a token but for an escaped blank at
      its end. */
  lemma TokenIsLeftIff(value: string)
    requires Closed(value)
    ensures var items := Parse(value).items;
      AnyWord(Parse(Stripped(value)).items, IsOurs)
      <==> exists k: nat :: k < |items| && StaysLast(items, k) && IsTokenBeforeBlank(items[k].raw)
  {
    var items := Parse(value).items;
    NothingOfOursIsLeft(value);
    WordsAreClosed(value);
    forall k: nat | k < |items| && StaysLast(items, k)
      ensures IsOurs(ReadLeft(items, k)) <==> IsTokenBeforeBlank(items[k].raw)
    {
      ClosedWordReadLeft(items, k);
    }
  }

  // ---------------------------------------------------------------------------
  // Stripping twice
  // ---------------------------------------------------------------------------

  lemma {:induction false} KeptLength(items: seq<Item>, goes: Rule)
    requires WellFormedItems(items)
    ensures |RenderItems(KeptItems(items, goes))| <= |RenderItems(items)|
    ensures |RenderItems(KeptItems(items, goes))| == |RenderItems(items)| <==> KeptItems(items, goes) == items
  {
    if items != [] {
      var item, rest := items[0], items[1..];
      assert items == [item] + rest;
      FirstParts(items);
      KeptLength(rest, goes);
      KeptFirst(item, rest, goes);
      RenderFirst(item, rest);
      if goes(item.raw, HeadRaw(rest)) {
        assert KeptItems(items, goes) == KeptItems(rest, goes);
      } else {
        RenderFirst(item, KeptItems(rest, goes));
        assert KeptItems(items, goes) == [item] + KeptItems(rest, goes);
        assert KeptItems(items, goes)[1..] == KeptItems(rest, goes);
      }
    }
  }

  lemma {:induction false} KeptAll(items: seq<Item>, goes: Rule)
    ensures |KeptItems(items, goes)| <= |items|
    ensures KeptItems(items, goes) == items <==> forall k | 0 <= k < |items| :: !GoesAt(items, k, goes)
  {
    if items != [] {
      var rest := items[1..];
      KeptAll(rest, goes);
      KeptFirst(items[0], rest, goes);
      assert items == [items[0]] + rest;
      assert GoesAt(items, 0, goes) == goes(items[0].raw, HeadRaw(rest));
      assert forall k | 0 <= k < |rest| :: GoesAt(items, k + 1, goes) == GoesAt(rest, k, goes);
      assert forall k | 1 <= k < |items| :: GoesAt(items, k, goes) == GoesAt(rest, k - 1, goes);
    }
  }

  /** A second strip changes nothing exactly when, in what the first one left, no word goes. */
  lemma SecondStrip(value: string, goes: Rule)
    ensures var left := TrimLast(KeptItems(Parse(value).items, goes));
            (StrippedBy(StrippedBy(value, goes), goes) == StrippedBy(value, goes))
            == forall k | 0 <= k < |left| :: !GoesAt(left, k, goes)
  {
    var once := StrippedBy(value, goes);
    var left := TrimLast(KeptItems(Parse(value).items, goes));
    StrippedIsRead(value, goes);
    ParseIsRight(once);
    assert RenderItems(left) == once;
    KeptAll(left, goes);
    var again := RenderItems(KeptItems(left, goes));
    assert "" + again == again;
    if KeptItems(left, goes) == left {
      AlreadyTrimmed(value, goes);
    } else {
      KeptLength(left, goes);
      TrimIsNoLonger(again);
    }
  }

  lemma TrimIsNoLonger(s: string)
    ensures |Trim(s)| <= |s|
  {
    TrimLeftSplits(s);
    TrimRightSplits(TrimLeft(s));
  }

  lemma AlreadyTrimmed(value: string, goes: Rule)
    ensures Trim(StrippedBy(value, goes)) == StrippedBy(value, goes)
  {
    var c := Parse(value);
    TrimmedEnds(c.lead + RenderItems(KeptItems(c.items, goes)));
    TrimOfTrimmed(StrippedBy(value, goes));
  }

  /** Some word of ours would still be found in what one strip left: the last word, changed by the
      trimming, or an `env` now next to a kept word that looks like the opt-in. */
  ghost predicate SomethingLeft(left: seq<Item>) {
    || (left != [] && HasWord(left[|left| - 1], IsOurs))
    || SomePair(left)
  }

  predicate IsEnvPair(a: Item, b: Item) {
    a.Word() == "env" && INGAME_LATENCY_START <= b.Word()
  }

  lemma OursGoOrIntroduce(a: Item, b: Item)
    ensures ByWord(OursGo)(a.raw, b.raw) <==> HasWord(a, IsOurs) || IsEnvPair(a, b)
    ensures ByWord(OursGo)(a.raw, "") <==> HasWord(a, IsOurs)
  {
    ByWordApplies(OursGo, a.raw, b.raw);
    ByWordApplies(OursGo, a.raw, "");
  }

  lemma PairsDecide(left: seq<Item>, goes: Rule)
    requires forall k | 0 <= k < |left| - 1 :: GoesAt(left, k, goes) <==> IsEnvPair(left[k], left[k + 1])
    requires left != [] ==> (GoesAt(left, |left| - 1, goes) <==> HasWord(left[|left| - 1], IsOurs))
    ensures (forall k | 0 <= k < |left| :: !GoesAt(left, k, goes)) <==> !SomethingLeft(left)
  {
    if forall k | 0 <= k < |left| :: !GoesAt(left, k, goes) {
      assert forall k | 0 <= k < |left| - 1 :: !GoesAt(left, k, goes) && !IsEnvPair(left[k], left[k + 1]);
    } else {
      var k :| 0 <= k < |left| && GoesAt(left, k, goes);
      assert k < |left| - 1 ==> IsEnvPair(left[k], left[k + 1]);
    }
  }

  lemma LeftPairs(value: string)
    ensures var left := TrimLast(Kept(value));
            && (forall k | 0 <= k < |left| - 1 :: GoesAt(left, k, ByWord(OursGo)) <==> IsEnvPair(left[k], left[k + 1]))
            && (left != [] ==> (GoesAt(left, |left| - 1, ByWord(OursGo)) <==> HasWord(left[|left| - 1], IsOurs)))
  {
    var kept, left := Kept(value), TrimLast(Kept(value));
    OursAlwaysGo();
    KeptHaveNot(Parse(value).items, ByWord(OursGo), IsOurs);
    forall k | 0 <= k < |left| - 1 ensures GoesAt(left, k, ByWord(OursGo)) <==> IsEnvPair(left[k], left[k + 1]) {
      assert left[k] == kept[k] && !HasWord(kept[k], IsOurs);
      OursGoOrIntroduce(left[k], left[k + 1]);
    }
    if left != [] {
      OursGoOrIntroduce(left[|left| - 1], left[|left| - 1]);
    }
  }

  /** A second strip changes nothing exactly when the first one leaves nothing of that kind. */
  lemma IdempotentIfNothingLeft(value: string)
    ensures Stripped(Stripped(value)) == Stripped(value) <==> !SomethingLeft(TrimLast(Kept(value)))
  {
    SecondStrip(value, ByWord(OursGo));
    LeftPairs(value);
    PairsDecide(TrimLast(Kept(value)), ByWord(OursGo));
  }

  /** An `env` of the command comes to stand before a word that reads as the opt-in. */
  predicate EnvMeetsOptIn(items: seq<Item>, i: nat, j: nat)
    requires i < j < |items|
  {
    Meet(items, i, j) && items[i].Word() == "env" && INGAME_LATENCY_START <= ReadLeft(items, j)
  }

  ghost predicate SomeEnvMeets(items: seq<Item>) {
    exists i: nat, j: nat :: i < j < |items| && EnvMeetsOptIn(items, i, j)
  }

  ghost predicate SomePair(left: seq<Item>) {
    exists k :: 0 <= k < |left| - 1 && IsEnvPair(left[k], left[k + 1])
  }

  lemma PairIsMeeting(items: seq<Item>, places: seq<nat>, k: nat)
    requires InOrder(items, KeptItems(items, ByWord(OursGo)), places) && k + 1 < |places|
    ensures var left := TrimLast(KeptItems(items, ByWord(OursGo)));
      Meet(items, places[k], places[k + 1])
      && (IsEnvPair(left[k], left[k + 1]) <==> EnvMeetsOptIn(items, places[k], places[k + 1]))
  {
    NeighboursMeet(items, places, k);
    PlaceReads(items, places, k);
    PlaceReads(items, places, k + 1);
  }

  lemma LeftPairIsMeeting(items: seq<Item>)
    ensures SomePair(TrimLast(KeptItems(items, ByWord(OursGo)))) <==> SomeEnvMeets(items)
  {
    var left := TrimLast(KeptItems(items, ByWord(OursGo)));
    var places := PlacesOf(items);
    if SomePair(left) {
      var k :| 0 <= k < |left| - 1 && IsEnvPair(left[k], left[k + 1]);
      PairIsMeeting(items, places, k);
    }
    if SomeEnvMeets(items) {
      var i: nat, j: nat :| i < j < |items| && EnvMeetsOptIn(items, i, j);
      var k := MeetingAreNeighbours(items, places, i, j);
      PairIsMeeting(items, places, k);
      assert IsEnvPair(left[k], left[k + 1]);
    }
  }

  /** Stripping is idempotent on a command unless one of two things is in it: an `env` that stays and
      from which only words that go part it from a kept word reading as the opt-in, or a last kept word
      that becomes one of ours when the blanks at its end are trimmed. */
  lemma StrippingIsIdempotentIff(value: string)
    ensures var items := Parse(value).items;
      Stripped(Stripped(value)) == Stripped(value)
      <==> && !SomeEnvMeets(items)
           && !(exists k: nat :: k < |items| && StaysLast(items, k) && IsOurs(ReadLeft(items, k)))
  {
    IdempotentIfNothingLeft(value);
    LeftPairIsMeeting(Parse(value).items);
    assert SomePair(TrimLast(Kept(value))) <==> SomeEnvMeets(Parse(value).items);
    LastLeftReads(Parse(value).items, IsOurs);
  }

  // ---------------------------------------------------------------------------
  // Two commands on which stripping is not idempotent
  // ---------------------------------------------------------------------------

  /** The opt-in with a blank in its value is no token of ours, so it stays. */
  const QUOTED_OPT_IN := VariableText("INGAME_LATENCY", "a b")

  lemma QuotedOptInStays()
    ensures !IsOurs(QUOTED_OPT_IN)
  {
    var rest := "INGAME_LATENCY" + ("=" + "a b");
    assert QUOTED_OPT_IN[|VARIABLE_START|..] == rest;
    RunStopsAt("INGAME_LATENCY", "=" + "a b", InVariable);
    assert rest[15..] == "a b" && IsSpace("a b"[1]);
    assert QUOTED_OPT_IN[0] == 'P' && QUOTED_OPT_IN[1] == 'B';
    assert WRAPPER[1] == 'E' && FLAG_START[0] == '-';
  }

  lemma EnvIsNotOurs()
    ensures !IsOurs("env") && ClosedWord("env") && WordOf("env") == "env"
  {
    PlainReads("env");
    assert "env"[0] == 'e';
  }

  lemma DoubledKept(env: Item, last: Item, goes: Rule)
    requires goes(env.raw, last.raw) && !goes(env.raw, env.raw) && !goes(last.raw, "")
    ensures KeptItems([env, env, last], goes) == [env, last]
  {
    KeptFirst(last, [], goes);
    assert [last] + [] == [last];
    KeptFirst(env, [last], goes);
    assert [env] + [last] == [env, last];
    KeptFirst(env, [env, last], goes);
    assert [env] + [env, last] == [env, env, last];
  }

  lemma EnvTwice(env: Item, last: Item)
    requires env.Word() == "env" && INGAME_LATENCY_START <= last.Word() && !IsOurs(last.Word())
    ensures var goes := ByWord(OursGo); goes(env.raw, last.raw) && !goes(env.raw, env.raw) && !goes(last.raw, "")
  {
    EnvIsNotOurs();
    OursGoOrIntroduce(env, last);
    OursGoOrIntroduce(env, env);
    OursGoOrIntroduce(last, last);
    NoOptIn("env");
  }

  lemma ThreeItems(env: Item, last: Item)
    requires ClosedWord(env.raw) && env.gap == " " && ClosedWord(last.raw) && last.gap == ""
    ensures WellFormedItems([env, env, last])
  {
    assert IsSpace(' ');
  }

  /** Two `env` before an opt-in that is not ours: the first strip takes the second `env`, and
      leaves the first one in its place. */
  lemma DoubledEnvIsNotIdempotent(env: Item, last: Item)
    requires ClosedWord(env.raw) && env.Word() == "env" && env.gap == " "
    requires ClosedWord(last.raw) && TrimRight(last.raw) == last.raw && last.gap == ""
    requires INGAME_LATENCY_START <= last.Word() && !IsOurs(last.Word())
    ensures var value := RenderItems([env, env, last]); Stripped(Stripped(value)) != Stripped(value)
  {
    var value := RenderItems([env, env, last]);
    ThreeItems(env, last);
    assert Command("", [env, env, last]).Render() == "" + value == value;
    ParseIsUnique(Command("", [env, env, last]));
    EnvTwice(env, last);
    DoubledKept(env, last, ByWord(OursGo));
    assert Kept(value) == [env, last];
    assert TrimLast([env, last]) == [env, last];
    assert IsEnvPair([env, last][0], [env, last][1]);
    IdempotentIfNothingLeft(value);
  }

  /** The command `env env 'PB_INGAME_LATENCY=a b'`. */
  lemma StrippingIsNotAlwaysIdempotent()
    ensures var value := RenderItems([Item("env", " "), Item("env", " "), Item(ShellQuote(QUOTED_OPT_IN), "")]);
            Stripped(Stripped(value)) != Stripped(value)
  {
    QuotedOptInStays();
    EnvIsNotOurs();
    QuotedReadsBack(QUOTED_OPT_IN);
    QuotedHasNoBlankEnd(QUOTED_OPT_IN);
    NameStarts("INGAME_LATENCY", "a b");
    DoubledEnvIsNotIdempotent(Item("env", " "), Item(ShellQuote(QUOTED_OPT_IN), ""));
  }

  lemma QuotedHasNoBlankEnd(s: string)
    ensures TrimRight(ShellQuote(s)) == ShellQuote(s)
  {
    var quoted := ShellQuote(s);
    if s != [] && AllBare(s) {
      assert IsBare(s[|s| - 1]);
    } else {
      assert quoted[|quoted| - 1] == '\'';
    }
  }

  lemma NameStarts(name: string, value: string)
    ensures VariableText(name, "") <= VariableText(name, value)
  {
    assert VariableText(name, value) == VariableText(name, "") + value;
  }

  // ---------------------------------------------------------------------------
  // A command with an open quote in which the wrapper is left behind
  // ---------------------------------------------------------------------------

  predicate NoSlash(s: string) {
    forall i | 0 <= i < |s| :: s[i] != '/'
  }

  lemma {:induction false} SlashBefore(a: string, s: string)
    requires NoSlash(s)
    ensures LastSlash(a + "/" + s) == |a| + 1
    decreases |s|
  {
    if s == [] {
      assert a + "/" + s == a + "/";
    } else {
      assert (a + "/" + s)[..|a| + |s|] == a + "/" + s[..|s| - 1];
      SlashBefore(a, s[..|s| - 1]);
    }
  }

  lemma NameAfterSlash(a: string, s: string)
    requires NoSlash(s) && s != "" && s != "."
    ensures Name(a + "/" + s) == s
  {
    SlashBefore(a, s);
    assert (a + "/" + s)[|a| + 1..] == s;
  }

  predicate IsDoubleChar(c: char) {
    c != '"' && c != '\\'
  }

  lemma {:induction false} DoubleStaysOpen(s: string)
    requires forall i | 0 <= i < |s| :: IsDoubleChar(s[i])
    ensures After(Double, s).Double? && WordFrom(Double, s)
    decreases s
  {
    if s != [] {
      assert IsDoubleChar(s[0]);
      DoubleStaysOpen(s[1..]);
    }
  }

  lemma OpenedInDouble(s: string)
    requires forall i | 0 <= i < |s| :: IsDoubleChar(s[i])
    ensures var raw := OPEN_QUOTE + s; After(Plain, raw).Double? && IsRawWord(raw) && WordOf(raw) == raw
  {
    var raw, tail := OPEN_QUOTE + s, "/" + s;
    DoubleStaysOpen(tail);
    OneChar(Plain, '"', tail);
    OneChar(Plain, '/', ['"'] + tail);
    assert ['/'] + (['"'] + tail) == raw;
    OpenIsNoWord(Plain, raw);
  }

  const OPEN_QUOTE := "/\"/"

  lemma NotOursInOpenQuote(s: string)
    requires NoSlash(s) && s != "" && s != "."
    ensures IsOurs(OPEN_QUOTE + s) <==> s == WRAPPER
    ensures IsWrapper(OPEN_QUOTE + s) <==> s == WRAPPER
  {
    var word := OPEN_QUOTE + s;
    NameAfterSlash("/\"", s);
    assert word == "/\"" + "/" + s;
    assert word[0] == '/' && FLAG_START[0] == '-' && VARIABLE_START[0] == 'P' && WRAPPER[0] == 'P';
  }

  lemma TrimmedOpenQuote()
    ensures TrimRight(OPEN_QUOTE + (WRAPPER + " ")) == OPEN_QUOTE + WRAPPER
  {
    var value, trimmed := OPEN_QUOTE + (WRAPPER + " "), OPEN_QUOTE + WRAPPER;
    assert value[..|value| - 1] == trimmed;
    assert trimmed[|trimmed| - 1] == WRAPPER[|WRAPPER| - 1] == 'R';
  }

  /** With a quote left open the wrapper can be left behind: in `/"/PENGUIN_BURNER` with a blank at the
      end, which is one open word, the trimming takes the blank and leaves a path to the wrapper. */
  lemma WrapperLeftInOpenQuote()
    ensures var value := OPEN_QUOTE + (WRAPPER + " "); !Closed(value) && WrapperPresent(Stripped(value))
  {
    var value := OPEN_QUOTE + (WRAPPER + " ");
    OpenedInDouble(WRAPPER + " ");
    OpenedInDouble(WRAPPER);
    assert (WRAPPER + " ")[|WRAPPER|] == ' ';
    NotOursInOpenQuote(WRAPPER + " ");
    NotOursInOpenQuote(WRAPPER);
    TrimmedOpenQuote();
    OneWordCommand(value);
    var items := [Item(value, "")];
    OursGoOrIntroduce(items[0], items[0]);
    assert StaysLast(items, 0) && IsWrapper(ReadLeft(items, 0));
    WrapperIsLeftIff(value);
  }

  // ---------------------------------------------------------------------------
  // A command in which a token is left behind
  // ---------------------------------------------------------------------------

  lemma {:induction false} PlainThenEnds(s: string, rest: string, word: string)
    requires AllPlain(s) && Ends(Plain, rest, word)
    ensures Ends(Plain, s + rest, s + word)
  {
    if s == [] {
      assert s + rest == rest && s + word == word;
    } else {
      assert IsPlainChar(s[0]);
      PlainThenEnds(s[1..], rest, word);
      OneMoreEnds(Plain, s[0], s[1..] + rest, s[1..] + word);
      assert [s[0]] + (s[1..] + rest) == s + rest;
      assert [s[0]] + (s[1..] + word) == s + word;
    }
  }

  lemma {:induction false} PlainThenOpen(s: string)
    requires AllPlain(s)
    ensures Unquoted(Plain, s + "\\").None? && WordFrom(Plain, s + "\\")
  {
    if s == [] {
      assert s + "\\" == ['\\'] + "";
      OneChar(Plain, '\\', "");
    } else {
      assert IsPlainChar(s[0]);
      PlainThenOpen(s[1..]);
      OneChar(Plain, s[0], s[1..] + "\\");
      assert [s[0]] + (s[1..] + "\\") == s + "\\";
    }
  }

  lemma EscapedBlankEnds()
    ensures Ends(Plain, "\\ ", " ")
  {
    OneMoreEnds(Escaped, ' ', "", "");
    assert [' '] + "" == " ";
    OneMoreEnds(Plain, '\\', " ", " ");
    assert ['\\'] + " " == "\\ " && "" + " " == " ";
  }

  /** An assignment of ours with an escaped blank at its end is a word with a blank, so it stays;
      the trimming then takes the blank and leaves a word of ours. */
  lemma TokenLeftBehind(name: string, value: string)
    requires name != [] && AllPlain(name) && AllPlain(value) && forall i | 0 <= i < |name| :: InVariable(name[i])
    ensures var command := VariableText(name, value) + "\\ ";
            AnyWord(Parse(Stripped(command)).items, IsOurs)
  {
    var text := VariableText(name, value);
    var raw := text + "\\ ";
    FlagIsPlain(name, value);
    EscapedBlankEnds();
    PlainThenEnds(text, "\\ ", " ");
    BlankAtEndIsNotOurs(name, value);
    OneWordCommand(raw);
    KeptFirst(Item(raw, ""), [], ByWord(OursGo));
    OursGoOrIntroduce(Item(raw, ""), Item(raw, ""));
    assert [Item(raw, "")] + [] == [Item(raw, "")];
    assert Kept(raw) == [Item(raw, "")];
    EscapedBlankTrimmed(text);
    PlainThenOpen(text);
    OpenTokenIsOurs(name, value);
    NothingOfOursIsLeft(raw);
    var items := [Item(raw, "")];
    assert StaysLast(items, 0) && ReadLeft(items, 0) == text + "\\";
  }

  lemma OneWordCommand(raw: string)
    requires IsRawWord(raw)
    ensures Parse(raw) == Command("", [Item(raw, "")])
  {
    RenderOne(Item(raw, ""));
    assert "" + (raw + "") == raw;
    ParseIsUnique(Command("", [Item(raw, "")]));
  }

  lemma EscapedBlankTrimmed(text: string)
    ensures TrimRight(text + "\\ ") == text + "\\"
  {
    assert (text + "\\ ")[..|text| + 1] == text + "\\";
  }

  lemma BlankAtEndIsNotOurs(name: string, value: string)
    requires name != [] && forall i | 0 <= i < |name| :: InVariable(name[i])
    ensures !IsOurs(VariableText(name, value) + " ")
  {
    var word := VariableText(name, value) + " ";
    var rest := name + ("=" + (value + " "));
    assert word == VARIABLE_START + rest;
    assert word[|VARIABLE_START|..] == rest;
    RunStopsAt(name, "=" + (value + " "), InVariable);
    assert rest[|name| + 1..] == value + " " && IsSpace((value + " ")[|value|]);
    assert word[0] == VARIABLE_START[0] == 'P' && word[1] == VARIABLE_START[1] == 'B';
    assert WRAPPER[1] == 'E' && FLAG_START[0] == '-';
  }

  lemma OpenTokenIsOurs(name: string, value: string)
    requires name != [] && AllPlain(value) && forall i | 0 <= i < |name| :: InVariable(name[i])
    ensures IsOurs(VariableText(name, value) + "\\")
  {
    assert forall i | 0 <= i < |value| :: IsPlainChar(value[i]);
    assert NoSpace(value + "\\");
    VariableIsToken(name, value + "\\");
    assert VariableText(name, value) + "\\" == VariableText(name, value + "\\");
  }

  lemma NoOptIn(w: string)
    requires w == "env" || w == WRAPPER || "/" <= w
    ensures !(INGAME_LATENCY_START <= w)
  {
    assert VARIABLE_START <= INGAME_LATENCY_START;
    assert VARIABLE_START[0] == 'P' && VARIABLE_START[1] == 'B' && WRAPPER[1] == 'E';
  }
}
