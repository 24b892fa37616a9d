/** The identity flag of a game (overlay/wrapper_tokens.py): percent-encoding as in section 2.1
    of RFC 3986, over UTF-8 as in section 3 of RFC 3629. */
module GameKey {
  import opened Text

  const GAME_KEY_FLAG_PREFIX := "--pb-game-id="
  const LEGACY_LUTRIS_ID_FLAG_PREFIX := "--pb-lutris-id="
  const LEGACY_LUTRIS_LAUNCHER_ID := "lutris"

  type Byte = b: int | 0 <= b < 256

  // ---------------------------------------------------------------------------
  // UTF-8
  // ---------------------------------------------------------------------------

  function EncodeChar(c: char): (b: seq<Byte>)
    ensures 1 <= |b| <= 4
  {
    var n := c as int;
    if n < 0x80 then [n]
    else if n < 0x800 then [0xC0 + n / 0x40, 0x80 + n % 0x40]
    else if n < 0x10000 then [0xE0 + n / 0x40 / 0x40, 0x80 + n / 0x40 % 0x40, 0x80 + n % 0x40]
    else [0xF0 + n / 0x40 / 0x40 / 0x40, 0x80 + n / 0x40 / 0x40 % 0x40, 0x80 + n / 0x40 % 0x40, 0x80 + n % 0x40]
  }

  function Encode(s: string): seq<Byte> {
    if s == [] then [] else EncodeChar(s[0]) + Encode(s[1..])
  }

  /** How many bytes a lead byte announces; none for a byte that cannot lead. */
  function Announced(lead: Byte): nat {
    if lead < 0x80 then 1
    else if 0xC2 <= lead < 0xE0 then 2
    else if 0xE0 <= lead < 0xF0 then 3
    else if 0xF0 <= lead < 0xF5 then 4
    else 0
  }

  /** The second byte is narrowed by the lead byte: no long forms, no surrogates, no code point
      above the last. */
  predicate Continues(lead: Byte, at: nat, b: Byte) {
    if at == 1 && lead == 0xE0 then 0xA0 <= b < 0xC0
    else if at == 1 && lead == 0xED then 0x80 <= b < 0xA0
    else if at == 1 && lead == 0xF0 then 0x90 <= b < 0xC0
    else if at == 1 && lead == 0xF4 then 0x80 <= b < 0x90
    else 0x80 <= b < 0xC0
  }

  /** The length of the longest start of `bytes` that starts a character. */
  function Started(bytes: seq<Byte>): (n: nat)
    requires bytes != []
    ensures n <= |bytes| && n <= Announced(bytes[0])
  {
    var k := Announced(bytes[0]);
    if k == 0 then 0
    else if k == 1 || |bytes| == 1 || !Continues(bytes[0], 1, bytes[1]) then 1
    else if k == 2 || |bytes| == 2 || !Continues(bytes[0], 2, bytes[2]) then 2
    else if k == 3 || |bytes| == 3 || !Continues(bytes[0], 3, bytes[3]) then 3
    else 4
  }

  function Append(high: int, b: Byte): int {
    var low: int := b;
    high * 0x40 + (low - 0x80)
  }

  function CodePoint(bytes: seq<Byte>): (n: int)
    requires 1 <= |bytes| <= 4 && Started(bytes) == |bytes| == Announced(bytes[0])
    ensures 0 <= n < 0xD800 || 0xE000 <= n < 0x110000
  {
    var lead: int := bytes[0];
    if |bytes| == 1 then lead
    else if |bytes| == 2 then Append(lead - 0xC0, bytes[1])
    else if |bytes| == 3 then Append(Append(lead - 0xE0, bytes[1]), bytes[2])
    else Append(Append(Append(lead - 0xF0, bytes[1]), bytes[2]), bytes[3])
  }

  /** Decoding with the error policy "replace": every start of a character that is not completed,
      and every byte that cannot start one, becomes U+FFFD. */
  function Decode(bytes: seq<Byte>): string {
    if bytes == [] then []
    else
      var n := Started(bytes);
      if n == 0 then ['\U{FFFD}'] + Decode(bytes[1..])
      else if n < Announced(bytes[0]) then ['\U{FFFD}'] + Decode(bytes[n..])
      else [CodePoint(bytes[..n]) as char] + Decode(bytes[n..])
  }

  lemma DecodeEncodedChar(c: char, rest: seq<Byte>)
    ensures Decode(EncodeChar(c) + rest) == [c] + Decode(rest)
  {
    var b := EncodeChar(c);
    StartedEncodedChar(c, rest);
    StartedEncodedChar(c, []);
    assert b + [] == b;
    CodePointOfEncodedChar(c);
    assert (b + rest)[..|b|] == b && (b + rest)[|b|..] == rest;
  }

  lemma StartedEncodedChar(c: char, rest: seq<Byte>)
    ensures var b := EncodeChar(c); Started(b + rest) == |b| == Announced(b[0])
  {
    var n, b := c as int, EncodeChar(c);
    assert forall i | 0 <= i < |b| :: (b + rest)[i] == b[i];
    if n >= 0x10000 {
      Split(n / 0x40 / 0x40);
    }
    Split(n / 0x40);
    Split(n);
  }

  lemma Split(n: int)
    ensures n == n / 0x40 * 0x40 + n % 0x40 && 0 <= n % 0x40 < 0x40
  {
  }

  lemma CodePointOfEncodedChar(c: char)
    requires var b := EncodeChar(c); Started(b) == |b| == Announced(b[0])
    ensures CodePoint(EncodeChar(c)) == c as int
  {
    var n := c as int;
    Split(n / 0x40 / 0x40);
    Split(n / 0x40);
    Split(n);
  }

  lemma AppendParts(high: nat, b: Byte)
    requires 0x80 <= b < 0xC0
    ensures Append(high, b) / 0x40 == high && 0x80 + Append(high, b) % 0x40 == b
  {
  }

  /** What is decoded as one character is its encoding: no long form, no surrogate, nothing above the last
      code point. */
  lemma EncodeDecodedChar(b: seq<Byte>)
    requires 1 <= |b| <= 4 && Started(b) == |b| == Announced(b[0])
    ensures EncodeChar(CodePoint(b) as char) == b
  {
    if |b| == 2 {
      AppendParts(b[0] - 0xC0, b[1]);
    } else if |b| == 3 {
      AppendParts(b[0] - 0xE0, b[1]);
      AppendParts(Append(b[0] - 0xE0, b[1]), b[2]);
    } else if |b| == 4 {
      AppendParts(b[0] - 0xF0, b[1]);
      AppendParts(Append(b[0] - 0xF0, b[1]), b[2]);
      AppendParts(Append(Append(b[0] - 0xF0, b[1]), b[2]), b[3]);
    }
  }

  /** Some character's encoding starts like this. */
  ghost predicate StartsACharacter(bytes: seq<Byte>) {
    exists c :: bytes <= EncodeChar(c)
  }

  function Filler(lead: Byte, at: nat): Byte {
    if at == 1 && lead == 0xE0 then 0xA0 else if at == 1 && lead == 0xF0 then 0x90 else 0x80
  }

  function Completion(lead: Byte, from: nat, count: nat): (rest: seq<Byte>)
    ensures |rest| == count
    decreases count
  {
    if count == 0 then [] else [Filler(lead, from)] + Completion(lead, from + 1, count - 1)
  }

  lemma {:induction false} CompletionAt(lead: Byte, from: nat, count: nat, i: nat)
    requires i < count
    ensures Completion(lead, from, count)[i] == Filler(lead, from + i)
    decreases count
  {
    if i > 0 {
      CompletionAt(lead, from + 1, count - 1, i - 1);
    }
  }

  lemma StartedStarts(bytes: seq<Byte>)
    requires bytes != [] && Started(bytes) > 0
    ensures StartsACharacter(bytes[..Started(bytes)])
  {
    var n, k := Started(bytes), Announced(bytes[0]);
    var whole := bytes[..n] + Completion(bytes[0], n, k - n);
    forall i | 0 <= i < k ensures whole[i] == if i < n then bytes[i] else Filler(bytes[0], i) {
      if i >= n {
        CompletionAt(bytes[0], n, k - n, i - n);
      }
    }
    CompletionStarts(bytes, whole);
    EncodeDecodedChar(whole);
    assert bytes[..n] <= EncodeChar(CodePoint(whole) as char);
  }

  lemma CompletionStarts(bytes: seq<Byte>, whole: seq<Byte>)
    requires bytes != [] && Started(bytes) > 0 && |whole| == Announced(bytes[0])
    requires forall i | 0 <= i < |whole| :: whole[i] == if i < Started(bytes) then bytes[i] else Filler(bytes[0], i)
    ensures Started(whole) == |whole| == Announced(whole[0])
  {
    assert whole[0] == bytes[0];
  }

  lemma NoLongerStarts(bytes: seq<Byte>, c: char)
    requires bytes != [] && bytes[..Started(bytes)] != bytes
    ensures !(bytes[..Started(bytes) + 1] <= EncodeChar(c))
  {
    var n, e := Started(bytes), EncodeChar(c);
    StartedEncodedChar(c, []);
    assert e + [] == e;
    if bytes[..n + 1] <= e {
      assert forall i | 0 <= i <= n :: bytes[i] == bytes[..n + 1][i] == e[i];
    }
  }

  /** What is taken together is the longest start of a character there is. */
  lemma StartedIsLongest(bytes: seq<Byte>)
    requires bytes != []
    ensures Started(bytes) > 0 ==> StartsACharacter(bytes[..Started(bytes)])
    ensures Started(bytes) < |bytes| ==> !StartsACharacter(bytes[..Started(bytes) + 1])
  {
    if Started(bytes) > 0 {
      StartedStarts(bytes);
    }
    if Started(bytes) < |bytes| {
      forall c ensures !(bytes[..Started(bytes) + 1] <= EncodeChar(c)) {
        NoLongerStarts(bytes, c);
      }
    }
  }

  lemma {:induction false} DecodeEncoded(s: string)
    ensures Decode(Encode(s)) == s
  {
    if s != [] {
      DecodeEncodedChar(s[0], Encode(s[1..]));
      DecodeEncoded(s[1..]);
    }
  }

  // ---------------------------------------------------------------------------
  // Percent-encoding
  // ---------------------------------------------------------------------------

  /** Letters, digits, `_.-~` and the safe characters of the flag. */
  predicate IsSafe(n: int) {
    || 0x30 <= n <= 0x39 || 0x41 <= n <= 0x5A || 0x61 <= n <= 0x7A
    || n == 0x5F || n == 0x2E || n == 0x2D || n == 0x7E || n == 0x3A
  }

  function HexDigit(n: int): (c: char)
    requires 0 <= n < 16
    ensures HexValue(c) == n
  {
    if n < 10 then (0x30 + n) as char else (0x41 + n - 10) as char
  }

  /** The value of a hexadecimal digit in either case, or -1. */
  function HexValue(c: char): (n: int)
    ensures -1 <= n < 16
  {
    if '0' <= c <= '9' then c as int - 0x30
    else if 'A' <= c <= 'F' then c as int - 0x41 + 10
    else if 'a' <= c <= 'f' then c as int - 0x61 + 10
    else -1
  }

  function QuoteByte(b: Byte): string {
    if IsSafe(b) then [b as char] else ['%', HexDigit(b / 16), HexDigit(b % 16)]
  }

  /** A byte stays when it is one of these characters; else it becomes a percent sign and two digits, in upper
      case. */
  lemma QuoteByteIs(b: Byte)
    ensures QuoteByte(b) == if StaysBare(b) then [b as char]
                            else ['%', "0123456789ABCDEF"[b / 16], "0123456789ABCDEF"[b % 16]]
  {
    HexDigitIs(b / 16);
    HexDigitIs(b % 16);
  }

  ghost predicate StaysBare(b: Byte) {
    var c := b as char;
    'a' <= c <= 'z' || 'A' <= c <= 'Z' || '0' <= c <= '9' || c in "_.-~:"
  }

  lemma HexDigitIs(n: nat)
    requires n < 16
    ensures HexDigit(n) == "0123456789ABCDEF"[n]
  {
  }

  /** Digits are read in either case. */
  lemma HexValueIs(n: nat)
    requires n < 16
    ensures HexValue("0123456789ABCDEF"[n]) == n && HexValue("0123456789abcdef"[n]) == n
  {
  }

  /** And nothing else is one. */
  lemma HexValueIsOfDigit(c: char)
    requires HexValue(c) >= 0
    ensures c == "0123456789ABCDEF"[HexValue(c)] || c == "0123456789abcdef"[HexValue(c)]
  {
  }

  function QuoteBytes(bytes: seq<Byte>): string {
    if bytes == [] then [] else QuoteByte(bytes[0]) + QuoteBytes(bytes[1..])
  }

  /** `quote(s, safe=':._-')` */
  function Quote(s: string): string {
    QuoteBytes(Encode(s))
  }

  predicate IsAscii(c: char) {
    c as int < 0x80
  }

  predicate AllAscii(s: string) {
    forall c | c in s :: IsAscii(c)
  }

  /** The bytes of a run of ASCII text; a `%` that does not start two hexadecimal digits stays. */
  function UnquoteRun(s: string): seq<Byte>
    requires AllAscii(s)
  {
    if s == [] then []
    else if s[0] == '%' && |s| >= 3 && HexValue(s[1]) >= 0 && HexValue(s[2]) >= 0 then
      [HexValue(s[1]) * 16 + HexValue(s[2])] + UnquoteRun(s[3..])
    else
      assert IsAscii(s[0]);
      [s[0] as int] + UnquoteRun(s[1..])
  }

  function AsciiRun(s: string): (n: nat)
    ensures n <= |s| && AllAscii(s[..n]) && (n < |s| ==> !IsAscii(s[n]))
  {
    if s == [] || !IsAscii(s[0]) then 0
    else
      var n := AsciiRun(s[1..]);
      assert s[..1 + n] == [s[0]] + s[1..][..n];
      1 + n
  }

  /** `unquote`: every run of ASCII text is decoded by itself, other characters stay. */
  function Unquote(s: string): string
    decreases |s|
  {
    if s == [] then []
    else
      var n := AsciiRun(s);
      if n == 0 then [s[0]] + Unquote(s[1..]) else Decode(UnquoteRun(s[..n])) + Unquote(s[n..])
  }

  lemma {:induction false} RunWithoutPercent(s: string)
    requires AllAscii(s) && '%' !in s
    ensures UnquoteRun(s) == Encode(s)
  {
    if s != [] {
      assert IsAscii(s[0]) && s[0] in s && forall c | c in s[1..] :: c in s;
      RunWithoutPercent(s[1..]);
    }
  }

  lemma PlainRunStays(s: string)
    requires AllAscii(s) && '%' !in s
    ensures Decode(UnquoteRun(s)) == s
  {
    RunWithoutPercent(s);
    DecodeEncoded(s);
  }

  lemma PartsWithoutPercent(s: string, n: nat)
    requires '%' !in s && n <= |s|
    ensures '%' !in s[..n] && '%' !in s[n..]
  {
    assert s == s[..n] + s[n..];
  }

  /** What is done with the start of a text: a run of ASCII, or one other character. */
  lemma UnquoteFirst(s: string, n: nat)
    requires s != [] && AsciiRun(s) == n
    ensures if n == 0 then Unquote(s) == [s[0]] + Unquote(s[1..])
            else Unquote(s) == Decode(UnquoteRun(s[..n])) + Unquote(s[n..])
  {
  }

  lemma Joined(s: string, n: nat, front: string, back: string)
    requires n <= |s| && front == s[..n] && back == s[n..]
    ensures front + back == s
  {
  }

  /** Text without a percent sign is left as it is, whatever its characters. */
  lemma {:induction false} UnquoteKeepsPlain(s: string)
    requires '%' !in s
    ensures Unquote(s) == s
    decreases |s|
  {
    if s != [] {
      var n := AsciiRun(s);
      UnquoteFirst(s, n);
      if n == 0 {
        PartsWithoutPercent(s, 1);
        UnquoteKeepsPlain(s[1..]);
        Joined(s, 1, [s[0]], Unquote(s[1..]));
      } else {
        PartsWithoutPercent(s, n);
        PlainRunStays(s[..n]);
        UnquoteKeepsPlain(s[n..]);
        Joined(s, n, Decode(UnquoteRun(s[..n])), Unquote(s[n..]));
      }
    }
  }

  predicate FlagChar(c: char) {
    IsSafe(c as int) || c == '%'
  }

  lemma {:induction false} QuotedIsFlagText(bytes: seq<Byte>)
    ensures forall c | c in QuoteBytes(bytes) :: FlagChar(c)
  {
    if bytes != [] {
      QuotedIsFlagText(bytes[1..]);
      assert forall c | c in QuoteByte(bytes[0]) :: FlagChar(c);
    }
  }

  lemma FlagCharsAreSafe(c: char)
    requires FlagChar(c)
    ensures IsAscii(c) && !IsSpace(c) && c != '\'' && c != '"' && c != '\\'
  {
  }

  lemma {:induction false} UnquoteQuotedBytes(bytes: seq<Byte>)
    ensures AllAscii(QuoteBytes(bytes)) && UnquoteRun(QuoteBytes(bytes)) == bytes
  {
    QuotedIsFlagText(bytes);
    if bytes != [] {
      var head, rest := QuoteByte(bytes[0]), QuoteBytes(bytes[1..]);
      UnquoteQuotedBytes(bytes[1..]);
      if IsSafe(bytes[0]) {
        assert (head + rest)[1..] == rest;
      } else {
        assert (head + rest)[3..] == rest;
      }
    }
  }

  lemma UnquoteOfQuoted(s: string)
    ensures Unquote(Quote(s)) == s
  {
    var q := Quote(s);
    UnquoteQuotedBytes(Encode(s));
    DecodeEncoded(s);
    if q != [] {
      var n := AsciiRun(q);
      assert n == |q|;
      assert q[..n] == q && q[n..] == [];
    }
  }

  // ---------------------------------------------------------------------------
  // The flag
  // ---------------------------------------------------------------------------

  /** `game_key` */
  function Key(launcher: string, game: string): string {
    var l, g := Trim(launcher), Trim(game);
    if l != [] && g != [] then l + ":" + g else ""
  }

  /** `game_key_flag` */
  function Flag(key: string): string {
    GAME_KEY_FLAG_PREFIX + Quote(Trim(key))
  }

  /** `game_key_from_flag` */
  function FromFlag(flag: string): string {
    var word := Trim(flag);
    if GAME_KEY_FLAG_PREFIX <= word then Unquote(Trim(word[|GAME_KEY_FLAG_PREFIX|..]))
    else if LEGACY_LUTRIS_ID_FLAG_PREFIX <= word then
      Key(LEGACY_LUTRIS_LAUNCHER_ID, word[|LEGACY_LUTRIS_ID_FLAG_PREFIX|..])
    else ""
  }

  lemma PrefixIsPlain()
    ensures forall c | c in GAME_KEY_FLAG_PREFIX :: !IsSpace(c) && c != '\'' && c != '"' && c != '\\'
  {
    assert forall i | 0 <= i < |GAME_KEY_FLAG_PREFIX| ::
      FlagChar(GAME_KEY_FLAG_PREFIX[i]) || GAME_KEY_FLAG_PREFIX[i] == '=';
  }

  /** The flag of any key is one shell word without blanks, quotes and backslashes. */
  lemma FlagIsOneWord(key: string)
    ensures "--pb-game-id=" <= Flag(key)
    ensures forall c | c in Flag(key) :: !IsSpace(c) && c != '\'' && c != '"' && c != '\\'
  {
    QuotedIsFlagText(Encode(Trim(key)));
    PrefixIsPlain();
    forall c | c in Quote(Trim(key)) ensures !IsSpace(c) && c != '\'' && c != '"' && c != '\\' {
      FlagCharsAreSafe(c);
    }
  }

  /** Reading the flag back gives the trimmed key, for every key. */
  lemma KeyReadsBack(key: string)
    ensures FromFlag(Flag(key)) == Trim(key)
  {
    var flag, q := Flag(key), Quote(Trim(key));
    FlagIsOneWord(key);
    assert flag[0] == '-' && flag[|flag| - 1] in flag;
    TrimOfTrimmed(flag);
    assert flag[|GAME_KEY_FLAG_PREFIX|..] == q;
    assert forall c | c in q :: c in flag;
    if q != [] {
      assert q[0] in q && q[|q| - 1] in q;
    }
    TrimOfTrimmed(q);
    UnquoteOfQuoted(Trim(key));
  }

  lemma {:induction false} TrimRightBehind(head: string, s: string)
    requires head != "" && !IsSpace(head[|head| - 1])
    ensures TrimRight(head + s) == head + TrimRight(s)
    decreases |s|
  {
    if s == "" {
      assert head + s == head;
    } else if IsSpace(s[|s| - 1]) {
      assert (head + s)[..|head + s| - 1] == head + s[..|s| - 1];
      TrimRightBehind(head, s[..|s| - 1]);
    }
  }

  lemma {:induction false} TrimAfterRight(s: string)
    ensures Trim(TrimRight(s)) == Trim(s)
    decreases |s|
  {
    if s != "" && IsSpace(s[|s| - 1]) {
      var front := s[..|s| - 1];
      TrimAfterRight(front);
      TrimWithBlank(front, s[|s| - 1]);
      assert front + [s[|s| - 1]] == s;
    } else if s != "" {
      assert TrimRight(s) == s;
    }
  }

  lemma {:induction false} TrimWithBlank(s: string, blank: char)
    requires IsSpace(blank)
    ensures Trim(s + [blank]) == Trim(s)
  {
    if s != "" && IsSpace(s[0]) {
      assert (s + [blank])[1..] == s[1..] + [blank];
      TrimWithBlank(s[1..], blank);
    } else if s != "" {
      assert Blank([blank]);
      TrimRightAppended(s, [blank]);
    } else {
      assert s + [blank] == [blank] && [blank][1..] == "";
    }
  }

  /** The older flag of the Lutris tab is read as a key of that launcher; any other word as no key. */
  lemma LegacyFlagReads(id: string, word: string)
    ensures FromFlag("--pb-lutris-id=" + id) == if Trim(id) == "" then "" else "lutris:" + Trim(id)
    ensures !("--pb-game-id=" <= Trim(word)) && !("--pb-lutris-id=" <= Trim(word)) ==> FromFlag(word) == ""
  {
    var prefix := "--pb-lutris-id=";
    var flag := prefix + id;
    assert flag[0] == '-' && !IsSpace('-') && !IsSpace('=');
    TrimRightBehind(prefix, id);
    assert Trim(flag) == prefix + TrimRight(id);
    assert Trim(flag)[|prefix|..] == TrimRight(id);
    assert Trim(flag)[5] == 'l' && GAME_KEY_FLAG_PREFIX[5] == 'g';
    TrimAfterRight(id);
    assert "lutris"[0] == 'l' && "lutris"[5] == 's';
    TrimOfTrimmed("lutris");
  }

  /** Two keys share a flag only if they are the same key. */
  lemma FlagsAreDistinct(a: string, b: string)
    ensures Flag(a) == Flag(b) <==> Trim(a) == Trim(b)
  {
    KeyReadsBack(a);
    KeyReadsBack(b);
  }
}
