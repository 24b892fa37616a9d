/** Blanks and trimming as Python's `str.isspace` and `str.strip` have them. */
module Text {

  /** The characters `str.isspace` accepts. */
  predicate IsSpace(c: char) {
    var n := c as int;
    || 0x09 <= n <= 0x0D || 0x1C <= n <= 0x20 || n == 0x85 || n == 0xA0 || n == 0x1680
    || 0x2000 <= n <= 0x200A || n == 0x2028 || n == 0x2029 || n == 0x202F || n == 0x205F || n == 0x3000
  }

  /** These are the 29 characters of Unicode that count as blanks. */
  lemma SpacesInNumbers(c: char)
    ensures IsSpace(c) <==> c as int in [
      9, 10, 11, 12, 13, 28, 29, 30, 31, 32, 133, 160, 5760, 8192, 8193, 8194, 8195, 8196, 8197, 8198, 8199, 8200,
      8201, 8202, 8232, 8233, 8239, 8287, 12288]
  {
  }

  predicate Blank(s: string) {
    forall i | 0 <= i < |s| :: IsSpace(s[i])
  }

  predicate NoSpace(s: string) {
    forall i | 0 <= i < |s| :: !IsSpace(s[i])
  }

  function LeadingBlank(s: string): string {
    if s == [] || !IsSpace(s[0]) then [] else [s[0]] + LeadingBlank(s[1..])
  }

  function TrimLeft(s: string): (t: string)
    ensures |t| <= |s| && (t == [] || !IsSpace(t[0]))
  {
    if s == [] || !IsSpace(s[0]) then s else TrimLeft(s[1..])
  }

  function TrimRight(s: string): (t: string)
    ensures |t| <= |s| && (t == [] || !IsSpace(t[|t| - 1]))
  {
    if s == [] || !IsSpace(s[|s| - 1]) then s else TrimRight(s[..|s| - 1])
  }

  /** `str.strip` */
  function Trim(s: string): string {
    TrimRight(TrimLeft(s))
  }

  lemma {:induction false} TrimLeftSplits(s: string)
    ensures LeadingBlank(s) + TrimLeft(s) == s && Blank(LeadingBlank(s))
  {
    if s != [] && IsSpace(s[0]) {
      TrimLeftSplits(s[1..]);
      assert LeadingBlank(s) + TrimLeft(s) == [s[0]] + s[1..];
    }
  }

  lemma {:induction false} TrimRightSplits(s: string)
    ensures TrimRight(s) <= s && Blank(s[|TrimRight(s)|..])
  {
    if s != [] && IsSpace(s[|s| - 1]) {
      TrimRightSplits(s[..|s| - 1]);
      assert s[|TrimRight(s)|..] == s[..|s| - 1][|TrimRight(s)|..] + [s[|s| - 1]];
    }
  }

  /** Trimmed text has no blank at either end. */
  lemma TrimmedEnds(s: string)
    ensures var t := Trim(s); t == [] || (!IsSpace(t[0]) && !IsSpace(t[|t| - 1]))
  {
    var rest := TrimLeft(s);
    TrimRightSplits(rest);
    assert Trim(s) <= rest;
  }

  lemma {:induction false} TrimRightAppended(s: string, gap: string)
    requires Blank(gap)
    ensures TrimRight(s + gap) == TrimRight(s)
  {
    if gap == [] {
      assert s + gap == s;
    } else {
      var n := |gap| - 1;
      assert (s + gap)[..|s + gap| - 1] == s + gap[..n];
      TrimRightAppended(s, gap[..n]);
    }
  }

  lemma {:induction false} TrimLeftPrepended(lead: string, s: string)
    requires Blank(lead)
    ensures TrimLeft(lead + s) == TrimLeft(s)
    ensures LeadingBlank(lead + s) == lead + LeadingBlank(s)
  {
    if lead == [] {
      assert lead + s == s;
    } else {
      assert (lead + s)[1..] == lead[1..] + s;
      TrimLeftPrepended(lead[1..], s);
      assert lead == [lead[0]] + lead[1..];
    }
  }

  lemma TrimOfTrimmed(s: string)
    requires s == [] || (!IsSpace(s[0]) && !IsSpace(s[|s| - 1]))
    ensures Trim(s) == s
  {
  }
}
