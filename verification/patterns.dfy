/**
 Global regular-expression deletion `s.replace(/re/g, '')` for the three
 expressions the bridge and the terminal use, all of the shape
 `lead k+ close`: `\x1b\[\d+m`, `\[\d+m` and `puter@\w+>`.
 A global replace is a single left-to-right pass: after a match the scan
 resumes behind it, and text exposed by a deletion is not searched again.
 */
module Patterns {
  import opened Text

  datatype Class = Digits | WordChars

  predicate InClass(k: Class, c: char) {
    match k
    case Digits => IsDigit(c)
    case WordChars => IsWord(c)
  }

  /** The regular expression `lead k+ close`: a literal, one or more characters of class `k`, then one literal character. */
  datatype Pattern = Pattern(lead: string, cls: Class, close: char)

  /**
   The lead is non-empty and the closing character lies outside the class.
   Then the greedy `k+` can only succeed on the longest run of class
   characters, so backtracking never finds a different match.
   */
  predicate WellFormed(p: Pattern) {
    |p.lead| > 0 && !InClass(p.cls, p.close)
  }

  /** The strings the regular expression `p` denotes: its language, the reference for `MatchLen`. */
  predicate InLanguage(p: Pattern, m: string) {
    && |m| >= |p.lead| + 2
    && p.lead <= m
    && m[|m| - 1] == p.close
    && forall i | |p.lead| <= i < |m| - 1 :: InClass(p.cls, m[i])
  }

  /** Length of the longest run of class characters at the start of `s`. */
  function Run(k: Class, s: string): (n: nat)
    ensures n <= |s|
    ensures forall i | 0 <= i < n :: InClass(k, s[i])
    ensures n == |s| || !InClass(k, s[n])
  {
    if |s| > 0 && InClass(k, s[0]) then 1 + Run(k, s[1..]) else 0
  }

  /** Length of the match of `p` anchored at the start of `s`; 0 when it does not match there. */
  function MatchLen(p: Pattern, s: string): (n: nat)
    ensures n <= |s|
  {
    if p.lead <= s then
      var rest := s[|p.lead|..];
      var k := Run(p.cls, rest);
      if 0 < k < |rest| && rest[k] == p.close then |p.lead| + k + 1 else 0
    else 0
  }

  /**
   `MatchLen` agrees with the language: a positive length is the one prefix of
   `s` in the language, and 0 means no prefix of `s` is in it.
   */
  lemma MatchLenSpec(p: Pattern, s: string)
    requires WellFormed(p)
    ensures MatchLen(p, s) > 0 ==> InLanguage(p, s[..MatchLen(p, s)])
    ensures forall j | 0 <= j <= |s| && InLanguage(p, s[..j]) :: j == MatchLen(p, s)
  {
    var n := MatchLen(p, s);
    forall j | 0 <= j <= |s| && InLanguage(p, s[..j]) ensures j == n {
      var m := s[..j];
      var rest := s[|p.lead|..];
      var k := Run(p.cls, rest);
      assert p.lead <= s by {
        assert p.lead <= m;
      }
      // every character between the lead and the closing one is in the class,
      // and the closing one is not, so the run ends exactly at the close
      forall i | 0 <= i < j - |p.lead| - 1 ensures InClass(p.cls, rest[i]) {
        assert rest[i] == m[|p.lead| + i];
      }
      assert rest[j - |p.lead| - 1] == p.close;
      assert k == j - |p.lead| - 1;
    }
  }

  /** `s.replace(/p/g, '')`: it only deletes, so every character of the result comes from the input. */
  function ReplaceAll(p: Pattern, s: string): (r: string)
    requires WellFormed(p)
    ensures |r| <= |s|
    ensures forall c :: Count(c, r) <= Count(c, s)
    decreases |s|
  {
    if |s| == 0 then ""
    else
      var n := MatchLen(p, s);
      if n > 0 then
        DropFewer(s, n);
        ReplaceAll(p, s[n..])
      else
        ConsFewer(s, ReplaceAll(p, s[1..]));
        [s[0]] + ReplaceAll(p, s[1..])
  }

  /** Text in which the pattern matches nowhere comes through the replacement unchanged. */
  lemma {:induction false} ReplaceNoMatch(p: Pattern, s: string)
    requires WellFormed(p)
    requires forall i | 0 <= i < |s| :: MatchLen(p, s[i..]) == 0
    ensures ReplaceAll(p, s) == s
    decreases |s|
  {
    if |s| > 0 {
      assert MatchLen(p, s[0..]) == 0;
      assert s[0..] == s;
      forall i | 0 <= i < |s| - 1 ensures MatchLen(p, s[1..][i..]) == 0 {
        assert s[1..][i..] == s[i + 1..];
      }
      ReplaceNoMatch(p, s[1..]);
    }
  }

  /** A prefix that never holds the first character of the lead passes through, and the scan continues behind it. */
  lemma {:induction false} ReplacePlainPrefix(p: Pattern, x: string, y: string)
    requires WellFormed(p)
    requires p.lead[0] !in x
    ensures ReplaceAll(p, x + y) == x + ReplaceAll(p, y)
    decreases |x|
  {
    if |x| > 0 {
      var s := x + y;
      assert MatchLen(p, s) == 0 by {
        assert s[0] == x[0];
        assert !(p.lead <= s);
      }
      assert ReplaceAll(p, s) == [x[0]] + ReplaceAll(p, x[1..] + y) by {
        ReplaceSkip(p, s);
        assert s[1..] == x[1..] + y;
      }
      ReplacePlainPrefix(p, x[1..], y);
      AppendAssoc([x[0]], x[1..], ReplaceAll(p, y));
      assert [x[0]] + x[1..] == x;
    } else {
      assert x + y == y;
    }
  }

  /** Text without the first character of the lead is a fixpoint of the replacement. */
  lemma ReplacePlain(p: Pattern, s: string)
    requires WellFormed(p)
    requires p.lead[0] !in s
    ensures ReplaceAll(p, s) == s
  {
    ReplacePlainPrefix(p, s, "");
    assert s + "" == s;
  }

  /** Run of class characters followed by one character outside the class. */
  lemma RunExact(k: Class, ds: string, c: char, y: string)
    requires forall i | 0 <= i < |ds| :: InClass(k, ds[i])
    requires !InClass(k, c)
    ensures Run(k, ds + [c] + y) == |ds|
    decreases |ds|
  {
    if |ds| > 0 {
      assert (ds + [c] + y)[1..] == ds[1..] + [c] + y;
      RunExact(k, ds[1..], c, y);
    }
  }

  /** Where no match starts, the first character is kept and the scan moves on by one. */
  lemma ReplaceSkip(p: Pattern, s: string)
    requires WellFormed(p)
    requires |s| > 0 && MatchLen(p, s) == 0
    ensures ReplaceAll(p, s) == [s[0]] + ReplaceAll(p, s[1..])
  {
  }

  /** One complete match at the front is deleted whole. */
  lemma {:induction false} ReplaceCode(p: Pattern, ds: string, y: string)
    requires WellFormed(p)
    requires |ds| > 0 && forall i | 0 <= i < |ds| :: InClass(p.cls, ds[i])
    ensures ReplaceAll(p, p.lead + ds + [p.close] + y) == ReplaceAll(p, y)
  {
    var s := p.lead + ds + [p.close] + y;
    assert p.lead <= s;
    assert s[|p.lead|..] == ds + [p.close] + y;
    RunExact(p.cls, ds, p.close, y);
    assert s[|p.lead| + |ds| + 1..] == y;
  }

  /** Plain text followed by a code of the pattern, such as `hello` then `\x1b[31m`. */
  datatype Segment = Segment(text: string, code: string)

  /** Text decorated with codes: each segment's text, then the pattern wrapped around its code. */
  function Decorate(p: Pattern, segs: seq<Segment>): string
    decreases |segs|
  {
    if |segs| == 0 then ""
    else segs[0].text + p.lead + segs[0].code + [p.close] + Decorate(p, segs[1..])
  }

  /** The text of the segments alone. */
  function PlainText(segs: seq<Segment>): string
    decreases |segs|
  {
    if |segs| == 0 then "" else segs[0].text + PlainText(segs[1..])
  }

  /** Segments whose texts never start a match and whose codes are non-empty runs of the class. */
  predicate Decorable(p: Pattern, segs: seq<Segment>) {
    && |p.lead| > 0
    && forall j | 0 <= j < |segs| ::
         && p.lead[0] !in segs[j].text
         && |segs[j].code| > 0
         && forall i | 0 <= i < |segs[j].code| :: InClass(p.cls, segs[j].code[i])
  }

  /** Round trip: deleting the pattern from decorated text gives back exactly the plain text. */
  lemma {:induction false} StripDecorated(p: Pattern, segs: seq<Segment>)
    requires WellFormed(p)
    requires Decorable(p, segs)
    ensures ReplaceAll(p, Decorate(p, segs)) == PlainText(segs)
    decreases |segs|
  {
    if |segs| > 0 {
      var s := segs[0];
      var rest := Decorate(p, segs[1..]);
      assert Decorable(p, segs[1..]);
      StripDecorated(p, segs[1..]);
      assert Decorate(p, segs) == s.text + (p.lead + s.code + [p.close] + rest);
      ReplacePlainPrefix(p, s.text, p.lead + s.code + [p.close] + rest);
      ReplaceCode(p, s.code, rest);
    }
  }
}
