/**
 The string operations the bridge and the control panel build on, with the
 behaviour of their JavaScript counterparts: `trim`, `includes`, `startsWith`,
 `endsWith`, `split` on a literal separator, `join` and `filter`.
 */
module Text {
  import opened Wrappers

  /** The code points `String.prototype.trim` removes: ECMAScript WhiteSpace and LineTerminator. */
  predicate IsSpace(c: char) {
    || c == ' ' || c == '\t' || c == '\n' || c == '\r'
    || c == '\U{000B}' || c == '\U{000C}' || c == '\U{00A0}' || c == '\U{1680}'
    || ('\U{2000}' <= c <= '\U{200A}')
    || c == '\U{2028}' || c == '\U{2029}' || c == '\U{202F}' || c == '\U{205F}'
    || c == '\U{3000}' || c == '\U{FEFF}'
  }

  /** The regular-expression class `\d`. */
  predicate IsDigit(c: char) {
    '0' <= c <= '9'
  }

  /** The regular-expression class `\w`. */
  predicate IsWord(c: char) {
    ('a' <= c <= 'z') || ('A' <= c <= 'Z') || IsDigit(c) || c == '_'
  }

  /** True when `line.trim()` is the empty string. */
  predicate IsBlank(s: string) {
    forall i | 0 <= i < |s| :: IsSpace(s[i])
  }

  /** Neither end of `s` is whitespace: `s.trim() === s`. */
  predicate Tight(s: string) {
    s == [] || (!IsSpace(s[0]) && !IsSpace(s[|s| - 1]))
  }

  function TrimStart(s: string): (r: string)
    ensures |r| <= |s|
    ensures r == s[|s| - |r|..]
    ensures forall i | 0 <= i < |s| - |r| :: IsSpace(s[i])
    ensures r == [] || !IsSpace(r[0])
  {
    if |s| > 0 && IsSpace(s[0]) then TrimStart(s[1..]) else s
  }

  /** Text that starts with a non-space character has nothing to trim at its start. */
  lemma TrimStartKeeps(s: string)
    requires s != [] && !IsSpace(s[0])
    ensures TrimStart(s) == s
  {
  }

  function TrimEnd(s: string): (r: string)
    ensures |r| <= |s|
    ensures r == s[..|r|]
    ensures forall i | |r| <= i < |s| :: IsSpace(s[i])
    ensures r == [] || !IsSpace(r[|r| - 1])
  {
    if |s| > 0 && IsSpace(s[|s| - 1]) then TrimEnd(s[..|s| - 1]) else s
  }

  /** `s.trim()`: the infix of `s` left after removing whitespace at both ends. */
  function Trim(s: string): (r: string)
    ensures Tight(r)
    ensures r == [] <==> IsBlank(s)
    ensures |r| <= |s|
    ensures exists i, j | 0 <= i <= j <= |s| :: r == s[i..j] && IsBlank(s[..i]) && IsBlank(s[j..])
  {
    var t := TrimStart(s);
    var r := TrimEnd(t);
    assert r != [] ==> !IsSpace(r[0]) by {
      if r != [] {
        assert r[0] == t[0];
      }
    }
    TrimEnds(s, t, r);
    r
  }

  /** What `TrimStart` and then `TrimEnd` remove is white space, and what they keep is one stretch. */
  lemma TrimEnds(s: string, t: string, r: string)
    requires |t| <= |s| && t == s[|s| - |t|..] && forall k | 0 <= k < |s| - |t| :: IsSpace(s[k])
    requires |r| <= |t| && r == t[..|r|] && forall k | |r| <= k < |t| :: IsSpace(t[k])
    ensures r == s[|s| - |t|..|s| - |t| + |r|]
    ensures IsBlank(s[..|s| - |t|]) && IsBlank(s[|s| - |t| + |r|..])
  {
    var i := |s| - |t|;
    assert s[i..i + |r|] == t[..|r|];
    BlankSlice(s, 0, i);
    assert s[i + |r|..] == t[|r|..];
    BlankSlice(t, |r|, |t|);
  }

  /** A stretch of white-space characters is blank. */
  lemma BlankSlice(s: string, a: nat, b: nat)
    requires a <= b <= |s|
    requires forall k | a <= k < b :: IsSpace(s[k])
    ensures IsBlank(s[a..b])
  {
    assert forall k | 0 <= k < b - a :: s[a..b][k] == s[a + k];
  }

  /**
   The characters `Trim` keeps are the contiguous stretch `s[i..j]` of its
   input, and everything it removes before `i` and from `j` on is whitespace.
   */
  lemma TrimInfix(s: string) returns (i: nat, j: nat)
    ensures i <= j <= |s|
    ensures s[i..j] == Trim(s)
    ensures IsBlank(s[..i]) && IsBlank(s[j..])
  {
    i, j :| 0 <= i <= j <= |s| && Trim(s) == s[i..j] && IsBlank(s[..i]) && IsBlank(s[j..]);
  }

  /**
   `Trim` is the only tight infix with whitespace on both sides: any such
   stretch of `s` is `s.trim()`.
   */
  lemma TrimUnique(s: string, i: nat, j: nat)
    requires i <= j <= |s|
    requires IsBlank(s[..i]) && IsBlank(s[j..]) && Tight(s[i..j])
    ensures Trim(s) == s[i..j]
  {
    var mid := s[i..j];
    if mid == [] {
      assert IsBlank(s) by {
        forall k | 0 <= k < |s| ensures IsSpace(s[k]) {
          if k < i { assert s[..i][k] == s[k]; } else { assert s[j..][k - j] == s[k]; }
        }
      }
    } else {
      assert s == s[..i] + (mid + s[j..]);
      TrimStartBlankPrefix(s[..i], mid + s[j..]);
      TrimStartKeeps(mid + s[j..]);
      TrimEndBlankSuffix(mid, s[j..]);
    }
  }

  /** Leading whitespace is all that `TrimStart` removes. */
  lemma {:induction false} TrimStartBlankPrefix(ws: string, t: string)
    requires IsBlank(ws)
    ensures TrimStart(ws + t) == TrimStart(t)
    decreases |ws|
  {
    if |ws| > 0 {
      assert (ws + t)[1..] == ws[1..] + t;
      TrimStartBlankPrefix(ws[1..], t);
    } else {
      assert ws + t == t;
    }
  }

  /** Trailing whitespace is all that `TrimEnd` removes. */
  lemma {:induction false} TrimEndBlankSuffix(t: string, ws: string)
    requires IsBlank(ws)
    requires t == [] || !IsSpace(t[|t| - 1])
    ensures TrimEnd(t + ws) == t
    decreases |ws|
  {
    if |ws| > 0 {
      assert (t + ws)[..|t + ws| - 1] == t + ws[..|ws| - 1];
      TrimEndBlankSuffix(t, ws[..|ws| - 1]);
    } else {
      assert t + ws == t;
    }
  }

  lemma {:induction false} TrimTight(s: string)
    requires Tight(s)
    ensures Trim(s) == s
  {
  }

  /** A tight cell padded with one space on each side trims back to itself. */
  lemma TrimEmpty(s: string)
    requires s == []
    ensures Trim(s) == []
  {
    assert IsBlank(s);
  }

  lemma TrimPadded(c: string)
    requires Tight(c)
    ensures Trim(" " + c + " ") == c
  {
    if c != [] {
      assert " " + c + " " == " " + (c + " ");
      TrimStartBlankPrefix(" ", c + " ");
      assert TrimStart(c + " ") == c + " ";
      TrimEndBlankSuffix(c, " ");
    } else {
      assert IsBlank(" " + c + " ");
    }
  }

  lemma TrimIdempotent(s: string)
    ensures Trim(Trim(s)) == Trim(s)
  {
    TrimTight(Trim(s));
  }

  /** `s.includes(t)`. */
  predicate Contains(s: string, t: string) {
    exists i | 0 <= i <= |s| - |t| :: t <= s[i..]
  }

  /** Text that contains `t` contains every stretch of `t`. */
  lemma ContainsSlice(s: string, t: string, i: nat, j: nat)
    requires i <= j <= |t|
    requires Contains(s, t)
    ensures Contains(s, t[i..j])
  {
    var k :| 0 <= k <= |s| - |t| && t <= s[k..];
    assert s[k + i..][..j - i] == t[i..j];
  }

  /** An occurrence of `t` cannot start inside a prefix that lacks `t`'s first character. */
  lemma ContainsSkip(a: string, b: string, t: string)
    requires |t| > 0 && t[0] !in a
    requires Contains(a + b, t)
    ensures Contains(b, t)
  {
    var s := a + b;
    forall k | 0 <= k < |a| ensures !(t <= s[k..]) {
      assert s[k..][0] == a[k] && a[k] in a;
    }
    var i :| 0 <= i <= |s| - |t| && t <= s[i..];
    assert t <= b[i - |a|..];
  }

  /** An occurrence of `t` cannot straddle a character that `t` does not contain. */
  lemma ContainsAround(a: string, x: char, b: string, t: string)
    requires x !in t
    requires Contains(a + [x] + b, t)
    ensures Contains(a, t) || Contains(b, t)
  {
    var s := a + [x] + b;
    forall k | 0 <= k <= |a| < k + |t| ensures !(t <= s[k..]) {
      assert s[k..][|a| - k] == x;
    }
    var i :| 0 <= i <= |s| - |t| && t <= s[i..];
    if i + |t| <= |a| {
      assert t <= a[i..];
    } else {
      assert t <= b[i - |a| - 1..];
    }
  }

  /** `s.endsWith(t)`. */
  predicate EndsWith(s: string, t: string) {
    |t| <= |s| && s[|s| - |t|..] == t
  }

  /** The position of the first occurrence of `t` in `s`, as `s.indexOf(t)` finds it. */
  function IndexOf(s: string, t: string): (r: Option<nat>)
    requires |t| > 0
    ensures r.Some? ==> r.value + |t| <= |s| && t <= s[r.value..]
    ensures r.Some? ==> forall k | 0 <= k < r.value :: !(t <= s[k..])
    ensures r.None? ==> forall k | 0 <= k <= |s| :: !(t <= s[k..])
    decreases |s|
  {
    if |s| < |t| then None
    else if t <= s then Some(0)
    else
      assert forall k | 1 <= k <= |s| :: s[1..][k - 1..] == s[k..];
      match IndexOf(s[1..], t)
      case None => None
      case Some(k) => Some(k + 1)
  }

  /** `s.split(sep)` for a non-empty literal separator: the empty string splits into `[""]`. */
  function Split(s: string, sep: string): (r: seq<string>)
    requires |sep| > 0
    ensures |r| >= 1
    decreases |s|
  {
    match IndexOf(s, sep)
    case None => [s]
    case Some(i) => [s[..i]] + Split(s[i + |sep|..], sep)
  }

  /** `parts.join(sep)`; the empty list joins to the empty string. */
  function Join(parts: seq<string>, sep: string): string
    decreases |parts|
  {
    if |parts| == 0 then ""
    else if |parts| == 1 then parts[0]
    else parts[0] + sep + Join(parts[1..], sep)
  }

  /** Joining one more part appends the separator and that part. */
  lemma {:induction false} JoinSnoc(parts: seq<string>, last: string, sep: string)
    requires |parts| >= 1
    ensures Join(parts + [last], sep) == Join(parts, sep) + sep + last
    decreases |parts|
  {
    if |parts| > 1 {
      JoinSnoc(parts[1..], last, sep);
      assert (parts + [last])[1..] == parts[1..] + [last];
    }
  }

  /** Splitting and joining again with the same separator gives back the text. */
  lemma {:induction false} JoinSplit(s: string, sep: string)
    requires |sep| > 0
    ensures Join(Split(s, sep), sep) == s
    decreases |s|
  {
    match IndexOf(s, sep)
    case None =>
    case Some(i) =>
      var rest := s[i + |sep|..];
      var tail := Split(rest, sep);
      JoinSplit(rest, sep);
      JoinCons(s[..i], tail, sep);
      assert s[i..i + |sep|] == sep;
      CutTwice(s, i, i + |sep|);
  }

  lemma JoinCons(a: string, tail: seq<string>, sep: string)
    requires |tail| >= 1
    ensures Join([a] + tail, sep) == a + sep + Join(tail, sep)
  {
    assert ([a] + tail)[1..] == tail;
  }

  lemma CutTwice<T>(s: seq<T>, i: nat, j: nat)
    requires i <= j <= |s|
    ensures s == s[..i] + s[i..j] + s[j..]
  {
  }

  /** Text with no separator character splits into itself alone. */
  lemma SplitNone(s: string, c: char)
    requires c !in s
    ensures Split(s, [c]) == [s]
  {
    forall k | 0 <= k <= |s| ensures !([c] <= s[k..]) {
      if k < |s| {
        assert s[k..][0] == s[k] && s[k] in s;
      }
    }
  }

  /** A first piece free of the separator character splits off at the separator that follows it. */
  lemma SplitFirst(a: string, c: char, b: string)
    requires c !in a
    ensures Split(a + [c] + b, [c]) == [a] + Split(b, [c])
  {
    var s := a + [c] + b;
    assert [c] <= s[|a|..];
    forall k | 0 <= k < |a| ensures !([c] <= s[k..]) {
      assert s[k..][0] == a[k] && a[k] in a;
    }
    var r := IndexOf(s, [c]);
    assert r.Some?;
    assert r.value == |a|;
    assert s[..|a|] == a;
    assert s[|a| + 1..] == b;
  }

  /** The general form for a separator of any length: a first piece free of its first character splits off. */
  lemma SplitFirstSep(a: string, sep: string, b: string)
    requires |sep| > 0 && sep[0] !in a
    ensures Split(a + sep + b, sep) == [a] + Split(b, sep)
  {
    var s := a + sep + b;
    assert s[|a|..][..|sep|] == sep;
    forall k | 0 <= k < |a| ensures !(sep <= s[k..]) {
      assert s[k..][0] == a[k] && a[k] in a;
    }
    var r := IndexOf(s, sep);
    assert r.Some?;
    assert r.value == |a|;
    assert s[..|a|] == a;
    assert s[|a| + |sep|..] == b;
  }

  /** Text that starts with the separator splits into an empty piece first. */
  lemma SplitLeadingSep(sep: string, b: string)
    requires |sep| > 0
    ensures Split(sep + b, sep) == [""] + Split(b, sep)
  {
    SplitFirstSep("", sep, b);
    assert "" + sep + b == sep + b;
  }

  lemma SplitEmpty(sep: string)
    requires |sep| > 0
    ensures Split("", sep) == [""]
  {
  }

  /**
   Joining lines free of a one-character separator and splitting them again
   gives back the lines: the inverse of `JoinSplit` for non-empty line lists.
   */
  lemma {:induction false} SplitJoin(parts: seq<string>, c: char)
    requires |parts| >= 1
    requires forall i | 0 <= i < |parts| :: c !in parts[i]
    ensures Split(Join(parts, [c]), [c]) == parts
    decreases |parts|
  {
    if |parts| == 1 {
      SplitNone(parts[0], c);
    } else {
      SplitJoin(parts[1..], c);
      SplitFirst(parts[0], c, Join(parts[1..], [c]));
      assert parts == [parts[0]] + parts[1..];
    }
  }

  /** Number of occurrences of `c` in `s`. */
  function Count(c: char, s: string): nat
    decreases |s|
  {
    if |s| == 0 then 0 else (if s[0] == c then 1 else 0) + Count(c, s[1..])
  }

  lemma {:induction false} CountConcat(c: char, a: string, b: string)
    ensures Count(c, a + b) == Count(c, a) + Count(c, b)
    decreases |a|
  {
    if |a| == 0 {
      assert a + b == b;
    } else {
      CountConcat(c, a[1..], b);
      assert (a + b)[1..] == a[1..] + b;
    }
  }

  lemma {:induction false} CountAbsent(c: char, s: string)
    ensures Count(c, s) == 0 <==> c !in s
    decreases |s|
  {
    if |s| > 0 {
      CountAbsent(c, s[1..]);
      assert s == [s[0]] + s[1..];
    }
  }

  /** Dropping a prefix never adds an occurrence of any character. */
  lemma DropFewer(s: string, n: nat)
    requires n <= |s|
    ensures forall c :: Count(c, s[n..]) <= Count(c, s)
  {
    forall c ensures Count(c, s[n..]) <= Count(c, s) {
      CountInfix(c, s, n, |s|);
      assert s[n..|s|] == s[n..];
    }
  }

  /** Keeping the first character in front of a text with no more occurrences than the rest keeps the bound. */
  lemma ConsFewer(s: string, r: string)
    requires |s| > 0 && forall c :: Count(c, r) <= Count(c, s[1..])
    ensures forall c :: Count(c, [s[0]] + r) <= Count(c, s)
  {
    forall c ensures Count(c, [s[0]] + r) <= Count(c, s) {
      assert ([s[0]] + r)[1..] == r;
    }
  }

  /** A stretch of a text holds no more occurrences than the whole text. */
  lemma CountInfix(c: char, s: string, i: nat, j: nat)
    requires i <= j <= |s|
    ensures Count(c, s[i..j]) <= Count(c, s)
  {
    assert s == s[..i] + s[i..j] + s[j..];
    CountConcat(c, s[..i] + s[i..j], s[j..]);
    CountConcat(c, s[..i], s[i..j]);
  }

  /** Splitting on a character gives one more piece than there are occurrences of it. */
  lemma {:induction false} SplitCount(s: string, c: char)
    ensures |Split(s, [c])| == Count(c, s) + 1
    decreases |s|
  {
    match IndexOf(s, [c])
    case None =>
      forall k | 0 <= k < |s| ensures s[k] != c {
        assert s[k..][0] == s[k];
      }
      CountAbsent(c, s);
    case Some(i) =>
      var rest := s[i + 1..];
      SplitCount(rest, c);
      forall k | 0 <= k < i ensures s[..i][k] != c {
        assert s[k..][0] == s[k];
      }
      CountAbsent(c, s[..i]);
      assert s == s[..i] + [c] + rest;
      CountConcat(c, s[..i] + [c], rest);
      CountConcat(c, s[..i], [c]);
  }

  /** No piece of a split contains the separator character. */
  lemma {:induction false} SplitPartsFree(s: string, c: char)
    ensures forall k | 0 <= k < |Split(s, [c])| :: c !in Split(s, [c])[k]
    decreases |s|
  {
    match IndexOf(s, [c])
    case None =>
      forall k | 0 <= k < |s| ensures s[k] != c {
        assert s[k..][0] == s[k];
      }
    case Some(i) =>
      SplitPartsFree(s[i + 1..], c);
      forall k | 0 <= k < i ensures s[..i][k] != c {
        assert s[k..][0] == s[k];
      }
  }

  /** Joining separator-free pieces puts exactly one separator between neighbours. */
  lemma {:induction false} JoinCount(parts: seq<string>, c: char)
    requires |parts| >= 1
    requires forall k | 0 <= k < |parts| :: c !in parts[k]
    ensures Count(c, Join(parts, [c])) == |parts| - 1
    decreases |parts|
  {
    CountAbsent(c, parts[0]);
    if |parts| > 1 {
      JoinCount(parts[1..], c);
      CountConcat(c, parts[0] + [c], Join(parts[1..], [c]));
      CountConcat(c, parts[0], [c]);
    }
  }

  /** JavaScript truthiness of a string. */
  predicate NonEmpty(s: string) {
    s != ""
  }

  /** `s.trim()` is truthy: the text has a non-space character. */
  predicate NotBlank(s: string) {
    !IsBlank(s)
  }

  /** The first line of a non-empty text with no surrounding whitespace is not blank, so filtering out blank lines keeps at least one. */
  lemma TightFirstLine(t: string, c: char)
    requires Tight(t) && t != "" && IsSpace(c)
    ensures NotBlank(Split(t, [c])[0])
    ensures Filter(NotBlank, Split(t, [c])) != []
  {
    var lines := Split(t, [c]);
    assert !([c] <= t[0..]) by {
      assert t[0..][0] == t[0];
    }
    assert lines[0] != "" && lines[0][0] == t[0];
    FilterMember(NotBlank, lines, lines[0]);
  }

  /** `xs.filter(keep)`. */
  function Filter<T>(keep: T -> bool, xs: seq<T>): (r: seq<T>)
    ensures |r| <= |xs|
    ensures forall x | x in r :: keep(x) && x in xs
    decreases |xs|
  {
    if |xs| == 0 then []
    else (if keep(xs[0]) then [xs[0]] else []) + Filter(keep, xs[1..])
  }

  /** Filtering keeps every element that passes, so membership is exactly "in xs and kept". */
  lemma {:induction false} FilterMember<T>(keep: T -> bool, xs: seq<T>, x: T)
    ensures x in Filter(keep, xs) <==> x in xs && keep(x)
    decreases |xs|
  {
    if |xs| > 0 {
      FilterMember(keep, xs[1..], x);
      assert xs == [xs[0]] + xs[1..];
    }
  }

  /** Filtering commutes with concatenation, so kept elements stay in their input order. */
  lemma {:induction false} FilterConcat<T>(keep: T -> bool, xs: seq<T>, ys: seq<T>)
    ensures Filter(keep, xs + ys) == Filter(keep, xs) + Filter(keep, ys)
    decreases |xs|
  {
    if |xs| == 0 {
      assert xs + ys == ys;
    } else {
      var head := if keep(xs[0]) then [xs[0]] else [];
      assert (xs + ys)[0] == xs[0];
      assert (xs + ys)[1..] == xs[1..] + ys;
      assert Filter(keep, xs + ys) == head + Filter(keep, xs[1..] + ys);
      FilterConcat(keep, xs[1..], ys);
      AppendAssoc(head, Filter(keep, xs[1..]), Filter(keep, ys));
    }
  }

  lemma AppendAssoc<T>(a: seq<T>, b: seq<T>, c: seq<T>)
    ensures a + (b + c) == a + b + c
  {
  }

  /** When every element passes, filtering changes nothing. */
  lemma {:induction false} FilterAll<T>(keep: T -> bool, xs: seq<T>)
    requires forall i | 0 <= i < |xs| :: keep(xs[i])
    ensures Filter(keep, xs) == xs
    decreases |xs|
  {
    if |xs| > 0 {
      FilterAll(keep, xs[1..]);
    }
  }

  /** Joined non-empty, tight pieces start and end with a non-space character. */
  lemma {:induction false} JoinTight(parts: seq<string>, c: char)
    requires |parts| >= 1
    requires forall k | 0 <= k < |parts| :: Tight(parts[k]) && parts[k] != ""
    ensures Tight(Join(parts, [c]))
    decreases |parts|
  {
    if |parts| > 1 {
      JoinTight(parts[1..], c);
      var rest := Join(parts[1..], [c]);
      assert Join(parts, [c]) == parts[0] + [c] + rest;
    }
  }

  /** Trimming never adds an occurrence of a character. */
  lemma TrimCount(s: string, c: char)
    ensures Count(c, Trim(s)) <= Count(c, s)
  {
    var i, j := TrimInfix(s);
    CountInfix(c, s, i, j);
  }

  /** Filtering keeps only parts that were already free of `c`. */
  lemma FilterPartsFree(keep: string -> bool, parts: seq<string>, c: char)
    requires forall k | 0 <= k < |parts| :: c !in parts[k]
    ensures forall k | 0 <= k < |Filter(keep, parts)| :: c !in Filter(keep, parts)[k]
  {
    var kept := Filter(keep, parts);
    forall k | 0 <= k < |kept| ensures c !in kept[k] {
      assert kept[k] in parts;
    }
  }

  /** Filtering the lines of `x`, joining and trimming never yields more lines than `x` had. */
  lemma FilteredLineCount(keep: string -> bool, x: string, c: char)
    ensures |Split(Trim(Join(Filter(keep, Split(x, [c])), [c])), [c])| <= |Split(x, [c])|
  {
    var lines := Split(x, [c]);
    var kept := Filter(keep, lines);
    var joined := Join(kept, [c]);
    SplitCount(Trim(joined), c);
    TrimCount(joined, c);
    if |kept| > 0 {
      SplitPartsFree(x, c);
      FilterPartsFree(keep, lines, c);
      JoinCount(kept, c);
    }
  }

  /** When the kept lines are non-empty and tight, the lines of the trimmed join are exactly the kept lines. */
  lemma FilteredLinesExact(keep: string -> bool, x: string, c: char)
    requires forall l | l in Filter(keep, Split(x, [c])) :: Tight(l) && l != ""
    requires Filter(keep, Split(x, [c])) != []
    ensures Split(Trim(Join(Filter(keep, Split(x, [c])), [c])), [c]) == Filter(keep, Split(x, [c]))
  {
    var lines := Split(x, [c]);
    var kept := Filter(keep, lines);
    JoinTight(kept, c);
    TrimTight(Join(kept, [c]));
    SplitPartsFree(x, c);
    FilterPartsFree(keep, lines, c);
    SplitJoin(kept, c);
  }

  /** Decimal rendering of an integer, as a JavaScript template literal prints it. */
  function IntToString(n: int): (r: string)
    ensures |r| >= 1
    ensures n >= 0 ==> forall i | 0 <= i < |r| :: IsDigit(r[i])
  {
    if n < 0 then "-" + NatToString(-n) else NatToString(n)
  }

  function NatToString(n: nat): (r: string)
    ensures |r| >= 1
    ensures forall i | 0 <= i < |r| :: IsDigit(r[i])
  {
    var d := ['0' + (n % 10) as char];
    if n < 10 then d else NatToString(n / 10) + d
  }
}
