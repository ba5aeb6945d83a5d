/**
 `cleanOutput(output, isShellMode)`: the normalisation of the CLI's captured
 standard output. Colour codes are deleted in two global passes; in shell
 mode the text is then cut into lines, banner, help-hint, goodbye, prompt and
 blank lines are dropped, and the rest is joined again; the result is trimmed.
 */
module Output {
  import opened Text
  import opened Patterns

  /** `/\x1b\[\d+m/g` */
  const AnsiEscape: Pattern := Pattern("\U{001B}[", Digits, 'm')
  /** `/\[\d+m/g` */
  const AnsiBare: Pattern := Pattern("[", Digits, 'm')
  /** `/^puter@\w+>/`, anchored at the start of a line. */
  const ShellPrompt: Pattern := Pattern("puter@", WordChars, '>')

  /**
   The two colour-code passes, escape-prefixed codes first, then bare ones.
   Both only delete, so no character occurs in the result more often than in
   the input (in particular no line break is added).
   */
  function StripAnsi(s: string): (r: string)
    ensures |r| <= |s|
    ensures forall c :: Count(c, r) <= Count(c, s)
  {
    ReplaceAll(AnsiBare, ReplaceAll(AnsiEscape, s))
  }

  /** A shell line that is greeting, help hint, goodbye or a prompt. */
  predicate IsNoise(line: string) {
    || Contains(line, "Welcome to Puter-CLI")
    || Contains(line, "Type \"help\"")
    || Contains(line, "Goodbye!")
    || MatchLen(ShellPrompt, line) > 0
  }

  /** The lines shell mode keeps. */
  predicate Kept(line: string) {
    !IsNoise(line) && !IsBlank(line)
  }

  /** The colour-stripped lines of `s` that shell mode keeps, in their original order. */
  function KeptLines(s: string): (ls: seq<string>)
    ensures forall l | l in ls :: Kept(l)
    ensures |ls| <= |Split(StripAnsi(s), "\n")|
  {
    Filter(Kept, Split(StripAnsi(s), "\n"))
  }

  /** `cleanOutput(output, isShellMode)`. */
  function CleanOutput(output: string, shellMode: bool): (r: string)
    ensures output == "" ==> r == ""
    ensures Tight(r)
  {
    if output == "" then ""
    else if shellMode then Trim(Join(KeptLines(output), "\n"))
    else Trim(StripAnsi(output))
  }

  /** A colour-stripped line survives shell mode exactly when it is neither noise nor blank. */
  lemma KeptLinesMember(s: string, line: string)
    ensures line in KeptLines(s) <==> line in Split(StripAnsi(s), "\n") && !IsNoise(line) && !IsBlank(line)
  {
    FilterMember(Kept, Split(StripAnsi(s), "\n"), line);
  }

  /** Shell mode never produces more lines than the colour-stripped input had. */
  lemma ShellLineCount(s: string)
    ensures |Split(CleanOutput(s, true), "\n")| <= |Split(StripAnsi(s), "\n")|
  {
    if s != "" {
      FilteredLineCount(Kept, StripAnsi(s), '\n');
    }
  }

  /**
   When the kept lines have no whitespace at their ends, the lines of the
   shell-mode result are exactly the kept lines, in order (or the single
   empty line when nothing is kept).
   */
  lemma ShellKeepsExactly(s: string)
    requires forall l | l in KeptLines(s) :: Tight(l)
    ensures Split(CleanOutput(s, true), "\n") == (if KeptLines(s) == [] then [""] else KeptLines(s))
  {
    if s == "" {
      NothingKeptFromEmpty();
      SplitEmpty("\n");
    } else if KeptLines(s) == [] {
      SplitEmpty("\n");
    } else {
      forall l | l in KeptLines(s) ensures Tight(l) && l != "" {
        assert Kept(l);
      }
      FilteredLinesExact(Kept, StripAnsi(s), '\n');
    }
  }

  lemma NothingKeptFromEmpty()
    ensures KeptLines("") == []
  {
    SplitEmpty("\n");
    assert !Kept("");
  }

  /** Shell mode differs from direct mode only by the lines it drops: with nothing to drop, both agree. */
  lemma ShellOnlyFilters(s: string)
    requires forall k | 0 <= k < |Split(StripAnsi(s), "\n")| :: Kept(Split(StripAnsi(s), "\n")[k])
    ensures CleanOutput(s, true) == CleanOutput(s, false)
  {
    FilterAll(Kept, Split(StripAnsi(s), "\n"));
    JoinSplit(StripAnsi(s), "\n");
  }

  lemma {:induction false} PlainTextAvoids(segs: seq<Segment>, c: char)
    requires forall j | 0 <= j < |segs| :: c !in segs[j].text
    ensures c !in PlainText(segs)
    decreases |segs|
  {
    if |segs| > 0 {
      PlainTextAvoids(segs[1..], c);
    }
  }

  /**
   Round trip for coloured direct-mode output: text painted with escape
   codes `\x1b[<digits>m` cleans to the trimmed plain text, provided the
   text itself holds no `[` and no escape character.
   */
  lemma CleanColouredOutput(segs: seq<Segment>)
    requires Decorable(AnsiEscape, segs)
    requires forall j | 0 <= j < |segs| :: '[' !in segs[j].text
    requires Decorate(AnsiEscape, segs) != ""
    ensures CleanOutput(Decorate(AnsiEscape, segs), false) == Trim(PlainText(segs))
  {
    StripDecorated(AnsiEscape, segs);
    PlainTextAvoids(segs, '[');
    ReplacePlain(AnsiBare, PlainText(segs));
  }
}

module OutputIdempotence {
  import opened Text
  import opened Patterns
  import opened Output

  /** A non-empty run of decimal digits, the `\d+` of a colour code. */
  predicate DigitRun(d: string) {
    |d| > 0 && forall i | 0 <= i < |d| :: IsDigit(d[i])
  }

  /** Text built from `[`, digits and `m` holds no escape character. */
  lemma NoEscape(d: string)
    requires DigitRun(d)
    ensures '[' !in d && 'm' !in d && '\U{001B}' !in d
  {
  }

  /** The inner code of `[<d1>[<d2>mm`: the pass deletes `[<d2>m` and keeps the digits before it and the `m` after it. */
  lemma InnerCodeStrip(d1: string, d2: string)
    requires DigitRun(d1) && DigitRun(d2)
    ensures ReplaceAll(AnsiBare, d1 + ("[" + (d2 + "mm"))) == d1 + "m"
  {
    ReplaceCode(AnsiBare, d2, "m");
    assert AnsiBare.lead + d2 + [AnsiBare.close] + "m" == "[" + (d2 + "mm");
    ReplacePlain(AnsiBare, "m");
    NoEscape(d1);
    ReplacePlainPrefix(AnsiBare, d1, "[" + (d2 + "mm"));
  }

  /** `[<d1>[` starts no code: the digits end at a second `[` instead of `m`. */
  lemma NoCodeAtStart(d1: string, y: string)
    requires DigitRun(d1)
    ensures MatchLen(AnsiBare, "[" + (d1 + ("[" + y))) == 0
  {
    var s := "[" + (d1 + ("[" + y));
    RunExact(Digits, d1, '[', y);
    assert s[1..] == d1 + ['['] + y;
  }

  /** `[<d1>[<d2>mm` holds no complete code at its start, so one cleaning pass leaves `[<d1>m`. */
  lemma NestedCodeStrip(d1: string, d2: string)
    requires DigitRun(d1) && DigitRun(d2)
    ensures StripAnsi("[" + (d1 + ("[" + (d2 + "mm")))) == "[" + (d1 + "m")
  {
    var rest := d1 + ("[" + (d2 + "mm"));
    var s := "[" + rest;
    NoEscape(d1);
    NoEscape(d2);
    ReplacePlain(AnsiEscape, s);
    NoCodeAtStart(d1, d2 + "mm");
    ReplaceSkip(AnsiBare, s);
    assert s[1..] == rest;
    InnerCodeStrip(d1, d2);
  }

  /** `[<d>m` is one complete code and cleans to nothing. */
  lemma BareCodeStrip(d: string)
    requires DigitRun(d)
    ensures StripAnsi("[" + d + "m") == ""
  {
    NoEscape(d);
    ReplacePlain(AnsiEscape, "[" + d + "m");
    ReplaceCode(AnsiBare, d, "");
    assert AnsiBare.lead + d + [AnsiBare.close] + "" == "[" + d + "m";
  }

  /**
   Cleaning is not idempotent: one global pass deletes `[<d2>m` out of
   `[<d1>[<d2>mm` and so assembles a new code `[<d1>m`, which only a second
   cleaning removes (`[1[2mm` gives `[1m`, then nothing).
   */
  lemma CleanOutputNotIdempotent(d1: string, d2: string)
    requires DigitRun(d1) && DigitRun(d2)
    ensures CleanOutput("[" + d1 + "[" + d2 + "mm", false) == "[" + d1 + "m"
    ensures CleanOutput(CleanOutput("[" + d1 + "[" + d2 + "mm", false), false) == ""
  {
    assert "[" + d1 + "[" + d2 + "mm" == "[" + (d1 + ("[" + (d2 + "mm")));
    NestedCodeStrip(d1, d2);
    assert "[" + (d1 + "m") == "[" + d1 + "m";
    TrimTight("[" + d1 + "m");
    BareCodeStrip(d1);
  }

  /** Text without `[` or an escape character has no colour code to lose. */
  lemma StripAnsiPlain(s: string)
    requires '[' !in s && '\U{001B}' !in s
    ensures StripAnsi(s) == s
  {
    ReplacePlain(AnsiEscape, s);
    ReplacePlain(AnsiBare, s);
  }

  /** A line that starts with a prompt is dropped by shell-mode cleaning. */
  lemma PromptLineDropped(t: string)
    requires '\n' !in t && '[' !in t && '\U{001B}' !in t
    requires MatchLen(ShellPrompt, t) > 0
    ensures CleanOutput(t, true) == ""
  {
    StripAnsiPlain(t);
    SplitNone(t, '\n');
    assert !Kept(t);
    assert Filter(Kept, [t]) == [];
  }

  /** A non-noise line indented by whitespace is kept by shell-mode cleaning and comes out without its indent. */
  lemma IndentedLineKept(ws: string, t: string)
    requires |ws| > 0 && IsBlank(ws)
    requires t != "" && Tight(t)
    requires '\n' !in ws + t && '[' !in ws + t && '\U{001B}' !in ws + t
    requires !Contains(ws + t, "Welcome to Puter-CLI")
    requires !Contains(ws + t, "Type \"help\"")
    requires !Contains(ws + t, "Goodbye!")
    ensures CleanOutput(ws + t, true) == t
  {
    var s := ws + t;
    StripAnsiPlain(s);
    SplitNone(s, '\n');
    assert s[0] == ws[0];
    assert !(ShellPrompt.lead <= s);
    assert s[|ws|] == t[0];
    assert Kept(s);
    assert Filter(Kept, [s]) == [s];
    TrimStartBlankPrefix(ws, t);
    TrimTight(t);
  }

  /**
   Shell-mode cleaning is not idempotent: a prompt indented by whitespace
   escapes the start-of-line prompt test, the final trim then moves it to the
   start of the line, and a second cleaning drops it.
   */
  lemma ShellCleanNotIdempotent(ws: string, t: string)
    requires |ws| > 0 && IsBlank(ws)
    requires t != "" && Tight(t)
    requires '\n' !in ws + t && '[' !in ws + t && '\U{001B}' !in ws + t
    requires !Contains(ws + t, "Welcome to Puter-CLI")
    requires !Contains(ws + t, "Type \"help\"")
    requires !Contains(ws + t, "Goodbye!")
    requires MatchLen(ShellPrompt, t) > 0
    ensures CleanOutput(ws + t, true) == t
    ensures CleanOutput(CleanOutput(ws + t, true), true) == ""
  {
    IndentedLineKept(ws, t);
    PromptLineDropped(t);
  }
}
