/**
 The file list `listFiles` renders from the CLI's `ls` output: one entry per
 non-blank line, each marked a directory by a textual heuristic and shown
 with one trailing slash removed. This is the client's success branch; the
 server's file-list endpoint in this version always answers that file
 operations are unavailable, so the branch is not reached against it.
 */
module Listing {
  import opened Text

  /** The folder emoji as the source file spells it. */
  const FolderEmoji := "\U{F8FF}\U{00FC}\U{00EC}\U{00C5}"

  /**
   A line is a directory when, once trimmed, it ends with `/`, contains the
   folder emoji, `DIR` or `<DIR>`, or starts with `d` (the Unix mode column).
   A blank line is never a directory, and a line whose display name lost a
   trailing slash always is.
   */
  predicate IsDirLine(line: string)
    ensures IsDirLine(line) ==> !IsBlank(line)
    ensures DisplayName(line) != Trim(line) ==> IsDirLine(line)
  {
    var t := Trim(line);
    || EndsWith(t, "/")
    || Contains(t, FolderEmoji)
    || Contains(t, "DIR")
    || Contains(t, "<DIR>")
    || (t != "" && t[0] == 'd')
  }

  /** The trimmed line with one trailing slash removed (`replace(/\/$/, '')`). */
  function DisplayName(line: string): (name: string)
    ensures Trim(line) == name + (if EndsWith(Trim(line), "/") then "/" else "")
  {
    var t := Trim(line);
    if EndsWith(t, "/") then t[..|t| - 1] else t
  }

  lemma DirInTag()
    ensures "<DIR>"[1..4] == "DIR"
  {
  }

  /** The `<DIR>` test never decides anything: a line containing `<DIR>` already contains `DIR`. */
  lemma DirTagIsRedundant(line: string)
    requires Contains(Trim(line), "<DIR>")
    ensures Contains(Trim(line), "DIR")
  {
    DirInTag();
    ContainsSlice(Trim(line), "<DIR>", 1, 4);
  }

  /**
   A name written with a trailing slash is listed as a directory and shown as
   the name itself; only that one slash goes, so a name ending in a slash of
   its own keeps it.
   */
  lemma SlashedNameRoundTrip(name: string)
    requires name != "" && Tight(name)
    ensures IsDirLine(name + "/")
    ensures DisplayName(name + "/") == name
  {
    assert Tight(name + "/");
    TrimTight(name + "/");
  }

  datatype Entry = Entry(name: string, isDir: bool)

  /**
   `output.trim().split('\n').filter(l => l.trim())`, each line turned into an
   entry. The list is empty ("Empty directory") exactly when the output is
   blank, it never has more entries than the output has lines, and no entry's
   name spans two lines.
   */
  function FileEntries(output: string): (entries: seq<Entry>)
    ensures entries == [] <==> IsBlank(output)
    ensures |entries| <= Count('\n', output) + 1
    ensures forall i | 0 <= i < |entries| :: '\n' !in entries[i].name
    ensures |entries| == |Filter(NotBlank, Split(Trim(output), "\n"))|
    ensures forall i | 0 <= i < |entries| ::
              var line := Filter(NotBlank, Split(Trim(output), "\n"))[i];
              entries[i] == Entry(DisplayName(line), IsDirLine(line))
  {
    NoLinesIffBlank(output);
    LinesSingle(output);
    EntriesOf(Filter(NotBlank, Split(Trim(output), "\n")))
  }

  /** One entry per line, in order. */
  function EntriesOf(lines: seq<string>): (entries: seq<Entry>)
    ensures |entries| == |lines|
    ensures forall i | 0 <= i < |lines| :: entries[i] == Entry(DisplayName(lines[i]), IsDirLine(lines[i]))
  {
    seq(|lines|, i requires 0 <= i < |lines| => Entry(DisplayName(lines[i]), IsDirLine(lines[i])))
  }

  /** The non-blank lines of the trimmed output are none exactly when the output is blank. */
  lemma NoLinesIffBlank(output: string)
    ensures Filter(NotBlank, Split(Trim(output), "\n")) == [] <==> IsBlank(output)
  {
    var t := Trim(output);
    if t != "" {
      TightFirstLine(t, '\n');
    } else {
      assert Split(t, "\n") == [""];
    }
  }

  /** The non-blank lines of the trimmed output are at most its line count, and each is newline-free, so its display name is too. */
  lemma LinesSingle(output: string)
    ensures |Filter(NotBlank, Split(Trim(output), "\n"))| <= Count('\n', output) + 1
    ensures forall k | 0 <= k < |Filter(NotBlank, Split(Trim(output), "\n"))| ::
              '\n' !in DisplayName(Filter(NotBlank, Split(Trim(output), "\n"))[k])
  {
    var t := Trim(output);
    var lines := Filter(NotBlank, Split(t, "\n"));
    SplitCount(t, '\n');
    TrimCount(output, '\n');
    SplitPartsFree(t, '\n');
    FilterPartsFree(NotBlank, Split(t, "\n"), '\n');
    forall k | 0 <= k < |lines| ensures '\n' !in DisplayName(lines[k]) {
      DisplayNameWithin(lines[k], '\n');
    }
  }

  /** The display name is cut from the line, so it holds no character the line lacks. */
  lemma DisplayNameWithin(line: string, c: char)
    requires c !in line
    ensures c !in DisplayName(line)
  {
    var i, j := TrimInfix(line);
    var t := Trim(line);
    assert c !in t by {
      SliceFree(line, i, j, c);
    }
    var name := DisplayName(line);
    assert name == t[..|name|];
  }

  /** A stretch of a text lacks every character the text lacks. */
  lemma SliceFree(s: string, i: nat, j: nat, c: char)
    requires i <= j <= |s| && c !in s
    ensures c !in s[i..j]
  {
    forall k | 0 <= k < j - i ensures s[i..j][k] != c {
      assert s[i..j][k] == s[i + k];
    }
  }
}
