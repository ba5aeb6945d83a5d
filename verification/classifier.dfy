/**
 The split between "file commands", which the bridge feeds to the CLI's
 interactive shell, and every other command, which it runs directly.
 Both the server and the browser test a command against the same fifteen
 names with the same rule.
 */
module Classifier {
  import opened Text

  const FileCommands: seq<string> :=
    ["ls", "cd", "pwd", "mkdir", "rm", "cp", "mv", "touch", "cat", "push", "pull", "update", "edit", "stat", "clean"]

  /** One arm of `some`: the (already trimmed) command is `name`, or starts with `name` and one space. */
  predicate Hits(t: string, name: string) {
    t == name || name + " " <= t
  }

  /** Everything before the first space character (tabs and other whitespace do not end it). */
  function LeadingToken(t: string): (w: string)
    ensures w <= t
    ensures ' ' !in w
    ensures |w| < |t| ==> t[|w|] == ' '
  {
    if |t| == 0 || t[0] == ' ' then "" else [t[0]] + LeadingToken(t[1..])
  }

  /** A word without a space is its own leading token. */
  lemma {:induction false} WordIsToken(a: string)
    requires ' ' !in a
    ensures LeadingToken(a) == a
  {
    if |a| > 0 {
      WordIsToken(a[1..]);
    }
  }

  lemma {:induction false} LeadingTokenOfPlain(a: string, b: string)
    requires ' ' !in a
    ensures LeadingToken(a) == a
    ensures LeadingToken(a + " " + b) == a
  {
    if |a| > 0 {
      LeadingTokenOfPlain(a[1..], b);
      assert (a + " " + b)[1..] == a[1..] + " " + b;
    }
  }

  /** No name on the list contains a space, so each arm of the test is a leading-token comparison. */
  lemma NamesHaveNoSpace(i: nat)
    requires i < |FileCommands|
    ensures ' ' !in FileCommands[i]
  {
  }

  /** No file command starts with `a` or contains `:`, so neither `apps` nor any `app:`/`site:` verb is one. */
  lemma NotAFileName(w: string)
    requires w != "" && (w[0] == 'a' || ':' in w)
    ensures w !in FileCommands
  {
    if w in FileCommands {
      var j :| 0 <= j < |FileCommands| && FileCommands[j] == w;
      NameShape(j);
      assert false;
    }
  }

  lemma NameShape(j: nat)
    requires j < |FileCommands|
    ensures FileCommands[j] != "" && FileCommands[j][0] != 'a' && ':' !in FileCommands[j]
  {
  }

  /** Trimming a line that starts with a tight, space-free word and a space leaves that word as the leading token. */
  lemma LeadingTokenOfLine(word: string, rest: string)
    requires word != "" && ' ' !in word && Tight(word)
    ensures LeadingToken(Trim(word + " " + rest)) == word
  {
    var line := word + " " + rest;
    assert line[0] == word[0];
    assert TrimStart(line) == line;
    var r := TrimEnd(line);
    assert line[|word| - 1] == word[|word| - 1];
    assert |r| >= |word|;
    if |r| == |word| {
      assert r == word;
      LeadingTokenOfPlain(word, "");
    } else {
      assert r == word + " " + r[|word| + 1..];
      LeadingTokenOfPlain(word, r[|word| + 1..]);
    }
  }

  /** For a name without spaces, one arm of the test holds exactly when the command's leading token is that name. */
  lemma HitsIffToken(t: string, name: string)
    requires ' ' !in name
    ensures Hits(t, name) <==> LeadingToken(t) == name
  {
    var w := LeadingToken(t);
    if t == name {
      LeadingTokenOfPlain(name, "");
    } else if name + " " <= t {
      LeadingTokenOfPlain(name, t[|name| + 1..]);
      assert t == name + " " + t[|name| + 1..];
    }
    if w == name && t != name {
      assert |w| < |t|;
      assert t[..|w| + 1] == name + " ";
    }
  }

  /**
   `fileCommands.some(cmd => t.startsWith(cmd + ' ') || t === cmd)` on an
   already trimmed command `t`, scanning the names in order and stopping at
   the first hit. The result is the leading-token rule: `t` is a file command
   exactly when the text before its first space is one of the fifteen names.
   */
  method MatchesFileCommand(t: string) returns (isFile: bool)
    ensures isFile <==> LeadingToken(t) in FileCommands
  {
    var i := 0;
    while i < |FileCommands|
      invariant 0 <= i <= |FileCommands|
      invariant forall j | 0 <= j < i :: LeadingToken(t) != FileCommands[j]
    {
      HitsIffToken(t, FileCommands[i]);
      if Hits(t, FileCommands[i]) {
        return true;
      }
      i := i + 1;
    }
    return false;
  }

  /** The server's classification of a command, on `command.trim()`. */
  predicate IsFileCommand(command: string) {
    LeadingToken(Trim(command)) in FileCommands
  }

  /** Server test: `isFileCommand` inside `executePuterCommand` and `/api/execute`. */
  method ServerIsFileCommand(command: string) returns (isFile: bool)
    ensures isFile <==> IsFileCommand(command)
    ensures isFile ==> Trim(command) != ""
  {
    isFile := MatchesFileCommand(Trim(command));
  }

  /**
   A single word (tight, no space) is a file command exactly when the whole
   word is one of the names: a name glued to more text, or followed by a tab,
   does not count.
   */
  lemma SingleWord(t: string)
    requires Tight(t) && ' ' !in t
    ensures IsFileCommand(t) <==> t in FileCommands
  {
    TrimTight(t);
    WordIsToken(t);
  }

  /** A name glued to more text is not a file command. */
  lemma GluedNameIsNot()
    ensures !IsFileCommand("lsx")
  {
    SingleWord("lsx");
  }

  /** Only a space ends the leading token, so a tab after a name does not make a file command. */
  lemma TabIsNotSeparator()
    ensures !IsFileCommand("ls\tx")
  {
    SingleWord("ls\tx");
  }
}
