/**
 The control panel's terminal: `addToTerminal` cleans a text before showing
 it, and `executeCommand` classifies the typed command with its own copy of
 the file-command list before posting anything to `/api/execute`.
 */
module Terminal {
  import opened Wrappers
  import opened Text
  import opened Patterns
  import opened Output
  import opened Classifier
  import opened Bridge
  import opened Endpoints

  lemma PatternsWellFormed()
    ensures WellFormed(AnsiBare) && WellFormed(ShellPrompt)
  {
  }

  /**
   The text `addToTerminal` keeps: every bare colour code `[<digits>m`
   deleted, then every prompt `puter@<word>>` wherever it stands, then the
   result trimmed.
   */
  function TerminalText(text: string): (r: string)
    ensures Tight(r)
    ensures |r| <= |text|
  {
    PatternsWellFormed();
    Trim(ReplaceAll(ShellPrompt, ReplaceAll(AnsiBare, text)))
  }

  /** The lines `addToTerminal` renders, or `None` when it returns without rendering anything. */
  function TerminalLines(text: string): (r: Option<seq<string>>)
    ensures TerminalText(text) == "" ==> r.None?
    ensures r.Some? ==> r.value == Filter(NotBlank, Split(TerminalText(text), "\n"))
    ensures r.Some? ==> r.value != [] && forall l | l in r.value :: NotBlank(l)
  {
    var clean := TerminalText(text);
    if clean == "" then None
    else
      var lines := Filter(NotBlank, Split(clean, "\n"));
      if |lines| == 0 then None else Some(lines)
  }

  /**
   The second guard never fires: a non-empty trimmed text has a non-blank
   first line, so nothing is rendered exactly when the cleaned text is empty.
   */
  lemma NothingRenderedIffEmpty(text: string)
    ensures TerminalLines(text).None? <==> TerminalText(text) == ""
  {
    var clean := TerminalText(text);
    if clean != "" {
      TightFirstLine(clean, '\n');
    }
  }

  /** Text holding neither `[` nor `p` has no code and no prompt to delete, so it is only trimmed. */
  lemma PlainTerminalText(text: string)
    requires '[' !in text && 'p' !in text
    ensures TerminalText(text) == Trim(text)
  {
    PatternsWellFormed();
    ReplacePlain(AnsiBare, text);
    ReplacePlain(ShellPrompt, text);
  }

  /**
   Round trip: text decorated with colour codes, whose plain text is itself
   text decorated with prompts, cleans to the trimmed prompt-free text.
   */
  lemma TerminalStripsCodesAndPrompts(coloured: seq<Segment>, prompted: seq<Segment>)
    requires Decorable(AnsiBare, coloured) && Decorable(ShellPrompt, prompted)
    requires PlainText(coloured) == Decorate(ShellPrompt, prompted)
    ensures TerminalText(Decorate(AnsiBare, coloured)) == Trim(PlainText(prompted))
  {
    PatternsWellFormed();
    StripDecorated(AnsiBare, coloured);
    StripDecorated(ShellPrompt, prompted);
  }

  /** `fileCommands.some(cmd => input.startsWith(cmd + ' ') || input === cmd)` in `executeCommand`. */
  predicate ClientIsFileCommand(input: string) {
    exists i | 0 <= i < |FileCommands| :: Hits(input, FileCommands[i])
  }

  /** What `executeCommand` does with the text in the input box. */
  datatype Action = Ignore | WarnLocally | Post(command: string)

  function ClientAction(raw: string): (a: Action)
    ensures a.Post? ==> a.command == Trim(raw) && a.command != ""
  {
    var input := Trim(raw);
    if input == "" then Ignore
    else if ClientIsFileCommand(input) then WarnLocally
    else Post(input)
  }

  /** The browser's copy of the test agrees with the server's on every string, trimmed or not. */
  lemma ClientAgreesWithServer(raw: string)
    ensures ClientIsFileCommand(Trim(raw)) <==> IsFileCommand(raw)
  {
    var t := Trim(raw);
    var w := LeadingToken(t);
    if ClientIsFileCommand(t) {
      var i :| 0 <= i < |FileCommands| && Hits(t, FileCommands[i]);
      NamesHaveNoSpace(i);
      HitsIffToken(t, FileCommands[i]);
    }
    if w in FileCommands {
      var i :| 0 <= i < |FileCommands| && FileCommands[i] == w;
      NamesHaveNoSpace(i);
      HitsIffToken(t, FileCommands[i]);
    }
  }

  /**
   The browser warns locally exactly for the commands `/api/execute` would
   refuse as file operations, ignores exactly the blank input, and every
   command it posts is one the server runs directly.
   */
  lemma ClientMatchesExecute(raw: string)
    ensures ClientAction(raw) == Ignore <==> IsBlank(raw)
    ensures ClientAction(raw) == WarnLocally <==> ExecutePlan(Some(Trim(raw))) == Refuse(FileOpsMessage, Named(FileOpsUnavailable))
    ensures ClientAction(raw).Post? ==> ExecutePlan(Some(ClientAction(raw).command)).Run?
  {
    var t := Trim(raw);
    ClientAgreesWithServer(raw);
    TrimIdempotent(raw);
    assert IsFileCommand(t) <==> IsFileCommand(raw);
  }
}
