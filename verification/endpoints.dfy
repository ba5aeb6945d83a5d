/**
 The HTTP handlers that turn request fields into one CLI command line: the
 generic `/api/execute` pass-through and the builders for deleting files,
 creating and deploying sites, listing apps and deleting apps. Request fields
 are `Option<string>`: `None` is a missing value.
 */
module Endpoints {
  import opened Wrappers
  import opened Text
  import opened Classifier
  import opened Names
  import opened Bridge

  const FileOpsUnavailable := "FILE_OPS_UNAVAILABLE"
  const FileOpsMessage :=
    "File operations are not available via Puter CLI on Windows due to a known bug. Please use https://puter.com for file management."
  const CommandRequired := "Command is required"
  const CommandExecuted := "Command executed"
  const InvalidSubdomain := "Invalid subdomain: "

  /** JavaScript truthiness of a string field: present and non-empty. */
  predicate Given(x: Option<string>) {
    x.Some? && x.value != ""
  }

  /** What `/api/execute` decides before anything runs. */
  datatype Plan = Refuse(error: string, code: Code) | Run(command: string, timeoutMs: nat)

  /** The JSON envelope of a response: `{ success: true, output, stderr, warning }` or `{ success: false, error, code }`. */
  datatype Envelope =
    | Success(output: string, stderr: Option<string>, warning: Option<string>)
    | Failure(error: string, code: Code)

  /**
   `/api/execute`: a missing or empty command is refused, and so is every
   file command, with `FILE_OPS_UNAVAILABLE`. Whatever it runs therefore goes
   through the direct path of the bridge, never the shell path.
   */
  function ExecutePlan(command: Option<string>): (p: Plan)
    ensures p == Refuse(CommandRequired, Absent) <==> !Given(command)
    ensures p == Refuse(FileOpsMessage, Named(FileOpsUnavailable)) <==> Given(command) && IsFileCommand(command.value)
    ensures p.Run? <==> Given(command) && !IsFileCommand(command.value)
    ensures p.Run? ==> command == Some(p.command) && p.timeoutMs == 60000
    ensures p.Run? ==> InvocationFor(p.command).DirectCall?
  {
    if !Given(command) then Refuse(CommandRequired, Absent)
    else if IsFileCommand(command.value) then Refuse(FileOpsMessage, Named(FileOpsUnavailable))
    else Run(command.value, 60000)
  }

  /** The response of `/api/execute` once the bridge has settled with `o` (unused when the plan refuses). */
  function ExecuteResponse(command: Option<string>, o: Outcome): (e: Envelope)
    ensures e.Failure? ==> e.error != ""
    ensures e.Success? ==> e.output != "" && ExecutePlan(command).Run? && o.Resolved?
    ensures e.Success? ==> (o.stdout != "" ==> e.output == o.stdout) && e.warning == o.warning
    ensures ExecutePlan(command).Run? && o.Rejected? ==> e == Failure(FailureMessage(o, ExecutionFailed), o.code)
    ensures ExecutePlan(command).Run? && o.Resolved? ==>
              e == Success(if o.stdout != "" then o.stdout else CommandExecuted, Some(o.stderr), o.warning)
    ensures ExecutePlan(command).Refuse? ==> e == Failure(ExecutePlan(command).error, ExecutePlan(command).code)
  {
    match ExecutePlan(command)
    case Refuse(error, code) => Failure(error, code)
    case Run(_, _) =>
      match o
      case Resolved(stdout, stderr, warning) =>
        Success(if stdout != "" then stdout else CommandExecuted, Some(stderr), warning)
      case Rejected(_, _, code) => Failure(FailureMessage(o, ExecutionFailed), code)
  }

  /** A command line, with the timeout the handler passes to the bridge, or the handler's early failure message. */
  datatype Built = Command(line: string, timeoutMs: nat) | Refused(error: string)

  /** A value interpolated between double quotes, as the builders write `"${value}"`. */
  function Quoted(value: string): string {
    "\"" + value + "\""
  }

  /**
   The quoted arguments of a command line: the contents of its double-quoted
   stretches, in order, read literally. What a system shell makes of `$`,
   backquotes and backslashes inside them is a separate question (see
   `Names.LiveInDoubleQuotes`).
   */
  function QuotedArgs(line: string): seq<string> {
    OddParts(Split(line, "\""))
  }

  function OddParts(parts: seq<string>): seq<string>
    decreases |parts|
  {
    if |parts| < 2 then [] else [parts[1]] + OddParts(parts[2..])
  }

  lemma OddPartsCons(x: string, y: string, zs: seq<string>)
    ensures OddParts([x, y] + zs) == [y] + OddParts(zs)
  {
    assert ([x, y] + zs)[2..] == zs;
  }

  /** A quoted argument free of quotes comes back out of the line intact, ahead of whatever the rest carries. */
  lemma QuotedArgsCons(a: string, arg: string, rest: string)
    requires '"' !in a && '"' !in arg
    ensures QuotedArgs(a + Quoted(arg) + rest) == [arg] + QuotedArgs(rest)
  {
    var s := a + Quoted(arg) + rest;
    var tail := arg + ['"'] + rest;
    var rs := Split(rest, ['"']);
    assert s == a + ['"'] + tail;
    calc {
      QuotedArgs(s);
      OddParts(Split(s, ['"']));
      { SplitFirst(a, '"', tail); }
      OddParts([a] + Split(tail, ['"']));
      { SplitFirst(arg, '"', rest); assert [a] + ([arg] + rs) == [a, arg] + rs; }
      OddParts([a, arg] + rs);
      { OddPartsCons(a, arg, rs); }
      [arg] + OddParts(rs);
    }
  }

  lemma QuotedArgsNone(s: string)
    requires '"' !in s
    ensures QuotedArgs(s) == []
  {
    SplitNone(s, '"');
  }

  /** A quote-free head followed by one quoted, quote-free argument carries exactly that argument. */
  lemma OneQuotedArg(head: string, arg: string)
    requires '"' !in head && '"' !in arg
    ensures QuotedArgs(head + Quoted(arg)) == [arg]
  {
    QuotedArgsCons(head, arg, "");
    assert head + Quoted(arg) + "" == head + Quoted(arg);
    QuotedArgsNone("");
  }

  lemma PrefixOfConcat(a: string, b: string)
    ensures a <= a + b
  {
    assert (a + b)[..|a|] == a;
  }

  /** A CLI verb: non-empty, one word, no quotes. */
  predicate Verb(verb: string) {
    verb != "" && ' ' !in verb && '"' !in verb && Tight(verb)
  }

  /** The verbs the builders start their lines with. */
  lemma KnownVerb(verb: string)
    requires verb == "rm" || verb == "apps" || verb == "app:delete" || verb == SiteCreateVerb || verb == SiteDeployVerb
    ensures Verb(verb)
  {
  }

  lemma FlagHeads()
    ensures "rm" + " -f " == "rm -f " && "app:delete" + " -f " == "app:delete -f "
  {
  }

  /** `<verb> -f ` when `force` is the string `true`, else `<verb> `: the head of both delete commands. */
  function ForceHead(verb: string, force: Option<string>): string {
    if force == Some("true") then verb + " -f " else verb + " "
  }

  lemma ForceLineArg(verb: string, force: Option<string>, name: string)
    requires Verb(verb) && '"' !in name
    ensures QuotedArgs(ForceHead(verb, force) + Quoted(name)) == [name]
  {
    assert '"' !in ForceHead(verb, force);
    OneQuotedArg(ForceHead(verb, force), name);
  }

  lemma ForceLineFlag(verb: string, force: Option<string>, name: string)
    requires Verb(verb)
    ensures verb + " -f " <= ForceHead(verb, force) + Quoted(name) <==> force == Some("true")
  {
    var line := ForceHead(verb, force) + Quoted(name);
    if force == Some("true") {
      PrefixOfConcat(verb + " -f ", Quoted(name));
    } else {
      assert line[|verb| + 1] == '"' && (verb + " -f ")[|verb| + 1] == '-';
    }
  }

  lemma ForceLineToken(verb: string, force: Option<string>, name: string)
    requires Verb(verb)
    ensures LeadingToken(Trim(ForceHead(verb, force) + Quoted(name))) == verb
  {
    var line := ForceHead(verb, force) + Quoted(name);
    assert line == verb + " " + line[|verb| + 1..];
    LeadingTokenOfLine(verb, line[|verb| + 1..]);
  }

  /**
   A delete line `<head>"<name>"` carries the name as its one quoted argument,
   has `-f` exactly when `force` is the string `true`, and keeps the verb as
   its leading token.
   */
  lemma ForceLine(verb: string, force: Option<string>, name: string)
    requires Verb(verb) && '"' !in name
    ensures QuotedArgs(ForceHead(verb, force) + Quoted(name)) == [name]
    ensures verb + " -f " <= ForceHead(verb, force) + Quoted(name) <==> force == Some("true")
    ensures LeadingToken(Trim(ForceHead(verb, force) + Quoted(name))) == verb
  {
    ForceLineArg(verb, force, name);
    ForceLineFlag(verb, force, name);
    ForceLineToken(verb, force, name);
  }

  /** `DELETE /api/file`: `rm -f "<name>"` or `rm "<name>"` for a validated path, with the default timeout. */
  function DeleteFileCommand(path: Option<string>, force: Option<string>): (b: Built)
    ensures b.Refused? <==> ValidateName(path).Invalid?
    ensures b.Refused? ==> b.error == ValidateName(path).error
    ensures b.Command? ==> b.timeoutMs == 30000
  {
    match ValidateName(path)
    case Invalid(error) => Refused(error)
    case Valid(name) => Command(ForceHead("rm", force) + Quoted(name), 30000)
  }

  /**
   The validated path is the line's one quoted argument, `-f` is
   present exactly when `force` is the string `true`, and the command is a
   file command, so the bridge sends it through the CLI's shell.
   */
  lemma DeleteFileCommandShape(path: Option<string>, force: Option<string>)
    requires DeleteFileCommand(path, force).Command?
    ensures QuotedArgs(DeleteFileCommand(path, force).line) == [ValidateName(path).name]
    ensures "rm -f " <= DeleteFileCommand(path, force).line <==> force == Some("true")
    ensures IsFileCommand(DeleteFileCommand(path, force).line)
    ensures InvocationFor(DeleteFileCommand(path, force).line).ShellInput?
  {
    ValidNameIsQuotable(path);
    DeleteFileLine(path, force);
    KnownVerb("rm");
    ForceLine("rm", force, ValidateName(path).name);
    FlagHeads();
  }

  lemma DeleteFileLine(path: Option<string>, force: Option<string>)
    requires DeleteFileCommand(path, force).Command?
    ensures DeleteFileCommand(path, force).line == ForceHead("rm", force) + Quoted(ValidateName(path).name)
  {
  }

  /** `DELETE /api/app`: `app:delete -f "<name>"` or `app:delete "<name>"` for a validated name. */
  function DeleteAppCommand(name: Option<string>, force: Option<string>): (b: Built)
    ensures b.Refused? <==> ValidateName(name).Invalid?
    ensures b.Refused? ==> b.error == ValidateName(name).error
    ensures b.Command? ==> b.timeoutMs == 30000
  {
    match ValidateName(name)
    case Invalid(error) => Refused(error)
    case Valid(n) => Command(ForceHead("app:delete", force) + Quoted(n), 30000)
  }

  /** The validated name is the one quoted argument, `-f` follows `force`, and the command runs directly. */
  lemma DeleteAppCommandShape(name: Option<string>, force: Option<string>)
    requires DeleteAppCommand(name, force).Command?
    ensures QuotedArgs(DeleteAppCommand(name, force).line) == [ValidateName(name).name]
    ensures "app:delete -f " <= DeleteAppCommand(name, force).line <==> force == Some("true")
    ensures !IsFileCommand(DeleteAppCommand(name, force).line)
    ensures InvocationFor(DeleteAppCommand(name, force).line).DirectCall?
  {
    ValidNameIsQuotable(name);
    DeleteAppLine(name, force);
    KnownVerb("app:delete");
    ForceLine("app:delete", force, ValidateName(name).name);
    FlagHeads();
    NotAFileName("app:delete");
  }

  /**
   `validateName` lets `$`, backquotes and backslashes through, and the
   app-delete line runs in a system shell, which still expands `$(...)`
   between double quotes: an app name `$(cmd)` is accepted, so the shell runs
   `cmd` and passes its output to `puter` as the name.
   */
  lemma ShellLiveNameAccepted(cmd: string)
    requires cmd != "" && forall k | 0 <= k < |cmd| :: IsWord(cmd[k])
    ensures ValidateName(Some("$(" + cmd + ")")) == Valid("$(" + cmd + ")")
    ensures InvocationFor(DeleteAppCommand(Some("$(" + cmd + ")"), None).line) ==
              DirectCall("puter " + ("app:delete" + " " + Quoted("$(" + cmd + ")")))
    ensures !InertInDoubleQuotes("$(" + cmd + ")")
    ensures ValidateNameForShell(Some("$(" + cmd + ")")) == Invalid(NameInvalidChars)
  {
    var n := "$(" + cmd + ")";
    assert n[0] == '$' && n[|n| - 1] == ')';
    forall k | 0 <= k < |n| ensures !IsInvalidChar(n[k]) {
      if 2 <= k < |n| - 1 {
        assert n[k] == cmd[k - 2];
      }
    }
    LiveNameAccepted(n, 0);
    AcceptedAppLine(n);
  }

  /** An accepted app name is quoted after `app:delete` and the line runs directly. */
  lemma AcceptedAppLine(n: string)
    requires ValidateName(Some(n)) == Valid(n)
    ensures DeleteAppCommand(Some(n), None) == Command("app:delete" + " " + Quoted(n), 30000)
    ensures InvocationFor(DeleteAppCommand(Some(n), None).line) == DirectCall("puter " + ("app:delete" + " " + Quoted(n)))
  {
    assert ForceHead("app:delete", None) == "app:delete" + " ";
    DeleteAppCommandShape(Some(n), None);
  }

  /** With the widened class, every name the delete-app line quotes is reproduced literally by the shell. */
  lemma ShellSafeDeleteApp(name: Option<string>, force: Option<string>)
    requires ValidateNameForShell(name).Valid?
    ensures DeleteAppCommand(name, force).Command?
    ensures QuotedArgs(DeleteAppCommand(name, force).line) == [ValidateNameForShell(name).name]
    ensures InertInDoubleQuotes(ValidateNameForShell(name).name)
  {
    DeleteAppCommandShape(name, force);
  }

  lemma DeleteAppLine(name: Option<string>, force: Option<string>)
    requires DeleteAppCommand(name, force).Command?
    ensures DeleteAppCommand(name, force).line == ForceHead("app:delete", force) + Quoted(ValidateName(name).name)
  {
  }

  /** A verb alone is its own leading token and, not being a name on the list, runs directly. */
  lemma VerbAlone(verb: string)
    requires Verb(verb) && verb !in FileCommands
    ensures LeadingToken(Trim(verb)) == verb && !IsFileCommand(verb)
  {
    TrimTight(verb);
    WordIsToken(verb);
  }

  /** A verb followed by a space and arguments keeps the verb as leading token and runs directly. */
  lemma DirectVerb(verb: string, rest: string)
    requires Verb(verb) && verb !in FileCommands
    ensures LeadingToken(Trim(verb + " " + rest)) == verb && !IsFileCommand(verb + " " + rest)
  {
    LeadingTokenOfLine(verb, rest);
  }

  /**
   `GET /api/apps`: `apps <period>` when a period is given, else `apps`.
   Whatever the period holds, the leading token stays `apps`, so the line is
   never taken for a file command and always runs directly.
   */
  function AppsCommand(period: Option<string>): (line: string)
    ensures LeadingToken(Trim(line)) == "apps"
    ensures !IsFileCommand(line) && InvocationFor(line).DirectCall?
    ensures Given(period) ==> line == "apps " + period.value
    ensures !Given(period) ==> line == "apps"
  {
    NotAFileName("apps");
    KnownVerb("apps");
    if Given(period) then
      DirectVerb("apps", period.value);
      "apps" + " " + period.value
    else
      VerbAlone("apps");
      "apps"
  }

  /** Cuts a line at its first quote. */
  lemma FirstQuote(line: string) returns (a: string, b: string)
    requires '"' in line
    ensures '"' !in a && line == a + ['"'] + b
  {
    var i :| 0 <= i < |line| && line[i] == '"';
    while i > 0 && '"' in line[..i]
      invariant 0 <= i < |line| && line[i] == '"'
      decreases i
    {
      var j :| 0 <= j < i && line[..i][j] == '"';
      i := j;
    }
    a, b := line[..i], line[i + 1..];
  }

  /** The first part of a split never holds a quoted argument. */
  lemma OddPartsHead(x: string, y: string, zs: seq<string>)
    ensures OddParts([x] + zs) == OddParts([y] + zs)
  {
    if |zs| >= 1 {
      assert ([x] + zs)[2..] == zs[1..] == ([y] + zs)[2..];
    }
  }

  /** Text before the first quote does not change the quoted arguments. */
  lemma QuotedArgsHead(head: string, rest: string)
    requires '"' !in head
    ensures QuotedArgs(head + rest) == QuotedArgs(rest)
  {
    if '"' in rest {
      var a, b := FirstQuote(rest);
      var bs := Split(b, ['"']);
      SplitFirst(a, '"', b);
      assert Split(rest, ['"']) == [a] + bs;
      AppendAssoc(head, a, ['"'] + b);
      AppendAssoc(head + a, ['"'], b);
      AppendAssoc(a, ['"'], b);
      assert head + rest == head + a + ['"'] + b;
      SplitFirst(head + a, '"', b);
      assert Split(head + rest, ['"']) == [head + a] + bs;
      OddPartsHead(head + a, a, bs);
    } else {
      QuotedArgsNone(rest);
      QuotedArgsNone(head + rest);
    }
  }

  /** ` --subdomain="<name>"`. */
  function SubdomainArg(name: string): string {
    " --subdomain=" + Quoted(name)
  }

  /** ` "<dir>"` when a directory is given (interpolated as is, never validated), else nothing. */
  function DirArg(dir: Option<string>): string {
    if Given(dir) then " " + Quoted(dir.value) else ""
  }

  /** A given, quote-free directory is one quoted argument; an absent one adds none. */
  lemma DirArgQuoted(dir: Option<string>)
    requires Given(dir) ==> '"' !in dir.value
    ensures QuotedArgs(DirArg(dir)) == (if Given(dir) then [dir.value] else [])
  {
    if Given(dir) {
      OneQuotedArg(" ", dir.value);
    } else {
      QuotedArgsNone("");
    }
  }

  /** ` --subdomain="<name>"` for an already validated subdomain, or nothing. */
  function SubdomainPart(subdomain: Option<string>): string {
    if subdomain.Some? then SubdomainArg(subdomain.value) else ""
  }

  /** What the subdomain part adds to the quoted arguments ahead of the rest of the line. */
  lemma SubdomainPartQuoted(subdomain: Option<string>, rest: string)
    requires subdomain.Some? ==> '"' !in subdomain.value
    ensures QuotedArgs(SubdomainPart(subdomain) + rest) ==
              (if subdomain.Some? then [subdomain.value] else []) + QuotedArgs(rest)
  {
    if subdomain.Some? {
      QuotedArgsCons(" --subdomain=", subdomain.value, rest);
    } else {
      assert SubdomainPart(subdomain) + rest == rest;
    }
  }

  const SiteCreateVerb := "site:create"
  const SiteDeployVerb := "site:deploy"

  /** The site creation line for a validated name and (if any) a validated subdomain. */
  function CreateLine(name: string, subdomain: Option<string>, dir: Option<string>): string {
    SiteCreateVerb + (" " + Quoted(name) + (SubdomainPart(subdomain) + DirArg(dir)))
  }

  /** The site deployment line for (if any) a validated subdomain. */
  function DeployLine(subdomain: Option<string>, dir: Option<string>): string {
    SiteDeployVerb + (DirArg(dir) + SubdomainPart(subdomain))
  }

  /** The validated subdomain a site builder uses, when one is given. */
  function CheckedSubdomain(subdomain: Option<string>): Option<string> {
    if Given(subdomain) && ValidateName(subdomain).Valid? then Some(ValidateName(subdomain).name) else None
  }

  /**
   `POST /api/site/create`: `site:create "<name>"`, then ` --subdomain="<sub>"`
   when a subdomain is given, then ` "<dir>"` when a directory is given, with a
   two-minute timeout. The name is validated first, then the subdomain.
   */
  function SiteCreateCommand(name: Option<string>, subdomain: Option<string>, dir: Option<string>): (b: Built)
    ensures b.Refused? <==> ValidateName(name).Invalid? || (Given(subdomain) && ValidateName(subdomain).Invalid?)
    ensures ValidateName(name).Invalid? ==> b == Refused(ValidateName(name).error)
    ensures ValidateName(name).Valid? && Given(subdomain) && ValidateName(subdomain).Invalid? ==>
              b == Refused(InvalidSubdomain + ValidateName(subdomain).error)
    ensures b.Command? ==> b.timeoutMs == 120000
  {
    match ValidateName(name)
    case Invalid(error) => Refused(error)
    case Valid(n) =>
      if !Given(subdomain) then Command(CreateLine(n, None, dir), 120000)
      else match ValidateName(subdomain)
        case Invalid(error) => Refused(InvalidSubdomain + error)
        case Valid(s) => Command(CreateLine(n, Some(s), dir), 120000)
  }

  /** Quoted arguments of a site creation line. */
  lemma CreateLineArgs(name: string, subdomain: Option<string>, dir: Option<string>)
    requires '"' !in name && (subdomain.Some? ==> '"' !in subdomain.value) && (Given(dir) ==> '"' !in dir.value)
    ensures QuotedArgs(CreateLine(name, subdomain, dir)) ==
              [name] + (if subdomain.Some? then [subdomain.value] else []) + (if Given(dir) then [dir.value] else [])
  {
    var tail := SubdomainPart(subdomain) + DirArg(dir);
    KnownVerb(SiteCreateVerb);
    QuotedArgsHead(SiteCreateVerb, " " + Quoted(name) + tail);
    QuotedArgsCons(" ", name, tail);
    CreateTailArgs(subdomain, dir);
  }

  lemma CreateTailArgs(subdomain: Option<string>, dir: Option<string>)
    requires (subdomain.Some? ==> '"' !in subdomain.value) && (Given(dir) ==> '"' !in dir.value)
    ensures QuotedArgs(SubdomainPart(subdomain) + DirArg(dir)) ==
              (if subdomain.Some? then [subdomain.value] else []) + (if Given(dir) then [dir.value] else [])
  {
    SubdomainPartQuoted(subdomain, DirArg(dir));
    DirArgQuoted(dir);
  }

  /** A site creation line always runs directly. */
  lemma CreateLineIsDirect(name: string, subdomain: Option<string>, dir: Option<string>)
    ensures InvocationFor(CreateLine(name, subdomain, dir)).DirectCall?
  {
    var rest := " " + Quoted(name) + (SubdomainPart(subdomain) + DirArg(dir));
    assert rest[0] == ' ';
    KnownVerb(SiteCreateVerb);
    NotAFileName(SiteCreateVerb);
    VerbThenArgs(SiteCreateVerb, rest);
  }

  lemma SiteCreateLine(name: Option<string>, subdomain: Option<string>, dir: Option<string>)
    requires SiteCreateCommand(name, subdomain, dir).Command?
    ensures SiteCreateCommand(name, subdomain, dir).line == CreateLine(ValidateName(name).name, CheckedSubdomain(subdomain), dir)
    ensures CheckedSubdomain(subdomain).Some? <==> Given(subdomain)
  {
  }

  /**
   The quoted arguments are the validated name, then the validated subdomain
   if one was given, then the directory if one was given and it has no quote
   of its own, in that order. The verb is not a file
   command, so the line runs directly.
   */
  lemma SiteCreateCommandShape(name: Option<string>, subdomain: Option<string>, dir: Option<string>)
    requires SiteCreateCommand(name, subdomain, dir).Command?
    requires Given(dir) ==> '"' !in dir.value
    ensures QuotedArgs(SiteCreateCommand(name, subdomain, dir).line) ==
              [ValidateName(name).name]
              + (if Given(subdomain) then [ValidateName(subdomain).name] else [])
              + (if Given(dir) then [dir.value] else [])
    ensures InvocationFor(SiteCreateCommand(name, subdomain, dir).line).DirectCall?
  {
    SiteCreateLine(name, subdomain, dir);
    ValidNameIsQuotable(name);
    if Given(subdomain) {
      ValidNameIsQuotable(subdomain);
    }
    CreateLineArgs(ValidateName(name).name, CheckedSubdomain(subdomain), dir);
    CreateLineIsDirect(ValidateName(name).name, CheckedSubdomain(subdomain), dir);
  }

  /**
   `POST /api/site/deploy`: `site:deploy`, then ` "<dir>"` when a directory is
   given, then ` --subdomain="<sub>"` when a subdomain is given and valid, with
   a two-minute timeout. Only the subdomain is validated; the directory is not.
   */
  function SiteDeployCommand(subdomain: Option<string>, dir: Option<string>): (b: Built)
    ensures b.Refused? <==> Given(subdomain) && ValidateName(subdomain).Invalid?
    ensures b.Refused? ==> b.error == InvalidSubdomain + ValidateName(subdomain).error
    ensures b.Command? ==> b.timeoutMs == 120000
    ensures b.Command? && !Given(subdomain) && !Given(dir) ==> b.line == "site:deploy"
  {
    if !Given(subdomain) then Command(DeployLine(None, dir), 120000)
    else match ValidateName(subdomain)
      case Invalid(error) => Refused(InvalidSubdomain + error)
      case Valid(s) => Command(DeployLine(Some(s), dir), 120000)
  }

  /** A subdomain part on its own carries the subdomain as its one quoted argument, or nothing. */
  lemma SubdomainAlone(subdomain: Option<string>)
    requires subdomain.Some? ==> '"' !in subdomain.value
    ensures QuotedArgs(SubdomainPart(subdomain)) == (if subdomain.Some? then [subdomain.value] else [])
  {
    if subdomain.Some? {
      OneQuotedArg(" --subdomain=", subdomain.value);
    } else {
      QuotedArgsNone("");
    }
  }

  /** A directory part adds its directory ahead of the quoted arguments that follow it. */
  lemma DirThenRest(dir: Option<string>, rest: string)
    requires Given(dir) ==> '"' !in dir.value
    ensures QuotedArgs(DirArg(dir) + rest) == (if Given(dir) then [dir.value] else []) + QuotedArgs(rest)
  {
    if Given(dir) {
      QuotedArgsCons(" ", dir.value, rest);
    } else {
      assert DirArg(dir) + rest == rest;
    }
  }

  /** Quoted arguments of a site deployment line. */
  lemma DeployLineArgs(subdomain: Option<string>, dir: Option<string>)
    requires (subdomain.Some? ==> '"' !in subdomain.value) && (Given(dir) ==> '"' !in dir.value)
    ensures QuotedArgs(DeployLine(subdomain, dir)) ==
              (if Given(dir) then [dir.value] else []) + (if subdomain.Some? then [subdomain.value] else [])
  {
    KnownVerb(SiteDeployVerb);
    QuotedArgsHead(SiteDeployVerb, DirArg(dir) + SubdomainPart(subdomain));
    DirThenRest(dir, SubdomainPart(subdomain));
    SubdomainAlone(subdomain);
  }

  /** A verb followed by nothing, or by text that starts with a space, runs directly. */
  lemma VerbThenArgs(verb: string, rest: string)
    requires Verb(verb) && verb !in FileCommands
    requires rest == "" || rest[0] == ' '
    ensures !IsFileCommand(verb + rest)
  {
    if rest == "" {
      assert verb + rest == verb;
      VerbAlone(verb);
    } else {
      assert verb + rest == verb + " " + rest[1..];
      DirectVerb(verb, rest[1..]);
    }
  }

  /** The optional parts of a deployment line each start with a space. */
  lemma DeployArgsSpaced(subdomain: Option<string>, dir: Option<string>)
    ensures var rest := DirArg(dir) + SubdomainPart(subdomain); rest == "" || rest[0] == ' '
  {
  }

  /** A site deployment line always runs directly. */
  lemma DeployLineIsDirect(subdomain: Option<string>, dir: Option<string>)
    ensures InvocationFor(DeployLine(subdomain, dir)).DirectCall?
  {
    KnownVerb(SiteDeployVerb);
    NotAFileName(SiteDeployVerb);
    DeployArgsSpaced(subdomain, dir);
    VerbThenArgs(SiteDeployVerb, DirArg(dir) + SubdomainPart(subdomain));
  }

  /**
   The quoted arguments are the directory (if given and free of quotes),
   then the validated subdomain (if given); the line runs directly.
   */
  lemma SiteDeployCommandShape(subdomain: Option<string>, dir: Option<string>)
    requires SiteDeployCommand(subdomain, dir).Command?
    requires Given(dir) ==> '"' !in dir.value
    ensures QuotedArgs(SiteDeployCommand(subdomain, dir).line) ==
              (if Given(dir) then [dir.value] else [])
              + (if Given(subdomain) then [ValidateName(subdomain).name] else [])
    ensures InvocationFor(SiteDeployCommand(subdomain, dir).line).DirectCall?
  {
    assert SiteDeployCommand(subdomain, dir).line == DeployLine(CheckedSubdomain(subdomain), dir);
    if Given(subdomain) {
      ValidNameIsQuotable(subdomain);
    }
    DeployLineArgs(CheckedSubdomain(subdomain), dir);
    DeployLineIsDirect(CheckedSubdomain(subdomain), dir);
  }

  /** A value holding `" "` quotes as two adjacent quoted values. */
  lemma QuoteInside(a: string, b: string)
    ensures " " + Quoted(a + "\" \"" + b) + "" == " " + Quoted(a) + (" " + Quoted(b))
  {
    calc {
      " " + Quoted(a + "\" \"" + b) + "";
      " " + ("\"" + (a + "\" \"" + b) + "\"");
      { AppendAssoc(a, "\" \"", b); }
      " " + "\"" + a + "\" \"" + (b + "\"");
      " " + "\"" + a + "\"" + " " + ("\"" + b + "\"");
      " " + Quoted(a) + (" " + Quoted(b));
    }
  }

  /**
   The directory is quoted without validation, so a directory holding `" "`
   closes its quoted argument early: the deploy line then carries two quoted
   arguments where the handler meant one.
   */
  lemma QuotedDirSplits(a: string, b: string)
    requires '"' !in a && '"' !in b
    ensures SiteDeployCommand(None, Some(a + "\" \"" + b)).Command?
    ensures QuotedArgs(SiteDeployCommand(None, Some(a + "\" \"" + b)).line) == [a, b]
  {
    var dir := a + "\" \"" + b;
    var args := " " + Quoted(a) + (" " + Quoted(b));
    assert SiteDeployCommand(None, Some(dir)).line == DeployLine(None, Some(dir));
    assert DeployLine(None, Some(dir)) == SiteDeployVerb + (" " + Quoted(dir) + "");
    assert " " + Quoted(dir) + "" == args by {
      QuoteInside(a, b);
    }
    KnownVerb(SiteDeployVerb);
    QuotedArgsHead(SiteDeployVerb, args);
    QuotedArgsCons(" ", a, " " + Quoted(b));
    OneQuotedArg(" ", b);
  }
}
