/**
 `executePuterCommand(command, timeout)`: how one command reaches the CLI and
 how the process's fate becomes a resolved result or a rejection. Process
 handling is abstracted away: the exit status, the kill flag and the captured
 text are inputs, and each policy is a pure function of them.
 */
module Bridge {
  import opened Wrappers
  import opened Text
  import opened Classifier
  import opened Output

  const TimeoutCode := "TIMEOUT"
  const SpawnErrorCode := "SPAWN_ERROR"
  const TimeoutError := "Command timeout"
  const TimeoutStderr := "The command took too long to execute"
  const ExecutionFailed := "Command execution failed"
  const ShellStartFailed := "Failed to start puter shell"

  /** The `code` of a rejection: absent, JavaScript `null`, an exit status, or a symbolic code. */
  datatype Code = Absent | Null | Exit(status: int) | Named(name: string)

  /** What the promise settles with: `{ stdout, stderr, warning? }` or `{ error, stderr, code }`. */
  datatype Outcome =
    | Resolved(stdout: string, stderr: string, warning: Option<string>)
    | Rejected(error: string, stderr: string, code: Code)

  /** The two ways a command reaches the CLI. */
  datatype Invocation =
    | ShellInput(line: string)   // `puter shell` is spawned and `line` written to its standard input
    | DirectCall(line: string)   // `line` is executed in a system shell

  /** The invocation for a command: file commands through the CLI's shell, all others as `puter <command>`. */
  function InvocationFor(command: string): (inv: Invocation)
    ensures inv.ShellInput? <==> IsFileCommand(command)
    ensures inv.ShellInput? ==> inv.line == command + "\n"
    ensures inv.DirectCall? ==> inv.line == "puter " + command
  {
    if IsFileCommand(command) then ShellInput(command + "\n") else DirectCall("puter " + command)
  }

  /** The error `exec` reports: its message, whether the timeout killed the process, and its code. */
  datatype ExecError = ExecError(message: string, killed: bool, code: Code)

  /** The direct-mode callback of `exec(puterCommand, options, (error, stdout, stderr) => ...)`. */
  function DirectOutcome(error: Option<ExecError>, stdout: string, stderr: string): (o: Outcome)
    ensures o.Rejected? <==> error.Some? && (error.value.killed || stdout == "")
    // a killed process is a timeout, whatever it printed
    ensures error.Some? && error.value.killed ==> o == Rejected(TimeoutError, TimeoutStderr, Named(TimeoutCode))
    // an error with output is a soft success carrying the error message as a warning
    ensures error.Some? && !error.value.killed && stdout != "" ==>
              o == Resolved(CleanOutput(stdout, false), stderr, Some(error.value.message))
    // an error without output is a failure; an empty stderr is replaced by a fixed text
    ensures error.Some? && !error.value.killed && stdout == "" ==>
              o == Rejected(error.value.message, if stderr == "" then ExecutionFailed else stderr, error.value.code)
    // no error: success without a warning
    ensures error.None? ==> o == Resolved(CleanOutput(stdout, false), stderr, None)
  {
    match error
    case Some(e) =>
      if e.killed then Rejected(TimeoutError, TimeoutStderr, Named(TimeoutCode))
      else if stdout != "" then Resolved(CleanOutput(stdout, false), stderr, Some(e.message))
      else Rejected(e.message, if stderr == "" then ExecutionFailed else stderr, e.code)
    case None => Resolved(CleanOutput(stdout, false), stderr, None)
  }

  /** How the shell-mode child process ended: it closed with an exit code (`null` after a signal), failed to start, or timed out. */
  datatype ShellEvent =
    | Closed(exit: Option<int>, stdout: string, stderr: string)
    | SpawnFailed(message: string)
    | TimedOut

  /** `${code}` for the close handler's exit code. */
  function ExitText(exit: Option<int>): string {
    match exit
    case Some(n) => IntToString(n)
    case None => "null"
  }

  /** The shell-mode `close`, `error` and timeout handlers. */
  function ShellOutcome(event: ShellEvent): (o: Outcome)
    ensures o.Resolved? <==> event.Closed? && (event.exit == Some(0) || event.stdout != "")
    // a non-zero (or null) exit with no output fails and carries the exit code
    ensures event.Closed? && event.exit != Some(0) && event.stdout == "" ==>
              o == Rejected("Command failed with code " + ExitText(event.exit),
                            if event.stderr == "" then ExecutionFailed else event.stderr,
                            match event.exit case Some(n) => Exit(n) case None => Null)
    // any other close succeeds, even on a non-zero exit, with shell-cleaned output and never a warning
    ensures event.Closed? && (event.exit == Some(0) || event.stdout != "") ==>
              o == Resolved(CleanOutput(event.stdout, true), event.stderr, None)
    ensures event.SpawnFailed? ==> o == Rejected(event.message, ShellStartFailed, Named(SpawnErrorCode))
    ensures event.TimedOut? ==> o == Rejected(TimeoutError, TimeoutStderr, Named(TimeoutCode))
  {
    match event
    case Closed(exit, stdout, stderr) =>
      if exit != Some(0) && stdout == "" then
        Rejected("Command failed with code " + ExitText(exit),
                 if stderr == "" then ExecutionFailed else stderr,
                 match exit case Some(n) => Exit(n) case None => Null)
      else Resolved(CleanOutput(stdout, true), stderr, None)
    case SpawnFailed(message) => Rejected(message, ShellStartFailed, Named(SpawnErrorCode))
    case TimedOut => Rejected(TimeoutError, TimeoutStderr, Named(TimeoutCode))
  }

  /** `error.error || error.stderr || fallback` in an endpoint's `catch`. */
  function FailureMessage(o: Outcome, fallback: string): (m: string)
    requires o.Rejected?
    ensures (o.error != "" && m == o.error) || (o.error == "" && o.stderr != "" && m == o.stderr) ||
            (o.error == "" && o.stderr == "" && m == fallback)
    ensures m != "" <== fallback != ""
  {
    if o.error != "" then o.error else if o.stderr != "" then o.stderr else fallback
  }

  /** JavaScript's `a || b || …` on strings: the first non-empty one, or `""` when all are empty. */
  function FirstNonEmpty(xs: seq<string>): string
  {
    if |xs| == 0 then "" else if xs[0] != "" then xs[0] else FirstNonEmpty(xs[1..])
  }

  /** `FirstNonEmpty` picks the earliest non-empty string, and is empty only when every string is. */
  lemma {:induction false} FirstNonEmptyIsFirst(xs: seq<string>)
    ensures FirstNonEmpty(xs) == "" <==> forall i | 0 <= i < |xs| :: xs[i] == ""
    ensures FirstNonEmpty(xs) != "" ==>
              exists i | 0 <= i < |xs| :: xs[i] == FirstNonEmpty(xs) && forall j | 0 <= j < i :: xs[j] == ""
  {
    if |xs| > 0 && xs[0] == "" {
      FirstNonEmptyIsFirst(xs[1..]);
      if FirstNonEmpty(xs) != "" {
        var i :| 0 <= i < |xs[1..]| && xs[1..][i] == FirstNonEmpty(xs[1..]) && forall j | 0 <= j < i :: xs[1..][j] == "";
        assert xs[i + 1] == FirstNonEmpty(xs) && forall j | 0 <= j < i + 1 :: xs[j] == "" by {
          forall j | 0 <= j < i + 1 ensures xs[j] == "" {
            if j > 0 { assert xs[j] == xs[1..][j - 1]; }
          }
        }
      } else {
        forall i | 0 <= i < |xs| ensures xs[i] == "" {
          if i > 0 { assert xs[i] == xs[1..][i - 1]; }
        }
      }
    }
  }

  /**
   The failure message is the `||` chain over the error, the stderr and any
   chain of fallbacks; the fallbacks matter only when both the error and the
   stderr are empty, and the message is empty only when every link is.
   */
  lemma {:induction false} FailureMessageChains(o: Outcome, fallbacks: seq<string>)
    requires o.Rejected?
    ensures FailureMessage(o, FirstNonEmpty(fallbacks)) == FirstNonEmpty([o.error, o.stderr] + fallbacks)
    ensures o.error != "" || o.stderr != "" ==>
              forall other :: FailureMessage(o, other) == FailureMessage(o, FirstNonEmpty(fallbacks))
    ensures FailureMessage(o, FirstNonEmpty(fallbacks)) == "" <==>
              o.error == "" && o.stderr == "" && forall i | 0 <= i < |fallbacks| :: fallbacks[i] == ""
  {
    FirstNonEmptyIsFirst(fallbacks);
    var xs := [o.error, o.stderr] + fallbacks;
    assert xs[0] == o.error;
    assert xs[1..][0] == o.stderr;
    assert xs[1..][1..] == fallbacks;
  }

  /** Every rejection the bridge produces carries a non-empty `stderr`. */
  lemma RejectionsCarryStderr(error: Option<ExecError>, stdout: string, stderr: string, event: ShellEvent)
    ensures DirectOutcome(error, stdout, stderr).Rejected? ==> DirectOutcome(error, stdout, stderr).stderr != ""
    ensures ShellOutcome(event).Rejected? ==> ShellOutcome(event).stderr != ""
  {
  }

  /**
   So an endpoint's failure message is never its own fallback text: it is the
   bridge's error when that is non-empty, and otherwise the bridge's stderr.
   */
  lemma FailureMessageNeverFallback(o: Outcome, fallback: string)
    requires o.Rejected? && o.stderr != ""
    ensures FailureMessage(o, fallback) != ""
    ensures FailureMessage(o, fallback) == (if o.error != "" then o.error else o.stderr)
  {
  }

  /** Only direct mode ever reports a warning; the shell path never does. */
  lemma ShellNeverWarns(event: ShellEvent)
    ensures ShellOutcome(event).Resolved? ==> ShellOutcome(event).warning.None?
  {
  }

  /** A timeout is reported with the code `TIMEOUT` in both modes and is never resolved. */
  lemma TimeoutIsDistinct(e: ExecError, stdout: string, stderr: string)
    requires e.killed
    ensures DirectOutcome(Some(e), stdout, stderr).Rejected?
    ensures DirectOutcome(Some(e), stdout, stderr).code == ShellOutcome(TimedOut).code == Named(TimeoutCode)
  {
  }

  /** Whatever the outcome, resolved output has no whitespace at its ends. */
  lemma ResolvedOutputIsTrimmed(error: Option<ExecError>, stdout: string, stderr: string, event: ShellEvent)
    ensures DirectOutcome(error, stdout, stderr).Resolved? ==> Tight(DirectOutcome(error, stdout, stderr).stdout)
    ensures ShellOutcome(event).Resolved? ==> Tight(ShellOutcome(event).stdout)
  {
  }
}
