# Puter CLI bridge and control panel: a Dafny model of the string logic

The repository is a local HTTP server that runs the `puter` command-line
client for a browser control panel. Most of its code spawns processes, serves
HTTP and edits the DOM. Underneath that sits pure string and list logic, and
this project models that logic and proves properties of it.

On the server (`server.js`):

- the test that sends one of fifteen "file commands" through `puter shell`
  and runs everything else as `puter <command>`;
- the success/failure policy applied to a finished process;
- `cleanOutput`;
- the ordered `validateName` check;
- the command lines built by the delete, apps and site endpoints;
- `/api/execute`;
- the `error || stderr || default` failure message;
- the choice of profile in `getPuterToken`.

In the browser (`puter-gui-v2.js`):

- `navigateTo` and the breadcrumb;
- the directory-line test in `listFiles`;
- the box-drawing table parsers of `listSites` and `listApps`;
- the text cleanup in `addToTerminal`;
- the browser's own copy of the file-command test in `executeCommand`.

Modules, one per concept:

| module | file | models |
|---|---|---|
| `Wrappers` | wrappers.dfy | `Option`. Absent JSON values are `None`. |
| `Text` | text.dfy | JavaScript `trim`, `includes`, `endsWith`, `split` on a literal separator, `join` and `filter`, with the ECMAScript white-space set. |
| `Patterns` | patterns.dfy | A global regular-expression delete `s.replace(/lead k+ close/g, '')`, done as a single left-to-right pass. |
| `Classifier` | classifier.dfy | The file-command test. |
| `Output` | output.dfy | `cleanOutput`. |
| `Names` | names.dfy | `validateName`. |
| `Bridge` | bridge.dfy | How a command is invoked, the direct-mode and shell-mode outcome policies, and the failure message. |
| `Endpoints` | endpoints.dfy | `/api/execute` and the command-line builders. |
| `Profile` | profile.dfy | Profile selection, with config fields that are absent, `null` or strings. |
| `Paths` | paths.dfy | `navigateTo` and the breadcrumb. |
| `Listing` | listing.dfy | Directory detection and the display name. |
| `Tables` | tables.dfy | The row parsers, the `parseInt` test, and a renderer of the CLI's tables used as the parsers' partner. |
| `Terminal` | terminal.dfy | `addToTerminal` cleanup and `executeCommand`'s classification. |

Processes, the clock and the request bodies become parameters:

- A finished `exec` is an optional `ExecError` (message, killed flag, code) plus stdout and stderr.
- A shell run is one `ShellEvent`: it closed with an exit code, failed to spawn, or timed out.
- Request fields are `Option<string>`, with `None` for a missing field.

The box-drawing glyphs in the browser code are already mis-decoded in the source, so the model uses the code points that appear there:

- the column separator `│` is U+201A U+00EE U+00C7;
- the left border pieces are U+201A U+00EE followed by U+00E5, U+00FA or U+00EE;
- the folder emoji is U+F8FF U+00FC U+00EC U+00C5.

Output normalisation is not idempotent: cleaning `[1[2mm` removes the inner code and leaves `[1m`, which a second cleaning removes. The counterexamples are proved as `OutputIdempotence.CleanOutputNotIdempotent` and `OutputIdempotence.ShellCleanNotIdempotent`.

## Model

| member | source | states |
|---|---|---|
| Classifier.HitsIffToken | puter-cli-gui-client/server.js:98 | For a name without spaces, `t.startsWith(name + ' ') \|\| t === name` holds exactly when the text before the first space of `t` is `name`. |
| Classifier.MatchesFileCommand | puter-cli-gui-client/server.js:97-98 | Scanning the fifteen names with `some` returns true exactly when the command's leading token is one of them. |
| Classifier.ServerIsFileCommand | puter-cli-gui-client/server.js:98 | The server test on `command.trim()` agrees with the leading-token rule, and a file command is never blank. |
| Classifier.NamesHaveNoSpace | puter-cli-gui-client/server.js:97 | None of the fifteen names contains a space. |
| Classifier.GluedNameIsNot | puter-cli-gui-client/server.js:98 | `lsx` is not a file command. |
| Classifier.TabIsNotSeparator | puter-cli-gui-client/server.js:98 | `ls\tx` is not a file command, because only a space ends the name. |
| Classifier.LeadingTokenOfLine | puter-cli-gui-client/server.js:98 | A line made of a space-free word, a space and anything else keeps that word as its leading token after trimming. |
| Classifier.NotAFileName | puter-cli-gui-client/server.js:97 | No file-command name starts with `a` or contains `:`. So `apps`, `app:delete` and the `site:` verbs run directly. |
| Bridge.InvocationFor | puter-cli-gui-client/server.js:109-164 | A file command is written, followed by a newline, to the stdin of `puter shell`. Any other command runs as `puter <command>`. |
| Bridge.DirectOutcome | puter-cli-gui-client/server.js:166-190 | A killed process fails with `TIMEOUT`. An error with stdout succeeds and carries the error message as `warning`. An error without stdout fails with stderr, or `Command execution failed` when stderr is empty. No error means success without a warning. |
| Bridge.ShellOutcome | puter-cli-gui-client/server.js:125-157 | A non-zero exit with empty stdout fails, carrying that code. Any other close succeeds, with shell-cleaned stdout and no warning. A spawn error fails with `SPAWN_ERROR` and a timeout with `TIMEOUT`. |
| Bridge.FailureMessage | puter-cli-gui-client/server.js:386-389 | `error.error \|\| error.stderr \|\| fallback`: the first non-empty of the three. |
| Bridge.RejectionsCarryStderr | puter-cli-gui-client/server.js:127-187 | Every rejection the bridge produces has a non-empty stderr. |
| Bridge.FailureMessageNeverFallback | puter-cli-gui-client/server.js:386-389 | For a rejection with non-empty stderr, the message is its error or else its stderr. So no endpoint's own fallback text is ever shown. |
| Bridge.FirstNonEmptyIsFirst | puter-cli-gui-client/server.js:386-389 | The `\|\|` chain over strings gives `""` exactly when every link is empty. Otherwise it gives the earliest non-empty link. |
| Bridge.FailureMessageChains | puter-cli-gui-client/server.js:386-389 | The failure message is that chain over the error, the stderr and the fallbacks. When the error or the stderr is non-empty, the fallback never matters. The message is empty only when every link is. |
| Bridge.ShellNeverWarns | puter-cli-gui-client/server.js:133 | A successful shell-mode result never has a warning. |
| Bridge.TimeoutIsDistinct | puter-cli-gui-client/server.js:150-173 | A killed direct call and a shell timeout both fail with code `TIMEOUT`. |
| Bridge.ResolvedOutputIsTrimmed | puter-cli-gui-client/server.js:133-190 | Every successful result's stdout has no white space at either end. |
| Output.StripAnsi | puter-cli-gui-client/server.js:201 | The two colour passes only delete: the result is no longer than the input, and no character, line breaks included, occurs in it more often than in the input. |
| Output.CleanOutput | puter-cli-gui-client/server.js:197-227 | Empty input gives `""`, and the result never has white space at either end. |
| Output.KeptLinesMember | puter-cli-gui-client/server.js:203-221 | In shell mode, a colour-stripped line is kept exactly when it is non-blank, contains none of the greeting, help-hint or goodbye texts, and does not start with `puter@<word>>`. |
| Output.ShellLineCount | puter-cli-gui-client/server.js:205-226 | Shell mode never produces more lines than the colour-stripped input has. |
| Output.ShellKeepsExactly | puter-cli-gui-client/server.js:205-226 | When the kept lines are tight, the lines of the shell-mode result are exactly the kept lines, in input order. |
| Output.ShellOnlyFilters | puter-cli-gui-client/server.js:201-226 | When every line would be kept, shell mode and non-shell mode give the same text. Non-shell mode does no line filtering. |
| Output.CleanColouredOutput | puter-cli-gui-client/server.js:201-226 | Text decorated with escape colour codes cleans to its trimmed plain text. |
| OutputIdempotence.StripAnsiPlain | puter-cli-gui-client/server.js:201 | Text without `[` or ESC passes through the colour passes unchanged. |
| OutputIdempotence.CleanOutputNotIdempotent | puter-cli-gui-client/server.js:201 | For any digit runs `d1` and `d2`, `[<d1>[<d2>mm` cleans to `[<d1>m`, and that cleans to `""`. Cleaning twice differs from cleaning once. |
| OutputIdempotence.PromptLineDropped | puter-cli-gui-client/server.js:213 | A single line that starts with a prompt is dropped in shell mode. |
| OutputIdempotence.IndentedLineKept | puter-cli-gui-client/server.js:213-226 | The prompt test is anchored: an indented line is kept and comes back trimmed. |
| OutputIdempotence.ShellCleanNotIdempotent | puter-cli-gui-client/server.js:213-226 | An indented prompt line survives one shell-mode cleaning and disappears in a second. |
| Text.Trim | puter-cli-gui-client/server.js:226 | `String.prototype.trim`: the result is a stretch of the input with only ECMAScript white space before and after it, and no white space at either of its own ends. It is empty exactly when the input is blank. |
| Text.TrimUnique | puter-cli-gui-client/server.js:226 | Any stretch of the input that has no white space at its ends and only white space around it is the trimmed text. So the contract of `Text.Trim` fixes its value. |
| Text.TrimIdempotent | puter-cli-gui-client/server.js:226 | Trimming twice gives the same as trimming once. |
| Text.JoinSplit | puter-cli-gui-client/server.js:205-223 | Round trip: joining the pieces of `s.split(sep)` with `sep` gives `s` back. |
| Text.SplitJoin | puter-cli-gui-client/server.js:205-223 | Round trip: splitting a join of at least one newline-free line on the newline gives back those lines. |
| Text.SplitCount | puter-cli-gui-client/server.js:205 | `split('\n')` gives one more piece than there are newlines, so even `''` gives one line. |
| Text.SplitPartsFree | puter-cli-gui-client/server.js:205 | No piece of a split on a character contains that character. |
| Text.FilterMember | puter-cli-gui-client/puter-gui-v2.js:42 | `filter` keeps an element exactly when it is in the list and passes the test. |
| Patterns.ReplaceAll | puter-cli-gui-client/server.js:201 | The global delete only deletes: the result is no longer than the input, and no character occurs in it more often than in the input. |
| Patterns.ReplacePlain | puter-cli-gui-client/server.js:201 | Text without the pattern's first character is unchanged by the global delete. |
| Patterns.ReplaceCode | puter-cli-gui-client/server.js:201 | A complete code at the start of the text is deleted, and the delete goes on with the rest. |
| Patterns.MatchLenSpec | puter-cli-gui-client/server.js:201 | The anchored match length agrees with the language of `lead k+ close`: a positive length is the unique matching prefix, and 0 means no prefix matches. |
| Patterns.StripDecorated | puter-cli-gui-client/server.js:201 | Round trip: deleting the pattern from text decorated with its codes gives back the plain text. |
| Names.ValidateName | puter-cli-gui-client/server.js:230-253 | The checks run in order. A missing or empty value gives `Name is required`. Only white space gives `Name cannot be empty`. Then `Name contains invalid characters` exactly when the trimmed text has one, and `Name is reserved and cannot be used` exactly when the clean trimmed text is a reserved device name. A valid result is the non-empty trimmed input. |
| Names.ReservedIffDeviceName | puter-cli-gui-client/server.js:247-248 | The case-insensitive whole-string pattern matches exactly when the ASCII upper-cased name is CON, PRN, AUX, NUL, COM0-9 or LPT0-9. |
| Names.ValidNameIsQuotable | puter-cli-gui-client/server.js:241-244 | A valid name has no `"` and no code point below U+0020, so between double quotes it cannot close its quoted stretch early or break the line. `$`, backquote and backslash still pass (see Findings). |
| Names.RevalidateValid | puter-cli-gui-client/server.js:235-252 | Validating an accepted name again accepts it unchanged. |
| Names.ReservedNameChars | puter-cli-gui-client/server.js:241-248 | Reserved names are at least three characters long, with no white space and no invalid character. So only the reserved check can refuse them. |
| Names.DeviceNameRefused | puter-cli-gui-client/server.js:235-250 | A device name surrounded by white space is refused as reserved. |
| Names.NotReservedWith | puter-cli-gui-client/server.js:247-248 | A text holding any character other than an ASCII letter or digit never matches the reserved-name pattern. |
| Names.LiveNameAccepted | puter-cli-gui-client/server.js:241-252 | Every tight name free of the invalid class is accepted unchanged even when it holds `$`, a backquote or a backslash, which a POSIX shell still interprets between double quotes. The widened class refuses each such name. |
| Names.ValidateNameForShell | puter-cli-gui-client/server.js:230-253 | The corrected validator accepts exactly the names `validateName` accepts that a shell reproduces literally between double quotes. It refuses with `Name contains invalid characters` exactly when the trimmed text holds a character of the widened class. Every other refusal is the one `validateName` gives. |
| Endpoints.ExecutePlan | puter-cli-gui-client/server.js:760-780 | A missing or empty command is refused with `Command is required`. A file command is refused with `FILE_OPS_UNAVAILABLE`. Anything else runs directly with a 60-second timeout, so it never reaches the shell branch. |
| Endpoints.ExecuteResponse | puter-cli-gui-client/server.js:780-792 | A refused plan is answered with the plan's error and code. Success only for a command that ran and resolved: its output is stdout, or `Command executed` when stdout is empty, and its stderr and warning are passed on. A rejection is reported with the failure-message fallback and its code. |
| Endpoints.DeleteFileCommand | puter-cli-gui-client/server.js:491-501 | The request is refused exactly when the path fails validation, with the validator's error. Otherwise the command gets a 30-second timeout. |
| Endpoints.DeleteFileCommandShape | puter-cli-gui-client/server.js:500 | The line's only double-quoted stretch holds the validated name. The line starts with `rm -f ` exactly when `force` is the string `true`. The line is a file command and goes through the shell. |
| Endpoints.DeleteAppCommand | puter-cli-gui-client/server.js:736-746 | The request is refused exactly when the name fails validation, with the validator's error. Otherwise the command gets a 30-second timeout. |
| Endpoints.DeleteAppCommandShape | puter-cli-gui-client/server.js:745 | The line's only double-quoted stretch holds the validated name. The line starts with `app:delete -f ` exactly when `force` is `true`. The line runs directly. |
| Endpoints.AcceptedAppLine | puter-cli-gui-client/server.js:744-746 | An accepted app name without `force` gives the line `app:delete "<name>"`, executed as `puter app:delete "<name>"` in a system shell. |
| Endpoints.ShellLiveNameAccepted | puter-cli-gui-client/server.js:165 | For every command word `cmd`, the app name `$(cmd)` passes `validateName`, and the delete line `puter app:delete "$(cmd)"` is executed in a system shell, which expands it. The corrected validator refuses that name. |
| Endpoints.ShellSafeDeleteApp | puter-cli-gui-client/server.js:736-746 | A name the corrected validator accepts is the delete line's only double-quoted stretch and is reproduced literally by a shell. |
| Endpoints.AppsCommand | puter-cli-gui-client/server.js:722-726 | Whatever the period, the line's leading token is `apps`, so it is not a file command and runs directly. A given period follows `apps` after one space; otherwise the line is `apps` alone. |
| Endpoints.SiteCreateCommand | puter-cli-gui-client/server.js:576-595 | The request is refused exactly when the name, or a given subdomain, fails validation. A bad subdomain's error is prefixed with `Invalid subdomain: `. Otherwise the command gets a 120-second timeout. |
| Endpoints.SiteCreateCommandShape | puter-cli-gui-client/server.js:585-593 | For a directory without `"`, the double-quoted stretches hold the validated name, then the validated subdomain if given, then the directory if given. The line runs directly. |
| Endpoints.SiteDeployCommand | puter-cli-gui-client/server.js:608-622 | The request is refused exactly when a given subdomain fails validation. Otherwise the command gets a 120-second timeout. With no options the line is `site:deploy`. |
| Endpoints.SiteDeployCommandShape | puter-cli-gui-client/server.js:612-620 | For a directory without `"`, the double-quoted stretches hold the directory if given, then the validated subdomain if given. The line runs directly. |
| Endpoints.QuotedDirSplits | puter-cli-gui-client/server.js:612-620 | The directory is quoted without being validated. A directory `a" "b` gives a deploy line whose double-quoted stretches are `a` and `b`: two arguments where one was meant. |
| Profile.FirstMatch | puter-cli-gui-client/server.js:24 | `find` returns the first profile whose uuid equals the selected one, or nothing when none does. |
| Profile.SelectProfile | puter-cli-gui-client/server.js:23-25 | With no profiles, nothing is chosen. Otherwise the choice is the first matching profile, or the first profile when none matches, and its token is the one returned. |
| Profile.SelectedToken | puter-cli-gui-client/server.js:23-30 | The result is `null` when there is no profile. Otherwise it is some profile's token field, possibly absent. |
| Profile.NullIsNotUndefined | puter-cli-gui-client/server.js:24 | `===` keeps `null` and absent apart: a `null` selection skips a later profile without a uuid and falls back to the first profile, while an absent selection picks that later profile. |
| Profile.SelectedProfileWins | puter-cli-gui-client/server.js:24 | A matching profile is chosen wherever it stands, as long as no earlier profile matches. |
| Profile.FirstProfileFallback | puter-cli-gui-client/server.js:24 | Without any matching profile, the first profile's token is used. |
| Paths.Segments | puter-cli-gui-client/puter-gui-v2.js:287 | `split('/').filter(p => p)` gives non-empty segments without `/`. |
| Paths.SegmentsOfPath | puter-cli-gui-client/puter-gui-v2.js:287-289 | `'/' + segs.join('/')` splits back into the same segments and is normal. |
| Paths.NavigateTo | puter-cli-gui-client/puter-gui-v2.js:283-292 | `'/'` yields `'/'`. Every result begins with `/` when the current path does. `'..'` drops the last segment. |
| Paths.UpIsNormal | puter-cli-gui-client/puter-gui-v2.js:286-289 | `'..'` always gives a normal path, and `'/'` at the root. |
| Paths.EnterSegment | puter-cli-gui-client/puter-gui-v2.js:291 | Entering a segment from a normal path appends it as one more segment. |
| Paths.EnterThenUp | puter-cli-gui-client/puter-gui-v2.js:286-291 | Round trip: from a normal path, entering a segment and then `'..'` restores the path. |
| Paths.Breadcrumb | puter-cli-gui-client/puter-gui-v2.js:299-310 | There is one crumb per segment. Crumb i shows segment i and targets `/` joined with the first i+1 segments. For a normal path, the last target is the current path. |
| Paths.CrumbTargetIsAncestor | puter-cli-gui-client/puter-gui-v2.js:306-309 | Each crumb target is a normal path whose segments are a prefix of the current ones. |
| Paths.CrumbClickMissesTarget | puter-cli-gui-client/puter-gui-v2.js:291 | As written: navigating to an absolute crumb target appends it to the current path instead of landing on it. |
| Paths.CrumbClickExample | puter-cli-gui-client/puter-gui-v2.js:291 | Clicking the `/docs` crumb at `/docs` leads to `/docs//docs`. |
| Paths.NavigateToFixed | puter-cli-gui-client/puter-gui-v2.js:283-292 | Corrected navigation: an absolute path replaces the current one. Every other argument behaves as before. |
| Paths.CrumbClickLands | puter-cli-gui-client/puter-gui-v2.js:306-309 | With corrected navigation, clicking crumb i lands on the first i+1 segments. |
| Listing.DisplayName | puter-cli-gui-client/puter-gui-v2.js:249 | The name is the trimmed line with at most one trailing `/` removed. |
| Listing.IsDirLine | puter-cli-gui-client/puter-gui-v2.js:242-247 | A blank line is never a directory. A line whose display name lost a trailing slash always is one. |
| Listing.DirTagIsRedundant | puter-cli-gui-client/puter-gui-v2.js:245-246 | A line containing `<DIR>` already contains `DIR`. |
| Listing.SlashedNameRoundTrip | puter-cli-gui-client/puter-gui-v2.js:243-249 | A tight name followed by `/` is a directory and displays as that name. |
| Listing.FileEntries | puter-cli-gui-client/puter-gui-v2.js:232-267 | The listing is empty, so "Empty directory" is shown, exactly when the output is blank. There are never more entries than the output has lines, and no entry name contains a line break. Entry `i` is the display name and directory flag of the `i`-th non-blank line. |
| Tables.NumbersParse | puter-cli-gui-client/puter-gui-v2.js:531 | Decimal row numbers, signed or not, pass `!isNaN(parseInt(num))`. |
| Tables.WordsDoNotParse | puter-cli-gui-client/puter-gui-v2.js:531 | A cell starting with anything but white space, a sign or a digit fails `parseInt`. |
| Tables.BareHexPrefix | puter-cli-gui-client/puter-gui-v2.js:658 | `0x` or `0X` alone fails `parseInt`, while `0` passes. |
| Tables.ParsesAsInt | puter-cli-gui-client/puter-gui-v2.js:531 | A text that passes the `parseInt` test holds a decimal digit, and its first character after white space is a sign or a digit. |
| Tables.Accept | puter-cli-gui-client/puter-gui-v2.js:512-531 | A row is accepted exactly when the line has a separator, no border glyph, no header word and some non-space text, has enough cells, and its first cell parses as a number. |
| Tables.Cells | puter-cli-gui-client/puter-gui-v2.js:522 | Every cell is non-empty and has no white space at either end. |
| Tables.CellOr | puter-cli-gui-client/puter-gui-v2.js:527-528 | `parts[i] \|\| fallback`: the cell when it exists and is non-empty, else the fallback. |
| Tables.SiteRow | puter-cli-gui-client/puter-gui-v2.js:510-533 | A line gives a site exactly when it passes the filter, has at least two cells and a numeric first cell. Missing subdomain and date are `''`. |
| Tables.AppRow | puter-cli-gui-client/puter-gui-v2.js:634-660 | A line gives an app exactly when it passes the filter with `Title` as header word, has at least five cells and a numeric first cell. Missing counts are `'0'`. |
| Tables.CollectConcat | puter-cli-gui-client/puter-gui-v2.js:510-533 | Records come out in line order: two blocks of lines give the first block's records, then the second's. |
| Tables.CollectMember | puter-cli-gui-client/puter-gui-v2.js:510-533 | A record is listed exactly when some line parses to it. |
| Tables.SitesComeFromDataLines | puter-cli-gui-client/puter-gui-v2.js:510-533 | Every listed site comes from a line that passes the filter and has at least two cells, the first numeric and equal to the site number. |
| Tables.AppsComeFromDataLines | puter-cli-gui-client/puter-gui-v2.js:634-660 | Every listed app comes from a line that passes the filter and has at least five cells, the first numeric. |
| Tables.ParseSites | puter-cli-gui-client/puter-gui-v2.js:507-535 | At most one site per output line. A site is listed exactly when some output line reads as it. |
| Tables.ParseApps | puter-cli-gui-client/puter-gui-v2.js:631-662 | At most one app per output line. An app is listed exactly when some output line reads as it. |
| Tables.CellsOfRender | puter-cli-gui-client/puter-gui-v2.js:522 | The code's split of a rendered row gives exactly its non-empty cells. |
| Tables.CellsOfFullRow | puter-cli-gui-client/puter-gui-v2.js:522 | A rendered row of non-empty cells splits back into exactly those cells. |
| Tables.RenderedRowIsData | puter-cli-gui-client/puter-gui-v2.js:512-518 | A rendered row passes the line filter when no cell holds the header word. |
| Tables.SiteRowRoundTrip | puter-cli-gui-client/puter-gui-v2.js:510-533 | Round trip: a site with all four fields filled in parses back from its rendered row. |
| Tables.AppRowRoundTrip | puter-cli-gui-client/puter-gui-v2.js:634-660 | Round trip: an app with all seven fields filled in parses back from its rendered row. |
| Tables.SitesTableRoundTrip | puter-cli-gui-client/puter-gui-v2.js:507-535 | A whole table (borders, header, rows) of filled-in sites parses back into those sites, in order. |
| Tables.AppsTableRoundTrip | puter-cli-gui-client/puter-gui-v2.js:631-661 | A whole table of filled-in apps parses back into those apps, in order. |
| Tables.DropEmptyCell | puter-cli-gui-client/puter-gui-v2.js:522 | As written: an empty cell between filled ones vanishes, and the cells after it move one place left. |
| Tables.EmptySubdomainShifts | puter-cli-gui-client/puter-gui-v2.js:522-528 | As written: a site listed without a subdomain comes back with its creation date as subdomain and no date. |
| Tables.CellsFixed | puter-cli-gui-client/puter-gui-v2.js:522 | Corrected split: cells keep their positions, empty ones included. Every cell is tight. |
| Tables.CellsFixedOfRender | puter-cli-gui-client/puter-gui-v2.js:522 | Round trip: the corrected split gives back exactly the rendered cells, empty ones in place. |
| Tables.SiteRowFixed | puter-cli-gui-client/puter-gui-v2.js:510-533 | The sites parser over the corrected split accepts under the same conditions, counting cells by position. |
| Tables.AppRowFixed | puter-cli-gui-client/puter-gui-v2.js:634-660 | The apps parser over the corrected split accepts under the same conditions, counting cells by position. |
| Tables.SiteRowFixedRoundTrip | puter-cli-gui-client/puter-gui-v2.js:522-533 | With the corrected split, every site parses back from its row, including one with an empty subdomain or date. |
| Tables.AppRowFixedRoundTrip | puter-cli-gui-client/puter-gui-v2.js:646-660 | With the corrected split, every app whose counts are filled in parses back, whatever its other cells hold. |
| Tables.SitesTableFixedRoundTrip | puter-cli-gui-client/puter-gui-v2.js:507-535 | With the corrected split, a whole sites table parses back into its sites, empty fields included. |
| Tables.AppsTableFixedRoundTrip | puter-cli-gui-client/puter-gui-v2.js:631-661 | With the corrected split, a whole apps table parses back into its apps. |
| Terminal.TerminalText | puter-cli-gui-client/puter-gui-v2.js:35-38 | The cleaned text has no white space at either end and is no longer than the input. |
| Terminal.TerminalLines | puter-cli-gui-client/puter-gui-v2.js:35-43 | Nothing is rendered for empty cleaned text. Rendered lines are the non-blank lines of the cleaned text: never none, and never a blank line. |
| Terminal.NothingRenderedIffEmpty | puter-cli-gui-client/puter-gui-v2.js:40-43 | Nothing is rendered exactly when the cleaned text is empty. So the second guard, `lines.length === 0`, never fires. |
| Terminal.PlainTerminalText | puter-cli-gui-client/puter-gui-v2.js:35-38 | Text with no `[` and no `p` is only trimmed. |
| Terminal.TerminalStripsCodesAndPrompts | puter-cli-gui-client/puter-gui-v2.js:35-38 | Round trip: text with bare colour codes and prompts inserted cleans to the trimmed text without them. |
| Terminal.ClientAction | puter-cli-gui-client/puter-gui-v2.js:739-755 | A posted command is the trimmed input and is never empty. |
| Terminal.ClientAgreesWithServer | puter-cli-gui-client/puter-gui-v2.js:745-746 | The browser's test on the trimmed input agrees with the server's test on every string. |
| Terminal.ClientMatchesExecute | puter-cli-gui-client/puter-gui-v2.js:739-755 | Blank input is ignored. The browser warns locally exactly for the commands `/api/execute` would refuse as file operations. Every command it posts runs directly on the server. |

## Left out

- Process lifecycle is not modelled: `exec`/`spawn`, stdin writes, `setTimeout`, `child.kill` and the order of `close`, `error` and timer events. This includes the possible double settlement of the shell branch. Each run is reduced to one finished event.
- Express plumbing is not modelled: routing, CORS, static files, multer uploads, `fs.unlink` and the error middleware. None of it has logic beyond the JSON envelopes.
- Reading and `JSON.parse` of the CLI config file are I/O; only the profile choice is modelled. Config fields that are numbers, booleans or objects, and profile entries that are not objects, are not modelled.
- The worker endpoints call the external Puter SDK, which is not part of this model.
- Browser side effects are not modelled: DOM updates, `innerHTML` templates, `escapeHtml` (which uses the DOM), `fetch`, dialogs and date formatting.
- The remaining endpoints are not modelled: login, logout, whoami, user info, disk usage, usage, file list, mkdir, touch, upload, download, copy, move, stat, site list and delete, app create and update. Their command strings are either fixed texts or interpolate request fields:
  - download, stat, app create and app update pass their name through `validateName`, as the modelled builders do;
  - upload's remote path (`server.js:448`) goes in unvalidated and unquoted;
  - copy and move (`server.js:522`, `server.js:543`) quote source and destination without validating them;
  - site delete (`server.js:655`) quotes the uid without validating it;
  - app create and update (`server.js:679-681`, `server.js:709`) quote the directory, description and URL without validating them.
- Hard-coded fallback user names and success messages are constants with nothing to prove.
- Non-string truthy JSON values (numbers, objects) interpolated into commands are not modelled; request fields are strings or absent.
- Endpoints.SiteCreateCommandShape: requires the directory to be free of `"`. The handler does not check this, and `Endpoints.QuotedDirSplits` shows what a quote in the directory does.
- Endpoints.SiteDeployCommandShape: requires the directory to be free of `"`, for the same reason.
- How a system shell parses a directly executed line is not modelled: `exec` with `shell: true` runs it through `/bin/sh` on POSIX systems and `cmd.exe` on Windows. The model only names the characters a POSIX shell still interprets between double quotes (`Names.LiveInDoubleQuotes`). `cmd.exe` rules, such as `%VAR%` expansion, are not modelled.
- The `period` query field of the apps endpoint goes into its directly executed line unquoted and unvalidated (server.js:724-725). For example, `x; id` gives `apps x; id`. `Endpoints.AppsCommand` states the line it builds; what a shell makes of it falls under the previous line.
- `listFiles` is modelled for a successful answer, but the shipped server's file-list endpoint always answers `success: false` with `isFileOpsUnavailable` (server.js:405-416). So in this version of the server, the branch `Listing.FileEntries` models is never reached.
- Terminal.PlainTerminalText: excludes every `p` rather than only `puter@` followed by a word and `>`, a simpler sufficient condition.
- Regular expressions are fixed to the three shapes the code uses, with `\d` = `[0-9]` and `\w` = `[A-Za-z0-9_]`. Full JavaScript regular-expression semantics and Unicode case folding are not modelled. The reserved-name check upper-cases ASCII letters only.
- The table round trips use a reference renderer that pads every cell with exactly one space. The CLI pads cells to their column width, with longer blank runs, and that renderer is not modelled.
- The `parseInt` test is reduced to its accept/reject decision (section 19.2.5 of ECMA-262): optional white space and sign, then a hex prefix with a hex digit, or a decimal digit. The numeric value is not computed.

## Findings

| source | as written | input that shows it | evidently intended | confidence | as-written member | corrected member |
|---|---|---|---|---|---|---|
| puter-cli-gui-client/puter-gui-v2.js:291 | A breadcrumb target is an absolute path such as `/docs`, but `navigateTo` appends every argument other than `/` and `..` to the current path. | At `/docs`, clicking the `docs` crumb gives `/docs//docs`. | An absolute path replaces the current path. | medium, not executed | Paths.CrumbClickMissesTarget | Paths.CrumbClickLands |
| puter-cli-gui-client/puter-gui-v2.js:522 | `filter(p => p)` drops empty cells before the cells are numbered, so a missing middle value moves later columns one place left. | A site row with number, uid, an empty subdomain and a date gives subdomain = the date and created = `''`. | Cells keep their column positions; only the empty pieces outside the outer borders are dropped. | medium, not executed | Tables.EmptySubdomainShifts | Tables.SiteRowFixedRoundTrip |
| puter-cli-gui-client/server.js:240-244 | The invalid class `[<>:"\|?*\x00-\x1F]` lets `$`, backquote and backslash through. Validated names are then put between double quotes on lines that `exec` runs in a system shell (`server.js:165`), which still interprets those characters. | On a POSIX system, deleting the app named `$(id)` runs `puter app:delete "$(id)"`, and the shell runs `id` first. A name ending in `\` escapes the closing quote. | Names that reach a shell command line are refused unless the shell reproduces them literally. | medium, not executed | Endpoints.ShellLiveNameAccepted | Names.ValidateNameForShell |
