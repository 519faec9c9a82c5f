# phpstorm-protocol-handler, modelled in Dafny

The handler is a PHP script that the desktop runs for `phpstorm://open?file=…&line=…&column=…`
URIs. It checks the scheme and the action. It then resolves the file, line and column, and
starts the editor on them in a forked child. When the file lies inside a project (a
directory holding `.idea`), it opens the project root first. Finally it finds the editor
window that shows the file, using the `wmctrl -l` listings taken before and after the
launch, and activates that window. Every exception becomes the process exit status:
the exception's code, or 1 when that code is 0.

The model is split into seven modules:

- `Outcomes`: the failure classes, `Option`/`Result` and the exit status.
- `Text`: the PHP string functions the handler relies on, namely `trim`, `mb_strpos`,
  `explode` with limit 2, `preg_split('/\s+/u', …, 4)` and `implode`.
- `Request`: `validateInput`, `actionOpenParseArguments` and `actionOpenValidate`.
- `Command`: `escapeshellarg` and `actionOpenBuildCommand`.
- `Paths`:
  - `basename` and `dirname` (the exact zend_dirname rules);
  - `isParentDirOrSame` as the regular expression matches it, including PCRE's `$`
    before a final newline;
  - `findFileUpward` and `isProjectRoot`.
- `Windows`:
  - the parsing loop of `getWindowList`, into an association list keyed by window id;
  - `findWindowByFileName` and its four title needles;
  - `selectWindowByFileName`.
- `Orchestrator`: `doIt`, which works on the `Handler` class and its `input` field, and
  `actionOpen`. The machine is an `Environment` value:
  - the set of paths `file_exists` accepts, and the set `is_dir` accepts;
  - the set of fork attempts that fail (numbered from 0 in launch order);
  - the two `wmctrl -l` results.

  What the handler does is recorded as a trace of `Launch`, `Sleep` and `Activate`
  events, ending in a `Result`.

The model follows PHP 8 semantics throughout.

The loops of the source are methods proved equal to the functions that specify them:
`Command.BuildCommand`, `Windows.GetWindowList`, `Windows.SearchNeedles`/`FindWindowByFileName`
and `Paths.FindFileUpward`. The properties are lemmas about those functions.

Three behaviours of the code are worth noting:

- A present but empty `url` parameter wins over `file`, because `??` only skips missing
  keys (`Request.EmptyUrlWins`).
- A window line with fewer than four whitespace-separated fields makes `array_combine`
  throw a `ValueError`, so the request fails with status 1. It does not degrade to "no
  windows" (`Windows.CollectFails`). This is PHP 8 behaviour; under PHP 7
  `array_combine` returns false with a warning instead.
- The boundary error of `findFileUpward` has code 0, so its status is 1, the same as
  any uncategorised failure (`Paths.FindUpward`).

## Model

| member | source | states |
|---|---|---|
| Outcomes.ExitCode | phpstorm-protocol-handler.php:327-338 | status 0 exactly on success; on failure the exception's code, or 1 when that code is 0 |
| Outcomes.ExitCodesDistinguishFailures | phpstorm-protocol-handler.php:58-77 | protocol, action, missing-parameter and fork failures each have a status no other failure class shares |
| Text.ContainsOccurs | phpstorm-protocol-handler.php:269 | the `mb_strpos(...) !== false` scan succeeds exactly when the needle occurs at some position of the title |
| Text.Contains | phpstorm-protocol-handler.php:269 | `mb_strpos(title, needle) !== false` as a scan from position 0 (ContainsOccurs states its meaning) |
| Text.Trim | phpstorm-protocol-handler.php:130 | the result is a slice of the input, with only cut characters outside it, and it neither starts nor ends with a cut character |
| Text.IndexOf | phpstorm-protocol-handler.php:132 | no position exactly when the character is absent; otherwise its first position |
| Text.SplitAtFirst | phpstorm-protocol-handler.php:133 | `explode(':', s, 2)`: the string is before + ':' + after, and before holds no ':' |
| Text.SplitRuns | phpstorm-protocol-handler.php:207 | `preg_split` with a limit: between one piece and the limit; each cut removes a whole maximal run of whitespace (see SplitRunsPieces and SplitRunsGlue) |
| Text.SplitRunsPieces | phpstorm-protocol-handler.php:207 | every piece but the last is free of whitespace, and so is the last when fewer than the limit came out; the pieces between the first and the last are non-empty; after a cut the last piece does not start with whitespace |
| Text.SplitRunsGlue | phpstorm-protocol-handler.php:207 | the pieces, glued back with non-empty whitespace runs, give the input: splitting drops only the separators |
| Text.Implode | phpstorm-protocol-handler.php:178 | `implode(' ', $command)`: the words separated by single spaces (the definition; BuildCommand is proved against it) |
| Request.ValidateInput | phpstorm-protocol-handler.php:58-77 | the scheme is checked first (code 2), then the action (code 3); success exactly for scheme `phpstorm` and action `open` |
| Request.StrPosTruthy | phpstorm-protocol-handler.php:132 | `mb_strpos($line, ':')` used as a condition: false when there is no colon and also when the first colon is at position 0 (TrimmedStrPosTruthy shows the second case cannot arise after the trim) |
| Request.TrimmedStrPosTruthy | phpstorm-protocol-handler.php:130-132 | after trimming colons, the truthiness test on `mb_strpos` means "contains a colon" (a colon at position 0 cannot remain) |
| Request.ResolveLineColumn | phpstorm-protocol-handler.php:129-134 | a given column is kept and the line only trimmed; otherwise the trimmed line is split at its first colon when it has one; the resolved line never starts or ends with a colon |
| Request.ParseArguments | phpstorm-protocol-handler.php:127-134 | `url` when present, even empty, else `file`, else empty; line and column as ResolveLineColumn gives them |
| Request.Get | phpstorm-protocol-handler.php:127-131 | `$query[key] ?? default`: the value under a present key, even an empty one, else the default |
| Request.LineWithColumn | phpstorm-protocol-handler.php:130-133 | `line=L:C`, with no colon in L, gives line L and column C |
| Request.ColonSplitUnique | phpstorm-protocol-handler.php:133 | a string glued at a colon splits back in only one way when the first part has no colon |
| Request.LeadingColon | phpstorm-protocol-handler.php:130-133 | `line=:L` loses the colon and yields no column |
| Request.EmptyUrlWins | phpstorm-protocol-handler.php:127 | an empty `url` does not fall back to `file` |
| Request.ValidateOpenArgs | phpstorm-protocol-handler.php:141-149 | fails, with MissingParameter("file") and code 4, exactly when the file is empty |
| Command.EscapeShellArg | phpstorm-protocol-handler.php:168-174 | the argument comes out enclosed in single quotes |
| Command.EscapeShellArgInjective | phpstorm-protocol-handler.php:168-174 | different arguments give different quoted words |
| Command.EscapeQuotesInjective | phpstorm-protocol-handler.php:168-174 | the quote-escaping of the body loses no information |
| Command.CommandWords | phpstorm-protocol-handler.php:162-176 | `/usr/bin/env phpstorm` first; `--line L` exactly when a line is given, then `--column C` only with a line; the quoted file and both redirections last |
| Command.CommandFlags | phpstorm-protocol-handler.php:166-173 | `--line` occurs exactly when the line is non-empty; `--column` exactly when both are non-empty |
| Command.ColumnNeedsLine | phpstorm-protocol-handler.php:166-173 | a column without a line is dropped altogether |
| Command.CommandLine | phpstorm-protocol-handler.php:178 | the command string: the words of CommandWords glued by single spaces |
| Command.BuildCommand | phpstorm-protocol-handler.php:154-179 | appending the words one by one and imploding them gives CommandLine |
| Paths.Basename | phpstorm-protocol-handler.php:259 | the base name holds no '/' |
| Paths.BasenameOfChild | phpstorm-protocol-handler.php:259 | the base name of `dir/name` is `name` |
| Paths.Dirname | phpstorm-protocol-handler.php:303 | zend_dirname: the empty path stays empty, a path of slashes is "/", a single segment gives ".", otherwise the path without its last segment and the slashes around it, or "/" when only slashes precede the last segment (DirnameShape, DirnameFixpoint and DirnameShrinks state its properties) |
| Paths.DirnameShape | phpstorm-protocol-handler.php:303 | dirname is empty only for the empty path; otherwise it is "." or a prefix of the path without a trailing slash other than "/"; when it changes the path it shortens it, except "." for a one-character path |
| Paths.DirnameOfChild | phpstorm-protocol-handler.php:303 | the parent of `dir/name` is `dir` when `dir` does not end in a slash and `name` holds none: one step goes up exactly one level |
| Paths.DirnameFixpoint | phpstorm-protocol-handler.php:303-306 | dirname leaves a path unchanged exactly for "", "/" and "." |
| Paths.DirnameShrinks | phpstorm-protocol-handler.php:298-309 | each step of the climb lowers a measure, so the loop ends |
| Paths.IsParentDirOrSame | phpstorm-protocol-handler.php:314-319 | the anchored pattern on the child: the parent is a prefix followed by '/', by the end, or by a final newline (CoversSelfAndBelow and CoveredPaths characterise it both ways) |
| Paths.CoversSelfAndBelow | phpstorm-protocol-handler.php:314-319 | a directory covers itself and every path below it |
| Paths.CoveredPaths | phpstorm-protocol-handler.php:314-319 | a covered path is the directory itself, the directory plus a final newline, or a path below it |
| Paths.RootDoesNotCoverChildren | phpstorm-protocol-handler.php:314-319 | "/" does not cover "/a", since the pattern needs another '/' or the end |
| Paths.TrailingNewlineCovered | phpstorm-protocol-handler.php:316-318 | the `$` of the pattern accepts a child that is the parent plus a final newline |
| Paths.Climb | phpstorm-protocol-handler.php:298-311 | a directory found is truthy, holds the marker and lies inside the boundary |
| Paths.FindUpward | phpstorm-protocol-handler.php:294-311 | fails exactly when a boundary is given that does not cover the start, with InvalidBoundary and status 1 |
| Paths.ClimbSound | phpstorm-protocol-handler.php:298-311 | the directory found is the k-th ancestor, the loop reaches it, and no earlier ancestor holds the marker |
| Paths.ClimbComplete | phpstorm-protocol-handler.php:298-311 | when nothing is found, no ancestor the loop reaches holds the marker |
| Paths.ClimbEnds | phpstorm-protocol-handler.php:298-309 | some ancestor is beyond the loop's reach |
| Paths.BoundaryAtStart | phpstorm-protocol-handler.php:294-309 | with the start as the boundary, only the start is probed |
| Paths.FindFileUpward | phpstorm-protocol-handler.php:289-312 | the loop returns what FindUpward specifies |
| Paths.IsProjectRoot | phpstorm-protocol-handler.php:321-324 | `is_dir("$file/.idea")`: the probe of the file for the marker is a directory |
| Paths.ProjectRootFoundAtOnce | phpstorm-protocol-handler.php:321-324 | when every directory is also an existing path, a project root is its own nearest project root |
| Windows.Put | phpstorm-protocol-handler.php:209 | assigning an existing id keeps the key order; a new id is appended |
| Windows.PutLookup | phpstorm-protocol-handler.php:209 | after the assignment the id maps to the new window and every other id to what it held |
| Windows.PutUnique | phpstorm-protocol-handler.php:209 | the assignment keeps ids unique |
| Windows.ParseLine | phpstorm-protocol-handler.php:200-208 | one turn of the loop: the trimmed line is skipped when falsy, split into at most four fields, malformed when fewer came out, else an entry (ParseLineFields states what the fields are) |
| Windows.ParseLineFields | phpstorm-protocol-handler.php:200-208 | the id, desktop and machine fields hold no whitespace, desktop and machine are non-empty, the title does not start with whitespace, and the trimmed line is those four glued with whitespace runs; so the title is the rest of the line after the third run |
| Windows.TrailingNelEndsFields | phpstorm-protocol-handler.php:200-208 | trim keeps a NEL and `\s` under `u` matches it, so it separates fields: the output line `0x1 0 host` followed by a NEL is an entry with an empty title |
| Windows.Fold | phpstorm-protocol-handler.php:199-210 | the foreach loop over the parsed lines: stop at the first malformed line, else store each entry under its id (FoldFails, FoldEntries) |
| Windows.Absorb | phpstorm-protocol-handler.php:200-209 | one turn of the loop: a falsy line is skipped, a short line throws ValueError, an entry is stored under its id |
| Windows.Collect | phpstorm-protocol-handler.php:199-210 | the loop over the raw output lines (CollectFails, CollectEntries) |
| Windows.WindowList | phpstorm-protocol-handler.php:186-212 | a failed `wmctrl -l` gives no windows, otherwise the collected map |
| Windows.FoldFails | phpstorm-protocol-handler.php:199-210 | the loop fails exactly when a line is malformed, and then with ValueError |
| Windows.CollectFails | phpstorm-protocol-handler.php:199-210 | parsing the output fails exactly when some line has fewer than four fields, and then with ValueError |
| Windows.FoldEntries | phpstorm-protocol-handler.php:199-210 | the result has unique ids, each id maps to the window of its last line, and the keys are in the order the ids first appear |
| Windows.CollectEntries | phpstorm-protocol-handler.php:199-210 | the parsed snapshot has unique ids, each id holds the window its last line describes, and the keys are in the order the ids first appear |
| Windows.FirstIdsCarried | phpstorm-protocol-handler.php:201-209 | the key order lists exactly the ids that some entry line carries |
| Windows.GetWindowList | phpstorm-protocol-handler.php:181-213 | the loop returns what WindowList specifies; a failed query gives no windows |
| Windows.FirstHit | phpstorm-protocol-handler.php:268-271 | the first window from a position on whose title contains the needle, or none exactly when no such window exists |
| Windows.FirstFound | phpstorm-protocol-handler.php:267-275 | the first needle any window contains, and the first window containing it; none exactly when no window contains any needle |
| Windows.FirstMatch | phpstorm-protocol-handler.php:267-275 | the window is one of those searched; none exactly when no title contains any needle |
| Windows.MatchPriority | phpstorm-protocol-handler.php:260-275 | the window picked contains the most specific needle any window contains, and is the first to contain it |
| Windows.SearchNeedles | phpstorm-protocol-handler.php:267-275 | the nested loops return FirstMatch |
| Windows.Needles | phpstorm-protocol-handler.php:259-265 | the four needles, most specific first, built from the base name, the path and the en dash |
| Windows.MatchByFileName | phpstorm-protocol-handler.php:257-276 | the window FirstMatch picks for the four needles of the file (MatchPriority states the priority) |
| Windows.FindWindowByFileName | phpstorm-protocol-handler.php:257-276 | returns the match for the four needles of the file |
| Windows.NewWindows | phpstorm-protocol-handler.php:251 | exactly the windows of `after` whose id `before` lacks |
| Windows.NewWindowsInOrder | phpstorm-protocol-handler.php:251 | those windows in the order of `after`: the entries at a strictly increasing run of positions, which holds every position whose id `before` lacks |
| Windows.Reverse | phpstorm-protocol-handler.php:251 | the entries in reverse order |
| Windows.SelectWindowByFileName | phpstorm-protocol-handler.php:247-255 | a new window that matches wins and is new; else the match among all later windows; none exactly when no later window matches any needle |
| Windows.PrefersNewWindow | phpstorm-protocol-handler.php:247-255 | if a new window matches, the window selected is a new one |
| Orchestrator.ChooseStrategy | phpstorm-protocol-handler.php:88-98 | the root is opened first only when the file is not a project root, and that root holds `.idea` and is truthy |
| Orchestrator.Steps | phpstorm-protocol-handler.php:88-105 | the launches and pauses of each branch: file then pause; bare root, pause, file; file then pause |
| Orchestrator.ListWindows | phpstorm-protocol-handler.php:181-213 | getWindowList on the result of one `wmctrl -l` run, as WindowList |
| Orchestrator.Perform | phpstorm-protocol-handler.php:226-237 | a failure is ForkFailed, no plan activates a window, and the trace has at most one event per step (PerformFailsExactly, PerformFailsAt and PerformFailure state when and how it fails) |
| Orchestrator.PerformFailure | phpstorm-protocol-handler.php:228-237 | a failed plan stopped at a spawn whose fork failed after all earlier forks succeeded: the trace is exactly the events before it, and the error names its command; nothing after it happens |
| Orchestrator.PerformFailsAt | phpstorm-protocol-handler.php:228-237 | when the fork of a spawn fails after all earlier forks succeeded, the run is the events before that spawn and fails with its command: a failing fork is fatal |
| Orchestrator.PerformSucceededForks | phpstorm-protocol-handler.php:226-245 | a plan that runs to its end met no failing fork |
| Orchestrator.PerformFailsExactly | phpstorm-protocol-handler.php:226-245 | a plan fails exactly when one of the forks it attempts fails |
| Orchestrator.PerformSuccess | phpstorm-protocol-handler.php:226-245 | a plan that succeeds records each of its steps as an event |
| Orchestrator.PerformWithoutFailure | phpstorm-protocol-handler.php:226-245 | when none of the forks the plan attempts fails, the plan succeeds |
| Orchestrator.Activation | phpstorm-protocol-handler.php:107-114 | at most one event, an activation |
| Orchestrator.OpenFile | phpstorm-protocol-handler.php:84-117 | actionOpen after argument parsing: validate, list windows, launch per the branch, list again, activate; the trace lemmas below state its results |
| Orchestrator.ActionOpen | phpstorm-protocol-handler.php:82-117 | actionOpen: OpenFile on the arguments actionOpenParseArguments resolves from the query |
| Orchestrator.HandleRequest | phpstorm-protocol-handler.php:28-33 | doIt once the URI is split: the gate, then the `open` action |
| Orchestrator.Handler.constructor | phpstorm-protocol-handler.php:23 | the handler starts with an empty input |
| Orchestrator.Handler.DoIt | phpstorm-protocol-handler.php:25-36 | stores the request in `input` and runs HandleRequest |
| Orchestrator.ExitStatus | phpstorm-protocol-handler.php:327-338 | the status is at most 5, and 0 exactly on success |
| Orchestrator.SchemeCheckedFirst | phpstorm-protocol-handler.php:58-66 | a wrong scheme does nothing and exits 2, whatever the action |
| Orchestrator.UnsupportedActionRejected | phpstorm-protocol-handler.php:68-77 | an unknown action does nothing and exits 3 |
| Orchestrator.MissingFileRejected | phpstorm-protocol-handler.php:84-85 | `open` whose resolved file (`url`, else `file`, else empty) is empty does nothing and exits 4 |
| Orchestrator.GateOpens | phpstorm-protocol-handler.php:28-33 | a valid request is the `open` action on the resolved arguments |
| Orchestrator.LaunchEvents | phpstorm-protocol-handler.php:82-117 | with both listings parsed and none of the forks the branch attempts failing, the run is its plan's events plus the activation, and succeeds |
| Orchestrator.ProjectRootTrace | phpstorm-protocol-handler.php:88-91 | a project root whose one fork succeeds: launch the file, sleep 2 seconds, activate |
| Orchestrator.WarmRootTrace | phpstorm-protocol-handler.php:93-104 | a root above the file, both forks succeeding: launch the bare root, sleep 2 seconds, launch the file with no pause, activate |
| Orchestrator.AloneTrace | phpstorm-protocol-handler.php:93-104 | no root above and the one fork succeeding: launch the file, sleep 2 seconds, activate |
| Orchestrator.ActivateIsLast | phpstorm-protocol-handler.php:107-114 | no activation before the last event; the last event is one exactly when the run succeeds with a window selected |
| Orchestrator.ForkFailureAborts | phpstorm-protocol-handler.php:229-237 | when a fork that the chosen branch attempts fails, the run fails with ForkFailed, exits 5 and activates no window |
| Orchestrator.FirstForkFails | phpstorm-protocol-handler.php:88-98 | when the first fork fails, nothing is recorded, the error names the branch's first command, and the status is 5 |
| Orchestrator.WarmRootForkFails | phpstorm-protocol-handler.php:93-101 | a root above the file, its bare launch succeeding and the file's failing: launch the root, sleep 2 seconds, then fail with the file's command and status 5 |
| Orchestrator.SuccessLaunchesFile | phpstorm-protocol-handler.php:88-105 | a run that succeeds launched the editor on the requested file, and that was its last launch |
| Orchestrator.SucceededSteps | phpstorm-protocol-handler.php:82-117 | a run that succeeds carried out its whole plan, then its activation |
| Orchestrator.LineColumnReachesEditor | phpstorm-protocol-handler.php:129-171 | `line=L:C` with no `column` reaches the editor as `--line 'L' --column 'C'` |

## Left out

- `parseInputUrl` (`parse_url`, `parse_str`): the request arrives already split into
  scheme, host and a flat map of string values. Array-valued parameters, and their
  `(string)` cast to "Array", are not modelled.
- The child process of `pcntl_fork`: `posix_setsid` and `exec` of the command. After
  `exec` returns, the child goes on through the rest of `actionOpen`. Only the parent is
  modelled, and a successful fork is recorded as a `Launch` event.
- `sleep`: a `Sleep` event with no clock.
- The `wmctrl` processes: the exit status and output lines of each `wmctrl -l` are
  inputs. `activateWindow` is an `Activate` event; its command string is not modelled.
- `file_exists` and `is_dir`: sets of the literal path strings they accept. There is no
  path normalisation, no symlinks and no NUL-byte handling.
- Exception messages and the write to standard error: a failure carries only the values
  its message would show.
- Text encoding: strings are sequences of code points. `mb_*` on invalid UTF-8 is not
  modelled, and neither is `preg_split` returning false on it (which would make
  `array_combine` throw a TypeError). `isParentDirOrSame`'s byte-wise match is taken on
  code points.
- Paths.Basename: the locale dependence of PHP's `basename` is not modelled; the model
  uses the plain rule (drop trailing '/', keep the last segment).
- Command.EscapeShellArg: PHP 8 throws a ValueError for an argument containing a NUL
  byte, and rejects arguments above the command-length limit; neither error is modelled.
- Orchestrator.Handler.DoIt: the `return $this` chaining is not modelled. The
  `protocol` and `supportedActions` properties are the module constants
  `Request.Protocol` and `Request.SupportedActions`.
- Orchestrator.Perform: fork outcomes are given by the position of the fork in the
  run, not by the system state that makes `pcntl_fork` fail.
- Windows.GetWindowList: all output lines are parsed before the loop that stores them.
  Parsing is pure and the first malformed line still ends the loop, so the result is
  the same as parsing inside the loop.
- The output lines of `wmctrl -l` are taken as `exec` delivers them in `$output`: split at
  newlines, with trailing ASCII whitespace removed from each. The model does not
  construct them. It relies on that stripping only for a trailing form feed, which
  `trim` keeps and `\s` matches.
