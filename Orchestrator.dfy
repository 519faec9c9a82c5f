/** The handler's control flow, doIt and actionOpen: which commands are launched in which
    order, when it waits for the editor and which window it activates. The machine is
    abstracted into an Environment holding the answers file_exists, is_dir, pcntl_fork and
    the two `wmctrl -l` runs give; the effects are recorded as a trace of events. */
module Orchestrator {
  import opened Outcomes
  import opened Text
  import opened Request
  import opened Command
  import opened Windows
  import opened Paths

  /** The seconds actionOpen gives the editor after a launch. */
  const SettleSeconds: nat := 2

  /** A visible effect: the editor started in a forked child on the command line
      CommandLine(args), a pause, or `wmctrl -i -a id`. */
  datatype Event = Launch(args: OpenArgs) | Sleep(seconds: nat) | Activate(windowId: string)

  /** The exit status and output lines of one `wmctrl -l` run. */
  datatype WindowQuery = WindowQuery(exitCode: int, lines: seq<string>)

  /** What the handler learns from the machine: the paths file_exists and is_dir hold for,
      which forks (numbered from 0 in the order they are attempted) fail, and the window
      listings taken before and after the launch. */
  datatype Environment = Environment(
    existing: set<string>,
    directories: set<string>,
    failingForks: set<nat>,
    before: WindowQuery,
    after: WindowQuery)

  /** The events of one request and how it ended. */
  datatype Run = Run(trace: seq<Event>, outcome: Result<()>)

  /** The three ways actionOpen starts the editor. */
  datatype Strategy =
    | OpenProject        // the file is itself a project root
    | WarmRoot(root: string)  // a project root was found above the file
    | OpenAlone          // no project root anywhere above

  /** One step of a launch plan. */
  datatype Step = Spawn(args: OpenArgs) | Wait(seconds: nat)

  function ListWindows(q: WindowQuery): Result<Snapshot>
  {
    WindowList(q.exitCode, q.lines)
  }

  /** The branch actionOpen takes: isProjectRoot first, else findFileUpward from the file
      itself with no boundary. */
  function ChooseStrategy(args: OpenArgs, env: Environment): (s: Strategy)
    ensures s.WarmRoot? ==> !IsProjectRoot(env.directories, args.file)
                            && Probe(s.root, ProjectMarker) in env.existing && Truthy(s.root)
  {
    if IsProjectRoot(env.directories, args.file) then OpenProject
    else match FindUpward(env.existing, ProjectMarker, args.file, None)
      case Success(Some(root)) => WarmRoot(root)
      case _ => OpenAlone
  }

  /** The commands and pauses of each branch: the project root is opened bare, before the
      file, and the editor gets its pause after the first launch. */
  function Steps(args: OpenArgs, strategy: Strategy): seq<Step>
  {
    match strategy
    case OpenProject => [Spawn(args), Wait(SettleSeconds)]
    case WarmRoot(root) => [Spawn(OpenArgs(root, "", "")), Wait(SettleSeconds), Spawn(args)]
    case OpenAlone => [Spawn(args), Wait(SettleSeconds)]
  }

  /** Carry out a plan: each spawn is a fork, numbered from `forks`; a failing fork throws
      with code 5 and nothing after it happens. */
  function Perform(steps: seq<Step>, failingForks: set<nat>, forks: nat): (run: Run)
    ensures forall i :: 0 <= i < |run.trace| ==> !run.trace[i].Activate?
    ensures run.outcome.Failure? ==> run.outcome.error.ForkFailed?
    ensures |run.trace| <= |steps|
    decreases |steps|
  {
    if steps == [] then Run([], Success(()))
    else match steps[0]
      case Wait(s) =>
        var rest := Perform(steps[1..], failingForks, forks);
        Run([Sleep(s)] + rest.trace, rest.outcome)
      case Spawn(c) =>
        if forks in failingForks then Run([], Failure(ForkFailed(CommandLine(c))))
        else
          var rest := Perform(steps[1..], failingForks, forks + 1);
          Run([Launch(c)] + rest.trace, rest.outcome)
  }

  /** The window activation at the end of actionOpen, if a window was selected. */
  function Activation(file: string, before: Snapshot, after: Snapshot): (act: seq<Event>)
    ensures |act| <= 1 && forall j :: 0 <= j < |act| ==> act[j].Activate?
  {
    match SelectWindowByFileName(file, before, after)
    case None => []
    case Some(w) => [Activate(w.id)]
  }

  /** actionOpen once the arguments are resolved: check them, list the windows, launch,
      list them again and activate the window that shows the file. */
  function OpenFile(args: OpenArgs, env: Environment): Run
  {
    match ValidateOpenArgs(args)
    case Failure(e) => Run([], Failure(e))
    case Success(_) =>
      match ListWindows(env.before)
      case Failure(e) => Run([], Failure(e))
      case Success(before) =>
        var launched := Perform(Steps(args, ChooseStrategy(args, env)), env.failingForks, 0);
        if launched.outcome.Failure? then launched
        else match ListWindows(env.after)
          case Failure(e) => Run(launched.trace, Failure(e))
          case Success(after) => Run(launched.trace + Activation(args.file, before, after), Success(()))
  }

  /** actionOpen. */
  function ActionOpen(query: map<string, string>, env: Environment): Run
  {
    OpenFile(ParseArguments(query), env)
  }

  /** doIt once the URI is split: validate it, then dispatch on the action. */
  function HandleRequest(input: Input, env: Environment): Run
  {
    match ValidateInput(input)
    case Failure(e) => Run([], Failure(e))
    case Success(_) => ActionOpen(input.query, env)
  }

  /** The handler object: doIt stores the request in its `input` field and runs it. */
  class Handler {
    var input: Input

    constructor ()
      ensures input == Input("", "", map[])
    {
      input := Input("", "", map[]);
    }

    method DoIt(request: Input, env: Environment) returns (run: Run)
      modifies this
      ensures input == request
      ensures run == HandleRequest(request, env)
    {
      input := request;
      var valid := ValidateInput(input);
      if valid.Failure? {
        return Run([], valid);
      }
      if input.host == "open" {
        run := ActionOpen(input.query, env);
      }
    }
  }

  /** The process exit status of a run. */
  function ExitStatus(run: Run): (code: nat)
    ensures code <= 5
    ensures code == 0 <==> run.outcome.Success?
  {
    ExitCode(run.outcome)
  }

  /** The scheme is checked before anything else: nothing happens and the status is 2,
      whatever the action. */
  lemma SchemeCheckedFirst(input: Input, env: Environment)
    requires input.scheme != Protocol
    ensures HandleRequest(input, env) == Run([], Failure(ProtocolMismatch(input.scheme)))
    ensures ExitStatus(HandleRequest(input, env)) == 2
  {
  }

  /** An unsupported action under the right scheme: nothing happens and the status is 3. */
  lemma UnsupportedActionRejected(input: Input, env: Environment)
    requires input.scheme == Protocol && input.host != "open"
    ensures HandleRequest(input, env) == Run([], Failure(UnsupportedAction(input.host)))
    ensures ExitStatus(HandleRequest(input, env)) == 3
  {
  }

  /** An `open` request with no file: nothing happens and the status is 4. */
  lemma MissingFileRejected(input: Input, env: Environment)
    requires input.scheme == Protocol && input.host == "open"
    requires Get(input.query, "url", Get(input.query, "file", "")) == ""
    ensures HandleRequest(input, env) == Run([], Failure(MissingParameter("file")))
    ensures ExitStatus(HandleRequest(input, env)) == 4
  {
    assert ParseArguments(input.query).file == "";
  }

  /** The events of a plan carried out without a failing fork. */
  function Events(steps: seq<Step>): (events: seq<Event>)
    ensures |events| == |steps|
  {
    if steps == [] then []
    else (match steps[0] case Spawn(c) => [Launch(c)] case Wait(s) => [Sleep(s)]) + Events(steps[1..])
  }

  /** A plan that runs to its end records each of its steps as an event. */
  lemma {:induction false} PerformSuccess(steps: seq<Step>, failingForks: set<nat>, forks: nat)
    requires Perform(steps, failingForks, forks).outcome.Success?
    ensures Perform(steps, failingForks, forks).trace == Events(steps)
    decreases |steps|
  {
    if steps != [] {
      PerformSuccess(steps[1..], failingForks, if steps[0].Spawn? then forks + 1 else forks);
    }
  }

  /** The number of forks a plan attempts when none fails. */
  function Spawns(steps: seq<Step>): nat
    decreases |steps|
  {
    if steps == [] then 0 else (if steps[0].Spawn? then 1 else 0) + Spawns(steps[1..])
  }

  /** When none of the forks a plan attempts fails, the plan runs to its end. */
  lemma {:induction false} PerformWithoutFailure(steps: seq<Step>, failingForks: set<nat>, forks: nat)
    requires forall k :: forks <= k < forks + Spawns(steps) ==> k !in failingForks
    ensures Perform(steps, failingForks, forks).outcome.Success?
    decreases |steps|
  {
    if steps != [] {
      PerformWithoutFailure(steps[1..], failingForks, if steps[0].Spawn? then forks + 1 else forks);
    }
  }

  /** A plan that fails stopped at a spawn whose fork failed: the trace holds exactly the
      events of the steps before it, the forks before it all succeeded, and the error names
      the command of that spawn. Nothing after the failing fork happens. */
  lemma {:induction false} PerformFailure(steps: seq<Step>, failingForks: set<nat>, forks: nat) returns (m: nat)
    requires Perform(steps, failingForks, forks).outcome.Failure?
    ensures m < |steps| && steps[m].Spawn?
    ensures forks + Spawns(steps[..m]) in failingForks
    ensures forall k :: forks <= k < forks + Spawns(steps[..m]) ==> k !in failingForks
    ensures Perform(steps, failingForks, forks).trace == Events(steps[..m])
    ensures Perform(steps, failingForks, forks).outcome == Failure(ForkFailed(CommandLine(steps[m].args)))
    decreases |steps|
  {
    var step := steps[0];
    if step.Spawn? && forks in failingForks {
      m := 0;
      assert steps[..0] == [];
    } else {
      var next := if step.Spawn? then forks + 1 else forks;
      var m' := PerformFailure(steps[1..], failingForks, next);
      m := m' + 1;
      var prefix := steps[..m];
      assert prefix[0] == step && prefix[1..] == steps[1..][..m'];
      assert Spawns(prefix) == (if step.Spawn? then 1 else 0) + Spawns(steps[1..][..m']);
      assert Events(prefix) == (match step case Spawn(c) => [Launch(c)] case Wait(s) => [Sleep(s)]) + Events(steps[1..][..m']);
    }
  }

  /** The converse of PerformFailure: when the fork of spawn `m` fails and every fork before
      it succeeded, the run records the steps before `m` and fails with that spawn's command. */
  lemma {:induction false} PerformFailsAt(steps: seq<Step>, failingForks: set<nat>, forks: nat, m: nat)
    requires m < |steps| && steps[m].Spawn?
    requires forks + Spawns(steps[..m]) in failingForks
    requires forall k :: forks <= k < forks + Spawns(steps[..m]) ==> k !in failingForks
    ensures Perform(steps, failingForks, forks) ==
      Run(Events(steps[..m]), Failure(ForkFailed(CommandLine(steps[m].args))))
    decreases m
  {
    if m == 0 {
      assert steps[..0] == [];
    } else {
      var step := steps[0];
      var next := if step.Spawn? then forks + 1 else forks;
      var prefix := steps[..m];
      assert prefix[0] == step && prefix[1..] == steps[1..][..m - 1];
      assert Spawns(prefix) == (if step.Spawn? then 1 else 0) + Spawns(steps[1..][..m - 1]);
      assert steps[1..][m - 1] == steps[m];
      PerformFailsAt(steps[1..], failingForks, next, m - 1);
      assert Events(prefix) == (match step case Spawn(c) => [Launch(c)] case Wait(s) => [Sleep(s)]) + Events(steps[1..][..m - 1]);
    }
  }

  /** The converse of PerformWithoutFailure: a plan that runs to its end met no failing fork. */
  lemma {:induction false} PerformSucceededForks(steps: seq<Step>, failingForks: set<nat>, forks: nat)
    requires Perform(steps, failingForks, forks).outcome.Success?
    ensures forall k :: forks <= k < forks + Spawns(steps) ==> k !in failingForks
    decreases |steps|
  {
    if steps != [] {
      PerformSucceededForks(steps[1..], failingForks, if steps[0].Spawn? then forks + 1 else forks);
    }
  }

  /** A plan fails exactly when one of the forks it attempts fails. */
  lemma PerformFailsExactly(steps: seq<Step>, failingForks: set<nat>, forks: nat)
    ensures Perform(steps, failingForks, forks).outcome.Failure? <==>
      exists k :: forks <= k < forks + Spawns(steps) && k in failingForks
  {
    if Perform(steps, failingForks, forks).outcome.Success? {
      PerformSucceededForks(steps, failingForks, forks);
    } else if forall k :: forks <= k < forks + Spawns(steps) ==> k !in failingForks {
      PerformWithoutFailure(steps, failingForks, forks);
    }
  }

  /** Once the request passes the gate, it is the `open` action on the resolved arguments. */
  lemma GateOpens(input: Input, env: Environment)
    requires input.scheme == Protocol && input.host == "open"
    ensures HandleRequest(input, env) == OpenFile(ParseArguments(input.query), env)
  {
  }

  /** The events of a launch, with both listings parsed and no fork failing. */
  lemma LaunchEvents(args: OpenArgs, env: Environment, before: Snapshot, after: Snapshot)
    requires args.file != ""
    requires ListWindows(env.before) == Success(before) && ListWindows(env.after) == Success(after)
    requires forall k :: 0 <= k < Spawns(Steps(args, ChooseStrategy(args, env))) ==> k !in env.failingForks
    ensures OpenFile(args, env) ==
      Run(Events(Steps(args, ChooseStrategy(args, env))) + Activation(args.file, before, after), Success(()))
  {
    var steps := Steps(args, ChooseStrategy(args, env));
    PerformWithoutFailure(steps, env.failingForks, 0);
    PerformSuccess(steps, env.failingForks, 0);
  }

  /** A file that is a project root is opened once and given its pause. */
  lemma ProjectRootTrace(args: OpenArgs, env: Environment, before: Snapshot, after: Snapshot)
    requires args.file != ""
    requires ListWindows(env.before) == Success(before) && ListWindows(env.after) == Success(after)
    requires 0 !in env.failingForks
    requires IsProjectRoot(env.directories, args.file)
    ensures OpenFile(args, env) ==
      Run([Launch(args), Sleep(SettleSeconds)] + Activation(args.file, before, after), Success(()))
  {
    TwoStepEvents(args);
    LaunchEvents(args, env, before, after);
  }

  /** When a project root lies above the file, the root is opened bare first, the editor
      gets its pause, and then the file is opened. */
  lemma WarmRootTrace(args: OpenArgs, env: Environment, before: Snapshot, after: Snapshot, root: string)
    requires args.file != ""
    requires ListWindows(env.before) == Success(before) && ListWindows(env.after) == Success(after)
    requires 0 !in env.failingForks && 1 !in env.failingForks
    requires !IsProjectRoot(env.directories, args.file)
    requires Climb(env.existing, ProjectMarker, args.file, None) == Some(root)
    ensures OpenFile(args, env) ==
      Run([Launch(OpenArgs(root, "", "")), Sleep(SettleSeconds), Launch(args)]
            + Activation(args.file, before, after), Success(()))
  {
    ThreeStepEvents(OpenArgs(root, "", ""), args);
    LaunchEvents(args, env, before, after);
  }

  /** With no project root anywhere above, the file is opened once and given its pause. */
  lemma AloneTrace(args: OpenArgs, env: Environment, before: Snapshot, after: Snapshot)
    requires args.file != ""
    requires ListWindows(env.before) == Success(before) && ListWindows(env.after) == Success(after)
    requires 0 !in env.failingForks
    requires !IsProjectRoot(env.directories, args.file)
    requires Climb(env.existing, ProjectMarker, args.file, None).None?
    ensures OpenFile(args, env) ==
      Run([Launch(args), Sleep(SettleSeconds)] + Activation(args.file, before, after), Success(()))
  {
    TwoStepEvents(args);
    LaunchEvents(args, env, before, after);
  }

  lemma TwoStepEvents(args: OpenArgs)
    ensures Events([Spawn(args), Wait(SettleSeconds)]) == [Launch(args), Sleep(SettleSeconds)]
    ensures Spawns([Spawn(args), Wait(SettleSeconds)]) == 1
  {
    var steps := [Spawn(args), Wait(SettleSeconds)];
    assert steps[1..][1..] == [];
    assert Spawns(steps[1..]) == 0;
  }

  lemma ThreeStepEvents(first: OpenArgs, second: OpenArgs)
    ensures Events([Spawn(first), Wait(SettleSeconds), Spawn(second)])
            == [Launch(first), Sleep(SettleSeconds), Launch(second)]
    ensures Spawns([Spawn(first), Wait(SettleSeconds), Spawn(second)]) == 2
  {
    var steps := [Spawn(first), Wait(SettleSeconds), Spawn(second)];
    assert steps[1..][1..][1..] == [];
    assert Events(steps[1..][1..]) == [Launch(second)];
    assert Spawns(steps[1..][1..]) == 1;
    assert Spawns(steps[1..]) == 1;
  }

  /** Activation is the last event when it happens, and it happens exactly when the run
      succeeds with a window selected. */
  lemma ActivateIsLast(args: OpenArgs, env: Environment)
    ensures var run := OpenFile(args, env);
      forall i :: 0 <= i < |run.trace| - 1 ==> !run.trace[i].Activate?
    ensures var run := OpenFile(args, env);
      (|run.trace| > 0 && run.trace[|run.trace| - 1].Activate?) <==>
        (run.outcome.Success? && ListWindows(env.before).Success? && ListWindows(env.after).Success?
         && SelectWindowByFileName(args.file, ListWindows(env.before).value, ListWindows(env.after).value).Some?)
  {
    var run := OpenFile(args, env);
    if ValidateOpenArgs(args).Success? && ListWindows(env.before).Success? {
      var launched := Perform(Steps(args, ChooseStrategy(args, env)), env.failingForks, 0);
      if launched.outcome.Success? && ListWindows(env.after).Success? {
        var act := Activation(args.file, ListWindows(env.before).value, ListWindows(env.after).value);
        assert run.trace == launched.trace + act;
        forall i | 0 <= i < |launched.trace| ensures !run.trace[i].Activate? {
          assert run.trace[i] == launched.trace[i];
        }
      }
    }
  }

  /** When a fork that the chosen branch attempts fails, the run fails with ForkFailed and
      status 5, and no window is activated. */
  lemma ForkFailureAborts(args: OpenArgs, env: Environment)
    requires args.file != "" && ListWindows(env.before).Success?
    requires exists k :: 0 <= k < Spawns(Steps(args, ChooseStrategy(args, env))) && k in env.failingForks
    ensures OpenFile(args, env).outcome.Failure? && OpenFile(args, env).outcome.error.ForkFailed?
    ensures ExitStatus(OpenFile(args, env)) == 5
    ensures forall i :: 0 <= i < |OpenFile(args, env).trace| ==> !OpenFile(args, env).trace[i].Activate?
  {
    PerformFailsExactly(Steps(args, ChooseStrategy(args, env)), env.failingForks, 0);
  }

  /** When the first fork fails, nothing is recorded and the status is 5; the error names the
      first command of the branch. */
  lemma FirstForkFails(args: OpenArgs, env: Environment)
    requires args.file != "" && ListWindows(env.before).Success?
    requires 0 in env.failingForks
    ensures OpenFile(args, env) ==
      Run([], Failure(ForkFailed(CommandLine(Steps(args, ChooseStrategy(args, env))[0].args))))
    ensures ExitStatus(OpenFile(args, env)) == 5
  {
  }

  /** When a project root lies above the file and its bare launch succeeds but the launch of
      the file fails, the root's launch and pause are recorded and the status is 5. */
  lemma WarmRootForkFails(args: OpenArgs, env: Environment, root: string)
    requires args.file != "" && ListWindows(env.before).Success?
    requires !IsProjectRoot(env.directories, args.file)
    requires Climb(env.existing, ProjectMarker, args.file, None) == Some(root)
    requires 0 !in env.failingForks && 1 in env.failingForks
    ensures OpenFile(args, env) ==
      Run([Launch(OpenArgs(root, "", "")), Sleep(SettleSeconds)], Failure(ForkFailed(CommandLine(args))))
    ensures ExitStatus(OpenFile(args, env)) == 5
  {
    var steps := [Spawn(OpenArgs(root, "", "")), Wait(SettleSeconds), Spawn(args)];
    assert Steps(args, ChooseStrategy(args, env)) == steps;
    assert steps[..2] == [Spawn(OpenArgs(root, "", "")), Wait(SettleSeconds)];
    TwoStepEvents(OpenArgs(root, "", ""));
    PerformFailsAt(steps, env.failingForks, 0, 2);
  }

  /** A run that succeeds has launched the editor on the requested file, and that was its
      last launch. */
  lemma SuccessLaunchesFile(args: OpenArgs, env: Environment) returns (i: nat)
    requires OpenFile(args, env).outcome.Success?
    ensures var run := OpenFile(args, env);
      i < |run.trace| && run.trace[i] == Launch(args)
      && forall j :: i < j < |run.trace| ==> !run.trace[j].Launch?
  {
    var steps := SucceededSteps(args, env);
    var strategy := ChooseStrategy(args, env);
    if strategy.WarmRoot? {
      ThreeStepEvents(OpenArgs(strategy.root, "", ""), args);
      i := 2;
    } else {
      TwoStepEvents(args);
      i := 0;
    }
  }

  /** A run that succeeds carried out its whole plan, then made its activation. */
  lemma SucceededSteps(args: OpenArgs, env: Environment) returns (steps: seq<Step>)
    requires OpenFile(args, env).outcome.Success?
    ensures steps == Steps(args, ChooseStrategy(args, env))
    ensures ListWindows(env.before).Success? && ListWindows(env.after).Success?
    ensures OpenFile(args, env).trace ==
      Events(steps) + Activation(args.file, ListWindows(env.before).value, ListWindows(env.after).value)
  {
    steps := Steps(args, ChooseStrategy(args, env));
    var launched := Perform(steps, env.failingForks, 0);
    assert launched.outcome.Success?;
    PerformSuccess(steps, env.failingForks, 0);
  }

  /** A `line` naming a column, with no `column` given, reaches the editor as both flags. */
  lemma LineColumnReachesEditor(query: map<string, string>, line: string, column: string)
    requires line != "" && ':' !in line && column != "" && column[|column| - 1] != ':'
    requires "line" in query && query["line"] == line + ":" + column
    requires "column" !in query
    ensures var words := CommandWords(ParseArguments(query));
      words[2..6] == ["--line", EscapeShellArg(line), "--column", EscapeShellArg(column)]
  {
    LineColumnParsed(query, line, column);
    var words := CommandWords(ParseArguments(query));
    assert words[2..6] == words[2..4] + words[4..6];
  }

  lemma LineColumnParsed(query: map<string, string>, line: string, column: string)
    requires line != "" && ':' !in line && column != "" && column[|column| - 1] != ':'
    requires "line" in query && query["line"] == line + ":" + column
    requires "column" !in query
    ensures ParseArguments(query).line == line && ParseArguments(query).column == column
  {
    LineWithColumn(line, column);
    assert Get(query, "line", "") == line + ":" + column && Get(query, "column", "") == "";
  }
}
