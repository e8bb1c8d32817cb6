/** The second script runner (src-tester): a menu of numbered steps, any of which the
    operator may open in any order. Each step carries a status that executing it updates,
    and commands run by a step fail with an exception that records the exit code. Operator
    answers and the outcomes of step actions are inputs. */
module StepMenu {
  import opened Strings
  import opened Processes

  // ---------------------------------------------------------------------------
  // Step status and its label
  // ---------------------------------------------------------------------------

  datatype StepStatus = Pending | Completed | Skipped | Failed

  /** `StepStatusExtensions.ToMarkup`: the status name wrapped in its colour tag. */
  function ToMarkup(status: StepStatus): (markup: string)
  {
    match status
    case Pending => "[grey]Pending[/]"
    case Completed => "[green]Completed[/]"
    case Skipped => "[yellow]Skipped[/]"
    case Failed => "[red]Failed[/]"
  }

  /** Different statuses are shown differently. */
  lemma ToMarkupInjective(a: StepStatus, b: StepStatus)
    requires ToMarkup(a) == ToMarkup(b)
    ensures a == b
  {
    assert |ToMarkup(a)| == |ToMarkup(b)|;
  }

  // ---------------------------------------------------------------------------
  // Failures and CommandException
  // ---------------------------------------------------------------------------

  /** An exception a step action can end with: a `CommandException`, which keeps the command,
      its exit code and its captured output (None when nothing was captured), or any other
      exception, of which only the message matters. */
  datatype Failure =
    | CommandFailure(command: string, exitCode: int, output: Option<string>)
    | OtherFailure(text: string)

  datatype Outcome = Ok | Threw(failure: Failure)

  const CommandOpening := "Command '"
  const CodeInfix := "' failed with exit code "

  /** The message `CommandException` passes to its base class. */
  function CommandMessage(command: string, exitCode: int): (r: string)
  {
    CommandOpening + command + CodeInfix + IntToString(exitCode) + "."
  }

  function Message(f: Failure): (r: string)
  {
    match f
    case CommandFailure(command, exitCode, _) => CommandMessage(command, exitCode)
    case OtherFailure(text) => text
  }

  /** Reads the command and the exit code back out of a command-failure message. The command
      may itself contain the infix, so the last occurrence is the one that counts. */
  function ParseCommandMessage(message: string): (r: Option<(string, int)>)
  {
    if |message| > |CommandOpening| && message[..|CommandOpening|] == CommandOpening && message[|message| - 1] == '.' then
      var body := message[|CommandOpening|..|message| - 1];
      match LastOccurrence(body, CodeInfix, |body|)
      case None => None
      case Some(p) =>
        match TryParseInt(body[p + |CodeInfix|..])
        case None => None
        case Some(code) => Some((body[..p], code))
    else None
  }

  /** After the command, the infix occurs nowhere but right behind it. */
  lemma NoLaterInfix(command: string, digits: string)
    requires forall k :: 0 <= k < |digits| ==> digits[k] != '\''
    ensures forall k :: |command| < k <= |command + CodeInfix + digits| ==>
      !OccursAt(command + CodeInfix + digits, CodeInfix, k)
  {
    var body := command + CodeInfix + digits;
    forall k | |command| < k <= |body|
      ensures !OccursAt(body, CodeInfix, k)
    {
      if k + |CodeInfix| <= |body| {
        assert body[k] != '\'' by {
          if k < |command| + |CodeInfix| {
            assert body[k] == CodeInfix[k - |command|];
          } else {
            assert body[k] == digits[k - |command| - |CodeInfix|];
          }
        }
        assert body[k..k + |CodeInfix|][0] == body[k];
      }
    }
  }

  /** The message names the command and the exit code it was built from. */
  lemma CommandMessageRoundTrip(command: string, exitCode: int)
    ensures ParseCommandMessage(CommandMessage(command, exitCode)) == Some((command, exitCode))
  {
    var digits := IntToString(exitCode);
    var body := command + CodeInfix + digits;
    var message := CommandMessage(command, exitCode);
    assert message == CommandOpening + body + ".";
    assert message[..|CommandOpening|] == CommandOpening;
    assert message[|CommandOpening|..|message| - 1] == body;
    assert body[|command|..|command| + |CodeInfix|] == CodeInfix;
    NoLaterInfix(command, digits);
    LastOccurrenceFinds(body, CodeInfix, |body|, |command|);
    assert body[|command| + |CodeInfix|..] == digits;
    assert body[..|command|] == command;
    IntToStringRoundTrip(exitCode);
  }

  const NoOutput := "<no output>"

  /** The output panel ShowStep prints after a failure: only a `CommandException` has one,
      showing the captured output or a placeholder when none was captured. */
  function DisplayedOutput(f: Failure): (panel: Option<string>)
    ensures panel.Some? <==> f.CommandFailure?
    ensures f.CommandFailure? && f.output.Some? ==> panel == f.output
  {
    match f
    case CommandFailure(_, _, output) => if output.Some? then output else Some(NoOutput)
    case OtherFailure(_) => None
  }

  // ---------------------------------------------------------------------------
  // Exit codes of child processes
  // ---------------------------------------------------------------------------

  const FailedToStartProcess := "Failed to start process"
  const FailedToLaunchInteractive := "Failed to launch interactive process"

  /** A command run through `pwsh` with its output captured in `output`: it fails exactly when
      the exit code is non-zero, with a `CommandException` that keeps the command, the code
      and the output. */
  function RunPwsh(command: string, launch: Launch, output: string): (r: Outcome)
    ensures launch.Exited? ==> (r.Threw? <==> launch.exitCode != 0)
    ensures launch.Exited? && r.Threw? ==>
      r.failure.CommandFailure? && r.failure.output == Some(output) &&
      ParseCommandMessage(Message(r.failure)) == Some((command, launch.exitCode))
    ensures launch.ReturnedNull? ==> r == Threw(OtherFailure(FailedToStartProcess))
    ensures launch.StartThrew? ==> r == Threw(OtherFailure(launch.message))
  {
    match launch
    case Exited(code) =>
      if code != 0 then
        CommandMessageRoundTrip(command, code);
        Threw(CommandFailure(command, code, Some(output)))
      else Ok
    case ReturnedNull => Threw(OtherFailure(FailedToStartProcess))
    case StartThrew(message) => Threw(OtherFailure(message))
  }

  /** An interactive command: like a captured one it fails exactly when the exit code is
      non-zero, but its `CommandException` carries no output. */
  function RunPwshInteractive(command: string, launch: Launch): (r: Outcome)
    ensures launch.Exited? ==> (r.Threw? <==> launch.exitCode != 0)
    ensures launch.Exited? && r.Threw? ==>
      r.failure.CommandFailure? && r.failure.output.None? &&
      ParseCommandMessage(Message(r.failure)) == Some((command, launch.exitCode))
    ensures launch.ReturnedNull? ==> r == Threw(OtherFailure(FailedToLaunchInteractive))
    ensures launch.StartThrew? ==> r == Threw(OtherFailure(launch.message))
  {
    match launch
    case Exited(code) =>
      if code != 0 then
        CommandMessageRoundTrip(command, code);
        Threw(CommandFailure(command, code, None))
      else Ok
    case ReturnedNull => Threw(OtherFailure(FailedToLaunchInteractive))
    case StartThrew(message) => Threw(OtherFailure(message))
  }

  /** A failed interactive command shows the placeholder instead of output. */
  lemma InteractiveFailureShowsPlaceholder(command: string, code: int)
    requires code != 0
    ensures DisplayedOutput(RunPwshInteractive(command, Exited(code)).failure) == Some(NoOutput)
  {
  }

  // ---------------------------------------------------------------------------
  // Working directory
  // ---------------------------------------------------------------------------

  /** The state shared by all steps: the working directory Step 1 chooses. */
  class RunnerContext {
    var workingDirectory: Option<string>

    constructor ()
      ensures workingDirectory == None
    {
      workingDirectory := None;
    }
  }

  const RunStepOneFirst := "You must run Step 1 first to set a working directory."

  /** The guard of every step that needs the working directory: it throws exactly when the
      directory is missing or empty (a blank one passes). */
  function RequireDir(c: RunnerContext): (r: Outcome)
    reads c
    ensures r.Threw? <==> IsNullOrEmpty(c.workingDirectory)
    ensures r.Threw? ==> r.failure == OtherFailure(RunStepOneFirst)
  {
    if IsNullOrEmpty(c.workingDirectory) then Threw(OtherFailure(RunStepOneFirst)) else Ok
  }

  const PathCannotBeEmpty := "Path cannot be empty"

  /** Step 1: a blank answer is refused and the context left alone; any other answer makes
      `fullPath`, the answer resolved to an absolute path, the working directory (creating
      the folder is not modelled). */
  method SelectFolder(c: RunnerContext, answer: string, fullPath: string) returns (r: Outcome)
    modifies c
    ensures r.Threw? <==> IsNullOrWhiteSpace(Some(answer))
    ensures r.Threw? ==> r.failure == OtherFailure(PathCannotBeEmpty) && c.workingDirectory == old(c.workingDirectory)
    ensures r.Ok? ==> c.workingDirectory == Some(fullPath)
  {
    if IsNullOrWhiteSpace(Some(answer)) {
      return Threw(OtherFailure(PathCannotBeEmpty));
    }
    c.workingDirectory := Some(fullPath);
    return Ok;
  }

  /** Once Step 1 has set a resolved path, which is never empty, the guard passes. */
  lemma SelectedFolderPassesGuard(c: RunnerContext, fullPath: string)
    requires fullPath != "" && c.workingDirectory == Some(fullPath)
    ensures RequireDir(c) == Ok
  {
  }

  // ---------------------------------------------------------------------------
  // Steps and their ids
  // ---------------------------------------------------------------------------

  /** A step of the menu; its action is not part of the object here, because the outcome of
      each execution is an input of the model. */
  class Step {
    const id: int
    const title: string
    const description: Option<string>
    var status: StepStatus

    constructor (id: int, title: string, description: Option<string>)
      ensures this.id == id && this.title == title && this.description == description
      ensures status == Pending
    {
      this.id := id;
      this.title := title;
      this.description := description;
      status := Pending;
    }
  }

  /** The ids are 1, 2, 3, … in list order. */
  predicate ConsecutiveIds(steps: seq<Step>)
  {
    forall k :: 0 <= k < |steps| ==> steps[k].id == k + 1
  }

  function Ids(steps: seq<Step>): (ids: seq<int>)
    ensures |ids| == |steps| && forall k :: 0 <= k < |steps| ==> ids[k] == steps[k].id
  {
    if steps == [] then [] else Ids(steps[..|steps| - 1]) + [steps[|steps| - 1].id]
  }

  function Statuses(steps: seq<Step>): (statuses: seq<StepStatus>)
    reads steps
    ensures |statuses| == |steps| && forall k :: 0 <= k < |steps| ==> statuses[k] == steps[k].status
  {
    if steps == [] then [] else Statuses(steps[..|steps| - 1]) + [steps[|steps| - 1].status]
  }

  /** Consecutive ids are distinct, and so are the steps that carry them. */
  lemma ConsecutiveIdsDistinct(steps: seq<Step>)
    requires ConsecutiveIds(steps)
    ensures forall i, j :: 0 <= i < |steps| && 0 <= j < |steps| && i != j ==> Ids(steps)[i] != Ids(steps)[j]
    ensures forall i, j :: 0 <= i < |steps| && 0 <= j < |steps| && i != j ==> steps[i] != steps[j]
  {
  }

  /** The list `CreateSteps` fills and the id counter its local `Add` advances. */
  class StepBuilder {
    var steps: seq<Step>
    var nextId: int

    constructor ()
      ensures steps == [] && nextId == 1
    {
      steps := [];
      nextId := 1;
    }

    /** Ids match positions and the counter holds the next one. */
    predicate Valid()
      reads this
    {
      ConsecutiveIds(steps) && nextId == |steps| + 1
    }

    /** `Add`: a new pending step with the current id, appended; the counter moves on. */
    method Add(title: string, description: string) returns (step: Step)
      modifies this
      ensures fresh(step) && step.id == old(nextId) && step.title == title
      ensures step.description == Some(description) && step.status == Pending
      ensures steps == old(steps) + [step] && nextId == old(nextId) + 1
      ensures old(Valid()) ==> Valid()
    {
      step := new Step(nextId, title, Some(description));
      steps := steps + [step];
      nextId := nextId + 1;
    }
  }

  const StepTitles := [
    "Select empty folder",
    "Create Directory.Build.props",
    "Enable default watch",
    "Create Aspire projects",
    "(Optional) Open solution in VS",
    "Create Razor Pages web app",
    "Add web project to solution",
    "Run dotnet watch",
    "Check dashboard (No Resources)",
    "Follow remaining steps (10-45)"
  ]

  const StepDescriptions := [
    "Prompt for (or create) an empty folder to work in.",
    "Creates Directory.Build.props enabling HotReloadAutoRestart.",
    "Runs: aspire config set features.defaultWatchEnabled true -g",
    "Launches 'aspire new' interactively. Choose Template: AppHost and service defaults, Name: PhotoGallery, Path: .\\, Template version: daily.",
    "Manual step: If using Visual Studio, open the generated solution (.sln) now.",
    "Runs: dotnet new web -o PhotoGallery.Web -f net9.0",
    "Runs: dotnet sln .\\PhotoGallery.sln add .\\PhotoGallery.Web\\PhotoGallery.Web.csproj (skip if using VS auto-added)",
    "Runs: dotnet watch --verbose --non-interactive. Stop (Ctrl+C) to continue.",
    "Manual verification: Dashboard should show 'No Resources Found'",
    "Manual/Guided: Continue with steps 10-45 using original script. Future enhancement: expand each as discrete executable steps."
  ]

  /** The first `n` steps are in place: numbered, titled and described as listed, and pending. */
  predicate BuiltSoFar(steps: seq<Step>, n: nat)
    reads steps
  {
    n <= |StepTitles| && |steps| == n && ConsecutiveIds(steps) &&
    forall k :: 0 <= k < n ==>
      steps[k].title == StepTitles[k] && steps[k].description == Some(StepDescriptions[k]) &&
      steps[k].status == Pending
  }

  /** One of the `Add` calls of `CreateSteps`: the `n`-th listed step. */
  method AddListed(b: StepBuilder, n: nat)
    requires n < |StepTitles| && BuiltSoFar(b.steps, n) && b.nextId == n + 1
    modifies b
    ensures BuiltSoFar(b.steps, n + 1) && b.nextId == n + 2
  {
    var _ := b.Add(StepTitles[n], StepDescriptions[n]);
  }

  /** `StepFactory.CreateSteps`: the ten steps, numbered from 1 in the order they are added,
      with their listed titles and descriptions, all pending. */
  method CreateSteps() returns (steps: seq<Step>)
    ensures |steps| == |StepTitles| && ConsecutiveIds(steps)
    ensures forall k :: 0 <= k < |steps| ==> steps[k].title == StepTitles[k] && steps[k].status == Pending
    ensures forall k :: 0 <= k < |steps| ==> steps[k].description == Some(StepDescriptions[k])
  {
    var b := new StepBuilder();
    AddListed(b, 0);
    AddListed(b, 1);
    AddListed(b, 2);
    AddListed(b, 3);
    AddListed(b, 4);
    AddListed(b, 5);
    AddListed(b, 6);
    AddListed(b, 7);
    AddListed(b, 8);
    AddListed(b, 9);
    steps := b.steps;
  }

  // ---------------------------------------------------------------------------
  // ShowStep
  // ---------------------------------------------------------------------------

  /** The entries of a step's own menu; executing carries how the action ended that time. */
  datatype StepCommand = ExecuteStep(outcome: Outcome) | GoBack | Quit

  /** How a visit to a step ends: back to the menu, with the whole program exiting with 0, or
      still waiting for the operator's next command. */
  datatype VisitExit = Returned | ExitedApp | Waiting

  datatype Visit = Visit(status: StepStatus, exit: VisitExit)

  /** The status an execution leaves behind. */
  function StatusAfter(outcome: Outcome): (r: StepStatus)
  {
    if outcome.Ok? then Completed else Failed
  }

  /** A visit to a step whose status is `status`, over the operator's commands. */
  function VisitStep(status: StepStatus, commands: seq<StepCommand>): (v: Visit)
    ensures v.status == status || v.status == Completed || v.status == Failed
    decreases |commands|
  {
    if commands == [] then Visit(status, Waiting)
    else match commands[0]
      case GoBack => Visit(status, Returned)
      case Quit => Visit(status, ExitedApp)
      case ExecuteStep(outcome) => VisitStep(StatusAfter(outcome), commands[1..])
  }

  /** The outcomes of the executions a visit performs before it ends. */
  function Executions(commands: seq<StepCommand>): (r: seq<Outcome>)
  {
    if commands == [] || !commands[0].ExecuteStep? then []
    else [commands[0].outcome] + Executions(commands[1..])
  }

  /** A visit leaves the status of its last execution, or the old status if it executed
      nothing. */
  lemma {:induction false} VisitFollowsLastExecution(status: StepStatus, commands: seq<StepCommand>)
    ensures var runs := Executions(commands);
      VisitStep(status, commands).status == if runs == [] then status else StatusAfter(runs[|runs| - 1])
    decreases |commands|
  {
    if commands != [] && commands[0].ExecuteStep? {
      VisitFollowsLastExecution(StatusAfter(commands[0].outcome), commands[1..]);
    }
  }

  /** `ShowStep`: the step's own loop, which sets the status after every execution. */
  method ShowStep(step: Step, commands: seq<StepCommand>) returns (exit: VisitExit)
    modifies step
    ensures step.status == VisitStep(old(step.status), commands).status
    ensures exit == VisitStep(old(step.status), commands).exit
  {
    var i := 0;
    while i < |commands|
      invariant i <= |commands|
      invariant VisitStep(old(step.status), commands) == VisitStep(step.status, commands[i..])
    {
      assert commands[i..][0] == commands[i] && commands[i..][1..] == commands[i + 1..];
      match commands[i] {
        case GoBack =>
          return Returned;
        case Quit =>
          return ExitedApp;
        case ExecuteStep(outcome) =>
          if outcome.Ok? {
            step.status := Completed;
          } else {
            step.status := Failed;
          }
      }
      i := i + 1;
    }
    return Waiting;
  }

  // ---------------------------------------------------------------------------
  // The main menu
  // ---------------------------------------------------------------------------

  /** The entries of the main menu: every step id in list order, then `Quit`. */
  function MenuChoices(ids: seq<int>): (choices: seq<string>)
    ensures |choices| == |ids| + 1
  {
    if ids == [] then ["Quit"] else [IntToString(ids[0])] + MenuChoices(ids[1..])
  }

  lemma {:induction false} MenuChoiceAt(ids: seq<int>, k: nat)
    requires k <= |ids|
    ensures MenuChoices(ids)[k] == if k == |ids| then "Quit" else IntToString(ids[k])
  {
    if k > 0 {
      MenuChoiceAt(ids[1..], k - 1);
    }
  }

  /** `steps.First(x => x.Id == id)`: the position of the first step with that id. */
  function FindById(ids: seq<int>, id: int): (r: Option<nat>)
    ensures r.Some? ==> r.value < |ids| && ids[r.value] == id
    ensures r.Some? ==> forall k :: 0 <= k < r.value ==> ids[k] != id
    ensures r.None? ==> forall k :: 0 <= k < |ids| ==> ids[k] != id
  {
    if ids == [] then None
    else if ids[0] == id then Some(0)
    else match FindById(ids[1..], id)
      case None => None
      case Some(k) => Some(k + 1)
  }

  /** How the program ends: `Quit` in the menu, `Quit` inside a step (both exit with 0), a
      selected id no step has (an unhandled exception), or waiting for the operator. */
  datatype SessionEnd = MenuQuit | StepQuit | NoSuchStep | AwaitingInput

  datatype Session = Session(statuses: seq<StepStatus>, end: SessionEnd)

  /** One round of the menu: the entry selected and the commands given inside that step. */
  datatype MenuTurn = MenuTurn(selection: string, commands: seq<StepCommand>)

  /** The menu loop over the statuses of steps with ids `ids`. */
  function RunSession(statuses: seq<StepStatus>, ids: seq<int>, turns: seq<MenuTurn>): (s: Session)
    requires |statuses| == |ids|
    ensures |s.statuses| == |ids|
    decreases |turns|
  {
    if turns == [] then Session(statuses, AwaitingInput)
    else
      var t := turns[0];
      if t.selection == "Quit" then Session(statuses, MenuQuit)
      else match TryParseInt(t.selection)
        case None => RunSession(statuses, ids, turns[1..])
        case Some(id) =>
          match FindById(ids, id)
          case None => Session(statuses, NoSuchStep)
          case Some(k) =>
            var v := VisitStep(statuses[k], t.commands);
            var after := statuses[k := v.status];
            match v.exit
            case Returned => RunSession(after, ids, turns[1..])
            case ExitedApp => Session(after, StepQuit)
            case Waiting => Session(after, AwaitingInput)
  }

  /** The top-level loop of the program over the steps `CreateSteps` made. */
  method RunMenu(steps: seq<Step>, turns: seq<MenuTurn>) returns (end: SessionEnd)
    requires ConsecutiveIds(steps)
    modifies steps
    ensures Statuses(steps) == RunSession(old(Statuses(steps)), Ids(steps), turns).statuses
    ensures end == RunSession(old(Statuses(steps)), Ids(steps), turns).end
  {
    ConsecutiveIdsDistinct(steps);
    var ids := Ids(steps);
    var t := 0;
    while t < |turns|
      invariant t <= |turns|
      invariant RunSession(old(Statuses(steps)), ids, turns) == RunSession(Statuses(steps), ids, turns[t..])
    {
      var turn := turns[t];
      assert turns[t..][0] == turn && turns[t..][1..] == turns[t + 1..];
      if turn.selection == "Quit" {
        return MenuQuit;
      }
      var parsed := TryParseInt(turn.selection);
      if parsed.None? {
        t := t + 1;
        continue;
      }
      var found := FindById(ids, parsed.value);
      if found.None? {
        return NoSuchStep;
      }
      var k := found.value;
      ghost var before := Statuses(steps);
      var exit := ShowStep(steps[k], turn.commands);
      assert Statuses(steps) == before[k := steps[k].status];
      match exit {
        case Returned =>
          t := t + 1;
        case ExitedApp =>
          return StepQuit;
        case Waiting =>
          return AwaitingInput;
      }
    }
    return AwaitingInput;
  }

  /** A step-id entry of the menu is never the word `Quit`. */
  lemma IdIsNotQuit(id: int)
    ensures IntToString(id) != "Quit"
  {
    assert IntToString(id)[0] != 'Q';
  }

  /** Selecting the k-th menu entry opens the k-th step, whatever the statuses of the steps
      before it: only that step's status changes, as the visit leaves it. */
  lemma SelectingAnyStep(statuses: seq<StepStatus>, ids: seq<int>, k: nat, commands: seq<StepCommand>, rest: seq<MenuTurn>)
    requires |statuses| == |ids| && k < |ids|
    requires forall i, j :: 0 <= i < |ids| && 0 <= j < |ids| && i != j ==> ids[i] != ids[j]
    ensures var v := VisitStep(statuses[k], commands);
      var after := statuses[k := v.status];
      RunSession(statuses, ids, [MenuTurn(MenuChoices(ids)[k], commands)] + rest) ==
        match v.exit
        case Returned => RunSession(after, ids, rest)
        case ExitedApp => Session(after, StepQuit)
        case Waiting => Session(after, AwaitingInput)
  {
    var turns := [MenuTurn(MenuChoices(ids)[k], commands)] + rest;
    MenuChoiceAt(ids, k);
    IdIsNotQuit(ids[k]);
    IntToStringRoundTrip(ids[k]);
    assert FindById(ids, ids[k]) == Some(k);
    assert turns[1..] == rest;
  }

  /** The last menu entry ends the program. */
  lemma SelectingQuit(statuses: seq<StepStatus>, ids: seq<int>, commands: seq<StepCommand>, rest: seq<MenuTurn>)
    requires |statuses| == |ids|
    ensures RunSession(statuses, ids, [MenuTurn(MenuChoices(ids)[|ids|], commands)] + rest) == Session(statuses, MenuQuit)
  {
    MenuChoiceAt(ids, |ids|);
  }

  /** No path through the menu sets a step to Skipped. */
  lemma {:induction false} SessionNeverSkips(statuses: seq<StepStatus>, ids: seq<int>, turns: seq<MenuTurn>)
    requires |statuses| == |ids|
    ensures forall k :: 0 <= k < |ids| && RunSession(statuses, ids, turns).statuses[k] == Skipped ==>
      statuses[k] == Skipped
    decreases |turns|
  {
    if turns != [] && turns[0].selection != "Quit" {
      var t := turns[0];
      match TryParseInt(t.selection) {
        case None =>
          SessionNeverSkips(statuses, ids, turns[1..]);
        case Some(id) =>
          match FindById(ids, id) {
            case None =>
            case Some(k) =>
              var v := VisitStep(statuses[k], t.commands);
              SessionNeverSkips(statuses[k := v.status], ids, turns[1..]);
          }
      }
    }
  }
}
