/** The first script runner (PhotoGalleryScriptRunner): a linear walk over numbered steps
    driven by the operator's menu choices, the working-directory guard most later steps
    call first, and the rules that turn a child process's exit code into success or failure.
    Operator answers and the outcomes of step actions are inputs; a run that needs more
    answers than it is given stops with no exit code, as the program would wait at its prompt. */
module ScriptRunner {
  import opened Strings
  import opened Processes

  // ---------------------------------------------------------------------------
  // Working directory
  // ---------------------------------------------------------------------------

  /** How a step action, or a helper it calls, ended: normally, or by throwing an
      exception that carries a message. */
  datatype Outcome = Ok | Threw(message: string)

  /** The state shared by all steps: the working directory Step 1 chooses. */
  class ScriptContext {
    var workingDirectory: Option<string>

    constructor ()
      ensures workingDirectory == None
    {
      workingDirectory := None;
    }
  }

  const WorkingDirectoryNotSet := "Working directory not set. Execute Step 1 first."

  /** The guard at the start of most steps after the first: it throws exactly when no usable
      working directory has been chosen, that is when it is missing or only white space. */
  function EnsureWorking(ctx: ScriptContext): (r: Outcome)
    reads ctx
    ensures r.Threw? <==> IsNullOrWhiteSpace(ctx.workingDirectory)
    ensures r.Threw? ==> r.message == WorkingDirectoryNotSet
  {
    if IsNullOrWhiteSpace(ctx.workingDirectory) then Threw(WorkingDirectoryNotSet) else Ok
  }

  /** `Path.IsPathRooted` on Windows: a leading directory separator or a drive letter and a colon. */
  predicate IsPathRooted(path: string)
  {
    (|path| >= 1 && (path[0] == '\\' || path[0] == '/')) ||
    (|path| >= 2 && (('a' <= path[0] <= 'z') || ('A' <= path[0] <= 'Z')) && path[1] == ':')
  }

  const PathMustBeAbsolute := "Path must be absolute."

  /** Step 1: `path` is the operator's answer once trimmed and with its environment variables
      expanded. A relative path is refused and the context is left alone; an absolute one
      becomes the working directory (creating the folder is not modelled). */
  method SelectWorkingFolder(ctx: ScriptContext, path: string) returns (r: Outcome)
    modifies ctx
    ensures r.Threw? <==> !IsPathRooted(path)
    ensures r.Threw? ==> r.message == PathMustBeAbsolute && ctx.workingDirectory == old(ctx.workingDirectory)
    ensures r.Ok? ==> ctx.workingDirectory == Some(path)
  {
    if !IsPathRooted(path) {
      return Threw(PathMustBeAbsolute);
    }
    ctx.workingDirectory := Some(path);
    return Ok;
  }

  /** An absolute path is never blank, so once Step 1 has succeeded the guard passes wherever
      a later step calls it. */
  lemma RootedPathPassesGuard(ctx: ScriptContext, path: string)
    requires IsPathRooted(path) && ctx.workingDirectory == Some(path)
    ensures EnsureWorking(ctx) == Ok
  {
    assert !IsWhiteSpace(path[0]);
  }

  // ---------------------------------------------------------------------------
  // Exit codes of child processes
  // ---------------------------------------------------------------------------

  const CommandFailedPrefix := "Command failed with exit code "
  const NullReferenceMessage := "Object reference not set to an instance of an object."

  /** A command run through `pwsh` with its output captured: it fails exactly when the exit
      code is non-zero, with a message that names the code. The source dereferences the
      started process without a check, so a null process ends in a null-reference failure. */
  function RunPwsh(launch: Launch): (r: Outcome)
    ensures launch.Exited? ==> (r.Ok? <==> launch.exitCode == 0)
    ensures launch.Exited? && r.Threw? ==> ExitCodeOfMessage(r.message) == Some(launch.exitCode)
    ensures launch.StartThrew? ==> r == Threw(launch.message)
    ensures launch.ReturnedNull? ==> r.Threw?
  {
    match launch
    case Exited(code) =>
      if code != 0 then
        CommandFailedMessageNamesCode(code);
        Threw(CommandFailedPrefix + IntToString(code))
      else Ok
    case ReturnedNull => Threw(NullReferenceMessage)
    case StartThrew(message) => Threw(message)
  }

  /** Reads the exit code back out of a command-failure message, or None for any other message. */
  function ExitCodeOfMessage(message: string): (r: Option<int>)
  {
    if |message| >= |CommandFailedPrefix| && message[..|CommandFailedPrefix|] == CommandFailedPrefix
    then TryParseInt(message[|CommandFailedPrefix|..])
    else None
  }

  lemma CommandFailedMessageNamesCode(code: int)
    ensures ExitCodeOfMessage(CommandFailedPrefix + IntToString(code)) == Some(code)
  {
    var message := CommandFailedPrefix + IntToString(code);
    assert message[..|CommandFailedPrefix|] == CommandFailedPrefix;
    assert message[|CommandFailedPrefix|..] == IntToString(code);
    IntToStringRoundTrip(code);
  }

  const FailedToStartProcess := "Failed to start process"

  /** An interactive child process, started through the shell: it fails only when no process
      could be started. Any exit code, non-zero included, lets the step go on. */
  function RunInteractiveProcess(launch: Launch): (r: Outcome)
    ensures launch.Exited? ==> r.Ok?
    ensures launch.ReturnedNull? ==> r == Threw(FailedToStartProcess)
    ensures launch.StartThrew? ==> r == Threw(launch.message)
  {
    match launch
    case Exited(_) => Ok
    case ReturnedNull => Threw(FailedToStartProcess)
    case StartThrew(message) => Threw(message)
  }

  /** The warning line an interactive process leaves when it exits with a non-zero code. */
  function InteractiveWarning(launch: Launch): (w: Option<string>)
    ensures w.Some? <==> launch.Exited? && launch.exitCode != 0
  {
    if launch.Exited? && launch.exitCode != 0 then
      Some("Process exited with code " + IntToString(launch.exitCode) + ". Continue if acceptable.")
    else None
  }

  /** A non-zero exit fails a captured command but not an interactive one. */
  lemma NonZeroExitContrast(code: int)
    requires code != 0
    ensures RunPwsh(Exited(code)).Threw? && RunInteractiveProcess(Exited(code)).Ok?
    ensures InteractiveWarning(Exited(code)).Some?
  {
  }

  // ---------------------------------------------------------------------------
  // The step navigation loop
  // ---------------------------------------------------------------------------

  /** The three entries of the per-step menu. */
  datatype Choice = ExecuteStep | GoBack | Quit

  /** One round of the loop as the operator and the step action play it: the menu choice,
      how the action ended when the step is executed, and the answer to the confirmation
      that follows (quit for real after Quit, continue anyway after a failure). */
  datatype Turn = Turn(choice: Choice, outcome: Outcome, confirmed: bool)

  /** A failed step whose operator declines to continue. */
  predicate Declined(t: Turn)
  {
    t.choice == ExecuteStep && t.outcome.Threw? && !t.confirmed
  }

  /** A confirmed Quit. */
  predicate QuitConfirmed(t: Turn)
  {
    t.choice == Quit && t.confirmed
  }

  /** Where the loop got to: the exit code (None while it still waits for an answer), the
      indices of the steps whose action ran, in order, the final index and how many turns
      it read. */
  datatype Run = Run(exit: Option<int>, executed: seq<nat>, cursor: nat, consumed: nat)

  /** A run that first executed the steps `executed` in one turn and then went on as `r`. */
  function After(executed: seq<nat>, r: Run): (whole: Run)
  {
    Run(r.exit, executed + r.executed, r.cursor, r.consumed + 1)
  }

  /** The loop of `Main` from step `index` on, over the turns still to come. */
  function Drive(count: nat, index: nat, turns: seq<Turn>): (r: Run)
    requires index <= count
    decreases |turns|
  {
    if index == count then Run(Some(0), [], index, 0)
    else if turns == [] then Run(None, [], index, 0)
    else
      var t := turns[0];
      match t.choice
      case Quit =>
        if t.confirmed then Run(Some(0), [], index, 1) else After([], Drive(count, index, turns[1..]))
      case GoBack =>
        After([], Drive(count, if index > 0 then index - 1 else 0, turns[1..]))
      case ExecuteStep =>
        if Declined(t) then Run(Some(1), [index], index, 1)
        else After([index], Drive(count, index + 1, turns[1..]))
  }

  /** The whole run seen from a point where the steps `done` have run and `t` turns were read. */
  function Resume(done: seq<nat>, t: nat, r: Run): (whole: Run)
  {
    Run(r.exit, done + r.executed, r.cursor, t + r.consumed)
  }

  lemma ResumeAfter(done: seq<nat>, t: nat, e: seq<nat>, r: Run)
    ensures Resume(done, t, After(e, r)) == Resume(done + e, t + 1, r)
  {
    assert done + (e + r.executed) == done + e + r.executed;
  }

  /** `Main`'s loop over `count` steps, starting at the first one. */
  method RunSteps(count: nat, turns: seq<Turn>) returns (exit: Option<int>, executed: seq<nat>)
    ensures exit == Drive(count, 0, turns).exit
    ensures executed == Drive(count, 0, turns).executed
  {
    var index: nat := 0;
    var t: nat := 0;
    executed := [];
    while index < count
      invariant index <= count && t <= |turns|
      invariant Drive(count, 0, turns) == Resume(executed, t, Drive(count, index, turns[t..]))
      decreases |turns| - t
    {
      if t == |turns| {
        return None, executed;
      }
      var turn := turns[t];
      ghost var here := turns[t..];
      assert here[0] == turn && here[1..] == turns[t + 1..];
      t := t + 1;
      match turn.choice {
        case Quit =>
          if turn.confirmed {
            return Some(0), executed;
          }
          assert Drive(count, index, here) == After([], Drive(count, index, turns[t..]));
          ResumeAfter(executed, t - 1, [], Drive(count, index, turns[t..]));
          assert executed + [] == executed;
        case GoBack =>
          var previous := if index > 0 then index - 1 else 0;
          assert Drive(count, index, here) == After([], Drive(count, previous, turns[t..]));
          ResumeAfter(executed, t - 1, [], Drive(count, previous, turns[t..]));
          assert executed + [] == executed;
          index := previous;
        case ExecuteStep =>
          if turn.outcome.Threw? && !turn.confirmed {
            assert Drive(count, index, here) == Run(Some(1), [index], index, 1);
            return Some(1), executed + [index];
          }
          assert Drive(count, index, here) == After([index], Drive(count, index + 1, turns[t..]));
          ResumeAfter(executed, t - 1, [index], Drive(count, index + 1, turns[t..]));
          executed := executed + [index];
          index := index + 1;
      }
    }
    return Some(0), executed;
  }

  /** The cursor never leaves `0..count`, only existing steps run, and the program exits
      with 0 or 1 or else has read every answer without finishing. */
  lemma {:induction false} DriveBounds(count: nat, index: nat, turns: seq<Turn>)
    requires index <= count
    ensures var r := Drive(count, index, turns);
      r.cursor <= count && r.consumed <= |turns| &&
      (forall k :: 0 <= k < |r.executed| ==> r.executed[k] < count) &&
      (r.exit.Some? ==> r.exit.value == 0 || r.exit.value == 1) &&
      (r.exit.None? ==> r.consumed == |turns| && r.cursor < count)
    decreases |turns|
  {
    if index < count && turns != [] {
      var t := turns[0];
      match t.choice {
        case Quit =>
          DriveBounds(count, index, turns[1..]);
        case GoBack =>
          DriveBounds(count, if index > 0 then index - 1 else 0, turns[1..]);
        case ExecuteStep =>
          DriveBounds(count, index + 1, turns[1..]);
      }
    }
  }

  /** The program exits with 1 exactly when the last answer it read declined to go on after a
      failure, and with 0 exactly when it ran off the end or the last answer confirmed Quit. */
  lemma {:induction false} DriveExitCode(count: nat, index: nat, turns: seq<Turn>)
    requires index <= count
    ensures var r := Drive(count, index, turns);
      (r.exit == Some(1) <==> 1 <= r.consumed <= |turns| && Declined(turns[r.consumed - 1])) &&
      (r.exit == Some(0) <==>
         r.cursor == count || (1 <= r.consumed <= |turns| && QuitConfirmed(turns[r.consumed - 1])))
    decreases |turns|
  {
    var r := Drive(count, index, turns);
    DriveBounds(count, index, turns);
    if index < count && turns != [] {
      var t := turns[0];
      var next := match t.choice
        case Quit => index
        case GoBack => if index > 0 then index - 1 else 0
        case ExecuteStep => index + 1;
      if !QuitConfirmed(t) && !Declined(t) {
        DriveExitCode(count, next, turns[1..]);
        DriveBounds(count, next, turns[1..]);
        var rest := Drive(count, next, turns[1..]);
        assert r == After(if t.choice == ExecuteStep then [index] else [], rest);
        if rest.consumed >= 1 {
          assert turns[r.consumed - 1] == turns[1..][rest.consumed - 1];
        }
      }
    }
  }

  /** The walk is linear: the first step to run is at or before the starting one, and each
      later step is at most one past the step run before it. */
  lemma {:induction false} DriveNoSkipping(count: nat, index: nat, turns: seq<Turn>)
    requires index <= count
    ensures var e := Drive(count, index, turns).executed;
      (|e| > 0 ==> e[0] <= index) &&
      forall k :: 0 <= k < |e| - 1 ==> e[k + 1] <= e[k] + 1
    decreases |turns|
  {
    if index < count && turns != [] {
      var t := turns[0];
      match t.choice {
        case Quit =>
          DriveNoSkipping(count, index, turns[1..]);
        case GoBack =>
          DriveNoSkipping(count, if index > 0 then index - 1 else 0, turns[1..]);
        case ExecuteStep =>
          if !Declined(t) {
            DriveNoSkipping(count, index + 1, turns[1..]);
            var rest := Drive(count, index + 1, turns[1..]).executed;
            var e := [index] + rest;
            forall k | 0 <= k < |e| - 1
              ensures e[k + 1] <= e[k] + 1
            {
              if k > 0 {
                assert e[k + 1] == rest[k] && e[k] == rest[k - 1];
              }
            }
          }
      }
    }
  }

  /** A run that reaches the end has executed every step from its starting one on. */
  lemma {:induction false} DriveCompletes(count: nat, index: nat, turns: seq<Turn>)
    requires index <= count
    requires Drive(count, index, turns).cursor == count
    ensures forall j :: index <= j < count ==> j in Drive(count, index, turns).executed
    decreases |turns|
  {
    if index < count {
      DriveBounds(count, index, turns);
      var t := turns[0];
      match t.choice {
        case Quit =>
          DriveCompletes(count, index, turns[1..]);
        case GoBack =>
          DriveCompletes(count, if index > 0 then index - 1 else 0, turns[1..]);
        case ExecuteStep =>
          DriveCompletes(count, index + 1, turns[1..]);
      }
    }
  }
}
