/** Where the two script runners' guards and exit-code rules differ. */
module RunnerContrast {
  import opened Strings
  import opened Processes
  import ScriptRunner
  import StepMenu

  /** The first runner's guard is the stricter: whatever passes it passes the second's. */
  lemma EnsureWorkingImpliesRequireDir(a: ScriptRunner.ScriptContext, c: StepMenu.RunnerContext)
    requires a.workingDirectory == c.workingDirectory
    requires ScriptRunner.EnsureWorking(a).Ok?
    ensures StepMenu.RequireDir(c).Ok?
  {
  }

  /** A working directory of blanks passes the second runner's guard but not the first's. */
  lemma BlankDirectoryContrast(a: ScriptRunner.ScriptContext, c: StepMenu.RunnerContext, blank: string)
    requires blank != "" && forall k :: 0 <= k < |blank| ==> IsWhiteSpace(blank[k])
    requires a.workingDirectory == Some(blank) && c.workingDirectory == Some(blank)
    ensures ScriptRunner.EnsureWorking(a).Threw? && StepMenu.RequireDir(c).Ok?
  {
  }

  /** A non-zero exit of an interactive command is only a warning in the first runner but a
      `CommandException` in the second. */
  lemma InteractiveExitContrast(command: string, code: int)
    requires code != 0
    ensures ScriptRunner.RunInteractiveProcess(Exited(code)).Ok?
    ensures StepMenu.RunPwshInteractive(command, Exited(code)).Threw?
  {
  }
}
