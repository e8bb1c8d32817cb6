/** What starting a child process can give back, as both runners see it; spawning the
    process and reading its streams are outside the model. */
module Processes {
  /** `Process.Start` returned a process that ran and exited with `exitCode`, returned no
      process at all (null), or threw an exception of its own. */
  datatype Launch = Exited(exitCode: int) | ReturnedNull | StartThrew(message: string)
}
