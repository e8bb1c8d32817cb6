# PhotoGallery script runners — a verified model

The PhotoGallery repository ships two console programs. Each walks an operator through the
steps of building an Aspire-based photo gallery.

- **PhotoGalleryScriptRunner** (`src-tester/PhotoGalleryScriptRunner/Program.cs`) is a linear
  walk over 45 numbered steps.
  - Each turn the operator chooses *Execute step*, *Go back* or *Quit*.
  - Quitting and continuing past a failure are each confirmed.
  - The program exits with 0 or 1.
  - The steps edit generated C# and project files with small text patchers:
    - insert a line after or before the first line containing a marker;
    - prepend a `using` line;
    - replace the first `app.MapGet(` statement;
    - read a package version out of a `.csproj` file.
  - Most steps that run commands or edit files first check that a working directory was
    chosen (`EnsureWorking`). The manual pauses do not, and neither do several file steps
    (Steps 27, 36, 37, 39, 40, 42, 43 and 44). Those go straight to `ResolveProjectDirs`,
    which finds no project folders when no directory is set, and end without error.
  - Child processes fail or only warn on a non-zero exit code.
- **The step menu** (`src-tester/Program.cs`) shows ten numbered steps with a status each.
  - The operator opens any step by its id, in any order.
  - Executing a step sets it to Completed or Failed.
  - Commands that exit with a non-zero code throw a `CommandException` carrying the command,
    the exit code and the captured output.
  - Text is escaped before it is printed as console markup.

The model is split into modules that follow these parts:

- `Strings` holds the .NET string primitives the code relies on: ordinal and
  case-insensitive search, `IsNullOrWhiteSpace`, `int.ToString`/`int.TryParse` and
  `Replace`.
- `Lines` holds `Split('\n')`/`Join('\n')` and the first-line-containing search.
- `TextPatcher` holds the patchers and the package-version scan.
- `Processes` holds what `Process.Start` can give back.
- `ScriptRunner` holds the first program's guard, exit-code rules and navigation loop.
- `Markup` holds `MarkupUtil.Escape`.
- `StepMenu` holds the second program's statuses, `CommandException`, guard, Step 1,
  `StepFactory`, `ShowStep` and the menu loop.
- `RunnerContrast` compares the two programs' guards and exit-code rules.

Loops of the source are methods proved against a function that states the whole result. The
properties the program relies on are lemmas about those functions. State the source updates
in place is held in classes: `ScriptContext`, `RunnerContext`, `Step` and the `StepBuilder`
behind `CreateSteps`.

Two facts about the step menu's code that the model keeps:

- A non-zero exit of an interactive command throws a `CommandException`
  (`src-tester/Program.cs:282-283`); it is not a mere warning as in the first program.
- The status `Skipped` exists, but no code path assigns it.

## Model

| member | source | states |
|---|---|---|
| Lines.Split | src-tester/PhotoGalleryScriptRunner/Program.cs:697 | `Split('\n')` never yields an empty list and no piece holds a line break |
| Lines.JoinSplit | src-tester/PhotoGalleryScriptRunner/Program.cs:697-707 | joining the pieces of a split text with `'\n'` gives the text back |
| Lines.SplitJoin | src-tester/PhotoGalleryScriptRunner/Program.cs:697-707 | splitting a join of break-free lines gives the lines back, so split and join are inverse |
| Lines.FirstLineContaining | src-tester/PhotoGalleryScriptRunner/Program.cs:698-706 | the index found holds the marker and no earlier line does; None means no line holds it |
| Lines.FirstLineAfterPrefix | src-tester/PhotoGalleryScriptRunner/Program.cs:698-706 | behind marker-free lines the first marker line is found at its shifted position |
| Strings.IndexOfIgnoreCase | src-tester/PhotoGalleryScriptRunner/Program.cs:740 | `IndexOf(…, OrdinalIgnoreCase)`: the position found matches up to ASCII case and no earlier one from the start does; None means no match at all |
| Strings.IndexOfIgnoreCaseFinds | src-tester/PhotoGalleryScriptRunner/Program.cs:740 | a match with no match before it is the one the search returns |
| Strings.IntToStringRoundTrip | src-tester/Program.cs:37-49 | `int.TryParse` of an id's `ToString()` gives the id back |
| Strings.IntToStringInjective | src-tester/Program.cs:37-44 | different ids print as different menu entries |
| TextPatcher.InsertAfterLineContaining | src-tester/PhotoGalleryScriptRunner/Program.cs:695-708 | the line loop returns exactly `InsertedAfter`: the text unchanged when a refused duplicate is present, otherwise the lines with `insert` below the first marker line |
| TextPatcher.InsertAfterNoOp | src-tester/PhotoGalleryScriptRunner/Program.cs:698-707 | a present insertion (duplicates refused) or no marker line leaves the text exactly as it was |
| TextPatcher.InsertAfterPlacement | src-tester/PhotoGalleryScriptRunner/Program.cs:700-705 | otherwise the new lines are the old ones with the lines of `insert` (one or several, as in Step 14) right after the first marker line, and the result contains `insert` |
| TextPatcher.InsertAfterIdempotent | src-tester/PhotoGalleryScriptRunner/Program.cs:695-708 | with duplicates refused, a second application changes nothing |
| TextPatcher.InsertBeforeLineContaining | src-tester/PhotoGalleryScriptRunner/Program.cs:710-723 | the line loop returns exactly `InsertedBefore`: unchanged when `insert` is present, otherwise `insert` above the first marker line |
| TextPatcher.InsertBeforeNoOp | src-tester/PhotoGalleryScriptRunner/Program.cs:713-722 | a present insertion or no marker line leaves the text exactly as it was |
| TextPatcher.InsertBeforePlacement | src-tester/PhotoGalleryScriptRunner/Program.cs:714-721 | otherwise the lines of `insert` (one or several, as in Step 31) take the first marker line's place, that line moves down behind them, and the result contains `insert` |
| TextPatcher.InsertBeforeIdempotent | src-tester/PhotoGalleryScriptRunner/Program.cs:710-723 | a second application changes nothing |
| TextPatcher.EnsureUsing | src-tester/PhotoGalleryScriptRunner/Program.cs:725-732 | the result always contains the using line |
| TextPatcher.EnsureUsingIdempotent | src-tester/PhotoGalleryScriptRunner/Program.cs:725-732 | applying it twice is the same as once |
| TextPatcher.EnsureUsingAddsFirstLine | src-tester/PhotoGalleryScriptRunner/Program.cs:727-730 | when it adds the line, its lines come first and every old line follows unchanged; a one-line using becomes the first line |
| TextPatcher.StatementEnd | src-tester/PhotoGalleryScriptRunner/Program.cs:682-683 | the end lies past the marker line, no line before the last one taken holds `;`, and the last one taken holds `;` unless no line from the marker on does, in which case it is the end of the text |
| TextPatcher.ScanStatementEnd | src-tester/PhotoGalleryScriptRunner/Program.cs:681-683 | the scan loop returns the end of the statement that starts at the marker line |
| TextPatcher.ReplaceMapGet | src-tester/PhotoGalleryScriptRunner/Program.cs:673-693 | the method returns exactly `MapGetReplaced`: the statement from the first `app.MapGet(` line to its `;` line replaced by the new block, or the block appended when no line holds the marker |
| TextPatcher.MapGetReplacedLines | src-tester/PhotoGalleryScriptRunner/Program.cs:673-693 | the result contains the new block, and its lines are the old lines before and after the statement around the block's lines (or the old lines, the block and an empty last line) |
| TextPatcher.AppendedBlockLines | src-tester/PhotoGalleryScriptRunner/Program.cs:691-692 | the fallback puts the block on lines of its own after the content, then an empty last line |
| TextPatcher.MapGetReplacedIdempotent | src-tester/PhotoGalleryScriptRunner/Program.cs:673-693 | for a block whose first line holds the marker and whose only `;` line is its last, replacing twice is replacing once |
| TextPatcher.MapGetReplacedLeavesTail | src-tester/PhotoGalleryScriptRunner/Program.cs:673-693 | for a block whose first line holds the marker and a `;` and is followed by another line, a second replacement leaves that line behind once more; the blocks of Step 18 (:284) and Step 26 (:378) both have lines after their first `;` line |
| TextPatcher.UseRazorComponentResultIdempotent | src-tester/PhotoGalleryScriptRunner/Program.cs:278-288 | Step 18's transform is idempotent: its guard sees the marker the replaced block now contains |
| TextPatcher.QuotedValue | src-tester/PhotoGalleryScriptRunner/Program.cs:745-748 | the value is the text up to the first quote after its start, holds no quote, and is None only when no quote follows |
| TextPatcher.AttributeValue | src-tester/PhotoGalleryScriptRunner/Program.cs:743-748 | a value found is the quoted text behind a case-insensitive match of the attribute at or after the start |
| TextPatcher.ExtractPackageVersion | src-tester/PhotoGalleryScriptRunner/Program.cs:734-751 | a version found holds no quote and is the quoted text behind the first `Version="` at or after the first reference tag; a missing reference tag gives None |
| TextPatcher.ExtractPackageVersionAt | src-tester/PhotoGalleryScriptRunner/Program.cs:739-748 | wherever the reference tag first occurs, the scan returns the quoted value behind the first `Version="` at or after it |
| TextPatcher.ExtractPackageVersionWithoutAttribute | src-tester/PhotoGalleryScriptRunner/Program.cs:742-744 | no `Version="` at or after the tag gives None |
| TextPatcher.ExtractPackageVersionUnclosed | src-tester/PhotoGalleryScriptRunner/Program.cs:745-747 | no quote after the first `Version="` behind the tag gives None |
| TextPatcher.ExtractPackageVersionAfterHeader | src-tester/PhotoGalleryScriptRunner/Program.cs:738-748 | a file with any header free of the tag (such as `<Project …>`) before `<PackageReference Include="id"`, quote-free attributes and `Version="v"` yields `v` |
| TextPatcher.ExtractPackageVersionOfReference | src-tester/PhotoGalleryScriptRunner/Program.cs:738-748 | for a file that starts `<PackageReference Include="id" Version="v"`, the scan reads back exactly `v` |
| TextPatcher.ExtractPackageVersionAfterGap | src-tester/PhotoGalleryScriptRunner/Program.cs:738-748 | the same with any quote-free attributes between the tag and `Version="` |
| TextPatcher.ExtractPackageVersionCrossesElement | src-tester/PhotoGalleryScriptRunner/Program.cs:742-743 | the search runs past the end of the package's own element and reads the next element's version |
| TextPatcher.ElementEnd | src-tester/PhotoGalleryScriptRunner/Program.cs:739-743 | the end of the element opened at a position: its first `>`, with none before, or the end of the text |
| TextPatcher.AttributeValueBeforeRefines | src-tester/PhotoGalleryScriptRunner/Program.cs:743-748 | a value found by the bounded search is the one the unbounded search finds |
| TextPatcher.ExtractPackageVersionBehind | src-tester/PhotoGalleryScriptRunner/Program.cs:739-748 | a text that starts with the reference tag and whose first `Version="` after it is closed around `v` yields `v` behind any header that holds no reference tag |
| TextPatcher.ExtractOwnPackageVersion | src-tester/PhotoGalleryScriptRunner/Program.cs:739-748 | the corrected scan: a version found is the quoted value behind a `Version="` that lies between the package's first reference tag and the first `>` after that tag; no tag, no version |
| TextPatcher.ExtractOwnPackageVersionRefines | src-tester/PhotoGalleryScriptRunner/Program.cs:739-748 | whenever the corrected scan finds a version, the scan as written finds the same one |
| TextPatcher.ExtractOwnPackageVersionAt | src-tester/PhotoGalleryScriptRunner/Program.cs:739-748 | wherever the reference tag first occurs, the corrected scan returns the value of the first `Version="` after it when no `>` comes between them |
| TextPatcher.ExtractOwnPackageVersionOfReference | src-tester/PhotoGalleryScriptRunner/Program.cs:738-748 | the corrected scan still reads `v` from `<PackageReference Include="id" … Version="v"` with quote- and `>`-free attributes between |
| TextPatcher.ExtractOwnPackageVersionStopsAtElementEnd | src-tester/PhotoGalleryScriptRunner/Program.cs:742-743 | an element that closes before any `Version="` gives None, whatever follows |
| ScriptRunner.ScriptContext.constructor | src-tester/PhotoGalleryScriptRunner/Program.cs:893-896 | a new context has no working directory |
| ScriptRunner.EnsureWorking | src-tester/PhotoGalleryScriptRunner/Program.cs:610-614 | throws exactly when the working directory is missing or only white space, with the "Execute Step 1 first" message |
| ScriptRunner.SelectWorkingFolder | src-tester/PhotoGalleryScriptRunner/Program.cs:84-96 | Step 1 refuses exactly the paths that are not rooted, leaving the context alone; a rooted path becomes the working directory |
| ScriptRunner.RootedPathPassesGuard | src-tester/PhotoGalleryScriptRunner/Program.cs:88-94 | after Step 1 succeeds, the guard passes in every later step that calls it |
| ScriptRunner.RunPwsh | src-tester/PhotoGalleryScriptRunner/Program.cs:616-639 | a captured command succeeds exactly on exit code 0; its failure message names the code; a start failure propagates; a null process fails |
| ScriptRunner.CommandFailedMessageNamesCode | src-tester/PhotoGalleryScriptRunner/Program.cs:637-638 | the exit code can be read back from the failure message |
| ScriptRunner.RunInteractiveProcess | src-tester/PhotoGalleryScriptRunner/Program.cs:641-655 | an interactive process fails only when it cannot be started; any exit code lets the step go on |
| ScriptRunner.InteractiveWarning | src-tester/PhotoGalleryScriptRunner/Program.cs:653-654 | a warning is shown exactly when the exit code is non-zero |
| ScriptRunner.NonZeroExitContrast | src-tester/PhotoGalleryScriptRunner/Program.cs:637-654 | a non-zero exit fails a captured command but only warns for an interactive one |
| ScriptRunner.RunSteps | src-tester/PhotoGalleryScriptRunner/Program.cs:22-63 | the navigation loop returns the exit code and the executed steps of `Drive` |
| ScriptRunner.DriveBounds | src-tester/PhotoGalleryScriptRunner/Program.cs:22-63 | the cursor stays in range, only existing steps run, the exit code is 0 or 1, and a run without an exit code has read every answer |
| ScriptRunner.DriveExitCode | src-tester/PhotoGalleryScriptRunner/Program.cs:33-63 | exit 1 exactly when the last answer declined to go on after a failure; exit 0 exactly when the last step was passed or Quit was confirmed |
| ScriptRunner.DriveNoSkipping | src-tester/PhotoGalleryScriptRunner/Program.cs:39-58 | progress is linear: each executed step is at most one past the step executed before it |
| ScriptRunner.DriveCompletes | src-tester/PhotoGalleryScriptRunner/Program.cs:23-62 | a run that reaches the end has executed every step from its start on |
| Markup.EscapeRoundTrip | src-tester/Program.cs:94 | unescaping the escaped text gives it back, so escaping loses nothing |
| Markup.EscapeLength | src-tester/Program.cs:94 | the escaped text is longer by exactly the number of brackets |
| Markup.EscapeWithoutBrackets | src-tester/Program.cs:94 | text without brackets is left unchanged |
| StepMenu.ToMarkupInjective | src-tester/Program.cs:105-114 | different statuses have different labels |
| StepMenu.CommandMessageRoundTrip | src-tester/Program.cs:287-296 | the `CommandException` message names the command and exit code it was built from |
| StepMenu.DisplayedOutput | src-tester/Program.cs:79-82 | only a `CommandException` shows an output panel, holding its captured output when there is one |
| StepMenu.RunPwsh | src-tester/Program.cs:250-269 | fails exactly on a non-zero exit code, with a `CommandException` keeping the command, code and output; a null process or a start failure throws its own message |
| StepMenu.RunPwshInteractive | src-tester/Program.cs:271-284 | fails exactly on a non-zero exit code, with a `CommandException` that has no output |
| StepMenu.InteractiveFailureShowsPlaceholder | src-tester/Program.cs:82 | a failed interactive command shows the `<no output>` placeholder |
| StepMenu.RunnerContext.constructor | src-tester/Program.cs:98-101 | a new context has no working directory |
| StepMenu.RequireDir | src-tester/Program.cs:152-156 | throws exactly when the working directory is null or empty |
| StepMenu.SelectFolder | src-tester/Program.cs:141-149 | Step 1 refuses exactly a blank answer, leaving the context alone; otherwise the full path becomes the working directory |
| StepMenu.SelectedFolderPassesGuard | src-tester/Program.cs:146-156 | after Step 1 succeeds every later guard passes |
| StepMenu.Step.constructor | src-tester/Program.cs:117-125 | a new step keeps its id, title and description and is Pending |
| StepMenu.StepBuilder.Add | src-tester/Program.cs:131-138 | appends a new Pending step with the current id and advances the counter, keeping ids equal to positions |
| StepMenu.AddListed | src-tester/Program.cs:131-138 | one listed `Add` call extends the built prefix by the next listed step |
| StepMenu.CreateSteps | src-tester/Program.cs:127-240 | the ten steps in order with ids 1 to 10, the listed titles and descriptions, all Pending |
| StepMenu.ConsecutiveIdsDistinct | src-tester/Program.cs:133-138 | ids assigned from a counter are distinct |
| StepMenu.Ids | src-tester/Program.cs:37 | the ids of the steps in list order |
| StepMenu.Statuses | src-tester/Program.cs:36-38 | the statuses of the steps in list order |
| StepMenu.VisitStep | src-tester/Program.cs:56-89 | a visit leaves the old status or Completed or Failed |
| StepMenu.VisitFollowsLastExecution | src-tester/Program.cs:68-88 | a visit leaves the status of its last execution, or the old one when nothing ran |
| StepMenu.ShowStep | src-tester/Program.cs:56-89 | the step loop leaves the status and the ending that `VisitStep` gives |
| StepMenu.MenuChoices | src-tester/Program.cs:41-44 | one entry per step, then `Quit` |
| StepMenu.MenuChoiceAt | src-tester/Program.cs:44 | the k-th entry is the k-th id's text; the last is `Quit` |
| StepMenu.FindById | src-tester/Program.cs:52 | `First(x => x.Id == id)`: the position found has the id and no earlier one does; None when no step has it |
| StepMenu.RunSession | src-tester/Program.cs:28-54 | the menu keeps one status per step |
| StepMenu.RunMenu | src-tester/Program.cs:28-54 | the menu loop leaves the statuses and the ending that `RunSession` gives |
| StepMenu.IdIsNotQuit | src-tester/Program.cs:44-47 | no id's entry is the word `Quit` |
| StepMenu.SelectingAnyStep | src-tester/Program.cs:44-53 | choosing the k-th entry opens the k-th step, whatever the others' statuses, and changes only its status |
| StepMenu.SelectingQuit | src-tester/Program.cs:44-47 | the last entry ends the program with statuses unchanged |
| StepMenu.SessionNeverSkips | src-tester/Program.cs:56-89 | no path through the menu sets a step to Skipped |
| RunnerContrast.EnsureWorkingImpliesRequireDir | src-tester/PhotoGalleryScriptRunner/Program.cs:610-614 | a directory the first program's guard accepts is accepted by the second's |
| RunnerContrast.BlankDirectoryContrast | src-tester/Program.cs:152-156 | a directory of blanks passes the second program's guard but not the first's |
| RunnerContrast.InteractiveExitContrast | src-tester/Program.cs:280-283 | a non-zero interactive exit only warns in the first program but throws in the second |

## Left out

- Console rendering, prompts, figlet banners, colours and the "press any key" pauses are not modelled. The operator's answers and the outcomes of step actions are inputs.
- Spawning processes, their streams, working directories and `async`/`await` are not modelled; a start is one of three `Launch` results.
- The filesystem is left out: creating folders, reading and writing project and source files, resolving project directories, and the `catch` around the file read in `ExtractPackageVersion`. The scan takes the file's text.
- `Path.GetFullPath`, `Environment.ExpandEnvironmentVariables` and `Trim` are left out; Step 1 takes their result as a parameter.
- ScriptRunner.IsPathRooted: models the Windows rule only; the rules of other platforms are not modelled.
- The step actions other than Step 1 and Step 18 of the first program and Step 1 of the second are left out: each is a run of the patchers, guards and commands modelled here over file contents and command lines.
- Strings.IndexOfIgnoreCase: folds ASCII letters only; `OrdinalIgnoreCase` also folds non-ASCII letters.
- Strings.TryParseInt: accepts only an optional minus and ASCII digits. Leading or trailing white space, a `+` sign and the 32-bit range check are left out. Menu entries are always plain id texts, so they do not arise.
- Exit codes are unbounded integers; the 32-bit width of `Process.ExitCode` plays no part in the rules.
- StepMenu.CreateSteps: does not state that the steps are fresh objects, and leaves out the step actions.
- `Step.RenderDetails` is left out; it is display only.
- A finite sequence of answers that runs out before the program ends is modelled as an ending that waits for input.
- Exceptions a step might throw from `ShowStep` itself (other than through the step's action) are not modelled.
- `src/WebApplication1/Program.cs` and `src/PhotoGallery.AppHost/AppHost.cs` are not part of this model. They are the application the scripts build.

## Findings

| source | as written | input that shows it | evidently intended | confidence | as-written member | corrected member |
|---|---|---|---|---|---|---|
| src-tester/PhotoGalleryScriptRunner/Program.cs:742-743 | the search for `Version="` starts at the package's reference tag but is not limited to that element | `<PackageReference Include="A" /><PackageReference Include="B" Version="2.0"` read for package `A` gives `2.0`, the version of `B` | read only the `Version` attribute of A's own element, and None when it has none | medium, not executed | TextPatcher.ExtractPackageVersionCrossesElement | TextPatcher.ExtractOwnPackageVersionStopsAtElementEnd |
