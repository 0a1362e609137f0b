# Task Tracker (tt-cli) in Dafny

A model of the command-line task tracker `tt-cli`: an ordered list of tasks
(`Id`, `Description`, `Status`), loaded from `tasks.json`, changed by exactly
one command per invocation (`add`, `update`, `delete`, `mark`, `list`) and
saved back only when the command's handler runs to completion.

Layout, following the program's structure:

- `wrappers.dfy` — `Option`, and two facts about sequence concatenation.
- `dotnet.dfy` — the base-library behaviour the program relies on: unchecked
  32-bit arithmetic, `ToLower`, `OrdinalIgnoreCase` comparison, `int.TryParse`,
  `Int32.Parse` (with the exceptions it throws) and `int.ToString`.
- `tasks.dfy` — `TaskStatus`, `TaskItem` and its `ToString`, and the effect of
  every handler as a function on the task list, with the frame conditions and
  the id-order invariant proved about them.
- `store.dfy` — class `TaskStore`, the in-memory `List<TaskItem>`: the handlers
  as methods that change the list in place (the linear `Find`, the filtered
  `foreach` of `ShowTasks`), each proved equal to its function in `tasks.dfy`.
- `program.dfy` — `Main` as method `Run(file, args)` with the same early
  returns, proved equal to the total function `Dispatch(args, file)` from the
  arguments and the file's tasks to how the run ends (`Termination`, hence the
  exit code and whether `SaveTasks` was reached) and what the file holds
  afterwards.

In the source, the id the next task gets is the last task's id plus one in
unchecked `int` arithmetic. The model keeps that wrap-around: at
`int.MaxValue` the next id is `int.MinValue`, and `AddedAtMaxIdBreaksOrder`
proves this breaks the id order. The order lemmas therefore require the last id
to be below `int.MaxValue` (`RoomForNextId`). Ids stay unique after deleting the
last task and adding again, but the deleted id is handed out a second time
(`DeletedTailIdIsReissued`).

An empty argument list makes `Main` evaluate `args[0]`, because the `|` in the
first test does not short-circuit. That happens outside the `try`, so the
exception escapes `Main`. The model reports it as `Unhandled(IndexOutOfRangeException)`
with no exit code of `Main`'s own. It does not show usage in that case.

## Model

| member | source | states |
|---|---|---|
| `DotNet.Wrap32` | tt-cli/Program.cs:139 | unchecked `int` addition: the result is the `int` congruent to the exact sum modulo 2^32, equal to it when it fits |
| `DotNet.ToLower` | tt-cli/Program.cs:37 | the command is lower-cased character by character, same length |
| `DotNet.ToLowerIdempotent` | tt-cli/Program.cs:37 | lower-casing an already lower-cased command changes nothing |
| `DotNet.EqualsIgnoreCaseIffSameLower` | tt-cli/Program.cs:196-202 | `EqualsIgnoreCase`, the `OrdinalIgnoreCase` comparison of the list flag, holds exactly when both strings lower-case to the same string |
| `DotNet.TrimLeadingWhiteDropsWhitePrefix` | tt-cli/Program.cs:120 | number parsing skips exactly the leading run of white space |
| `DotNet.TrimTrailingWhiteDropsWhiteSuffix` | tt-cli/Program.cs:120 | number parsing skips exactly the trailing run of white space |
| `DotNet.ParseCharacterised` | tt-cli/Program.cs:112-120 | `Parse`, the rule `int.TryParse` and `Int32.Parse` share, accepts exactly the strings that split as white space, an optional sign, one or more ASCII digits and white space; such a string parses to its signed value when that is an `int` and overflows otherwise |
| `DotNet.TryParseCharacterised` | tt-cli/Program.cs:120 | `int.TryParse` succeeds exactly for white space, an optional `+` or `-`, one or more digits and white space, whose signed value is an `int`; it then yields that value |
| `DotNet.ParseOrThrowCharacterised` | tt-cli/Program.cs:112 | `Int32.Parse` returns the value of such a numeral when it is an `int`, throws `OverflowException` for a numeral outside the `int` range and `FormatException` for any string that is not a numeral |
| `DotNet.ParseFormatInt` | tt-cli/Program.cs:20 | parsing the id text that `FormatInt` (`{Id}` in `ToString`) prints gives the id back |
| `DotNet.FormatIntInjective` | tt-cli/Program.cs:20 | `FormatInt` is one-to-one: distinct ids print as distinct text |
| `TaskTracker.StatusOfOrdinal` | tt-cli/Program.cs:5-10 | the cast from an ordinal to `TaskStatus` gives the enum member with that ordinal |
| `TaskTracker.ToStringDeterminesId` | tt-cli/Program.cs:18-21 | `TaskItem.ToString` prints `ID: {Id}, Description: {Description}, Status: {Status}`, and two tasks that print as the same line have the same id |
| `TaskTracker.FindFirst` | tt-cli/Program.cs:125 | `List.Find` by id yields the first task with that id, or nothing exactly when no task has it |
| `TaskTracker.NextId` | tt-cli/Program.cs:139 | the new id is 1 for an empty list, else the last id plus one, wrapping to `int.MinValue` after `int.MaxValue` |
| `TaskTracker.Added` | tt-cli/Program.cs:137-147 | `add` appends one task with the next id, the given description and status NotDone; every earlier task is unchanged |
| `TaskTracker.ReplaceDescription` | tt-cli/Program.cs:158-165 | only the first task with the id gets the new description; ids, statuses and order are kept, every other task is unchanged, and nothing changes when no task has the id |
| `TaskTracker.Updated` | tt-cli/Program.cs:151-166 | `update` with an id that does not parse, or that no task has, changes nothing; otherwise only the first task with the id gets the new description, and ids, statuses, order and every other task are kept |
| `TaskTracker.RemoveFirst` | tt-cli/Program.cs:175-183 | exactly the first task with the id is removed, the others keep their relative order, length drops by one; nothing changes when no task has the id |
| `TaskTracker.Deleted` | tt-cli/Program.cs:168-184 | `delete` with an id that does not parse, or that no task has, changes nothing; otherwise exactly the first task with the id is removed and the rest keep their order |
| `TaskTracker.MarkTarget` | tt-cli/Program.cs:114-119 | only codes 1 and 2 are accepted; the selected status has that ordinal and is never NotDone |
| `TaskTracker.ReplaceStatus` | tt-cli/Program.cs:125-132 | only the first task with the id gets the new status; ids, descriptions and order are kept, every other task is unchanged |
| `TaskTracker.Marked` | tt-cli/Program.cs:110-133 | `mark` throws exactly when `Int32.Parse` of the code throws, whatever the id; a code other than 1 or 2, or an id that does not parse, changes nothing; no task's status is changed to NotDone; ids and descriptions never change |
| `TaskTracker.MarkedFound` | tt-cli/Program.cs:120-132 | with code 1 or 2 and an id some task has, only the first such task changes, and only its status, to the code's status |
| `TaskTracker.MarkedNotFound` | tt-cli/Program.cs:125-131 | with a code that parses and an id no task has, the list is unchanged |
| `TaskTracker.ListFilter` | tt-cli/Program.cs:188-211 | a filter is selected only by a second argument equal to its flag ignoring case; otherwise no flag matches and every task is listed |
| `TaskTracker.Shown` | tt-cli/Program.cs:213-224 | every listed task passes the filter; without a filter the whole list is listed as it is |
| `TaskTracker.ShownCounts` | tt-cli/Program.cs:214-222 | each task that passes the filter is listed as often as it occurs; no other task is listed |
| `TaskTracker.ShownAppend` | tt-cli/Program.cs:214-224 | listing keeps list order: the listing of a concatenation is the concatenation of the listings |
| `TaskTracker.MarkDoneThenListed` | tt-cli/Program.cs:110-133 | after `mark <id> 2`, `list --done` shows the marked task and shows only Done tasks |
| `TaskTracker.IncreasingIdsAreUnique` | tt-cli/Program.cs:139-147 | strictly increasing ids are unique |
| `TaskTracker.AddedKeepsIncreasing` | tt-cli/Program.cs:139-147 | `add` keeps ids strictly increasing while the last id is below `int.MaxValue` |
| `TaskTracker.AddedAtMaxIdBreaksOrder` | tt-cli/Program.cs:139 | when the last id is `int.MaxValue` the new id wraps to `int.MinValue` and the order breaks |
| `TaskTracker.RemoveFirstKeepsIncreasing` | tt-cli/Program.cs:183 | removing a task keeps ids strictly increasing |
| `TaskTracker.ReplaceDescriptionKeepsIncreasing` | tt-cli/Program.cs:165 | changing a description keeps ids strictly increasing |
| `TaskTracker.ReplaceStatusKeepsIncreasing` | tt-cli/Program.cs:132 | changing a status keeps ids strictly increasing |
| `TaskTracker.DeletedTailIdIsReissued` | tt-cli/Program.cs:137-184 | after adding tasks 1 and 2 and deleting 2, the next add issues id 2 again |
| `TaskTracker.SessionExample` | tt-cli/Program.cs:137-184 | from an empty list, add "Buy milk", add "Walk dog", delete 1 and add "Read book" leave tasks 2 and 3, the new id being the last id plus one |
| `Handlers.TaskStore.constructor` | tt-cli/Program.cs:30 | the in-memory list starts as the tasks the file holds |
| `Handlers.TaskStore.FindIndex` | tt-cli/Program.cs:125 | the linear search returns the position `FindFirst` specifies |
| `Handlers.TaskStore.AddTask` | tt-cli/Program.cs:137-149 | the list becomes `Added` of the old list |
| `Handlers.TaskStore.UpdateTask` | tt-cli/Program.cs:151-167 | the list becomes `Updated` of the old list |
| `Handlers.TaskStore.DeleteTask` | tt-cli/Program.cs:168-185 | the list becomes `Deleted` of the old list |
| `Handlers.TaskStore.MarkTask` | tt-cli/Program.cs:110-134 | reports the exception `Marked` predicts with the list untouched, or becomes `Marked` of the old list |
| `Handlers.TaskStore.ShowTasks` | tt-cli/Program.cs:186-225 | the three filter flags and the `continue` tests print exactly `Render(Shown(tasks, ListFilter(args)))`, one `ToString` line per shown task in list order (`Render`); the list is only read |
| `Program.ExitCode` | tt-cli/Program.cs:28-97 | `Main` returns 0 exactly on completion, 1 on every reported failure, and nothing when an exception escapes |
| `Program.MinArgs` | tt-cli/Program.cs:41-86 | exactly the five commands mark, add, update, delete and list are recognised; any other command reaches the `default` case |
| `Program.MissingArgumentsExactlyWhen` | tt-cli/Program.cs:44-75 | a run ends for lack of arguments exactly when the lower-cased command is mark or update with fewer than three arguments, or add or delete with fewer than two |
| `Program.Dispatch` | tt-cli/Program.cs:28-97 | empty args escape as an index exception, `help` shows usage, an unknown command or a missing argument returns early, and no ending but completion changes the file |
| `Program.Run` | tt-cli/Program.cs:28-97 | `Main`'s early returns and final save give exactly `Dispatch` |
| `Program.CompletesExactlyWhen` | tt-cli/Program.cs:31-96 | `SaveTasks` is reached (`Saved`) exactly when `Main` returns 0, and exactly when a known command other than `help` has enough arguments and, for mark, the code parses |
| `Program.SoftFailuresSaveUnchanged` | tt-cli/Program.cs:153-184 | update, delete or mark with an id that does not parse or is absent completes and saves the tasks unchanged |
| `Program.ListSavesUnchanged` | tt-cli/Program.cs:78-81 | `list` always completes and saves the tasks unchanged |
| `Program.MarkOutOfRangeCodeSavesUnchanged` | tt-cli/Program.cs:114-119 | a mark code that is an `int` other than 1 or 2 completes and saves the tasks unchanged |
| `Program.MarkNonIntegerCodeIsCaught` | tt-cli/Program.cs:89-93 | a mark code that does not parse throws inside the `try`: exit 1, the file is not written |
| `Program.CommandCaseInsensitive` | tt-cli/Program.cs:37 | the command gives the same result in any letter case, unless it lower-cases to `help` |
| `Program.HelpIsCaseSensitive` | tt-cli/Program.cs:31-37 | `help` shows usage and `HELP` is an unknown command; both return 1 and save nothing |
| `Program.DispatchKeepsIncreasing` | tt-cli/Program.cs:41-87 | every command keeps the file's ids strictly increasing, hence unique, while the last id is below `int.MaxValue` |
| `Program.DispatchAdd` | tt-cli/Program.cs:52-59 | `add <description>` runs `AddTask` on the loaded tasks and saves the result |
| `Program.DispatchUpdate` | tt-cli/Program.cs:60-67 | `update <id> <description>` runs `UpdateTask` on the loaded tasks and saves the result, including when the id is invalid or absent |
| `Program.DispatchDelete` | tt-cli/Program.cs:69-76 | `delete <id>` runs `DeleteTask` on the loaded tasks and saves the result, including when the id is invalid or absent |
| `Program.DispatchMark` | tt-cli/Program.cs:39-96 | `mark <id> <code>` saves the marked list when the code parses, and otherwise reports the exception `Int32.Parse` threw and saves nothing |

## Left out

- `LoadTasks` and `SaveTasks` (tt-cli/Program.cs:229-246) do file I/O and `System.Text.Json` serialisation. The file is modelled by the tasks it holds: loading copies them, saving replaces them. Creating a missing file, malformed JSON and I/O failures are not modelled.
- Console output is not modelled: the messages, the "Tasks:" header and `ShowUsage` (tt-cli/Program.cs:99-107). Only the task lines `ShowTasks` prints are modelled.
- The `TaskItem` objects are values here. The source writes `Description` and `Status` on the object `Find` returned. That is the same thing as long as no object occurs twice in the list, and a deserialised list never holds one object twice.
- A status read from the file that is not 0, 1 or 2 cannot be represented; `System.Text.Json` would accept it as an unnamed enum value.
- `DotNet.Parse`: culture-specific signs, trailing NUL characters and other `NumberStyles` are left out. Only the invariant-culture `NumberStyles.Integer` shape is modelled.
- `DotNet.ToLower` and `DotNet.EqualsIgnoreCase` map only ASCII letters. Culture-sensitive and non-ASCII case mappings are left out, e.g. the Kelvin sign lower-casing to `k`.
- `TaskTracker.AddedKeepsIncreasing` and `Program.DispatchKeepsIncreasing` require the last id to be below `int.MaxValue`, because the unchecked increment wraps (see `AddedAtMaxIdBreaksOrder`).
