/**
 * `Main`: one command per invocation. The tasks are loaded from the file,
 * argv selects a handler, and the list is written back only when the
 * handler completes. The file is modelled by the tasks it holds.
 */
module Program {
  import opened Wrappers
  import opened DotNet
  import opened TaskTracker
  import opened Handlers

  /** How an invocation ends. */
  datatype Termination =
    | Completed                    // the handler ran; the tasks were saved
    | ShowedUsage                  // `help`
    | MissingArguments             // too few arguments for the command
    | UnknownCommand
    | Caught(exception: Exception)    // thrown inside the `try` and reported
    | Unhandled(exception: Exception) // thrown outside the `try`: the process dies

  /** The value `Main` returns, or `None` when an exception escapes it. */
  function ExitCode(t: Termination): (r: Option<int>)
    ensures r == Some(0) <==> t == Completed
    ensures r.None? <==> t.Unhandled?
    ensures r.Some? ==> r.value == 0 || r.value == 1
  {
    match t
    case Completed => Some(0)
    case Unhandled(_) => None
    case _ => Some(1)
  }

  /** Whether `SaveTasks` is reached. */
  predicate Saved(t: Termination) { t == Completed }

  datatype RunResult = RunResult(termination: Termination, file: seq<TaskItem>)

  /** The number of arguments each command needs, counting the command itself. */
  function MinArgs(command: string): (r: Option<nat>)
    ensures r.Some? <==> command in ["mark", "add", "update", "delete", "list"]
  {
    if command == "mark" || command == "update" then Some(3)
    else if command == "add" || command == "delete" then Some(2)
    else if command == "list" then Some(1)
    else None
  }

  /**
   * The effect of one invocation with arguments `args` on a task file holding `file`:
   * how it ends and what the file holds afterwards. Every ending other than
   * `Completed` leaves the file as it was.
   */
  function Dispatch(args: seq<string>, file: seq<TaskItem>): (r: RunResult)
    ensures !Saved(r.termination) ==> r.file == file
    ensures |args| == 0 ==> r.termination == Unhandled(IndexOutOfRangeException)
    ensures |args| > 0 && args[0] == "help" ==> r.termination == ShowedUsage
    ensures |args| > 0 && args[0] != "help" && MinArgs(ToLower(args[0])).None? ==> r.termination == UnknownCommand
    ensures (|args| > 0 && args[0] != "help" && MinArgs(ToLower(args[0])).Some? && |args| < MinArgs(ToLower(args[0])).value)
              ==> r.termination == MissingArguments
  {
    if |args| == 0 then RunResult(Unhandled(IndexOutOfRangeException), file)
    else if args[0] == "help" then RunResult(ShowedUsage, file)
    else
      var command := ToLower(args[0]);
      if command == "mark" then
        if |args| < 3 then RunResult(MissingArguments, file)
        else match Marked(file, args[1], args[2])
          case Threw(e) => RunResult(Caught(e), file)
          case Value(ts) => RunResult(Completed, ts)
      else if command == "add" then
        if |args| < 2 then RunResult(MissingArguments, file)
        else RunResult(Completed, Added(file, args[1]))
      else if command == "update" then
        if |args| < 3 then RunResult(MissingArguments, file)
        else RunResult(Completed, Updated(file, args[1], args[2]))
      else if command == "delete" then
        if |args| < 2 then RunResult(MissingArguments, file)
        else RunResult(Completed, Deleted(file, args[1]))
      else if command == "list" then RunResult(Completed, file)
      else RunResult(UnknownCommand, file)
  }

  /**
   * `Main(args)` started on a task file holding `file`: returns how it ended and
   * what the file holds afterwards.
   */
  method Run(file: seq<TaskItem>, args: seq<string>) returns (termination: Termination, newFile: seq<TaskItem>)
    ensures Dispatch(args, file) == RunResult(termination, newFile)
  {
    var store := new TaskStore(file);
    // `args.Length == 0 | args[0] == "help"` evaluates `args[0]` even when `args` is empty
    if |args| == 0 {
      return Unhandled(IndexOutOfRangeException), file;
    }
    if args[0] == "help" {
      return ShowedUsage, file;
    }
    var command := ToLower(args[0]);
    if command == "mark" {
      if |args| < 3 {
        return MissingArguments, file;
      }
      var thrown := store.MarkTask(args[1], args[2]);
      if thrown.Some? {
        return Caught(thrown.value), file;
      }
    } else if command == "add" {
      if |args| < 2 {
        return MissingArguments, file;
      }
      store.AddTask(args[1]);
    } else if command == "update" {
      if |args| < 3 {
        return MissingArguments, file;
      }
      store.UpdateTask(args[1], args[2]);
    } else if command == "delete" {
      if |args| < 2 {
        return MissingArguments, file;
      }
      store.DeleteTask(args[1]);
    } else if command == "list" {
      var _ := store.ShowTasks(args);
    } else {
      return UnknownCommand, file;
    }
    // the tasks are saved
    return Completed, store.tasks;
  }

  // ---------------------------------------------------------------------
  // Properties of dispatch

  /** An invocation saves exactly when it runs a handler to the end, and that is exactly when it returns 0. */
  lemma CompletesExactlyWhen(args: seq<string>, file: seq<TaskItem>)
    ensures var t := Dispatch(args, file).termination;
            (Saved(t) <==> ExitCode(t) == Some(0)) &&
            (Saved(t) <==>
              && |args| > 0 && args[0] != "help"
              && MinArgs(ToLower(args[0])).Some? && |args| >= MinArgs(ToLower(args[0])).value
              && (ToLower(args[0]) == "mark" ==> TryParse(args[2]).Some?))
  {
  }

  /**
   * The argument counts: `mark` and `update` need an id and one more argument, `add` and
   * `delete` one argument; a run ends for lack of arguments exactly when the command has fewer.
   */
  lemma MissingArgumentsExactlyWhen(args: seq<string>, file: seq<TaskItem>)
    ensures Dispatch(args, file).termination == MissingArguments <==>
              && |args| > 0 && args[0] != "help"
              && (|| (ToLower(args[0]) in ["mark", "update"] && |args| < 3)
                  || (ToLower(args[0]) in ["add", "delete"] && |args| < 2))
  {
  }

  /**
   * Soft failures of update, delete and mark (an id that does not parse or is not
   * present) still complete and save, and leave the tasks unchanged.
   */
  lemma SoftFailuresSaveUnchanged(args: seq<string>, file: seq<TaskItem>)
    requires |args| >= 2 && args[0] != "help"
    requires ToLower(args[0]) == "delete" || (|args| >= 3 && ToLower(args[0]) in ["update", "mark"])
    requires TryParse(args[1]).None? || !HasId(file, TryParse(args[1]).value)
    requires ToLower(args[0]) == "mark" ==> TryParse(args[2]).Some?
    ensures Dispatch(args, file) == RunResult(Completed, file)
  {
  }

  /** Listing, with any flag or none, completes and saves the tasks unchanged. */
  lemma ListSavesUnchanged(args: seq<string>, file: seq<TaskItem>)
    requires |args| > 0 && args[0] != "help" && ToLower(args[0]) == "list"
    ensures Dispatch(args, file) == RunResult(Completed, file)
  {
  }

  /** A status code that is an `int` other than 1 or 2 is a soft failure, whatever the id. */
  lemma MarkOutOfRangeCodeSavesUnchanged(args: seq<string>, file: seq<TaskItem>)
    requires |args| >= 3 && args[0] != "help" && ToLower(args[0]) == "mark"
    requires TryParse(args[2]).Some? && TryParse(args[2]).value != 1 && TryParse(args[2]).value != 2
    ensures Dispatch(args, file) == RunResult(Completed, file)
  {
  }

  /** A status code that is not an `int` throws inside the `try`: exit code 1, nothing saved, whatever the id. */
  lemma MarkNonIntegerCodeIsCaught(args: seq<string>, file: seq<TaskItem>)
    requires |args| >= 3 && args[0] != "help" && ToLower(args[0]) == "mark"
    requires TryParse(args[2]).None?
    ensures Dispatch(args, file).termination.Caught?
    ensures Parse(args[2]) == BadFormat ==> Dispatch(args, file).termination == Caught(FormatException)
    ensures Parse(args[2]) == TooLarge ==> Dispatch(args, file).termination == Caught(OverflowException)
    ensures ExitCode(Dispatch(args, file).termination) == Some(1)
    ensures Dispatch(args, file).file == file
  {
  }

  /**
   * The command is matched after lower-casing: writing it in any case gives the same
   * result, except that the `help` test is made before lower-casing.
   */
  lemma {:induction false} CommandCaseInsensitive(args: seq<string>, file: seq<TaskItem>)
    requires |args| > 0 && ToLower(args[0]) != "help"
    ensures Dispatch(args, file) == Dispatch([ToLower(args[0])] + args[1..], file)
  {
    var args' := [ToLower(args[0])] + args[1..];
    ToLowerIdempotent(args[0]);
    assert args[0] != "help" && args'[0] != "help";
    assert ToLower(args'[0]) == ToLower(args[0]) && |args'| == |args| && args'[1..] == args[1..];
    assert forall k :: 1 <= k < |args| ==> args'[k] == args[k];
  }

  /** `help` is recognised only in lower case; `HELP` is an unknown command. Both return 1 and save nothing. */
  lemma HelpIsCaseSensitive(file: seq<TaskItem>)
    ensures Dispatch(["help"], file) == RunResult(ShowedUsage, file)
    ensures Dispatch(["HELP"], file) == RunResult(UnknownCommand, file)
    ensures ExitCode(ShowedUsage) == ExitCode(UnknownCommand) == Some(1)
  {
    assert ToLower("HELP") == "help";
  }

  /** Every invocation keeps the ids strictly increasing, as long as the last id leaves room for one more. */
  lemma DispatchKeepsIncreasing(args: seq<string>, file: seq<TaskItem>)
    requires IncreasingIds(file) && RoomForNextId(file)
    ensures IncreasingIds(Dispatch(args, file).file)
    ensures UniqueIds(Dispatch(args, file).file)
  {
    var r := Dispatch(args, file);
    if |args| > 0 && args[0] != "help" {
      var command := ToLower(args[0]);
      if command == "add" && |args| >= 2 {
        AddedKeepsIncreasing(file, args[1]);
      } else if command == "update" && |args| >= 3 {
        if TryParse(args[1]).Some? {
          ReplaceDescriptionKeepsIncreasing(file, TryParse(args[1]).value, args[2]);
        }
      } else if command == "delete" && |args| >= 2 {
        if TryParse(args[1]).Some? {
          RemoveFirstKeepsIncreasing(file, TryParse(args[1]).value);
        }
      } else if command == "mark" && |args| >= 3 {
        var code := TryParse(args[2]);
        if code.Some? && MarkTarget(code.value).Some? && TryParse(args[1]).Some? {
          ReplaceStatusKeepsIncreasing(file, TryParse(args[1]).value, MarkTarget(code.value).value);
        }
      }
    }
    IncreasingIdsAreUnique(r.file);
  }

  /** `add <description>` in lower case appends the task and saves. */
  lemma DispatchAdd(description: string, file: seq<TaskItem>)
    ensures Dispatch(["add", description], file) == RunResult(Completed, Added(file, description))
  {
    assert ToLower("add") == "add";
  }

  /** `delete <id>` in lower case removes the first task with the id, if the id parses and is present, and saves. */
  lemma DispatchDelete(idStr: string, file: seq<TaskItem>)
    ensures Dispatch(["delete", idStr], file) == RunResult(Completed, Deleted(file, idStr))
  {
    assert ToLower("delete") == "delete";
  }

  /** `update <id> <description>` in lower case runs `UpdateTask` on the loaded tasks and saves the result. */
  lemma DispatchUpdate(idStr: string, description: string, file: seq<TaskItem>)
    ensures Dispatch(["update", idStr, description], file) == RunResult(Completed, Updated(file, idStr, description))
  {
    assert ToLower("update") == "update";
  }

  /**
   * `mark <id> <code>` in lower case runs `MarkTask` on the loaded tasks: it saves the
   * marked list, or, when the code throws, reports the exception and saves nothing.
   */
  lemma DispatchMark(idStr: string, codeStr: string, file: seq<TaskItem>)
    ensures Marked(file, idStr, codeStr).Value? ==>
              Dispatch(["mark", idStr, codeStr], file) == RunResult(Completed, Marked(file, idStr, codeStr).value)
    ensures Marked(file, idStr, codeStr).Threw? ==>
              Dispatch(["mark", idStr, codeStr], file) == RunResult(Caught(Marked(file, idStr, codeStr).exception), file)
  {
    assert ToLower("mark") == "mark";
  }
}
