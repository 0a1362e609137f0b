/**
 * The in-memory `List<TaskItem>` and the handlers that change it in place.
 * Each handler is proved to leave the list equal to the matching function
 * of tasks.dfy applied to the list it started from.
 */
module Handlers {
  import opened Wrappers
  import opened DotNet
  import opened TaskTracker

  class TaskStore {
    /** The tasks, in insertion order. */
    var tasks: seq<TaskItem>

    /** The list `LoadTasks` returns for a file holding these tasks. */
    constructor (loaded: seq<TaskItem>)
      ensures tasks == loaded
    {
      tasks := loaded;
    }

    /** `tasks.Find(t => t.Id == id)`, reporting the position of the element found. */
    method FindIndex(id: Int32) returns (r: Option<nat>)
      ensures r == FindFirst(tasks, id)
    {
      var i := 0;
      while i < |tasks|
        invariant 0 <= i <= |tasks|
        invariant forall j :: 0 <= j < i ==> tasks[j].id != id
      {
        if tasks[i].id == id {
          FirstIsFound(tasks, id, i);
          return Some(i);
        }
        i := i + 1;
      }
      NoIndexIsFound(tasks, id);
      return None;
    }

    /** `AddTask`: appends a task with the next id and status NotDone. */
    method AddTask(description: string)
      modifies this
      ensures tasks == Added(old(tasks), description)
    {
      var newId: Int32 := if |tasks| > 0 then Wrap32(tasks[|tasks| - 1].id + 1) else 1;
      var newTask := TaskItem(newId, description, NotDone);
      tasks := tasks + [newTask];
    }

    /** `UpdateTask`: replaces the description of the first task with the parsed id. */
    method UpdateTask(idStr: string, newDescription: string)
      modifies this
      ensures tasks == Updated(old(tasks), idStr, newDescription)
    {
      var parsed := TryParse(idStr);
      if parsed.None? {
        return;
      }
      var found := FindIndex(parsed.value);
      if found.None? {
        return;
      }
      var i := found.value;
      tasks := tasks[i := tasks[i].(description := newDescription)];
    }

    /** `DeleteTask`: removes the first task with the parsed id. */
    method DeleteTask(idStr: string)
      modifies this
      ensures tasks == Deleted(old(tasks), idStr)
    {
      var parsed := TryParse(idStr);
      if parsed.None? {
        return;
      }
      var found := FindIndex(parsed.value);
      if found.None? {
        return;
      }
      var i := found.value;
      tasks := tasks[..i] + tasks[i + 1..];
    }

    /**
     * `MarkTask`: parses the status code first (which may throw), then accepts only
     * codes 1 and 2, then looks the task up. Returns the exception thrown, if any.
     */
    method MarkTask(idStr: string, enumString: string) returns (thrown: Option<Exception>)
      modifies this
      ensures Marked(old(tasks), idStr, enumString).Threw? ==>
                thrown == Some(Marked(old(tasks), idStr, enumString).exception) && tasks == old(tasks)
      ensures Marked(old(tasks), idStr, enumString).Value? ==>
                thrown == None && tasks == Marked(old(tasks), idStr, enumString).value
    {
      var code := ParseOrThrow(enumString);
      if code.Threw? {
        return Some(code.exception);
      }
      var enumValue := code.value;
      if !(enumValue == 1 || enumValue == 2) {
        return None;
      }
      var parsed := TryParse(idStr);
      if parsed.None? {
        return None;
      }
      var found := FindIndex(parsed.value);
      if found.None? {
        return None;
      }
      var i := found.value;
      tasks := tasks[i := tasks[i].(status := StatusOfOrdinal(enumValue))];
      return None;
    }

    /**
     * `ShowTasks`: the lines printed after the "Tasks:" header. The list is only read.
     * A recognised flag sets one of three filters; an unrecognised one sets none.
     */
    method ShowTasks(args: seq<string>) returns (printed: seq<string>)
      ensures printed == Render(Shown(tasks, ListFilter(args)))
    {
      var filterNotDone, filterInProgress, filterDone := false, false, false;
      if |args| > 1 {
        if EqualsIgnoreCase(args[1], "--notdone") {
          filterNotDone := true;
        } else if EqualsIgnoreCase(args[1], "--inprogress") {
          filterInProgress := true;
        } else if EqualsIgnoreCase(args[1], "--done") {
          filterDone := true;
        }
      }
      ghost var filter := ListFilter(args);
      assert filterNotDone <==> filter == Some(NotDone);
      assert filterInProgress <==> filter == Some(InProgress);
      assert filterDone <==> filter == Some(Done);
      printed := [];
      var i := 0;
      while i < |tasks|
        invariant 0 <= i <= |tasks|
        invariant printed == Render(Shown(tasks[..i], filter))
      {
        var task := tasks[i];
        StepShown(tasks, i, filter);
        if filterNotDone && task.status != NotDone {
          i := i + 1;
          continue;
        }
        if filterInProgress && task.status != InProgress {
          i := i + 1;
          continue;
        }
        if filterDone && task.status != Done {
          i := i + 1;
          continue;
        }
        printed := printed + [task.ToString()];
        i := i + 1;
      }
      assert tasks[..i] == tasks;
    }
  }

  /** One more step of the `foreach` in `ShowTasks`: the next task is printed exactly when it passes the filter. */
  lemma StepShown(ts: seq<TaskItem>, i: nat, filter: Option<TaskStatus>)
    requires i < |ts|
    ensures Render(Shown(ts[..i + 1], filter))
         == Render(Shown(ts[..i], filter)) + (if Passes(ts[i], filter) then [ts[i].ToString()] else [])
  {
    assert ts[..i + 1] == ts[..i] + [ts[i]];
    ShownAppend(ts[..i], [ts[i]], filter);
    assert Shown([ts[i]], filter) == if Passes(ts[i], filter) then [ts[i]] else [];
    RenderAppend(Shown(ts[..i], filter), Shown([ts[i]], filter));
  }

  lemma RenderAppend(a: seq<TaskItem>, b: seq<TaskItem>)
    ensures Render(a + b) == Render(a) + Render(b)
  {
  }

  lemma NoIndexIsFound(ts: seq<TaskItem>, id: int)
    requires forall j :: 0 <= j < |ts| ==> ts[j].id != id
    ensures FindFirst(ts, id) == None
  {
  }
}
