/**
 * The task records of the tracker and the effect of each command on the
 * ordered task list, stated as functions on values. The class in
 * store.dfy performs these changes in place and is proved against them.
 */
module TaskTracker {
  import opened Wrappers
  import opened Sequences
  import opened DotNet

  /** `enum TaskStatus`; its ordinals are the declaration order. */
  datatype TaskStatus = NotDone | InProgress | Done

  function Ordinal(s: TaskStatus): int
  {
    match s
    case NotDone => 0
    case InProgress => 1
    case Done => 2
  }

  /** The cast `(TaskStatus)n` for a defined ordinal. */
  function StatusOfOrdinal(n: int): (s: TaskStatus)
    requires 0 <= n <= 2
    ensures Ordinal(s) == n
  {
    if n == 0 then NotDone else if n == 1 then InProgress else Done
  }

  /** The name an enum value prints as. */
  function StatusName(s: TaskStatus): string
  {
    match s
    case NotDone => "NotDone"
    case InProgress => "InProgress"
    case Done => "Done"
  }

  datatype TaskItem = TaskItem(id: Int32, description: string, status: TaskStatus)
  {
    /** `TaskItem.ToString()`. */
    function ToString(): string
    {
      "ID: " + FormatInt(id) + ", Description: " + description + ", Status: " + StatusName(status)
    }
  }

  /** Two tasks that print as the same line have the same id: the id is everything between "ID: " and the first comma. */
  lemma ToStringDeterminesId(a: TaskItem, b: TaskItem)
    requires a.ToString() == b.ToString()
    ensures a.id == b.id
  {
    var fa, fb := FormatInt(a.id), FormatInt(b.id);
    var ra, rb := AfterId(a), AfterId(b);
    ToStringSplitsAtId(a);
    ToStringSplitsAtId(b);
    assert fa + ra == a.ToString()[4..] == b.ToString()[4..] == fb + rb;
    FormatIntChars(a.id);
    FormatIntChars(b.id);
    SameBeforeComma(fa, fb, ra, rb);
    FormatIntInjective(a.id, b.id);
  }

  /** What `ToString` prints after the id. */
  function AfterId(t: TaskItem): (r: string)
    ensures |r| > 0 && r[0] == ','
  {
    ", Description: " + t.description + ", Status: " + StatusName(t.status)
  }

  lemma ToStringSplitsAtId(t: TaskItem)
    ensures |t.ToString()| >= 4 && t.ToString()[4..] == FormatInt(t.id) + AfterId(t)
  {
    var f := FormatInt(t.id);
    assert t.ToString() == "ID: " + f + ", Description: " + t.description + ", Status: " + StatusName(t.status);
    assert t.ToString() == "ID: " + (f + AfterId(t));
  }

  /** Two comma-free strings, each followed by text that starts with a comma, are equal when the concatenations are. */
  lemma SameBeforeComma(x: string, y: string, rx: string, ry: string)
    requires forall k :: 0 <= k < |x| ==> x[k] != ','
    requires forall k :: 0 <= k < |y| ==> y[k] != ','
    requires |rx| > 0 && rx[0] == ',' && |ry| > 0 && ry[0] == ','
    requires x + rx == y + ry
    ensures x == y
  {
    if |x| < |y| {
      CommaFollows(x, rx);
      assert false;
    } else if |y| < |x| {
      CommaFollows(y, ry);
      assert false;
    } else {
      assert x == (x + rx)[..|x|] && y == (y + ry)[..|y|];
    }
  }

  lemma CommaFollows(x: string, rx: string)
    ensures |rx| > 0 && rx[0] == ',' ==> (x + rx)[|x|] == ','
  {
  }

  // ---------------------------------------------------------------------
  // Looking a task up by id: `tasks.Find(t => t.Id == id)`

  /** Index `i` holds the first task with this id. */
  predicate IsFirstWithId(ts: seq<TaskItem>, id: int, i: int)
  {
    0 <= i < |ts| && ts[i].id == id && forall j :: 0 <= j < i ==> ts[j].id != id
  }

  predicate HasId(ts: seq<TaskItem>, id: int)
  {
    exists i :: 0 <= i < |ts| && ts[i].id == id
  }

  /** The position of the element `List.Find` returns, or `None` where it returns null. */
  function FindFirst(ts: seq<TaskItem>, id: int): (r: Option<nat>)
    ensures r.Some? ==> IsFirstWithId(ts, id, r.value)
    ensures r.None? ==> forall j :: 0 <= j < |ts| ==> ts[j].id != id
  {
    if ts == [] then None
    else if ts[0].id == id then Some(0)
    else match FindFirst(ts[1..], id)
      case None => None
      case Some(k) => Some(k + 1)
  }

  // ---------------------------------------------------------------------
  // add

  /** The id `AddTask` gives the next task: the last task's id plus one, in unchecked 32-bit arithmetic, or 1. */
  function NextId(ts: seq<TaskItem>): (r: Int32)
    ensures ts == [] ==> r == 1
    ensures ts != [] && ts[|ts| - 1].id < MaxInt32 ==> r == ts[|ts| - 1].id + 1
    ensures ts != [] && ts[|ts| - 1].id == MaxInt32 ==> r == MinInt32
  {
    if |ts| > 0 then Wrap32(ts[|ts| - 1].id + 1) else 1
  }

  /** The list after `AddTask(tasks, description)`. */
  function Added(ts: seq<TaskItem>, description: string): (r: seq<TaskItem>)
    ensures |r| == |ts| + 1
    ensures r[..|ts|] == ts
    ensures r[|ts|].id == NextId(ts)
    ensures r[|ts|].description == description && r[|ts|].status == NotDone
  {
    ts + [TaskItem(NextId(ts), description, NotDone)]
  }

  // ---------------------------------------------------------------------
  // update

  /** The list after the first task with this id gets a new description. */
  function ReplaceDescription(ts: seq<TaskItem>, id: int, description: string): (r: seq<TaskItem>)
    ensures |r| == |ts|
    ensures forall j :: 0 <= j < |ts| ==> r[j].id == ts[j].id && r[j].status == ts[j].status
    ensures forall i :: IsFirstWithId(ts, id, i) ==>
              r[i].description == description && forall j :: 0 <= j < |ts| && j != i ==> r[j] == ts[j]
    ensures !HasId(ts, id) ==> r == ts
  {
    match FindFirst(ts, id)
    case None => ts
    case Some(i) => ts[i := ts[i].(description := description)]
  }

  /** The list after `UpdateTask(tasks, idStr, newDescription)`. */
  function Updated(ts: seq<TaskItem>, idStr: string, description: string): (r: seq<TaskItem>)
    ensures TryParse(idStr).None? ==> r == ts
    ensures TryParse(idStr).Some? && !HasId(ts, TryParse(idStr).value) ==> r == ts
    ensures |r| == |ts|
    ensures forall j :: 0 <= j < |ts| ==> r[j].id == ts[j].id && r[j].status == ts[j].status
    ensures forall i :: TryParse(idStr).Some? && IsFirstWithId(ts, TryParse(idStr).value, i) ==>
              r[i].description == description && forall j :: 0 <= j < |ts| && j != i ==> r[j] == ts[j]
  {
    match TryParse(idStr)
    case None => ts
    case Some(id) => ReplaceDescription(ts, id, description)
  }

  // ---------------------------------------------------------------------
  // delete

  /** The list after the first task with this id is removed. */
  function RemoveFirst(ts: seq<TaskItem>, id: int): (r: seq<TaskItem>)
    ensures HasId(ts, id) ==> |r| == |ts| - 1
    ensures forall i :: IsFirstWithId(ts, id, i) ==> r == ts[..i] + ts[i + 1..]
    ensures !HasId(ts, id) ==> r == ts
  {
    match FindFirst(ts, id)
    case None => ts
    case Some(i) => ts[..i] + ts[i + 1..]
  }

  /** The list after `DeleteTask(tasks, idStr)`. */
  function Deleted(ts: seq<TaskItem>, idStr: string): (r: seq<TaskItem>)
    ensures TryParse(idStr).None? ==> r == ts
    ensures TryParse(idStr).Some? && !HasId(ts, TryParse(idStr).value) ==> r == ts
    ensures forall i :: TryParse(idStr).Some? && IsFirstWithId(ts, TryParse(idStr).value, i) ==>
              |r| == |ts| - 1 && r == ts[..i] + ts[i + 1..]
  {
    match TryParse(idStr)
    case None => ts
    case Some(id) => RemoveFirst(ts, id)
  }

  // ---------------------------------------------------------------------
  // mark

  /** The status a `mark` code selects: only codes 1 and 2 are accepted, so NotDone is never selected. */
  function MarkTarget(code: int): (r: Option<TaskStatus>)
    ensures r.Some? <==> code == 1 || code == 2
    ensures r.Some? ==> Ordinal(r.value) == code && r.value != NotDone
  {
    if code == 1 || code == 2 then Some(StatusOfOrdinal(code)) else None
  }

  /** The list after the first task with this id gets a new status. */
  function ReplaceStatus(ts: seq<TaskItem>, id: int, status: TaskStatus): (r: seq<TaskItem>)
    ensures |r| == |ts|
    ensures forall j :: 0 <= j < |ts| ==> r[j].id == ts[j].id && r[j].description == ts[j].description
    ensures forall i :: IsFirstWithId(ts, id, i) ==>
              r[i].status == status && forall j :: 0 <= j < |ts| && j != i ==> r[j] == ts[j]
    ensures !HasId(ts, id) ==> r == ts
  {
    match FindFirst(ts, id)
    case None => ts
    case Some(i) => ts[i := ts[i].(status := status)]
  }

  /**
   * The list after `MarkTask(tasks, idStr, enumString)`, or the exception `Int32.Parse`
   * throws for the status code. The code is examined before the id: a code that is not
   * an integer throws whatever the id is, and a code other than 1 or 2 changes nothing.
   */
  function Marked(ts: seq<TaskItem>, idStr: string, codeStr: string): (r: Throwing<seq<TaskItem>>)
    ensures r.Threw? <==> ParseOrThrow(codeStr).Threw?
    ensures r.Threw? ==> r.exception == ParseOrThrow(codeStr).exception
    ensures TryParse(codeStr).Some? && MarkTarget(TryParse(codeStr).value).None? ==> r == Value(ts)
    ensures TryParse(codeStr).Some? && TryParse(idStr).None? ==> r == Value(ts)
    ensures r.Value? ==> |r.value| == |ts|
    ensures r.Value? ==> forall j :: 0 <= j < |ts| ==>
              && r.value[j].id == ts[j].id
              && r.value[j].description == ts[j].description
              && (r.value[j].status == ts[j].status || r.value[j].status != NotDone)
  {
    match ParseOrThrow(codeStr)
    case Threw(e) => Threw(e)
    case Value(code) =>
      match MarkTarget(code)
      case None => Value(ts)
      case Some(status) =>
        match TryParse(idStr)
        case None => Value(ts)
        case Some(id) => Value(ReplaceStatus(ts, id, status))
  }

  /** `mark` with an accepted code and an id some task has: only the first such task's status changes, to the code's status. */
  lemma MarkedFound(ts: seq<TaskItem>, idStr: string, codeStr: string, i: nat)
    requires TryParse(codeStr).Some? && MarkTarget(TryParse(codeStr).value).Some?
    requires TryParse(idStr).Some? && IsFirstWithId(ts, TryParse(idStr).value, i)
    ensures Marked(ts, idStr, codeStr).Value?
    ensures var m := Marked(ts, idStr, codeStr).value;
            && |m| == |ts|
            && m[i] == ts[i].(status := MarkTarget(TryParse(codeStr).value).value)
            && forall j :: 0 <= j < |ts| && j != i ==> m[j] == ts[j]
  {
    var status := MarkTarget(TryParse(codeStr).value).value;
    assert Marked(ts, idStr, codeStr) == Value(ReplaceStatus(ts, TryParse(idStr).value, status));
    FirstIsFound(ts, TryParse(idStr).value, i);
  }

  /** `mark` with an id that parses but that no task has leaves the list as it was, whatever the code (if it parses). */
  lemma MarkedNotFound(ts: seq<TaskItem>, idStr: string, codeStr: string)
    requires TryParse(codeStr).Some?
    requires TryParse(idStr).Some? && !HasId(ts, TryParse(idStr).value)
    ensures Marked(ts, idStr, codeStr) == Value(ts)
  {
  }

  /** `FindFirst` reports the first position holding the id. */
  lemma FirstIsFound(ts: seq<TaskItem>, id: int, i: nat)
    requires IsFirstWithId(ts, id, i)
    ensures FindFirst(ts, id) == Some(i)
  {
  }

  // ---------------------------------------------------------------------
  // list

  /** The flag that selects each status in `list`. */
  function FlagName(s: TaskStatus): string
  {
    match s
    case NotDone => "--notdone"
    case InProgress => "--inprogress"
    case Done => "--done"
  }

  /** The status filter `ShowTasks` selects from `args[1]`, matched ignoring case; `None` shows every task. */
  function ListFilter(args: seq<string>): (r: Option<TaskStatus>)
    ensures r.Some? ==> |args| > 1 && EqualsIgnoreCase(args[1], FlagName(r.value))
    ensures r.None? ==> |args| <= 1 || forall s: TaskStatus :: !EqualsIgnoreCase(args[1], FlagName(s))
  {
    if |args| <= 1 then None
    else if EqualsIgnoreCase(args[1], "--notdone") then Some(NotDone)
    else if EqualsIgnoreCase(args[1], "--inprogress") then Some(InProgress)
    else if EqualsIgnoreCase(args[1], "--done") then Some(Done)
    else None
  }

  predicate Passes(t: TaskItem, filter: Option<TaskStatus>)
  {
    filter.None? || t.status == filter.value
  }

  /** The tasks `ShowTasks` prints for a filter, in list order. */
  function Shown(ts: seq<TaskItem>, filter: Option<TaskStatus>): (r: seq<TaskItem>)
    ensures |r| <= |ts|
    ensures forall k :: 0 <= k < |r| ==> Passes(r[k], filter)
    ensures filter.None? ==> r == ts
  {
    if ts == [] then []
    else
      assert ts == [ts[0]] + ts[1..];
      (if Passes(ts[0], filter) then [ts[0]] else []) + Shown(ts[1..], filter)
  }

  /** Every task that passes the filter is shown as often as it occurs in the list, and no other task is shown. */
  lemma {:induction false} ShownCounts(ts: seq<TaskItem>, filter: Option<TaskStatus>, t: TaskItem)
    ensures multiset(Shown(ts, filter))[t] == if Passes(t, filter) then multiset(ts)[t] else 0
  {
    if ts != [] {
      var head := if Passes(ts[0], filter) then [ts[0]] else [];
      assert ts == [ts[0]] + ts[1..];
      assert Shown(ts, filter) == head + Shown(ts[1..], filter);
      ShownCounts(ts[1..], filter, t);
    }
  }

  /** Filtering a concatenation filters each part and keeps their order. */
  lemma {:induction false} ShownAppend(a: seq<TaskItem>, b: seq<TaskItem>, filter: Option<TaskStatus>)
    ensures Shown(a + b, filter) == Shown(a, filter) + Shown(b, filter)
  {
    if a == [] {
      assert a + b == b;
    } else {
      var head := if Passes(a[0], filter) then [a[0]] else [];
      var sa, sb := Shown(a[1..], filter), Shown(b, filter);
      assert a + b == [a[0]] + (a[1..] + b);
      assert a == [a[0]] + a[1..];
      ShownCons(a[0], a[1..] + b, filter);
      ShownCons(a[0], a[1..], filter);
      ShownAppend(a[1..], b, filter);
      assert Shown(a + b, filter) == head + (sa + sb);
      assert Shown(a, filter) == head + sa;
      ConcatAssociative(head, sa, sb);
    }
  }

  /** One step of the filter: the first task is shown exactly when it passes. */
  lemma ShownCons(t: TaskItem, rest: seq<TaskItem>, filter: Option<TaskStatus>)
    ensures Shown([t] + rest, filter) == (if Passes(t, filter) then [t] else []) + Shown(rest, filter)
  {
    assert ([t] + rest)[0] == t && ([t] + rest)[1..] == rest;
  }

  /** The printed lines for a sequence of tasks, one `ToString()` each. */
  function Render(ts: seq<TaskItem>): (r: seq<string>)
    ensures |r| == |ts|
    ensures forall k :: 0 <= k < |ts| ==> r[k] == ts[k].ToString()
  {
    seq(|ts|, k requires 0 <= k < |ts| => ts[k].ToString())
  }

  // ---------------------------------------------------------------------
  // The id invariant

  /** Ids strictly increase along the list. */
  predicate IncreasingIds(ts: seq<TaskItem>)
  {
    forall i, j :: 0 <= i < j < |ts| ==> ts[i].id < ts[j].id
  }

  predicate UniqueIds(ts: seq<TaskItem>)
  {
    forall i, j :: 0 <= i < |ts| && 0 <= j < |ts| && i != j ==> ts[i].id != ts[j].id
  }

  /** No 32-bit wrap-around when the next id is computed. */
  predicate RoomForNextId(ts: seq<TaskItem>)
  {
    ts == [] || ts[|ts| - 1].id < MaxInt32
  }

  lemma IncreasingIdsAreUnique(ts: seq<TaskItem>)
    requires IncreasingIds(ts)
    ensures UniqueIds(ts)
  {
  }

  lemma AddedKeepsIncreasing(ts: seq<TaskItem>, description: string)
    requires IncreasingIds(ts) && RoomForNextId(ts)
    ensures IncreasingIds(Added(ts, description))
  {
  }

  /** Once the last id is `int.MaxValue`, the unchecked increment wraps and the order breaks. */
  lemma AddedAtMaxIdBreaksOrder(ts: seq<TaskItem>, description: string)
    requires ts != [] && ts[|ts| - 1].id == MaxInt32
    ensures Added(ts, description)[|ts|].id == MinInt32
    ensures !IncreasingIds(Added(ts, description))
  {
    var r := Added(ts, description);
    assert r[|ts| - 1] == ts[|ts| - 1];
  }

  lemma RemoveFirstKeepsIncreasing(ts: seq<TaskItem>, id: int)
    requires IncreasingIds(ts)
    ensures IncreasingIds(RemoveFirst(ts, id))
  {
    match FindFirst(ts, id)
    case None =>
    case Some(i) =>
      var r := ts[..i] + ts[i + 1..];
      forall a, b | 0 <= a < b < |r| ensures r[a].id < r[b].id {
        var a', b' := if a < i then a else a + 1, if b < i then b else b + 1;
        assert r[a] == ts[a'] && r[b] == ts[b'];
      }
  }

  lemma ReplaceDescriptionKeepsIncreasing(ts: seq<TaskItem>, id: int, description: string)
    requires IncreasingIds(ts)
    ensures IncreasingIds(ReplaceDescription(ts, id, description))
  {
  }

  lemma ReplaceStatusKeepsIncreasing(ts: seq<TaskItem>, id: int, status: TaskStatus)
    requires IncreasingIds(ts)
    ensures IncreasingIds(ReplaceStatus(ts, id, status))
  {
  }

  /**
   * Marking a task Done (code 2) makes `list --done` show it, and `list --done`
   * shows nothing that is not Done.
   */
  lemma MarkDoneThenListed(ts: seq<TaskItem>, id: Int32, i: nat)
    requires IsFirstWithId(ts, id, i)
    ensures Marked(ts, FormatInt(id), "2").Value?
    ensures var m := Marked(ts, FormatInt(id), "2").value;
            && |m| == |ts| && m[i].id == id
            && m[i] in Shown(m, Some(Done))
            && forall t :: t in Shown(m, Some(Done)) ==> t.status == Done
  {
    ParseFormatInt(id);
    ParseFormatInt(2);
    assert FormatInt(2) == "2";
    assert MarkTarget(2) == Some(Done);
    MarkedFound(ts, FormatInt(id), "2", i);
    var m := Marked(ts, FormatInt(id), "2").value;
    assert m[i].status == Done;
    ShownCounts(m, Some(Done), m[i]);
    assert m[i] in multiset(m);
  }

  /** The session add "Buy milk", add "Walk dog", delete 1, add "Read book" from an empty list leaves tasks 2 and 3. */
  lemma SessionExample()
    ensures Added([], "Buy milk") == [TaskItem(1, "Buy milk", NotDone)]
    ensures Added(Deleted(Added(Added([], "Buy milk"), "Walk dog"), "1"), "Read book")
         == [TaskItem(2, "Walk dog", NotDone), TaskItem(3, "Read book", NotDone)]
  {
    var f2 := [TaskItem(1, "Buy milk", NotDone), TaskItem(2, "Walk dog", NotDone)];
    assert Added(Added([], "Buy milk"), "Walk dog") == f2;
    assert TryParse("1") == Some(1);
    FirstIsFound(f2, 1, 0);
    assert Deleted(f2, "1") == [TaskItem(2, "Walk dog", NotDone)];
  }

  /** Deleting the last task and adding again hands out the deleted id a second time. */
  lemma DeletedTailIdIsReissued()
    ensures var ts := Added(Added([], "a"), "b");
            var back := Added(Deleted(ts, "2"), "c");
            ts[1] == TaskItem(2, "b", NotDone) && back == [TaskItem(1, "a", NotDone), TaskItem(2, "c", NotDone)]
  {
    ParseFormatInt(2);
    assert FormatInt(2) == "2";
    var ts := Added(Added([], "a"), "b");
    assert ts == [TaskItem(1, "a", NotDone), TaskItem(2, "b", NotDone)];
    assert IsFirstWithId(ts, 2, 1);
    assert Deleted(ts, "2") == [TaskItem(1, "a", NotDone)];
  }
}
