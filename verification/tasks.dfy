/** The task store of the task list page: the stored list of task records and
    the operations the page performs on it. Each operation takes the list as
    read from storage and returns the list written back; browser dialogs are
    parameters (a `prompt` answer is a string, "" standing for cancel or an
    empty answer; a `confirm` answer is a bool) and the id `Date.now()` would
    give is a parameter too. */
module Tasks {
  import opened Text
  import opened Seqs

  datatype Task = Task(id: int, name: string, date: string, time: string, completed: bool)

  /** Some task in the list carries `id`. Ids are not assumed unique. */
  predicate HasId(tasks: seq<Task>, id: int) {
    exists i :: 0 <= i < |tasks| && tasks[i].id == id
  }

  /** Position of the task `Array.prototype.find` returns: the first with `id`. */
  function FirstIndex(tasks: seq<Task>, id: int): (i: nat)
    requires HasId(tasks, id)
    ensures i < |tasks| && tasks[i].id == id
    ensures forall j :: 0 <= j < i ==> tasks[j].id != id
    decreases |tasks|
  {
    if tasks[0].id == id then 0
    else
      assert HasId(tasks[1..], id) by {
        var k :| 0 <= k < |tasks| && tasks[k].id == id;
        assert tasks[1..][k - 1] == tasks[k];
      }
      1 + FirstIndex(tasks[1..], id)
  }

  /** Two lists with the same ids position by position find the same task. */
  lemma {:induction false} FirstIndexSameIds(a: seq<Task>, b: seq<Task>, id: int)
    requires |a| == |b|
    requires forall j :: 0 <= j < |a| ==> a[j].id == b[j].id
    requires HasId(a, id)
    ensures HasId(b, id)
    ensures FirstIndex(b, id) == FirstIndex(a, id)
  {
    var i := FirstIndex(a, id);
    assert b[i].id == id;
  }

  /** Every stored task has a non-empty name, date and time: what validation
      on creation and on every edit guarantees. */
  predicate Filled(tasks: seq<Task>) {
    forall i :: 0 <= i < |tasks| ==>
      tasks[i].name != "" && tasks[i].date != "" && tasks[i].time != ""
  }

  // ---------------------------------------------------------------- add

  /** The form is rejected (an alert is shown) when the trimmed name, the date
      or the time is empty: when the name is all white space or a field is
      left empty. */
  predicate AddRejected(name: string, date: string, time: string)
    ensures AddRejected(name, date, time) <==> Blank(name) || date == "" || time == ""
  {
    TrimEmptyIffBlank(name);
    Trim(name) == "" || date == "" || time == ""
  }

  /** `addTask`: appends a pending task with the trimmed name, unless the form
      is rejected, in which case nothing is stored. */
  function AddTask(tasks: seq<Task>, id: int, name: string, date: string, time: string): (r: seq<Task>)
    ensures AddRejected(name, date, time) ==> r == tasks
    ensures !AddRejected(name, date, time) ==>
      && |r| == |tasks| + 1
      && r[..|tasks|] == tasks
      && r[|tasks|] == Task(id, Trim(name), date, time, false)
    ensures r == tasks <==> AddRejected(name, date, time)
    ensures Filled(tasks) ==> Filled(r)
  {
    if AddRejected(name, date, time) then tasks
    else
      var r := tasks + [Task(id, Trim(name), date, time, false)];
      assert r[..|tasks|] == tasks;
      r
  }

  // ---------------------------------------------------------------- delete

  /** The `filter` callback of `deleteTask`. */
  function OtherId(id: int): Task -> bool {
    (t: Task) => t.id != id
  }

  /** `deleteTask`: keeps the tasks whose id differs, in order. */
  function DeleteTask(tasks: seq<Task>, id: int): (r: seq<Task>)
    ensures IsSubseq(r, tasks)
    ensures forall j :: 0 <= j < |r| ==> r[j].id != id && r[j] in tasks
    ensures forall j :: 0 <= j < |tasks| && tasks[j].id != id ==> tasks[j] in r
    ensures !HasId(r, id)
    ensures !HasId(tasks, id) ==> r == tasks
    ensures Filled(tasks) ==> Filled(r)
  {
    DeleteTaskKeeps(tasks, id);
    Select(tasks, OtherId(id))
  }

  lemma {:induction false} DeleteTaskKeeps(tasks: seq<Task>, id: int)
    ensures var r := Select(tasks, OtherId(id));
      && IsSubseq(r, tasks)
      && (forall j :: 0 <= j < |r| ==> r[j].id != id && r[j] in tasks)
      && (forall j :: 0 <= j < |tasks| && tasks[j].id != id ==> tasks[j] in r)
      && (!HasId(tasks, id) ==> r == tasks)
      && (Filled(tasks) ==> Filled(r))
  {
    var r := Select(tasks, OtherId(id));
    SelectMembers(tasks, OtherId(id));
    SelectIsSubseq(tasks, OtherId(id));
    if !HasId(tasks, id) {
      SelectAll(tasks, OtherId(id));
    }
    if Filled(tasks) {
      forall j | 0 <= j < |r|
        ensures r[j].name != "" && r[j].date != "" && r[j].time != ""
      {
        var k :| 0 <= k < |tasks| && tasks[k] == r[j];
      }
    }
  }

  /** Deleting removes exactly the tasks carrying the id: one per match. */
  lemma DeleteTaskCount(tasks: seq<Task>, id: int)
    ensures |DeleteTask(tasks, id)| + |Select(tasks, (t: Task) => t.id == id)| == |tasks|
  {
    SelectPartition(tasks, OtherId(id), (t: Task) => t.id == id);
  }

  /** A second delete of the same id changes nothing. */
  lemma {:induction false} DeleteTaskIdempotent(tasks: seq<Task>, id: int)
    ensures DeleteTask(DeleteTask(tasks, id), id) == DeleteTask(tasks, id)
  {
    SelectIdempotent(tasks, OtherId(id));
  }

  /** Deleting the id of a task just added, when no earlier task had it,
      gives back the list as it was before the add. */
  lemma AddThenDelete(tasks: seq<Task>, id: int, name: string, date: string, time: string)
    requires !HasId(tasks, id)
    ensures DeleteTask(AddTask(tasks, id, name, date, time), id) == tasks
  {
    if !AddRejected(name, date, time) {
      var t := Task(id, Trim(name), date, time, false);
      SelectConcat(tasks, [t], OtherId(id));
      SelectAll(tasks, OtherId(id));
      assert Select([t], OtherId(id)) == [];
    }
  }

  // ---------------------------------------------------------------- toggle

  /** `toggleComplete`: flips `completed` on the first task with the id. The
      page reads a field of `find`'s result without checking it, so a missing
      id is a crash the caller must rule out. */
  function ToggleComplete(tasks: seq<Task>, id: int): (r: seq<Task>)
    requires HasId(tasks, id)
    ensures |r| == |tasks|
    ensures var i := FirstIndex(tasks, id);
      && r[i].completed == !tasks[i].completed
      && r[i].(completed := tasks[i].completed) == tasks[i]
      && forall j :: 0 <= j < |r| && j != i ==> r[j] == tasks[j]
    ensures Filled(tasks) ==> Filled(r)
  {
    var i := FirstIndex(tasks, id);
    tasks[i := tasks[i].(completed := !tasks[i].completed)]
  }

  /** Toggling the same id twice restores the list. */
  lemma {:induction false} ToggleCompleteTwice(tasks: seq<Task>, id: int)
    requires HasId(tasks, id)
    ensures HasId(ToggleComplete(tasks, id), id)
    ensures ToggleComplete(ToggleComplete(tasks, id), id) == tasks
  {
    var once := ToggleComplete(tasks, id);
    FirstIndexSameIds(tasks, once, id);
  }

  // ---------------------------------------------------------------- edit

  /** `editTime`: with both prompt answers non-empty, sets the time and the
      date of the first task with the id; otherwise stores nothing. Only the
      accepted branch looks the task up, so only it needs the id present. */
  function EditTime(tasks: seq<Task>, id: int, time: string, date: string): (r: seq<Task>)
    requires time != "" && date != "" ==> HasId(tasks, id)
    ensures time == "" || date == "" ==> r == tasks
    ensures |r| == |tasks|
    ensures time != "" && date != "" ==>
      var i := FirstIndex(tasks, id);
      && r[i] == Task(tasks[i].id, tasks[i].name, date, time, tasks[i].completed)
      && forall j :: 0 <= j < |r| && j != i ==> r[j] == tasks[j]
    ensures Filled(tasks) ==> Filled(r)
  {
    if time != "" && date != "" then
      var i := FirstIndex(tasks, id);
      tasks[i := tasks[i].(time := time, date := date)]
    else
      tasks
  }

  /** `editName`: with a non-empty answer, sets the name of the first task with
      the id; otherwise stores nothing. The answer is not trimmed. The page
      reads the current name (the prompt's default) before asking, so the id
      must be present whatever the answer. */
  function EditName(tasks: seq<Task>, id: int, newName: string): (r: seq<Task>)
    requires HasId(tasks, id)
    ensures newName == "" ==> r == tasks
    ensures |r| == |tasks|
    ensures newName != "" ==>
      var i := FirstIndex(tasks, id);
      && r[i] == tasks[i].(name := newName)
      && forall j :: 0 <= j < |r| && j != i ==> r[j] == tasks[j]
    ensures Filled(tasks) ==> Filled(r)
  {
    if newName != "" then
      var i := FirstIndex(tasks, id);
      tasks[i := tasks[i].(name := newName)]
    else
      tasks
  }

  /** Every edit keeps the ids, in order, so later lookups find the same task. */
  lemma EditsKeepIds(tasks: seq<Task>, id: int, time: string, date: string, newName: string)
    requires HasId(tasks, id)
    ensures forall j :: 0 <= j < |tasks| ==> EditTime(tasks, id, time, date)[j].id == tasks[j].id
    ensures forall j :: 0 <= j < |tasks| ==> EditName(tasks, id, newName)[j].id == tasks[j].id
    ensures forall j :: 0 <= j < |tasks| ==> ToggleComplete(tasks, id)[j].id == tasks[j].id
  {
  }

  /** Renaming back to the old name undoes a rename. */
  lemma {:induction false} EditNameUndo(tasks: seq<Task>, id: int, newName: string)
    requires HasId(tasks, id)
    requires tasks[FirstIndex(tasks, id)].name != ""
    ensures HasId(EditName(tasks, id, newName), id)
    ensures EditName(EditName(tasks, id, newName), id, tasks[FirstIndex(tasks, id)].name) == tasks
  {
    var once := EditName(tasks, id, newName);
    FirstIndexSameIds(tasks, once, id);
  }

  /** Rescheduling back to the old time and date undoes a reschedule. */
  lemma {:induction false} EditTimeUndo(tasks: seq<Task>, id: int, time: string, date: string)
    requires HasId(tasks, id)
    requires tasks[FirstIndex(tasks, id)].time != "" && tasks[FirstIndex(tasks, id)].date != ""
    ensures HasId(EditTime(tasks, id, time, date), id)
    ensures var i := FirstIndex(tasks, id);
      EditTime(EditTime(tasks, id, time, date), id, tasks[i].time, tasks[i].date) == tasks
  {
    var once := EditTime(tasks, id, time, date);
    FirstIndexSameIds(tasks, once, id);
  }

  /** Unlike the add form, a rename accepts an all-blank answer, so a stored
      name can trim to "". */
  lemma EditNameAcceptsBlank()
    ensures var tasks := [Task(1, "a", "2024-01-01", "09:00", false)];
      && Trim(tasks[0].name) != ""
      && Trim(EditName(tasks, 1, " ")[0].name) == ""
  {
    var tasks := [Task(1, "a", "2024-01-01", "09:00", false)];
    assert HasId(tasks, 1) by { assert tasks[0].id == 1; }
    TrimEmptyIffBlank(" ");
    TrimEmptyIffBlank("a");
  }

  // ---------------------------------------------------------------- clear

  /** `clearAll`: stores the empty list if the user confirms, nothing otherwise. */
  function ClearAll(tasks: seq<Task>, confirmed: bool): (r: seq<Task>)
    ensures confirmed ==> r == []
    ensures !confirmed ==> r == tasks
  {
    if confirmed then [] else tasks
  }
}
