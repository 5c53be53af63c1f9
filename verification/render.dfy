/** The logic inside `renderTasks`: which stored tasks the active filter shows,
    and the progress line counted over the whole stored list. */
module Render {
  import opened Text
  import opened Seqs
  import opened Tasks
  import opened Options

  /** The filter callback: "all" shows every task, "completed" and "pending"
      show tasks by completion, and any other filter value shows nothing (the
      callback falls through and returns `undefined`). */
  function Shows(filter: string, t: Task): (b: bool)
    ensures filter == "all" ==> b
    ensures filter == "completed" ==> (b <==> t.completed)
    ensures filter == "pending" ==> (b <==> !t.completed)
    ensures b ==> filter == "all" || filter == "completed" || filter == "pending"
  {
    if filter == "all" then true
    else if filter == "completed" then t.completed
    else if filter == "pending" then !t.completed
    else false
  }

  function ShownBy(filter: string): Task -> bool {
    (t: Task) => Shows(filter, t)
  }

  /** The rows rendered for the active filter, in stored order. */
  function Visible(tasks: seq<Task>, filter: string): (r: seq<Task>)
    ensures IsSubseq(r, tasks)
    ensures forall j :: 0 <= j < |r| ==> Shows(filter, r[j]) && r[j] in tasks
    ensures forall j :: 0 <= j < |tasks| && Shows(filter, tasks[j]) ==> tasks[j] in r
  {
    SelectMembers(tasks, ShownBy(filter));
    SelectIsSubseq(tasks, ShownBy(filter));
    Select(tasks, ShownBy(filter))
  }

  /** The "all" filter shows the stored list itself. */
  lemma VisibleAll(tasks: seq<Task>)
    ensures Visible(tasks, "all") == tasks
  {
    SelectAll(tasks, ShownBy("all"));
  }

  /** A filter value other than the three buttons' shows nothing. */
  lemma {:induction false} VisibleUnknown(tasks: seq<Task>, filter: string)
    requires filter != "all" && filter != "completed" && filter != "pending"
    ensures Visible(tasks, filter) == []
  {
    SelectNone(tasks, ShownBy(filter));
  }

  /** The "completed" and "pending" views split the stored list: together they
      hold every task exactly as often as the list does, and share none. */
  lemma CompletedPendingPartition(tasks: seq<Task>)
    ensures |Visible(tasks, "completed")| + |Visible(tasks, "pending")| == |tasks|
    ensures multiset(Visible(tasks, "completed")) + multiset(Visible(tasks, "pending")) == multiset(tasks)
    ensures multiset(Visible(tasks, "completed")) !! multiset(Visible(tasks, "pending"))
  {
    var c := Visible(tasks, "completed");
    var p := Visible(tasks, "pending");
    SelectPartition(tasks, ShownBy("completed"), ShownBy("pending"));
    SelectMembers(tasks, ShownBy("completed"));
    SelectMembers(tasks, ShownBy("pending"));
    forall t: Task | t in multiset(c)
      ensures t !in multiset(p)
    {
      assert t.completed;
    }
  }

  /** The progress numerator: tasks done in the whole stored list. */
  function DoneCount(tasks: seq<Task>): (n: nat)
    ensures n <= |tasks|
  {
    |Select(tasks, (t: Task) => t.completed)|
  }

  /** The numerator is the size of the "completed" view of the unfiltered
      list, and with the "pending" view it accounts for every task. */
  lemma DoneCountIsCompletedView(tasks: seq<Task>)
    ensures DoneCount(tasks) == |Visible(tasks, "completed")|
    ensures DoneCount(tasks) + |Visible(tasks, "pending")| == |tasks|
  {
    SelectExt(tasks, (t: Task) => t.completed, ShownBy("completed"));
    CompletedPendingPartition(tasks);
  }

  /** The two numbers the progress line reports. */
  datatype Progress = Progress(done: nat, total: nat)

  /** The progress line, "<done> of <total> completed". */
  function ProgressText(tasks: seq<Task>): string {
    NatToString(DoneCount(tasks)) + " of " + NatToString(|tasks|) + " completed"
  }

  /** Reading the progress line back gives the number of completed tasks and
      the number of stored tasks. */
  lemma ProgressTextRoundTrip(tasks: seq<Task>)
    ensures ReadProgress(ProgressText(tasks)) == Some(Progress(DoneCount(tasks), |tasks|))
  {
    ProgressLine(NatToString(DoneCount(tasks)), NatToString(|tasks|));
  }

  /** Reads "<done> of <total> completed" back into its two numbers: four
      pieces separated by single spaces, the first and third numerals. */
  function ReadProgress(s: string): Option<Progress> {
    var p := Split(s, ' ');
    if |p| == 4 && p[1] == "of" && p[3] == "completed"
       && p[0] != "" && IsDigits(p[0]) && p[2] != "" && IsDigits(p[2])
    then Some(Progress(ParseNat(p[0]), ParseNat(p[2])))
    else None
  }

  /** A line built from two numerals splits back into its four pieces. */
  lemma ProgressLine(d: string, n: string)
    requires d != "" && IsDigits(d) && n != "" && IsDigits(n)
    ensures ReadProgress(d + " of " + n + " completed") == Some(Progress(ParseNat(d), ParseNat(n)))
  {
    var parts := [d, "of", n, "completed"];
    assert Join(parts[2..], ' ') == n + " completed" by {
      assert parts[2..][1..] == ["completed"];
    }
    assert Join(parts[1..], ' ') == "of " + n + " completed" by {
      assert parts[1..][1..] == parts[2..];
    }
    assert Join(parts, ' ') == d + " of " + n + " completed";
    assert ' ' !in d && ' ' !in n by {
      assert !IsDigit(' ');
    }
    SplitJoin(parts, ' ');
  }

  /** Adding a task leaves the numerator alone and raises the total by one. */
  lemma AddTaskProgress(tasks: seq<Task>, id: int, name: string, date: string, time: string)
    requires !AddRejected(name, date, time)
    ensures DoneCount(AddTask(tasks, id, name, date, time)) == DoneCount(tasks)
    ensures |AddTask(tasks, id, name, date, time)| == |tasks| + 1
  {
    var t := Task(id, Trim(name), date, time, false);
    SelectConcat(tasks, [t], (t: Task) => t.completed);
  }

  /** Toggling a task moves the numerator by one, up for a pending task and
      down for a completed one. */
  lemma {:induction false} ToggleCompleteProgress(tasks: seq<Task>, id: int)
    requires HasId(tasks, id)
    ensures var i := FirstIndex(tasks, id);
      DoneCount(ToggleComplete(tasks, id))
        == if tasks[i].completed then DoneCount(tasks) - 1 else DoneCount(tasks) + 1
  {
    var i := FirstIndex(tasks, id);
    SelectUpdateCount(tasks, i, tasks[i].(completed := !tasks[i].completed), (t: Task) => t.completed);
  }

  /** A confirmed clear-all leaves "0 of 0 completed"; a declined one leaves
      the line as it was. */
  lemma ClearAllProgress(tasks: seq<Task>, confirmed: bool)
    ensures confirmed ==> ProgressText(ClearAll(tasks, confirmed)) == "0 of 0 completed"
    ensures !confirmed ==> ProgressText(ClearAll(tasks, confirmed)) == ProgressText(tasks)
  {
    if confirmed {
      assert DoneCount([]) == 0;
      assert NatToString(0) == "0";
    }
  }

  /** Three tasks added and one completed read "1 of 3 completed"; the line
      takes no filter, so it reads the same whichever view is shown. */
  lemma ThreeAddedOneDone()
    ensures var s0 := AddTask([], 1, "milk", "2024-05-01", "09:00");
      var s1 := AddTask(s0, 2, "call", "2024-05-01", "12:30");
      var s2 := AddTask(s1, 3, "walk", "2024-05-02", "18:00");
      && HasId(s2, 2)
      && ProgressText(ToggleComplete(s2, 2)) == "1 of 3 completed"
  {
    NonBlankName("milk");
    NonBlankName("call");
    NonBlankName("walk");
    var s0 := AddTask([], 1, "milk", "2024-05-01", "09:00");
    AddTaskProgress([], 1, "milk", "2024-05-01", "09:00");
    var s1 := AddTask(s0, 2, "call", "2024-05-01", "12:30");
    AddTaskProgress(s0, 2, "call", "2024-05-01", "12:30");
    var s2 := AddTask(s1, 3, "walk", "2024-05-02", "18:00");
    AddTaskProgress(s1, 3, "walk", "2024-05-02", "18:00");
    assert DoneCount(s2) == 0 && |s2| == 3;
    assert s2[1] == s1[1] == Task(2, Trim("call"), "2024-05-01", "12:30", false);
    assert s2[0].id == 1;
    assert FirstIndex(s2, 2) == 1;
    ToggleCompleteProgress(s2, 2);
    var s3 := ToggleComplete(s2, 2);
    assert DoneCount(s3) == 1 && |s3| == 3;
    OneOfThree(s3);
  }

  lemma OneOfThree(tasks: seq<Task>)
    requires DoneCount(tasks) == 1 && |tasks| == 3
    ensures ProgressText(tasks) == "1 of 3 completed"
  {
    assert NatToString(1) == "1" && NatToString(3) == "3";
  }

  lemma NonBlankName(name: string)
    requires |name| > 0 && !IsSpace(name[0])
    ensures Trim(name) != ""
  {
    TrimEmptyIffBlank(name);
  }
}
