/** Tasks and the ordered task list owned by every group and student.

    Tasks compare structurally (kind, description and, for a deadline, its due
    date); the due date is an opaque, already formatted string. A task list keeps
    insertion order, addresses its entries from 1, and refuses a structurally
    equal duplicate. */
module Tasks {
  import opened Outcomes

  datatype Task =
    | ToDo(description: string)
    | Deadline(description: string, due: string)

  type DeadlineTask = t: Task | t.Deadline? witness Deadline("", "")

  /** The text of one task, as the task list shows it. */
  function TaskText(t: Task): string {
    match t
    case ToDo(d) => "[T][ ] " + d
    case Deadline(d, due) => "[D][ ] " + d + "(by: " + due + ")"
  }

  /** The texts of `ts` in order, separated by ", ". */
  function JoinTexts(ts: seq<Task>): string {
    if |ts| == 0 then ""
    else if |ts| == 1 then TaskText(ts[0])
    else TaskText(ts[0]) + ", " + JoinTexts(ts[1..])
  }

  predicate Distinct(ts: seq<Task>) {
    forall i, j :: 0 <= i < j < |ts| ==> ts[i] != ts[j]
  }

  datatype TaskList = TaskList(items: seq<Task>) {

    function Size(): nat {
      |items|
    }

    predicate HasTask(t: Task) {
      t in items
    }

    /** Indices are 1-based: the valid ones are 1 through Size(). */
    predicate IsValidIndex(index: int) {
      1 <= index <= |items|
    }

    function VerifyIsValidIndex(index: int): (r: Outcome)
      ensures r.Pass? <==> IsValidIndex(index)
      ensures r.Fail? ==> r.error == NoSuchTask
    {
      if IsValidIndex(index) then Pass else Fail(NoSuchTask)
    }

    /** The task at 1-based position `index`. */
    function GetTask(index: int): (r: Result<Task>)
      ensures r.Ok? <==> IsValidIndex(index)
      ensures r.Err? ==> r.error == NoSuchTask
      ensures r.Ok? ==> r.value == items[index - 1] && HasTask(r.value)
    {
      if IsValidIndex(index) then Ok(items[index - 1]) else Err(NoSuchTask)
    }

    /** Appends `t` unless a structurally equal task is already listed. */
    function AddTask(t: Task): (r: Result<TaskList>)
      ensures r.Ok? <==> !HasTask(t)
      ensures r.Err? ==> r.error == DuplicateTask
      ensures r.Ok? ==> r.value.Size() == Size() + 1 && r.value.GetTask(Size() + 1) == Ok(t)
      ensures r.Ok? ==> forall i :: IsValidIndex(i) ==> r.value.GetTask(i) == GetTask(i)
      ensures r.Ok? && Distinct(items) ==> Distinct(r.value.items)
    {
      if t in items then Err(DuplicateTask) else Ok(TaskList(items + [t]))
    }

    /** The list as "[" + task texts in insertion order + "]". */
    function Render(): string {
      "[" + JoinTexts(items) + "]"
    }
  }

  /** Two task lists are equal exactly when they have the same size and the
      same task at every 1-based index. */
  lemma {:induction false} EqualIffSameTasks(a: TaskList, b: TaskList)
    ensures a == b <==>
      (a.Size() == b.Size() && forall i :: a.IsValidIndex(i) ==> a.GetTask(i) == b.GetTask(i))
  {
    if a.Size() == b.Size() && forall i :: a.IsValidIndex(i) ==> a.GetTask(i) == b.GetTask(i) {
      forall k | 0 <= k < |a.items|
        ensures a.items[k] == b.items[k]
      {
        assert a.GetTask(k + 1) == b.GetTask(k + 1);
      }
      assert a.items == b.items;
    }
  }

  /** On a non-empty list, index 1 is valid and designates the first task. */
  lemma IndexOneValidWhenNonEmpty(l: TaskList)
    requires l.Size() > 0
    ensures l.IsValidIndex(1)
    ensures l.GetTask(1) == Ok(l.items[0])
  {
  }

  /** Index 0 is never valid, and verifying it fails with NoSuchTask. */
  lemma IndexZeroInvalid(l: TaskList)
    ensures !l.IsValidIndex(0)
    ensures l.VerifyIsValidIndex(0) == Fail(NoSuchTask)
    ensures l.GetTask(0) == Err(NoSuchTask)
  {
  }

  /** Adding a task a second time is refused and leaves one copy. */
  lemma AddTwiceRefused(l: TaskList, t: Task)
    requires l.AddTask(t).Ok?
    ensures l.AddTask(t).value.AddTask(t) == Err(DuplicateTask)
  {
  }

  /** Appending a task adds its text at the end, after ", ". */
  lemma {:induction false} JoinTextsAppend(ts: seq<Task>, t: Task)
    requires |ts| > 0
    ensures JoinTexts(ts + [t]) == JoinTexts(ts) + ", " + TaskText(t)
    decreases |ts|
  {
    if |ts| == 1 {
      assert (ts + [t])[1..] == [t];
    } else {
      assert (ts + [t])[1..] == ts[1..] + [t];
      JoinTextsAppend(ts[1..], t);
    }
  }

  /** Rendering follows insertion order: an added task shows up last. */
  lemma RenderAfterAdd(l: TaskList, t: Task)
    requires l.AddTask(t).Ok?
    ensures l.Size() == 0 ==> l.AddTask(t).value.Render() == "[" + TaskText(t) + "]"
    ensures l.Size() > 0 ==>
      l.AddTask(t).value.Render() == "[" + JoinTexts(l.items) + ", " + TaskText(t) + "]"
  {
    assert l.AddTask(t).value == TaskList(l.items + [t]);
    if l.Size() > 0 {
      JoinTextsAppend(l.items, t);
    } else {
      assert l.items + [t] == [t];
    }
  }
}
