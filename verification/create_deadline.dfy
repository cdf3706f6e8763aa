/** The `deadline` command: adds a deadline to one group or student, or to
    every student of a group (category "allStu"), or to every group under the
    root (category "allGrp").

    The bulk forms are not transactional: they visit the children in insertion
    order and stop at the first child that already has the deadline, and the
    children visited before it keep the deadline they were given. */
module CreateDeadline {
  import opened Outcomes
  import opened Paths
  import opened Tasks
  import opened Children
  import opened ProfBook
  import opened Session

  /** The optional category string given with the command. */
  datatype Category = Unset | Given(name: string)

  datatype Command = Command(path: RelativePath, deadline: DeadlineTask, category: Category)

  /** Whether the node at `q` exists, has a task list, and already lists `d`. */
  predicate Holds(root: Root, q: AbsolutePath, d: Task) {
    TaskOperation(root, q).Ok? && TaskOperation(root, q).value.HasTask(d)
  }

  /** The tree `after` differs from `before` only in that `d` was appended to
      the task list at `p`: every other task list, the set of paths and the
      order of all children are as before. */
  ghost predicate AppendedAt(before: Root, after: Root, p: AbsolutePath, d: Task) {
    && TaskOperation(before, p).Ok?
    && TaskOperation(after, p) == TaskOperation(before, p).value.AddTask(d)
    && (forall q :: q != p ==> TaskOperation(after, q) == TaskOperation(before, q))
    && (forall q :: HasPath(after, q) == HasPath(before, q))
    && SameShape(before, after)
  }

  /** The step the command repeats for every target: obtain the task list at
      `p`, refuse a deadline it already has, otherwise add it. */
  function AddDeadlineAt(root: Root, p: AbsolutePath, d: Task): (r: Result<Root>)
    ensures TaskOperation(root, p).Err? ==> r == Err(TaskOperation(root, p).error)
    ensures Holds(root, p, d) ==> r == Err(DuplicateTask)
    ensures r.Ok? <==> HasTaskList(root, p) && !Holds(root, p, d)
    ensures r.Ok? ==> AppendedAt(root, r.value, p, d)
    ensures r.Ok? && Valid(root) ==> Valid(r.value)
  {
    var target :- TaskOperation(root, p);
    if target.HasTask(d) then Err(DuplicateTask)
    else
      var l := target.AddTask(d).value;
      SetTasksFrameAll(root, p, l);
      SetTasksShape(root, p, l);
      if Valid(root) then
        ValidTaskListDistinct(root, p);
        SetTasksValid(root, p, l);
        Ok(SetTasks(root, p, l))
      else
        Ok(SetTasks(root, p, l))
  }

  /** Runs `AddDeadlineAt` on each path in order, stopping at the first
      failure; what was added before the failure stays. */
  function AddToEach(root: Root, paths: seq<AbsolutePath>, d: Task): (Root, Outcome)
    decreases |paths|
  {
    if |paths| == 0 then (root, Pass)
    else
      match AddDeadlineAt(root, paths[0], d)
      case Err(e) => (root, Fail(e))
      case Ok(next) => AddToEach(next, paths[1..], d)
  }

  /** The position of the first path whose task list already has `d`, or
      |paths| when none has. */
  function FirstHolder(root: Root, paths: seq<AbsolutePath>, d: Task): (k: nat)
    ensures k <= |paths|
    ensures k < |paths| ==> Holds(root, paths[k], d)
    ensures forall j :: 0 <= j < k ==> !Holds(root, paths[j], d)
  {
    if |paths| == 0 then 0
    else if Holds(root, paths[0], d) then 0
    else 1 + FirstHolder(root, paths[1..], d)
  }

  /** Trees that agree on which targets hold `d` agree on the first holder. */
  lemma {:induction false} FirstHolderSame(a: Root, b: Root, paths: seq<AbsolutePath>, d: Task)
    requires forall i :: 0 <= i < |paths| ==> TaskOperation(a, paths[i]) == TaskOperation(b, paths[i])
    ensures FirstHolder(a, paths, d) == FirstHolder(b, paths, d)
    decreases |paths|
  {
    if |paths| > 0 {
      FirstHolderSame(a, b, paths[1..], d);
    }
  }

  predicate DistinctPaths(paths: seq<AbsolutePath>) {
    forall i, j :: 0 <= i < j < |paths| ==> paths[i] != paths[j]
  }

  /** The outcome of a bulk add over distinct targets: with k the first target
      already holding `d`, targets before k gain `d`, k and the targets after it
      are untouched, nothing outside the targets changes, the order of all
      children is kept, and the outcome is a duplicate-task failure exactly
      when such a k exists. */
  ghost predicate NonTransactional(before: Root, after: Root, out: Outcome, paths: seq<AbsolutePath>, d: Task) {
    var k := FirstHolder(before, paths, d);
    && (out.Pass? <==> k == |paths|)
    && (out.Fail? ==> out.error == DuplicateTask)
    && (forall i :: 0 <= i < k ==>
          && TaskOperation(before, paths[i]).Ok?
          && TaskOperation(after, paths[i]) == TaskOperation(before, paths[i]).value.AddTask(d))
    && (forall i :: k <= i < |paths| ==> TaskOperation(after, paths[i]) == TaskOperation(before, paths[i]))
    && (forall q :: q !in paths ==> TaskOperation(after, q) == TaskOperation(before, q))
    && (forall q :: HasPath(after, q) == HasPath(before, q))
    && SameShape(before, after)
  }

  /** The bulk add, stated over all inputs: see `NonTransactional`. */
  lemma {:induction false} AddToEachSpec(root: Root, paths: seq<AbsolutePath>, d: Task)
    requires DistinctPaths(paths)
    requires forall i :: 0 <= i < |paths| ==> HasTaskList(root, paths[i])
    ensures NonTransactional(root, AddToEach(root, paths, d).0, AddToEach(root, paths, d).1, paths, d)
    decreases |paths|, 2
  {
    AddToEachShape(root, paths, d);
    if |paths| > 0 && !Holds(root, paths[0], d) {
      AddToEachStep(root, paths, d);
    }
  }

  /** The inductive step of `AddToEachSpec`: a first target that gains the
      deadline extends the outcome for the remaining targets by one. */
  lemma {:induction false} AddToEachStep(root: Root, paths: seq<AbsolutePath>, d: Task)
    requires |paths| > 0 && DistinctPaths(paths)
    requires forall i :: 0 <= i < |paths| ==> HasTaskList(root, paths[i])
    requires !Holds(root, paths[0], d)
    ensures NonTransactional(root, AddToEach(root, paths, d).0, AddToEach(root, paths, d).1, paths, d)
    decreases |paths|, 1
  {
    AddToEachShape(root, paths, d);
    StepOutcome(root, paths, d);
    StepUpdated(root, paths, d);
    StepUntouched(root, paths, d);
  }

  /** After a first step that succeeds, the bulk add's outcome and the set
      of existing paths are those of the remaining steps. */
  lemma {:induction false} StepOutcome(root: Root, paths: seq<AbsolutePath>, d: Task)
    requires |paths| > 0 && DistinctPaths(paths)
    requires forall i :: 0 <= i < |paths| ==> HasTaskList(root, paths[i])
    requires !Holds(root, paths[0], d)
    ensures var (after, out) := AddToEach(root, paths, d);
            && FirstHolder(root, paths[1..], d) == FirstHolder(root, paths, d) - 1
            && (out.Pass? <==> FirstHolder(root, paths, d) == |paths|)
            && (out.Fail? ==> out.error == DuplicateTask)
            && (forall q :: HasPath(after, q) == HasPath(root, q))
    decreases |paths|, 0
  {
    var next := AddDeadlineAt(root, paths[0], d).value;
    var rest := paths[1..];
    FirstStepFrame(root, paths, d);
    AddToEachSpec(next, rest, d);
    FirstHolderSame(next, root, rest, d);
  }

  /** Targets before the first holder gain `d`. */
  lemma {:induction false} StepUpdated(root: Root, paths: seq<AbsolutePath>, d: Task)
    requires |paths| > 0 && DistinctPaths(paths)
    requires forall i :: 0 <= i < |paths| ==> HasTaskList(root, paths[i])
    requires !Holds(root, paths[0], d)
    ensures var after := AddToEach(root, paths, d).0;
            forall i :: 0 <= i < FirstHolder(root, paths, d) ==>
              && TaskOperation(root, paths[i]).Ok?
              && TaskOperation(after, paths[i]) == TaskOperation(root, paths[i]).value.AddTask(d)
    decreases |paths|, 0
  {
    var next := AddDeadlineAt(root, paths[0], d).value;
    var rest := paths[1..];
    FirstStepFrame(root, paths, d);
    AddToEachSpec(next, rest, d);
    FirstHolderSame(next, root, rest, d);
    var after := AddToEach(next, rest, d).0;
    forall i | 0 <= i < FirstHolder(root, paths, d)
      ensures TaskOperation(after, paths[i]) == TaskOperation(root, paths[i]).value.AddTask(d)
    {
      if i > 0 {
        assert paths[i] == rest[i - 1];
      }
    }
  }

  /** Targets from the first holder on, and every path that is not a
      target, keep their task lists. */
  lemma {:induction false} StepUntouched(root: Root, paths: seq<AbsolutePath>, d: Task)
    requires |paths| > 0 && DistinctPaths(paths)
    requires forall i :: 0 <= i < |paths| ==> HasTaskList(root, paths[i])
    requires !Holds(root, paths[0], d)
    ensures var after := AddToEach(root, paths, d).0;
            && (forall i :: FirstHolder(root, paths, d) <= i < |paths| ==>
                  TaskOperation(after, paths[i]) == TaskOperation(root, paths[i]))
            && (forall q :: q !in paths ==> TaskOperation(after, q) == TaskOperation(root, q))
    decreases |paths|, 0
  {
    var next := AddDeadlineAt(root, paths[0], d).value;
    var rest := paths[1..];
    FirstStepFrame(root, paths, d);
    AddToEachSpec(next, rest, d);
    FirstHolderSame(next, root, rest, d);
    var after := AddToEach(next, rest, d).0;
    forall i | FirstHolder(root, paths, d) <= i < |paths|
      ensures TaskOperation(after, paths[i]) == TaskOperation(root, paths[i])
    {
      assert paths[i] == rest[i - 1];
    }
    forall q | q !in paths
      ensures TaskOperation(after, q) == TaskOperation(root, q)
    {
      assert q !in rest;
    }
  }

  /** The first step of a bulk add over distinct targets leaves every later
      target existing, with its task list as before. */
  lemma FirstStepFrame(root: Root, paths: seq<AbsolutePath>, d: Task)
    requires |paths| > 0 && DistinctPaths(paths)
    requires forall i :: 0 <= i < |paths| ==> HasTaskList(root, paths[i])
    requires !Holds(root, paths[0], d)
    ensures var next := AddDeadlineAt(root, paths[0], d).value;
            forall j :: 0 <= j < |paths| - 1 ==>
              && paths[1..][j] != paths[0]
              && HasTaskList(next, paths[1..][j])
              && TaskOperation(next, paths[1..][j]) == TaskOperation(root, paths[1..][j])
  {
    var next := AddDeadlineAt(root, paths[0], d).value;
    forall j | 0 <= j < |paths| - 1
      ensures paths[1..][j] != paths[0]
      ensures HasTaskList(next, paths[1..][j])
      ensures TaskOperation(next, paths[1..][j]) == TaskOperation(root, paths[1..][j])
    {
      assert paths[1..][j] == paths[j + 1];
    }
  }

  /** A bulk add, complete or stopped part-way, keeps the order of all
      children. */
  lemma {:induction false} AddToEachShape(root: Root, paths: seq<AbsolutePath>, d: Task)
    ensures SameShape(root, AddToEach(root, paths, d).0)
    decreases |paths|
  {
    if |paths| > 0 {
      match AddDeadlineAt(root, paths[0], d)
      case Err(_) =>
      case Ok(next) =>
        AddToEachShape(next, paths[1..], d);
        SameShapeTrans(root, next, AddToEach(next, paths[1..], d).0);
    }
  }

  /** Bulk adds on a valid tree keep it valid, whether they succeed or not. */
  lemma {:induction false} AddToEachValid(root: Root, paths: seq<AbsolutePath>, d: Task)
    requires Valid(root)
    ensures Valid(AddToEach(root, paths, d).0)
    decreases |paths|
  {
    if |paths| > 0 {
      match AddDeadlineAt(root, paths[0], d)
      case Err(_) =>
      case Ok(next) => AddToEachValid(next, paths[1..], d);
    }
  }

  /** The student paths of group `g` in child-list order, each built from the
      student's own identifier, as the command builds them. */
  function StudentPaths(g: GroupId, grp: Group): (ps: seq<AbsolutePath>)
    ensures |ps| == |grp.students|
  {
    seq(|grp.students|, i requires 0 <= i < |grp.students| => StudentPath(g, grp.students[i].1.id))
  }

  /** The group paths under the root in child-list order. */
  function GroupPaths(root: Root): (ps: seq<AbsolutePath>)
    ensures |ps| == |root.groups|
    ensures forall i :: 0 <= i < |ps| ==> ps[i].IsGroupDirectory()
  {
    seq(|root.groups|, i requires 0 <= i < |root.groups| => GroupPath(root.groups[i].1.id))
  }

  function Bulk(st: State, paths: seq<AbsolutePath>, d: Task, success: Feedback): Response {
    var res := AddToEach(st.root, paths, d);
    Response(st.(root := res.0), if res.1.Pass? then Done(success) else Failed(res.1.error))
  }

  function Execute(cmd: Command, st: State): Response {
    match Resolve(st.current, cmd.path)
    case Err(e) => Response(st, Failed(e))
    case Ok(p) =>
      if cmd.category.Unset? then
        (match AddDeadlineAt(st.root, p, cmd.deadline)
         case Err(e) => Response(st, Failed(e))
         case Ok(root') => Response(st.(root := root'), Done(DeadlineAdded)))
      else if cmd.category.name == "allStu" && p.IsGroupDirectory() then
        (match GroupOperation(st.root, p)
         case Err(e) => Response(st, Failed(e))
         case Ok(grp) => Bulk(st, StudentPaths(p.group, grp), cmd.deadline, DeadlineAddedToAllStudents))
      else if cmd.category.name == "allGrp" && p.IsRootDirectory() then
        Bulk(st, GroupPaths(st.root), cmd.deadline, DeadlineAddedToAllGroups)
      else
        Response(st, Failed(CommandFailed))
  }

  /** Commands are equal when their deadlines and paths are; the category is
      not compared. */
  predicate Equals(a: Command, b: Command) {
    a.deadline == b.deadline && a.path == b.path
  }

  /** A path that does not resolve is reported as invalid and changes nothing. */
  lemma UnresolvablePath(cmd: Command, st: State)
    requires Resolve(st.current, cmd.path).Err?
    ensures Execute(cmd, st) == Response(st, Failed(InvalidPath))
  {
    ResolveDepth(st.current, cmd.path);
  }

  /** Without a category, a target lacking a task list is reported (the root
      as an unsupported operation, a missing node as an invalid path), and a
      target already holding the deadline is a duplicate; the state is kept. */
  lemma SingleTargetRefused(cmd: Command, st: State, p: AbsolutePath)
    requires cmd.category.Unset?
    requires Resolve(st.current, cmd.path) == Ok(p)
    requires !HasTaskList(st.root, p) || Holds(st.root, p, cmd.deadline)
    ensures Execute(cmd, st).state == st
    ensures p.IsRootDirectory() ==> Execute(cmd, st).status == Failed(UnsupportedPathOperation)
    ensures !HasPath(st.root, p) ==> Execute(cmd, st).status == Failed(InvalidPath)
    ensures Holds(st.root, p, cmd.deadline) ==> Execute(cmd, st).status == Failed(DuplicateTask)
  {
  }

  /** Without a category and without a duplicate, the deadline is appended to
      the target's task list and nothing else in the state changes. */
  lemma SingleTargetAdded(cmd: Command, st: State, p: AbsolutePath)
    requires cmd.category.Unset?
    requires Resolve(st.current, cmd.path) == Ok(p)
    requires HasTaskList(st.root, p) && !Holds(st.root, p, cmd.deadline)
    ensures Execute(cmd, st).status == Done(DeadlineAdded)
    ensures Execute(cmd, st).state.current == st.current
    ensures Execute(cmd, st).state.display == st.display
    ensures AppendedAt(st.root, Execute(cmd, st).state.root, p, cmd.deadline)
  {
  }

  /** "allStu" on an existing group of a valid tree: the group's students are
      visited in child-list order; with k the first student already holding
      the deadline, students before k gain it, student k and those after it are
      untouched, no other node changes, and the command fails with a duplicate
      exactly when such a student exists. */
  lemma AllStudentsNonTransactional(cmd: Command, st: State, p: AbsolutePath, grp: Group)
    requires Valid(st.root)
    requires cmd.category == Given("allStu")
    requires Resolve(st.current, cmd.path) == Ok(p) && p.IsGroupDirectory()
    requires GroupOperation(st.root, p) == Ok(grp)
    ensures var r := Execute(cmd, st);
            var res := AddToEach(st.root, StudentPaths(p.group, grp), cmd.deadline);
            && r.state == st.(root := res.0)
            && r.status == (if res.1.Pass? then Done(DeadlineAddedToAllStudents) else Failed(DuplicateTask))
            && NonTransactional(st.root, res.0, res.1, StudentPaths(p.group, grp), cmd.deadline)
  {
    var r := Execute(cmd, st);
    var targets := StudentPaths(p.group, grp);
    StudentTargets(st.root, p.group, grp);
    assert r == Bulk(st, targets, cmd.deadline, DeadlineAddedToAllStudents);
    AddToEachSpec(st.root, targets, cmd.deadline);
  }

  /** On a valid tree the student targets of a bulk add are the group's
      students in child-list order, all distinct and all holding a task list. */
  lemma StudentTargets(root: Root, g: GroupId, grp: Group)
    requires Valid(root) && Lookup(root.groups, g) == Some(grp)
    ensures forall i :: 0 <= i < |grp.students| ==> StudentPaths(g, grp)[i] == StudentPath(g, grp.students[i].0)
    ensures forall i :: 0 <= i < |grp.students| ==> HasTaskList(root, StudentPaths(g, grp)[i])
    ensures DistinctPaths(StudentPaths(g, grp))
  {
    var targets := StudentPaths(g, grp);
    ValidLookupGroup(root, g, grp);
    forall i | 0 <= i < |targets|
      ensures targets[i] == StudentPath(g, grp.students[i].0)
      ensures HasTaskList(root, targets[i])
    {
      assert ValidStudent(grp.students[i].0, grp.students[i].1);
      LookupUnique(grp.students, i);
    }
  }

  /** On a valid tree the group targets of a bulk add are the root's groups in
      child-list order, all distinct and all holding a task list. */
  lemma GroupTargets(root: Root)
    requires Valid(root)
    ensures forall i :: 0 <= i < |root.groups| ==> GroupPaths(root)[i] == GroupPath(root.groups[i].0)
    ensures forall i :: 0 <= i < |root.groups| ==> HasTaskList(root, GroupPaths(root)[i])
    ensures DistinctPaths(GroupPaths(root))
  {
    var targets := GroupPaths(root);
    forall i | 0 <= i < |targets|
      ensures targets[i] == GroupPath(root.groups[i].0)
      ensures HasTaskList(root, targets[i])
    {
      assert ValidGroup(root.groups[i].0, root.groups[i].1);
      LookupUnique(root.groups, i);
    }
  }

  /** "allGrp" at the root: the groups are visited in child-list order with
      the same non-transactional outcome, and no student's task list changes. */
  lemma AllGroupsNonTransactional(cmd: Command, st: State)
    requires Valid(st.root)
    requires cmd.category == Given("allGrp")
    requires Resolve(st.current, cmd.path) == Ok(RootPath)
    ensures var r := Execute(cmd, st);
            var res := AddToEach(st.root, GroupPaths(st.root), cmd.deadline);
            && r.state == st.(root := res.0)
            && r.status == (if res.1.Pass? then Done(DeadlineAddedToAllGroups) else Failed(DuplicateTask))
            && NonTransactional(st.root, res.0, res.1, GroupPaths(st.root), cmd.deadline)
            && (forall q: AbsolutePath :: q.IsStudentDirectory() ==> TaskOperation(res.0, q) == TaskOperation(st.root, q))
  {
    var r := Execute(cmd, st);
    var targets := GroupPaths(st.root);
    GroupTargets(st.root);
    assert r == Bulk(st, targets, cmd.deadline, DeadlineAddedToAllGroups);
    AddToEachSpec(st.root, targets, cmd.deadline);
    forall q: AbsolutePath | q.IsStudentDirectory()
      ensures q !in targets
    {
    }
  }

  /** "allStu" on a group-level path naming no group is an invalid path. */
  lemma AllStudentsMissingGroup(cmd: Command, st: State, p: AbsolutePath)
    requires cmd.category == Given("allStu")
    requires Resolve(st.current, cmd.path) == Ok(p) && p.IsGroupDirectory()
    requires !HasPath(st.root, p)
    ensures Execute(cmd, st) == Response(st, Failed(InvalidPath))
  {
  }

  /** Every other combination of category and resolved path (a bulk category
      at the wrong level, or an unknown category) fails with the catch-all
      error and changes nothing. */
  lemma CategoryFallThrough(cmd: Command, st: State, p: AbsolutePath)
    requires cmd.category.Given?
    requires Resolve(st.current, cmd.path) == Ok(p)
    requires !(cmd.category.name == "allStu" && p.IsGroupDirectory())
    requires !(cmd.category.name == "allGrp" && p.IsRootDirectory())
    ensures Execute(cmd, st) == Response(st, Failed(CommandFailed))
  {
  }

  /** The command never breaks the tree invariant, even when a bulk add fails
      part-way. */
  lemma ExecuteKeepsValid(cmd: Command, st: State)
    requires Valid(st.root)
    ensures Valid(Execute(cmd, st).state.root)
  {
    match Resolve(st.current, cmd.path)
    case Err(_) =>
    case Ok(p) =>
      if cmd.category.Given? && cmd.category.name == "allStu" && p.IsGroupDirectory() {
        match GroupOperation(st.root, p)
        case Err(_) =>
        case Ok(grp) => AddToEachValid(st.root, StudentPaths(p.group, grp), cmd.deadline);
      } else if cmd.category.Given? && cmd.category.name == "allGrp" && p.IsRootDirectory() {
        AddToEachValid(st.root, GroupPaths(st.root), cmd.deadline);
      }
  }

  /** Equality ignores the category: commands that differ only there are equal. */
  lemma EqualsIgnoresCategory(a: Command, b: Command)
    ensures Equals(a, b) <==> a.(category := b.category) == b
  {
  }

  /** Equal commands need not behave alike: on a group with no students, the
      plain command adds to the group itself while "allStu" adds nothing. */
  lemma EqualCommandsMayDiffer()
    ensures var d := Deadline("Report", "2023-11-15 10:00");
            var plain := Command([Down("grp-001")], d, Unset);
            var bulk := Command([Down("grp-001")], d, Given("allStu"));
            var grp := Group(GroupId("grp-001"), [], TaskList([]));
            var st := State(RootPath, Root([(GroupId("grp-001"), grp)]), RootPath);
            && Equals(plain, bulk)
            && Execute(plain, st).state.root == Root([(GroupId("grp-001"), grp.(tasks := TaskList([d])))])
            && Execute(bulk, st) == Response(st, Done(DeadlineAddedToAllStudents))
  {
    var d := Deadline("Report", "2023-11-15 10:00");
    var g := GroupId("grp-001");
    var grp := Group(g, [], TaskList([]));
    var root := Root([(g, grp)]);
    var st := State(RootPath, root, RootPath);
    assert IndexOf(root.groups, g) == 0;
    assert Lookup(root.groups, g) == Some(grp);
    assert Resolve(RootPath, [Down("grp-001")]) == Ok(GroupPath(g));
    assert [] + [d] == [d];
    assert TaskList([]).AddTask(d) == Ok(TaskList([d]));
    assert TaskOperation(root, GroupPath(g)) == Ok(TaskList([]));
    assert SetTasks(root, GroupPath(g), TaskList([d])) == Root(Replace(root.groups, g, grp.(tasks := TaskList([d]))));
    var added := AddDeadlineAt(root, GroupPath(g), d);
    assert added == Ok(Root(Replace(root.groups, g, grp.(tasks := TaskList([d])))));
    assert Replace(root.groups, g, grp.(tasks := TaskList([d]))) == [(g, grp.(tasks := TaskList([d])))];
    assert StudentPaths(g, grp) == [];
  }
}
