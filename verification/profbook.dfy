/** The three-level tree: a root holding groups, groups holding students, and a
    task list on every group and student.

    Nodes are reached through absolute paths. Two capability lookups stand for
    the operation views the commands ask for: `TaskOperation` yields the task
    list of a group or student, and `GroupOperation` yields a group whose
    students can be managed. Contact details of students and display names of
    groups play no part in these operations and are not modelled. */
module ProfBook {
  import opened Outcomes
  import opened Paths
  import opened Tasks
  import opened Children

  datatype Student = Student(id: StudentId, tasks: TaskList)

  datatype Group = Group(id: GroupId, students: Entries<StudentId, Student>, tasks: TaskList)

  datatype Root = Root(groups: Entries<GroupId, Group>)

  /** A student is filed under its own identifier and lists no task twice. */
  predicate ValidStudent(key: StudentId, s: Student) {
    s.id == key && Distinct(s.tasks.items)
  }

  predicate ValidGroup(key: GroupId, g: Group) {
    && g.id == key
    && UniqueKeys(g.students)
    && Distinct(g.tasks.items)
    && forall i :: 0 <= i < |g.students| ==> ValidStudent(g.students[i].0, g.students[i].1)
  }

  /** The tree invariant: identifiers are unique among siblings, every node is
      filed under its own identifier, and no task list holds a duplicate. */
  predicate Valid(root: Root) {
    && UniqueKeys(root.groups)
    && forall i :: 0 <= i < |root.groups| ==> ValidGroup(root.groups[i].0, root.groups[i].1)
  }

  /** Whether a node exists at `p`. */
  predicate HasPath(root: Root, p: AbsolutePath) {
    match p
    case RootPath => true
    case GroupPath(g) => HasChild(root.groups, g)
    case StudentPath(g, s) =>
      match Lookup(root.groups, g)
      case None => false
      case Some(grp) => HasChild(grp.students, s)
  }

  /** Whether the node at `p` exists and owns a task list (groups and students do). */
  predicate HasTaskList(root: Root, p: AbsolutePath) {
    HasPath(root, p) && !p.IsRootDirectory()
  }

  /** The task list at `p`. The root has none; a path naming no node is invalid. */
  function TaskOperation(root: Root, p: AbsolutePath): (r: Result<TaskList>)
    ensures r.Ok? <==> HasTaskList(root, p)
    ensures p.IsRootDirectory() ==> r == Err(UnsupportedPathOperation)
    ensures !p.IsRootDirectory() && !HasPath(root, p) ==> r == Err(InvalidPath)
  {
    match p
    case RootPath => Err(UnsupportedPathOperation)
    case GroupPath(g) =>
      (match Lookup(root.groups, g)
       case None => Err(InvalidPath)
       case Some(grp) => Ok(grp.tasks))
    case StudentPath(g, s) =>
      match Lookup(root.groups, g)
      case None => Err(InvalidPath)
      case Some(grp) =>
        match Lookup(grp.students, s)
        case None => Err(InvalidPath)
        case Some(stu) => Ok(stu.tasks)
  }

  /** The group at `p`, whose students can be managed. Only a group-level path
      offers this; a group-level path naming no group is invalid. */
  function GroupOperation(root: Root, p: AbsolutePath): (r: Result<Group>)
    ensures r.Ok? <==> p.IsGroupDirectory() && HasPath(root, p)
    ensures !p.IsGroupDirectory() ==> r == Err(UnsupportedPathOperation)
    ensures p.IsGroupDirectory() && !HasPath(root, p) ==> r == Err(InvalidPath)
    ensures r.Ok? ==> Lookup(root.groups, p.group) == Some(r.value)
  {
    match p
    case GroupPath(g) =>
      (match Lookup(root.groups, g)
       case None => Err(InvalidPath)
       case Some(grp) => Ok(grp))
    case _ => Err(UnsupportedPathOperation)
  }

  /** Stores `l` as the task list at `p`; the tree is otherwise unchanged. */
  function SetTasks(root: Root, p: AbsolutePath, l: TaskList): Root {
    match p
    case RootPath => root
    case GroupPath(g) =>
      (match Lookup(root.groups, g)
       case None => root
       case Some(grp) => Root(Replace(root.groups, g, grp.(tasks := l))))
    case StudentPath(g, s) =>
      match Lookup(root.groups, g)
      case None => root
      case Some(grp) =>
        match Lookup(grp.students, s)
        case None => root
        case Some(stu) =>
          Root(Replace(root.groups, g, grp.(students := Replace(grp.students, s, stu.(tasks := l)))))
  }

  /** Storing a task list at `p` changes the task list found at `p` and nothing
      else: every other path keeps its task list, and the set of existing
      paths is the same. */
  lemma SetTasksFrame(root: Root, p: AbsolutePath, l: TaskList, q: AbsolutePath)
    requires HasTaskList(root, p)
    ensures HasPath(SetTasks(root, p, l), q) == HasPath(root, q)
    ensures TaskOperation(SetTasks(root, p, l), q) == if q == p then Ok(l) else TaskOperation(root, q)
  {
    var root' := SetTasks(root, p, l);
    match p
    case GroupPath(g) =>
      var grp := Lookup(root.groups, g).value;
      ReplaceKeepsKeys(root.groups, g, grp.(tasks := l));
      if !q.IsRootDirectory() {
        LookupReplace(root.groups, g, grp.(tasks := l), q.group);
      }
    case StudentPath(g, s) =>
      var grp := Lookup(root.groups, g).value;
      var stu := Lookup(grp.students, s).value;
      var grp' := grp.(students := Replace(grp.students, s, stu.(tasks := l)));
      ReplaceKeepsKeys(root.groups, g, grp');
      ReplaceKeepsKeys(grp.students, s, stu.(tasks := l));
      if !q.IsRootDirectory() {
        LookupReplace(root.groups, g, grp', q.group);
      }
      if q.IsStudentDirectory() {
        LookupReplace(grp.students, s, stu.(tasks := l), q.student);
      }
  }

  /** Two trees have the same shape when they list the same groups in the same
      order and each group lists the same students in the same order. */
  predicate SameShape(a: Root, b: Root) {
    && Keys(a.groups) == Keys(b.groups)
    && forall i :: 0 <= i < |a.groups| ==> Keys(a.groups[i].1.students) == Keys(b.groups[i].1.students)
  }

  lemma SameShapeTrans(a: Root, b: Root, c: Root)
    requires SameShape(a, b) && SameShape(b, c)
    ensures SameShape(a, c)
  {
    assert |a.groups| == |Keys(a.groups)| == |Keys(b.groups)| == |b.groups|;
  }

  /** Storing a task list keeps the order of every group's children and of
      the root's children. */
  lemma SetTasksShape(root: Root, p: AbsolutePath, l: TaskList)
    requires HasTaskList(root, p)
    ensures SameShape(root, SetTasks(root, p, l))
  {
    var root' := SetTasks(root, p, l);
    var gi := IndexOf(root.groups, p.group);
    var grp := root.groups[gi].1;
    match p
    case GroupPath(g) =>
      assert root'.groups == root.groups[gi := (g, grp.(tasks := l))];
    case StudentPath(g, s) =>
      var si := IndexOf(grp.students, s);
      var stu := grp.students[si].1;
      var students' := Replace(grp.students, s, stu.(tasks := l));
      assert root'.groups == root.groups[gi := (g, grp.(students := students'))];
  }

  /** The same frame statement for every path at once. */
  lemma SetTasksFrameAll(root: Root, p: AbsolutePath, l: TaskList)
    requires HasTaskList(root, p)
    ensures forall q :: HasPath(SetTasks(root, p, l), q) == HasPath(root, q)
    ensures forall q :: TaskOperation(SetTasks(root, p, l), q) ==
                         (if q == p then Ok(l) else TaskOperation(root, q))
  {
    forall q
      ensures HasPath(SetTasks(root, p, l), q) == HasPath(root, q)
      ensures TaskOperation(SetTasks(root, p, l), q) ==
        if q == p then Ok(l) else TaskOperation(root, q)
    {
      SetTasksFrame(root, p, l, q);
    }
  }

  /** Storing a duplicate-free task list keeps the tree invariant. */
  lemma SetTasksValid(root: Root, p: AbsolutePath, l: TaskList)
    requires Valid(root) && HasTaskList(root, p) && Distinct(l.items)
    ensures Valid(SetTasks(root, p, l))
  {
    var root' := SetTasks(root, p, l);
    match p
    case GroupPath(g) =>
      var gi := IndexOf(root.groups, g);
      var grp := root.groups[gi].1;
      ReplaceKeepsKeys(root.groups, g, grp.(tasks := l));
      assert root'.groups == root.groups[gi := (g, grp.(tasks := l))];
      assert ValidGroup(g, grp.(tasks := l));
    case StudentPath(g, s) =>
      var gi := IndexOf(root.groups, g);
      var grp := root.groups[gi].1;
      var si := IndexOf(grp.students, s);
      var stu := grp.students[si].1;
      var students' := Replace(grp.students, s, stu.(tasks := l));
      ReplaceKeepsKeys(grp.students, s, stu.(tasks := l));
      assert students' == grp.students[si := (s, stu.(tasks := l))];
      assert ValidStudent(s, stu.(tasks := l));
      var grp' := grp.(students := students');
      assert ValidGroup(g, grp');
      ReplaceKeepsKeys(root.groups, g, grp');
      assert root'.groups == root.groups[gi := (g, grp')];
  }

  /** In a valid tree every task list is free of duplicates. */
  lemma ValidTaskListDistinct(root: Root, p: AbsolutePath)
    requires Valid(root) && HasTaskList(root, p)
    ensures Distinct(TaskOperation(root, p).value.items)
  {
    var gi := IndexOf(root.groups, p.group);
    assert ValidGroup(root.groups[gi].0, root.groups[gi].1);
    if p.IsStudentDirectory() {
      var grp := root.groups[gi].1;
      var si := IndexOf(grp.students, p.student);
      assert ValidStudent(grp.students[si].0, grp.students[si].1);
    }
  }

  /** In a valid tree the group found under `g` is valid and filed under `g`. */
  lemma ValidLookupGroup(root: Root, g: GroupId, grp: Group)
    requires Valid(root) && Lookup(root.groups, g) == Some(grp)
    ensures ValidGroup(g, grp)
  {
    var gi := IndexOf(root.groups, g);
    assert ValidGroup(root.groups[gi].0, root.groups[gi].1);
  }
}
