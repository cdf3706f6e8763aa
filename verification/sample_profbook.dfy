/** The sample tree the application starts with: two groups of five students
    each, the second group also holding ten to-dos, all built by repeated
    child and task additions that would refuse a duplicate. The proofs show
    that none of those additions is refused and that the result satisfies the
    tree invariant. Student contact details and group display names are not
    modelled. */
module SampleProfBook {
  import opened Outcomes
  import opened Paths
  import opened Tasks
  import opened Children
  import opened ProfBook

  function NewStudent(id: string): Student {
    Student(StudentId(id), TaskList([]))
  }

  function NewGroup(id: string): Group {
    Group(GroupId(id), [], TaskList([]))
  }

  function SampleStudents1(): seq<Student> {
    [NewStudent("stu-001"), NewStudent("stu-002"), NewStudent("stu-003"),
     NewStudent("stu-004"), NewStudent("stu-005")]
  }

  function SampleStudents2(): seq<Student> {
    [NewStudent("stu-006"), NewStudent("stu-007"), NewStudent("stu-008"),
     NewStudent("stu-009"), NewStudent("stu-010")]
  }

  function StudentIds(ss: seq<Student>): (ids: seq<StudentId>)
    ensures |ids| == |ss|
    ensures forall i :: 0 <= i < |ss| ==> ids[i] == ss[i].id
  {
    seq(|ss|, i requires 0 <= i < |ss| => ss[i].id)
  }

  /** The decimal text of a one-digit number. */
  function DigitText(i: int): string
    requires 0 <= i < 10
  {
    [('0' as int + i) as char]
  }

  function TaskName(i: int): string
    requires 0 <= i < 10
  {
    "Task " + DigitText(i)
  }

  /** The to-dos "Task 0" up to "Task <n-1>", in order and pairwise distinct. */
  function GetTasks(n: nat): (ts: seq<Task>)
    requires n <= 10
    ensures |ts| == n
    ensures forall i :: 0 <= i < n ==> ts[i] == ToDo(TaskName(i))
    ensures Distinct(ts)
  {
    if n == 0 then []
    else
      var prefix := GetTasks(n - 1);
      assert forall i :: 0 <= i < n - 1 ==> TaskName(i)[5] != TaskName(n - 1)[5];
      prefix + [ToDo(TaskName(n - 1))]
  }

  /** The child entries `addChild` creates for `ss`: each student under its own id. */
  function EntriesOf(ss: seq<Student>): (es: Entries<StudentId, Student>)
    ensures |es| == |ss|
    ensures forall i :: 0 <= i < |ss| ==> es[i] == (ss[i].id, ss[i])
  {
    seq(|ss|, i requires 0 <= i < |ss| => (ss[i].id, ss[i]))
  }

  /** Adds each student to the group under its own id, in order. */
  function AddStudents(grp: Group, ss: seq<Student>): Result<Group>
    decreases |ss|
  {
    if |ss| == 0 then Ok(grp)
    else
      var students :- AddChild(grp.students, ss[0].id, ss[0]);
      AddStudents(grp.(students := students), ss[1..])
  }

  /** Adds each task to the group's task list, in order. */
  function AddTasks(grp: Group, ts: seq<Task>): Result<Group>
    decreases |ts|
  {
    if |ts| == 0 then Ok(grp)
    else
      var tasks :- grp.tasks.AddTask(ts[0]);
      AddTasks(grp.(tasks := tasks), ts[1..])
  }

  function GetGroup1(): Result<Group> {
    AddStudents(NewGroup("grp-001"), SampleStudents1())
  }

  function GetGroup2(): Result<Group> {
    var grp :- AddStudents(NewGroup("grp-002"), SampleStudents2());
    AddTasks(grp, GetTasks(10))
  }

  /** A root holding `g1` then `g2`, each added under its own id. */
  function RootWith(g1: Group, g2: Group): Result<Root> {
    var groups :- AddChild([], g1.id, g1);
    var groups' :- AddChild(groups, g2.id, g2);
    Ok(Root(groups'))
  }

  function GetRoot(): Result<Root> {
    var g1 :- GetGroup1();
    var g2 :- GetGroup2();
    RootWith(g1, g2)
  }

  predicate DistinctIds(ids: seq<StudentId>) {
    forall i, j :: 0 <= i < j < |ids| ==> ids[i] != ids[j]
  }

  /** Adding students with distinct ids that the group does not have yet never
      hits a duplicate, and appends them in order. */
  lemma {:induction false} AddStudentsFresh(grp: Group, ss: seq<Student>)
    requires DistinctIds(StudentIds(ss))
    requires UniqueKeys(grp.students)
    requires forall i :: 0 <= i < |ss| ==> !HasChild(grp.students, ss[i].id)
    ensures AddStudents(grp, ss) == Ok(grp.(students := grp.students + EntriesOf(ss)))
    ensures UniqueKeys(grp.students + EntriesOf(ss))
    decreases |ss|
  {
    if |ss| == 0 {
      assert grp.students + EntriesOf(ss) == grp.students;
    } else {
      var students := AddChild(grp.students, ss[0].id, ss[0]).value;
      var rest := ss[1..];
      assert StudentIds(rest) == StudentIds(ss)[1..];
      forall i | 0 <= i < |rest|
        ensures !HasChild(students, rest[i].id)
      {
        assert rest[i] == ss[i + 1];
        HasChildIffInKeys(students, rest[i].id);
        HasChildIffInKeys(grp.students, rest[i].id);
      }
      AddStudentsFresh(grp.(students := students), rest);
      assert students + EntriesOf(rest) == grp.students + EntriesOf(ss);
    }
  }

  /** Adding distinct tasks that the list does not have yet never hits a
      duplicate, and appends them in order. */
  lemma {:induction false} AddTasksFresh(grp: Group, ts: seq<Task>)
    requires Distinct(ts)
    requires forall i :: 0 <= i < |ts| ==> !grp.tasks.HasTask(ts[i])
    ensures AddTasks(grp, ts) == Ok(grp.(tasks := TaskList(grp.tasks.items + ts)))
    decreases |ts|
  {
    if |ts| == 0 {
      assert grp.tasks.items + ts == grp.tasks.items;
    } else {
      var tasks := grp.tasks.AddTask(ts[0]).value;
      var rest := ts[1..];
      forall i | 0 <= i < |rest|
        ensures !tasks.HasTask(rest[i])
      {
        assert rest[i] == ts[i + 1];
      }
      AddTasksFresh(grp.(tasks := tasks), rest);
      assert tasks.items + rest == grp.tasks.items + ts;
    }
  }

  /** The first student set: five students, ids stu-001 to stu-005 in order,
      pairwise distinct, all with empty task lists. */
  lemma SampleStudents1Ids()
    ensures StudentIds(SampleStudents1()) ==
      [StudentId("stu-001"), StudentId("stu-002"), StudentId("stu-003"), StudentId("stu-004"), StudentId("stu-005")]
    ensures DistinctIds(StudentIds(SampleStudents1()))
    ensures forall i :: 0 <= i < 5 ==> SampleStudents1()[i].tasks == TaskList([])
  {
    var ids := StudentIds(SampleStudents1());
    forall i, j | 0 <= i < j < 5 ensures ids[i] != ids[j] {
      assert ids[i].text[6] != ids[j].text[6];
    }
  }

  /** The second student set: five students, ids stu-006 to stu-010 in order,
      pairwise distinct, and none shared with the first set. */
  lemma SampleStudents2Ids()
    ensures StudentIds(SampleStudents2()) ==
      [StudentId("stu-006"), StudentId("stu-007"), StudentId("stu-008"), StudentId("stu-009"), StudentId("stu-010")]
    ensures DistinctIds(StudentIds(SampleStudents2()))
    ensures forall i, j :: 0 <= i < 5 && 0 <= j < 5 ==> SampleStudents1()[i].id != SampleStudents2()[j].id
    ensures forall i :: 0 <= i < 5 ==> SampleStudents2()[i].tasks == TaskList([])
  {
    var ids := StudentIds(SampleStudents2());
    forall i, j | 0 <= i < j < 5 ensures ids[i] != ids[j] {
      assert ids[i].text[5..] != ids[j].text[5..];
    }
    forall i, j | 0 <= i < 5 && 0 <= j < 5 ensures SampleStudents1()[i].id != SampleStudents2()[j].id {
      assert SampleStudents1()[i].id.text[5..] != SampleStudents2()[j].id.text[5..];
    }
  }

  /** grp-001 holds the first five students in insertion order and no task. */
  lemma Group1Contents()
    ensures GetGroup1() == Ok(Group(GroupId("grp-001"), EntriesOf(SampleStudents1()), TaskList([])))
    ensures ValidGroup(GroupId("grp-001"), GetGroup1().value)
  {
    SampleStudents1Ids();
    AddStudentsFresh(NewGroup("grp-001"), SampleStudents1());
    assert [] + EntriesOf(SampleStudents1()) == EntriesOf(SampleStudents1());
  }

  /** grp-002 holds the second five students in insertion order and the ten
      sample to-dos in order; no addition is refused. */
  lemma Group2Contents()
    ensures GetGroup2() == Ok(Group(GroupId("grp-002"), EntriesOf(SampleStudents2()), TaskList(GetTasks(10))))
    ensures ValidGroup(GroupId("grp-002"), GetGroup2().value)
  {
    SampleStudents2Ids();
    var empty := NewGroup("grp-002");
    AddStudentsFresh(empty, SampleStudents2());
    assert [] + EntriesOf(SampleStudents2()) == EntriesOf(SampleStudents2());
    var grp := empty.(students := EntriesOf(SampleStudents2()));
    AddTasksFresh(grp, GetTasks(10));
    assert [] + GetTasks(10) == GetTasks(10);
  }

  /** Both sample groups are built without refusal, are valid, and are
      filed under different ids. */
  lemma SampleGroupIds()
    ensures GetGroup1().Ok? && GetGroup1().value.id == GroupId("grp-001")
    ensures GetGroup2().Ok? && GetGroup2().value.id == GroupId("grp-002")
    ensures ValidGroup(GroupId("grp-001"), GetGroup1().value)
    ensures ValidGroup(GroupId("grp-002"), GetGroup2().value)
    ensures GroupId("grp-001") != GroupId("grp-002")
  {
    Group1Contents();
    Group2Contents();
    assert "grp-001"[6] != "grp-002"[6];
  }

  /** Two valid groups with different ids make a valid root, in order; the
      same id twice is refused as a duplicate. */
  lemma RootWithSpec(g1: Group, g2: Group)
    ensures RootWith(g1, g2).Ok? <==> g1.id != g2.id
    ensures g1.id == g2.id ==> RootWith(g1, g2) == Err(DuplicateChild)
    ensures g1.id != g2.id ==> RootWith(g1, g2).value.groups == [(g1.id, g1), (g2.id, g2)]
    ensures g1.id != g2.id && ValidGroup(g1.id, g1) && ValidGroup(g2.id, g2) ==> Valid(RootWith(g1, g2).value)
  {
    var none: Entries<GroupId, Group> := [];
    assert none + [(g1.id, g1)] == [(g1.id, g1)];
    assert AddChild(none, g1.id, g1) == Ok([(g1.id, g1)]);
    assert [(g1.id, g1)] + [(g2.id, g2)] == [(g1.id, g1), (g2.id, g2)];
  }

  /** The sample root holds grp-001 then grp-002 and satisfies the tree
      invariant at every level. */
  lemma RootContents()
    ensures GetRoot().Ok?
    ensures Keys(GetRoot().value.groups) == [GroupId("grp-001"), GroupId("grp-002")]
    ensures GetRoot().value.groups == [(GroupId("grp-001"), GetGroup1().value), (GroupId("grp-002"), GetGroup2().value)]
    ensures Valid(GetRoot().value)
  {
    SampleGroupIds();
    var g1 := GetGroup1().value;
    var g2 := GetGroup2().value;
    RootWithSpec(g1, g2);
    assert GetRoot() == RootWith(g1, g2);
  }
}
