/** The `touch` command: adds a student to a group.

    The path is resolved against the current path and must name an existing
    group; the student is filed under its own identifier, which must not be
    taken yet in that group. A refused command leaves the state as it was. */
module CreateStudent {
  import opened Outcomes
  import opened Paths
  import opened Tasks
  import opened Children
  import opened ProfBook
  import opened Session

  datatype Command = Command(path: RelativePath, student: Student)

  /** The tree with group `g`'s student entries replaced by `students`. */
  function WithStudents(root: Root, g: GroupId, grp: Group, students: Entries<StudentId, Student>): Root {
    Root(Replace(root.groups, g, grp.(students := students)))
  }

  function Execute(cmd: Command, st: State): Response {
    match Resolve(st.current, cmd.path)
    case Err(e) => Response(st, Failed(e))
    case Ok(p) =>
      match GroupOperation(st.root, p)
      case Err(e) => Response(st, Failed(e))
      case Ok(grp) =>
        // AddChild refuses an identifier the group already has: the duplicate-student check
        match AddChild(grp.students, cmd.student.id, cmd.student)
        case Err(e) => Response(st, Failed(e))
        case Ok(students) => Response(st.(root := WithStudents(st.root, p.group, grp, students)), Done(StudentAdded))
  }

  /** A path that does not resolve is reported as invalid and changes nothing. */
  lemma UnresolvablePath(cmd: Command, st: State)
    requires Resolve(st.current, cmd.path).Err?
    ensures Execute(cmd, st) == Response(st, Failed(InvalidPath))
  {
    ResolveDepth(st.current, cmd.path);
  }

  /** A resolved path that is not a group, or a group that does not exist, or
      a student identifier the group already has, is refused with the matching
      error, and the state is kept. */
  lemma Refused(cmd: Command, st: State, p: AbsolutePath)
    requires Resolve(st.current, cmd.path) == Ok(p)
    ensures !p.IsGroupDirectory() ==> Execute(cmd, st) == Response(st, Failed(UnsupportedPathOperation))
    ensures p.IsGroupDirectory() && !HasPath(st.root, p) ==> Execute(cmd, st) == Response(st, Failed(InvalidPath))
    ensures p.IsGroupDirectory() && HasPath(st.root, StudentPath(p.group, cmd.student.id)) ==>
              Execute(cmd, st) == Response(st, Failed(DuplicateChild))
  {
  }

  /** A successful add files the student under its own identifier at the end
      of the group's children: the group gains exactly that one child, every
      other group is as before, no existing task list changes, and the only new
      path is the new student's. */
  lemma Added(cmd: Command, st: State, p: AbsolutePath, grp: Group)
    requires Resolve(st.current, cmd.path) == Ok(p)
    requires GroupOperation(st.root, p) == Ok(grp)
    requires !HasChild(grp.students, cmd.student.id)
    ensures var r := Execute(cmd, st);
            var g := p.group;
            var id := cmd.student.id;
            && r.status == Done(StudentAdded)
            && r.state.current == st.current && r.state.display == st.display
            && Keys(r.state.root.groups) == Keys(st.root.groups)
            && Lookup(r.state.root.groups, g).Some?
            && Keys(Lookup(r.state.root.groups, g).value.students) == Keys(grp.students) + [id]
            && Lookup(Lookup(r.state.root.groups, g).value.students, id) == Some(cmd.student)
            && Lookup(r.state.root.groups, g).value.tasks == grp.tasks
            && (forall g' :: g' != g ==> Lookup(r.state.root.groups, g') == Lookup(st.root.groups, g'))
            && (forall q :: HasPath(st.root, q) ==> TaskOperation(r.state.root, q) == TaskOperation(st.root, q))
            && (forall q :: HasPath(r.state.root, q) <==> HasPath(st.root, q) || q == StudentPath(g, id))
  {
    var g := p.group;
    var id := cmd.student.id;
    var students := AddChild(grp.students, id, cmd.student).value;
    var grp' := grp.(students := students);
    var root' := WithStudents(st.root, g, grp, students);
    assert Execute(cmd, st) == Response(st.(root := root'), Done(StudentAdded));
    LookupReplace(st.root.groups, g, grp', g);
    LookupAddChild(grp.students, id, cmd.student, id);
    forall g' | g' != g
      ensures Lookup(root'.groups, g') == Lookup(st.root.groups, g')
    {
      LookupReplace(st.root.groups, g, grp', g');
    }
    forall q
      ensures HasPath(st.root, q) ==> TaskOperation(root', q) == TaskOperation(st.root, q)
      ensures HasPath(root', q) <==> HasPath(st.root, q) || q == StudentPath(g, id)
    {
      ReplaceKeepsKeys(st.root.groups, g, grp');
      if q.IsStudentDirectory() && q.group == g {
        LookupAddChild(grp.students, id, cmd.student, q.student);
      }
    }
  }

  /** Running the same command twice in a row: the second run is a duplicate. */
  lemma SecondRunDuplicate(cmd: Command, st: State)
    requires Execute(cmd, st).status.Done?
    ensures Execute(cmd, Execute(cmd, st).state).status == Failed(DuplicateChild)
  {
    var p := Resolve(st.current, cmd.path).value;
    var grp := GroupOperation(st.root, p).value;
    Added(cmd, st, p, grp);
    var st' := Execute(cmd, st).state;
    var grp' := Lookup(st'.root.groups, p.group).value;
    HasChildIffInKeys(grp'.students, cmd.student.id);
  }

  /** Adding a student whose own task list has no duplicate keeps the tree
      invariant. */
  lemma ExecuteKeepsValid(cmd: Command, st: State)
    requires Valid(st.root)
    requires Distinct(cmd.student.tasks.items)
    ensures Valid(Execute(cmd, st).state.root)
  {
    match Resolve(st.current, cmd.path)
    case Err(_) =>
    case Ok(p) =>
      match GroupOperation(st.root, p)
      case Err(_) =>
      case Ok(grp) =>
        var g := p.group;
        match AddChild(grp.students, cmd.student.id, cmd.student)
        case Err(_) =>
        case Ok(students) =>
          ValidLookupGroup(st.root, g, grp);
          var grp' := grp.(students := students);
          assert ValidGroup(g, grp') by {
            forall i | 0 <= i < |students|
              ensures ValidStudent(students[i].0, students[i].1)
            {
              if i < |grp.students| {
                assert students[i] == grp.students[i];
              }
            }
          }
          var gi := IndexOf(st.root.groups, g);
          ReplaceKeepsKeys(st.root.groups, g, grp');
          assert WithStudents(st.root, g, grp, students).groups == st.root.groups[gi := (g, grp')];
  }

  /** Two commands are equal exactly when their students and paths are. */
  predicate Equals(a: Command, b: Command) {
    a.student == b.student && a.path == b.path
  }

  lemma EqualsIsStructural(a: Command, b: Command)
    ensures Equals(a, b) <==> a == b
  {
  }
}
