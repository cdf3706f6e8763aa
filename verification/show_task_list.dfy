/** The `cat` command: puts the task list of a path (the current path when
    none is given) on display.

    With a target, existence is checked before capability: a path naming no
    node is "not found", an existing node without a task list (the root) is
    "not a task manager". The command never changes the tree or the current
    path; on success it records the displayed path. The help instance is the
    same command class answering every state with the usage text. */
module ShowTaskList {
  import opened Outcomes
  import opened Paths
  import opened ProfBook
  import opened Session

  /** The help instance, or a show command whose target is absent for the
      no-argument form. */
  datatype Command = Help | Show(target: Option<AbsolutePath>)

  const HelpMessage: Command := Help

  /** The target compared by equality; the help instance has none. */
  function TargetOf(cmd: Command): Option<AbsolutePath> {
    match cmd
    case Help => None
    case Show(t) => t
  }

  function Execute(cmd: Command, st: State): Response {
    match cmd
    case Help => Response(st, Done(Usage))
    case Show(target) =>
      match target
      case None =>
        if !HasTaskList(st.root, st.current) then Response(st, Failed(NotTaskManager))
        else Response(st.(display := st.current), Done(ShowingTaskList(st.current)))
      case Some(t) =>
        if !HasPath(st.root, t) then Response(st, Failed(PathNotFound))
        else if !HasTaskList(st.root, t) then Response(st, Failed(NotTaskManager))
        else Response(st.(display := t), Done(ShowingTaskList(t)))
  }

  /** Equality compares the targets only (two absent targets are equal). */
  predicate Equals(a: Command, b: Command) {
    TargetOf(a) == TargetOf(b)
  }

  /** The path a show command shows: the target, or else the current path. */
  function Shown(cmd: Command, st: State): AbsolutePath
    requires cmd.Show?
  {
    match cmd.target
    case None => st.current
    case Some(t) => t
  }

  /** A show command succeeds exactly when the shown path has a task list;
      it then displays that path, and it never touches the tree or the current
      path. A failure leaves the state as it was. */
  lemma SucceedsIffTaskList(cmd: Command, st: State)
    requires cmd.Show?
    ensures var r := Execute(cmd, st);
            && (r.status.Done? <==> HasTaskList(st.root, Shown(cmd, st)))
            && r.state.root == st.root
            && r.state.current == st.current
            && (r.status.Done? ==> r.state.display == Shown(cmd, st)
                                   && r.status.feedback == ShowingTaskList(Shown(cmd, st)))
            && (r.status.Failed? ==> r.state == st)
  {
  }

  /** Without a target, a current path lacking a task list is "not a task
      manager". */
  lemma NoTargetNotTaskManager(st: State)
    requires !HasTaskList(st.root, st.current)
    ensures Execute(Show(None), st) == Response(st, Failed(NotTaskManager))
  {
  }

  /** With a target, a path naming no node is reported as not found, never as
      "not a task manager": existence is checked first. */
  lemma MissingTargetNotFound(t: AbsolutePath, st: State)
    requires !HasPath(st.root, t)
    ensures Execute(Show(Some(t)), st) == Response(st, Failed(PathNotFound))
  {
  }

  /** An existing target without a task list is exactly the root, and it is
      reported as "not a task manager". */
  lemma ExistingWithoutTaskList(t: AbsolutePath, st: State)
    requires HasPath(st.root, t)
    ensures !HasTaskList(st.root, t) <==> t == RootPath
    ensures t == RootPath ==> Execute(Show(Some(t)), st) == Response(st, Failed(NotTaskManager))
  {
  }

  /** The help instance answers with the usage text and changes nothing,
      whatever the state. */
  lemma HelpIgnoresState(st: State)
    ensures Execute(HelpMessage, st) == Response(st, Done(Usage))
  {
  }

  /** Because equality looks only at targets, the help instance equals the
      no-argument command, yet the two answer differently at the root. */
  lemma HelpEqualsNoTarget(st: State)
    requires st.current == RootPath
    ensures Equals(HelpMessage, Show(None))
    ensures Execute(HelpMessage, st).status == Done(Usage)
    ensures Execute(Show(None), st).status == Failed(NotTaskManager)
  {
  }
}
