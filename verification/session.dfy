/** The state commands run against, and what they report back. */
module Session {
  import opened Outcomes
  import opened Paths
  import opened ProfBook

  /** What a successful command reports. */
  datatype Feedback =
    | DeadlineAdded
    | DeadlineAddedToAllStudents
    | DeadlineAddedToAllGroups
    | StudentAdded
    | ShowingTaskList(path: AbsolutePath)
    | Usage

  datatype Status = Done(feedback: Feedback) | Failed(error: ErrorKind)

  /** The single-user session: the current path, the tree, and the path whose
      task list is on display. */
  datatype State = State(current: AbsolutePath, root: Root, display: AbsolutePath)

  /** The state after a command together with its report. A failed command may
      still have changed the state (the bulk deadline commands do). */
  datatype Response = Response(state: State, status: Status)
}
