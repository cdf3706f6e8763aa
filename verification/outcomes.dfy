/** Failure-carrying values shared by every layer of the model.

    ProfBook signals failures with exceptions; here each failure is
    an `ErrorKind` value returned alongside (or instead of) a result, so every
    caller has to handle it. */
module Outcomes {

  /** The kinds of failure a command can report. Message text is not modelled. */
  datatype ErrorKind =
    | InvalidPath               // resolution left the three-level tree, or the path names no node
    | UnsupportedPathOperation  // the node at the path does not offer the requested capability
    | PathNotFound              // a query found no node at a well-formed path
    | NotTaskManager            // the node at the path has no task list
    | DuplicateChild            // a child with the same identifier is already present
    | DuplicateTask             // a structurally equal task is already present
    | NoSuchTask                // a 1-based task index outside [1, size]
    | CommandFailed             // the catch-all "an error has occurred"

  datatype Option<+T> = None | Some(value: T)

  /** A value or the kind of failure that prevented it; usable with `:-`. */
  datatype Result<+T> = Ok(value: T) | Err(error: ErrorKind) {

    predicate IsFailure() {
      Err?
    }

    function PropagateFailure<U>(): Result<U>
      requires Err?
    {
      Err(error)
    }

    function Extract(): T
      requires Ok?
    {
      value
    }
  }

  /** Success or failure of an action that produces no value. */
  datatype Outcome = Pass | Fail(error: ErrorKind)
}
