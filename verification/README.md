# ProfBook commands, modelled in Dafny

ProfBook is a command-line tool a tutor uses to organise a three-level tree:
the root holds groups, each group holds students, and every group and student
owns an ordered task list of to-dos and deadlines. The user moves around the
tree with paths much as in a file system. This project models the core
commands that change or show that tree, along with the sample tree the
application starts with:

- `deadline` (CreateDeadlineCommand). It adds a deadline to one group or
  student. With category `allStu` it adds to every student of a group, and
  with category `allGrp` to every group. The bulk forms are not
  transactional.
- `touch` (CreateStudentCommand). It adds a student to a group and refuses
  an identifier the group already has.
- `cat` (ShowTaskListCommand). It puts a task list on display. It checks
  that the path exists before checking that the node has a task list. Its
  help instance always answers with the usage text.
- The sample tree (SampleProfBook). It holds two groups of five students,
  and the second group also has ten to-dos.
- The task-list contract that the task-list tests state: indices start at 1,
  equality is by content, and rendering follows insertion order.

The tree is immutable. Each layer of children is an insertion-ordered
association sequence (`Children.Entries`). A command is a pure function from
a `Session.State` (current path, tree, displayed path) to a
`Session.Response`, which holds the new state and either a feedback value or
an `Outcomes.ErrorKind`. Exceptions become `Result`/`Outcome` values.

The path classes, the tree classes and the tree-operation lookups are not
modelled; `Paths.Resolve`, `ProfBook.TaskOperation` and
`ProfBook.GroupOperation` are minimal stand-ins, in the smallest form that
fits the commands:

- `Paths.Resolve` walks `.`, `..` and child tokens. It fails when a step
  would leave the three levels.
- `ProfBook.TaskOperation` gives the task list of an existing group or
  student. At the root it fails with an unsupported operation. At a path
  naming no node it fails with an invalid path.
- `ProfBook.GroupOperation` is the same lookup for group paths only.

The model follows the code in two places worth naming. The category is
compared as a string (`"allStu"`, `"allGrp"`), and any other string falls
through to the generic error. The bulk forms re-locate each child by a path
built from the child's own identifier, and keep the partial additions when a
later child is a duplicate.

The three `execute` methods are modelled by `CreateDeadline.Execute`
(CreateDeadlineCommand.java lines 80-129), `CreateStudent.Execute`
(CreateStudentCommand.java lines 53-69) and `ShowTaskList.Execute`
(ShowTaskListCommand.java lines 73-101, with the help instance of lines
40-45). The bulk loops of lines 96-104 and 109-117 of
CreateDeadlineCommand.java are `CreateDeadline.AddToEach`, a fold of
`CreateDeadline.AddDeadlineAt` over the child paths.

Modules: `Outcomes`, `Paths`, `Tasks`, `Children`, `ProfBook`, `Session`,
`CreateDeadline`, `CreateStudent`, `ShowTaskList`, `SampleProfBook`. There is
one file per module.

## Model

| member | source | states |
|---|---|---|
| Paths.Push | src/main/java/seedu/address/logic/newcommands/CreateDeadlineCommand.java:98 | Descending into a named child succeeds exactly below depth 2, appends that name to the path's segments, and otherwise fails as an invalid path |
| Paths.Pop | src/main/java/seedu/address/logic/newcommands/CreateDeadlineCommand.java:85 | Ascending succeeds exactly above the root, drops the last segment, and otherwise fails as an invalid path |
| Paths.PopUndoesPush | src/main/java/seedu/address/logic/newcommands/CreateDeadlineCommand.java:85 | Ascending after a successful descent returns the original path |
| Paths.FromSegments | src/main/java/seedu/address/logic/commands/ShowTaskListCommand.java:36-38 | The absolute path written as identifiers separated by `/` (`grp-001/0001Y`): an identifier sequence is a path exactly when it has at most two segments, reads back as the same segments, and a longer one is an invalid path |
| Paths.SegmentsRoundTrip | src/main/java/seedu/address/logic/commands/ShowTaskListCommand.java:36-38 | Every path survives the trip to segments and back |
| Paths.ResolveDepth | src/main/java/seedu/address/logic/newcommands/CreateDeadlineCommand.java:85 | Resolution fails only as an invalid path, and a resolved path's depth is the start depth plus child tokens minus `..` tokens |
| Paths.ResolveConcat | src/main/java/seedu/address/logic/newcommands/CreateStudentCommand.java:56 | Resolving a concatenated relative path equals resolving the first half and then the second from where it ended |
| Paths.ResolveHereOnly | src/main/java/seedu/address/logic/newcommands/CreateStudentCommand.java:56 | A path made only of `.` tokens resolves to the current path |
| Paths.ResolveUp | src/main/java/seedu/address/logic/newcommands/CreateStudentCommand.java:56 | `..` drops the last segment and fails at the root |
| Paths.ResolveGroupFromRoot | src/main/java/seedu/address/logic/newcommands/CreateDeadlineCommand.java:111 | From the root a group identifier always resolves to that group's path, whatever the tree holds |
| Tasks.IndexOneValidWhenNonEmpty | src/test/java/seedu/address/model/task/ReadOnlyTaskListTest.java:17-20 | On a non-empty list index 1 is valid and designates the first task |
| Tasks.TaskList.VerifyIsValidIndex | src/test/java/seedu/address/model/task/ReadOnlyTaskListTest.java:22-25 | Verification passes exactly for valid indices and otherwise fails with no-such-task |
| Tasks.IndexZeroInvalid | src/test/java/seedu/address/model/task/ReadOnlyTaskListTest.java:22-25 | Index 0 is invalid on every list; verifying it fails with no-such-task and fetching it fails the same way |
| Tasks.TaskList.GetTask | src/test/java/seedu/address/model/task/ReadOnlyTaskListTest.java:17-25 | Fetching by index succeeds exactly for valid indices and yields the task at that 1-based position, and otherwise fails with no-such-task |
| Tasks.EqualIffSameTasks | src/test/java/seedu/address/model/task/ReadOnlyTaskListTest.java:27-36 | Two task lists are equal exactly when they have the same size and the same task at every index, so different contents are unequal |
| Tasks.TaskList.AddTask | src/main/java/seedu/address/logic/newcommands/CreateDeadlineCommand.java:88-91 | Adding succeeds exactly when no equal task is listed, puts the task at the new last index, keeps every earlier index, keeps the list duplicate-free, and otherwise fails as a duplicate task |
| Tasks.AddTwiceRefused | src/main/java/seedu/address/logic/newcommands/CreateDeadlineCommand.java:88-91 | Adding the same task a second time is refused as a duplicate |
| Tasks.JoinTextsAppend | src/test/java/seedu/address/model/task/ReadOnlyTaskListTest.java:38-47 | The text of a longer list is the text of its prefix, then ", ", then the new task's text |
| Tasks.RenderAfterAdd | src/test/java/seedu/address/model/task/ReadOnlyTaskListTest.java:38-47 | Rendering follows insertion order: an added task appears last inside the brackets, after ", " when the list was non-empty |
| Children.IndexOf | src/main/java/seedu/address/logic/newcommands/CreateStudentCommand.java:59 | The position found is the first entry with the key, or the end when none has it |
| Children.AddChild | src/main/java/seedu/address/logic/newcommands/CreateStudentCommand.java:59-62 | Adding a child succeeds exactly when the key is new, appends the key to the key sequence, keeps keys unique, and otherwise fails as a duplicate child |
| Children.LookupAddChild | src/main/java/seedu/address/logic/newcommands/CreateStudentCommand.java:62 | After an add the new child is found under its key and every other key finds what it found before |
| Children.AddChildTwice | src/main/java/seedu/address/logic/newcommands/CreateStudentCommand.java:59-62 | Adding under the same key twice in a row is refused the second time |
| Children.HasChildIffInKeys | src/main/java/seedu/address/logic/newcommands/CreateStudentCommand.java:59 | Finding a child by key agrees with the key being among the children's keys |
| Children.LookupReplace | src/main/java/seedu/address/logic/newcommands/CreateDeadlineCommand.java:91 | Replacing a child changes what is found under its key and nothing else |
| Children.ReplaceKeepsKeys | src/main/java/seedu/address/logic/newcommands/CreateDeadlineCommand.java:91 | Replacing a child keeps which keys are present and keeps them unique |
| Children.LookupUnique | src/main/java/seedu/address/logic/newcommands/CreateDeadlineCommand.java:95-98 | With unique keys, each entry is the one found under its own key |
| ProfBook.TaskOperation | src/main/java/seedu/address/logic/newcommands/CreateDeadlineCommand.java:87 | A task list is obtained exactly for an existing group or student; the root is an unsupported operation and a path naming no node is invalid |
| ProfBook.GroupOperation | src/main/java/seedu/address/logic/newcommands/CreateStudentCommand.java:57 | A group is obtained exactly for an existing group-level path and is the group filed under that identifier; any other level is unsupported and a missing group is invalid |
| ProfBook.SetTasksFrame | src/main/java/seedu/address/logic/newcommands/CreateDeadlineCommand.java:91 | Storing a task list at a path changes the list found there and no other path's list, and keeps the set of existing paths |
| ProfBook.SetTasksValid | src/main/java/seedu/address/logic/newcommands/CreateDeadlineCommand.java:91 | Storing a duplicate-free list keeps the tree invariant: unique sibling identifiers, nodes filed under their own identifiers, duplicate-free task lists |
| ProfBook.SetTasksShape | src/main/java/seedu/address/logic/newcommands/CreateDeadlineCommand.java:91 | Storing a task list keeps the root's groups and every group's students in the same order |
| ProfBook.ValidTaskListDistinct | src/main/java/seedu/address/logic/newcommands/CreateDeadlineCommand.java:87-88 | In a valid tree every task list is duplicate-free |
| CreateDeadline.AddDeadlineAt | src/main/java/seedu/address/logic/newcommands/CreateDeadlineCommand.java:87-91 | One add step succeeds exactly when the target has a task list without the deadline; it then appends the deadline there and changes nothing else, keeping every other task list, the set of paths and the order of all children; a lookup failure is passed on, a listed deadline is a duplicate, and validity is kept |
| CreateDeadline.FirstHolder | src/main/java/seedu/address/logic/newcommands/CreateDeadlineCommand.java:96-102 | The position found is the first target already holding the deadline, or the end when none does |
| CreateDeadline.AddToEachSpec | src/main/java/seedu/address/logic/newcommands/CreateDeadlineCommand.java:96-104 | A bulk add over distinct existing targets gives every target before the first holder the deadline, leaves that holder, later targets and all other paths untouched, keeps the order of all children, and fails as a duplicate exactly when a holder exists |
| CreateDeadline.AddToEachValid | src/main/java/seedu/address/logic/newcommands/CreateDeadlineCommand.java:96-117 | A bulk add keeps the tree valid whether or not it stops part-way |
| CreateDeadline.AddToEachShape | src/main/java/seedu/address/logic/newcommands/CreateDeadlineCommand.java:96-117 | A bulk add, complete or stopped part-way, keeps the order of the groups and of every group's students, which is the order the loops visit |
| CreateDeadline.UnresolvablePath | src/main/java/seedu/address/logic/newcommands/CreateDeadlineCommand.java:83-127 | A path that does not resolve is reported as an invalid path and changes nothing |
| CreateDeadline.SingleTargetRefused | src/main/java/seedu/address/logic/newcommands/CreateDeadlineCommand.java:86-90 | Without a category, the root is an unsupported operation, a missing node is an invalid path, a listed deadline is a duplicate, and in each case the state is kept |
| CreateDeadline.SingleTargetAdded | src/main/java/seedu/address/logic/newcommands/CreateDeadlineCommand.java:86-92 | Without a category and without a duplicate, the deadline is appended to exactly the target's list and nothing else changes: other task lists, existing paths and the order of groups and students are kept |
| CreateDeadline.StudentTargets | src/main/java/seedu/address/logic/newcommands/CreateDeadlineCommand.java:95-99 | The bulk targets are the group's students in child-list order, distinct, each with a task list |
| CreateDeadline.GroupTargets | src/main/java/seedu/address/logic/newcommands/CreateDeadlineCommand.java:108-112 | The bulk targets are the root's groups in child-list order, distinct, each with a task list |
| CreateDeadline.AllStudentsNonTransactional | src/main/java/seedu/address/logic/newcommands/CreateDeadlineCommand.java:93-105 | Category allStu at a group adds to its students in order, keeps the additions made before the first student already holding the deadline, and fails as a duplicate exactly when such a student exists |
| CreateDeadline.AllStudentsMissingGroup | src/main/java/seedu/address/logic/newcommands/CreateDeadlineCommand.java:93-94 | Category allStu at a group path naming no group is an invalid path and changes nothing |
| CreateDeadline.AllGroupsNonTransactional | src/main/java/seedu/address/logic/newcommands/CreateDeadlineCommand.java:106-118 | Category allGrp at the root adds to the groups in order with the same partial outcome, and no student's task list changes |
| CreateDeadline.CategoryFallThrough | src/main/java/seedu/address/logic/newcommands/CreateDeadlineCommand.java:119-120 | Any other category and path combination fails with the generic error and changes nothing |
| CreateDeadline.ExecuteKeepsValid | src/main/java/seedu/address/logic/newcommands/CreateDeadlineCommand.java:80-129 | The command never breaks the tree invariant, even when a bulk add stops part-way |
| CreateDeadline.EqualsIgnoresCategory | src/main/java/seedu/address/logic/newcommands/CreateDeadlineCommand.java:150-151 | Two commands are equal exactly when they agree once the category is disregarded |
| CreateDeadline.EqualCommandsMayDiffer | src/main/java/seedu/address/logic/newcommands/CreateDeadlineCommand.java:138-152 | Two equal commands, one plain and one allStu, change the same state differently |
| CreateStudent.UnresolvablePath | src/main/java/seedu/address/logic/newcommands/CreateStudentCommand.java:56-65 | A path that does not resolve is reported as an invalid path and changes nothing |
| CreateStudent.Refused | src/main/java/seedu/address/logic/newcommands/CreateStudentCommand.java:57-67 | A non-group path is unsupported, a missing group is invalid, a taken student identifier is a duplicate, and in each case the state is kept |
| CreateStudent.Added | src/main/java/seedu/address/logic/newcommands/CreateStudentCommand.java:57-63 | On success the group gains exactly the new student under its own identifier at the end; other groups, the root's group list and all existing task lists are unchanged; the only new path is the student's |
| CreateStudent.SecondRunDuplicate | src/main/java/seedu/address/logic/newcommands/CreateStudentCommand.java:59-62 | Running a successful command again is refused as a duplicate |
| CreateStudent.ExecuteKeepsValid | src/main/java/seedu/address/logic/newcommands/CreateStudentCommand.java:53-69 | Adding a student with a duplicate-free task list keeps the tree invariant |
| CreateStudent.EqualsIsStructural | src/main/java/seedu/address/logic/newcommands/CreateStudentCommand.java:88-91 | Two commands are equal exactly when their students and paths are |
| ShowTaskList.SucceedsIffTaskList | src/main/java/seedu/address/logic/commands/ShowTaskListCommand.java:73-101 | A non-help command succeeds exactly when the shown path has a task list, then displays that path, never touches the tree or current path, and keeps the state on failure |
| ShowTaskList.NoTargetNotTaskManager | src/main/java/seedu/address/logic/commands/ShowTaskListCommand.java:75-79 | Without a target, a current path without a task list is not a task manager |
| ShowTaskList.MissingTargetNotFound | src/main/java/seedu/address/logic/commands/ShowTaskListCommand.java:85-88 | A target naming no node is not found, never "not a task manager" |
| ShowTaskList.ExistingWithoutTaskList | src/main/java/seedu/address/logic/commands/ShowTaskListCommand.java:90-93 | An existing target lacks a task list exactly when it is the root, which is not a task manager |
| ShowTaskList.HelpIgnoresState | src/main/java/seedu/address/logic/commands/ShowTaskListCommand.java:40-45 | The help instance answers every state with the usage text and changes nothing |
| ShowTaskList.HelpEqualsNoTarget | src/main/java/seedu/address/logic/commands/ShowTaskListCommand.java:104-116 | Equality compares only targets, so the help instance equals the no-target command while answering differently |
| SampleProfBook.SampleStudents1Ids | src/main/java/seedu/address/model/util/SampleProfBook.java:22-35 | The first set is five students stu-001 to stu-005 in order, with distinct identifiers and empty task lists |
| SampleProfBook.SampleStudents2Ids | src/main/java/seedu/address/model/util/SampleProfBook.java:37-50 | The second set is five students stu-006 to stu-010 in order, distinct, and disjoint from the first set |
| SampleProfBook.GetTasks | src/main/java/seedu/address/model/util/SampleProfBook.java:52-60 | The tasks are to-dos "Task 0" up to "Task 9" in order, pairwise distinct |
| SampleProfBook.AddStudentsFresh | src/main/java/seedu/address/model/util/SampleProfBook.java:65-67 | Adding students with distinct new identifiers is never refused and appends them in order |
| SampleProfBook.AddTasksFresh | src/main/java/seedu/address/model/util/SampleProfBook.java:78-80 | Adding distinct new tasks is never refused and appends them in order |
| SampleProfBook.Group1Contents | src/main/java/seedu/address/model/util/SampleProfBook.java:62-69 | grp-001 holds the first five students in insertion order and no task, and is valid |
| SampleProfBook.Group2Contents | src/main/java/seedu/address/model/util/SampleProfBook.java:71-82 | grp-002 holds the second five students in order and the ten tasks in order, no addition is refused, and it is valid |
| SampleProfBook.SampleGroupIds | src/main/java/seedu/address/model/util/SampleProfBook.java:62-82 | Both sample groups are built and valid, and their identifiers differ |
| SampleProfBook.RootWithSpec | src/main/java/seedu/address/model/util/SampleProfBook.java:88-89 | Two groups can be added to an empty root exactly when their identifiers differ; the root then holds them in order and is valid if they are |
| SampleProfBook.RootContents | src/main/java/seedu/address/model/util/SampleProfBook.java:84-91 | The sample root holds exactly grp-001 then grp-002 and satisfies the tree invariant at every level |

## Left out

- The path classes, the tree classes and the tree-operation lookups are not modelled; `Paths.Resolve`, `ProfBook.TaskOperation` and `ProfBook.GroupOperation` are minimal stand-ins. They report a missing node as an invalid path, which is one of the two failures the commands catch.
- Textual parsing of paths, identifiers and due dates is left out. Identifiers are opaque strings with no format check, and a due date is an opaque, already formatted string.
- Message strings and `String.format` are left out. Errors are `ErrorKind` values and successes are `Feedback` values.
- List refresh, logging and showing the task list on screen are user-interface plumbing. The displayed path is recorded in the state; the rest is left out.
- Student contact fields and group display names in the sample tree do not affect any operation, so they are left out.
- CreateStudent.EqualsIsStructural: every student, including the one `touch` adds, carries only an identifier and a task list; the name, email, phone and address are not modelled, so command equality compares students on those two parts only, and two commands whose students differ only in contact details are equal here.
- The completion flag of a task is left out. A task always renders as not done (`[ ]`).
- `toString` of the commands is left out because it only formats text.
- The concrete task-list fixtures used by the task-list tests are not modelled; `Tasks.RenderAfterAdd` states the rendering rule for every list.
