/** Identifiers and paths of the three-level tree.

    An absolute path names the root (depth 0), a group (depth 1) or a student
    inside a group (depth 2); the datatype makes a deeper path unrepresentable,
    and `FromSegments` is where a too-long identifier sequence is rejected.
    A relative path is a sequence of navigation tokens resolved left to right
    against a current absolute path. Identifier text is opaque: the format
    checks on group and student identifiers are not part of this model. */
module Paths {
  import opened Outcomes

  datatype GroupId = GroupId(text: string)
  datatype StudentId = StudentId(text: string)

  datatype AbsolutePath =
    | RootPath
    | GroupPath(group: GroupId)
    | StudentPath(group: GroupId, student: StudentId)
  {
    function Depth(): nat {
      match this
      case RootPath => 0
      case GroupPath(_) => 1
      case StudentPath(_, _) => 2
    }

    predicate IsRootDirectory() {
      RootPath?
    }

    predicate IsGroupDirectory() {
      GroupPath?
    }

    predicate IsStudentDirectory() {
      StudentPath?
    }

    /** The identifier texts from the root down to this node. */
    function Segments(): (s: seq<string>)
      ensures |s| == Depth()
    {
      match this
      case RootPath => []
      case GroupPath(g) => [g.text]
      case StudentPath(g, s) => [g.text, s.text]
    }
  }

  /** Reads an identifier sequence as an absolute path; the tree has three
      levels, so a sequence longer than two is an invalid path. */
  function FromSegments(s: seq<string>): (r: Result<AbsolutePath>)
    ensures r.Ok? <==> |s| <= 2
    ensures r.Err? ==> r.error == InvalidPath
    ensures r.Ok? ==> r.value.Segments() == s
  {
    if |s| == 0 then Ok(RootPath)
    else if |s| == 1 then Ok(GroupPath(GroupId(s[0])))
    else if |s| == 2 then Ok(StudentPath(GroupId(s[0]), StudentId(s[1])))
    else Err(InvalidPath)
  }

  /** Reading back the segments of a path gives the path itself. */
  lemma SegmentsRoundTrip(p: AbsolutePath)
    ensures FromSegments(p.Segments()) == Ok(p)
  {
  }

  /** One step of a relative path: `.`, `..`, or a child identifier. */
  datatype Token = Here | Up | Down(name: string)

  type RelativePath = seq<Token>

  /** Descends into the child called `name`; there is nothing below a student. */
  function Push(p: AbsolutePath, name: string): (r: Result<AbsolutePath>)
    ensures r.Ok? <==> p.Depth() < 2
    ensures r.Err? ==> r.error == InvalidPath
    ensures r.Ok? ==> r.value.Segments() == p.Segments() + [name]
  {
    match p
    case RootPath => Ok(GroupPath(GroupId(name)))
    case GroupPath(g) => Ok(StudentPath(g, StudentId(name)))
    case StudentPath(_, _) => Err(InvalidPath)
  }

  /** Ascends one level; there is nothing above the root. */
  function Pop(p: AbsolutePath): (r: Result<AbsolutePath>)
    ensures r.Ok? <==> p.Depth() > 0
    ensures r.Err? ==> r.error == InvalidPath
    ensures r.Ok? ==> r.value.Segments() == p.Segments()[..p.Depth() - 1]
  {
    match p
    case RootPath => Err(InvalidPath)
    case GroupPath(_) => Ok(RootPath)
    case StudentPath(g, _) => Ok(GroupPath(g))
  }

  /** Ascending undoes descending. */
  lemma PopUndoesPush(p: AbsolutePath, name: string)
    requires Push(p, name).Ok?
    ensures Pop(Push(p, name).value) == Ok(p)
  {
  }

  function Step(p: AbsolutePath, t: Token): Result<AbsolutePath> {
    match t
    case Here => Ok(p)
    case Up => Pop(p)
    case Down(name) => Push(p, name)
  }

  /** Applies the tokens of `rel` to `current` from left to right, failing at
      the first step that leaves the tree. Resolution is purely syntactic: it
      never looks at which nodes exist. */
  function Resolve(current: AbsolutePath, rel: RelativePath): Result<AbsolutePath>
    decreases |rel|
  {
    if |rel| == 0 then Ok(current)
    else
      match Step(current, rel[0])
      case Err(e) => Err(e)
      case Ok(next) => Resolve(next, rel[1..])
  }

  function CountDowns(rel: RelativePath): nat {
    if |rel| == 0 then 0 else (if rel[0].Down? then 1 else 0) + CountDowns(rel[1..])
  }

  function CountUps(rel: RelativePath): nat {
    if |rel| == 0 then 0 else (if rel[0].Up? then 1 else 0) + CountUps(rel[1..])
  }

  /** Resolution only ever fails with InvalidPath, and a successful one moves
      down once per child token and up once per `..`. */
  lemma {:induction false} ResolveDepth(current: AbsolutePath, rel: RelativePath)
    ensures Resolve(current, rel).Err? ==> Resolve(current, rel).error == InvalidPath
    ensures Resolve(current, rel).Ok? ==>
      Resolve(current, rel).value.Depth() == current.Depth() + CountDowns(rel) - CountUps(rel)
    decreases |rel|
  {
    if |rel| > 0 {
      match Step(current, rel[0])
      case Err(_) =>
      case Ok(next) => ResolveDepth(next, rel[1..]);
    }
  }

  /** A path made only of `.` tokens leaves the current path where it is. */
  lemma {:induction false} ResolveHereOnly(current: AbsolutePath, rel: RelativePath)
    requires forall i :: 0 <= i < |rel| ==> rel[i] == Here
    ensures Resolve(current, rel) == Ok(current)
    decreases |rel|
  {
    if |rel| > 0 {
      ResolveHereOnly(current, rel[1..]);
    }
  }

  /** Resolving a concatenation is resolving its halves one after the other. */
  lemma {:induction false} ResolveConcat(current: AbsolutePath, a: RelativePath, b: RelativePath)
    ensures Resolve(current, a + b) ==
      match Resolve(current, a)
      case Err(e) => Err(e)
      case Ok(mid) => Resolve(mid, b)
    decreases |a|
  {
    if |a| > 0 {
      assert (a + b)[0] == a[0];
      assert (a + b)[1..] == a[1..] + b;
      match Step(current, a[0])
      case Err(_) =>
      case Ok(next) => ResolveConcat(next, a[1..], b);
    } else {
      assert a + b == b;
    }
  }

  /** `..` removes the last segment, and fails at the root. */
  lemma ResolveUp(current: AbsolutePath)
    ensures current.Depth() == 0 ==> Resolve(current, [Up]) == Err(InvalidPath)
    ensures current.Depth() > 0 ==>
      Resolve(current, [Up]).Ok? &&
      Resolve(current, [Up]).value.Segments() == current.Segments()[..current.Depth() - 1]
  {
  }

  /** From the root, a single identifier always resolves to a group-level
      path, whatever the tree contains. */
  lemma ResolveGroupFromRoot(name: string)
    ensures Resolve(RootPath, [Down(name)]) == Ok(GroupPath(GroupId(name)))
    ensures Resolve(RootPath, [Down(name)]).value.IsGroupDirectory()
  {
  }
}
