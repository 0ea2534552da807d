/** The in-memory task manager: an ordered sequence of tasks plus the counter
    that supplies the next id. Every operation is a pure function from the old
    state to the new state and the operation's answer. */
module TodoManager {
  import opened Strings
  import opened Tasks

  datatype Option<T> = None | Some(value: T)

  /** The one failure the manager raises: a title that is empty once stripped. */
  datatype Error = ValidationError(message: string)

  const EmptyTitleMessage: string := "Title cannot be empty"

  /** A value, or the validation error the operation raised instead. */
  datatype Result<T> = Ok(value: T) | Err(error: Error)

  /** The manager's state: tasks in insertion order and the next id to hand out. */
  datatype Manager = Manager(tasks: seq<Task>, nextId: int)

  /** The state after an operation, with the operation's answer. */
  datatype Step<T> = Step(state: Manager, out: T)

  // ---------------------------------------------------------------------------
  // The state invariant

  predicate HasId(tasks: seq<Task>, id: int) {
    exists k :: 0 <= k < |tasks| && tasks[k].id == id
  }

  predicate DistinctIds(tasks: seq<Task>) {
    forall j, k :: 0 <= j < k < |tasks| ==> tasks[j].id != tasks[k].id
  }

  /** Stored text is stripped, and the title is not empty. */
  predicate WellFormed(t: Task) {
    t.title != [] && TrimmedEdges(t.title) && TrimmedEdges(t.description)
  }

  /** Ids are distinct, lie in [1, nextId), and every task is well formed. */
  predicate Valid(m: Manager) {
    && m.nextId >= 1
    && DistinctIds(m.tasks)
    && (forall k :: 0 <= k < |m.tasks| ==> 1 <= m.tasks[k].id < m.nextId)
    && (forall k :: 0 <= k < |m.tasks| ==> WellFormed(m.tasks[k]))
  }

  /** Every id in `after` was either already present in `before` or is at
      least `bound`: nothing below the counter is invented. */
  predicate IdsFrom(before: seq<Task>, after: seq<Task>, bound: int) {
    forall k :: 0 <= k < |after| ==> after[k].id >= bound || HasId(before, after[k].id)
  }

  /** `after` differs from `before` at most in the completion flags. */
  predicate SameButCompletion(before: seq<Task>, after: seq<Task>) {
    && |after| == |before|
    && forall k :: 0 <= k < |before| ==>
         && after[k].id == before[k].id
         && after[k].title == before[k].title
         && after[k].description == before[k].description
  }

  /** `after` differs from `before` at most in the titles. */
  predicate SameButTitles(before: seq<Task>, after: seq<Task>) {
    && |after| == |before|
    && forall k :: 0 <= k < |before| ==>
         && after[k].id == before[k].id
         && after[k].description == before[k].description
         && after[k].isCompleted == before[k].isCompleted
  }

  /** A task with `id` is either first or in the rest. */
  lemma HasIdTail(s: seq<Task>, id: int)
    requires s != []
    ensures HasId(s, id) <==> s[0].id == id || HasId(s[1..], id)
  {
    assert forall k :: 1 <= k < |s| ==> s[k] == s[1..][k - 1];
  }

  /** Appending a well-formed task under the current counter, and bumping the
      counter, keeps the invariant. */
  lemma AppendKeepsValid(m: Manager, task: Task)
    requires task.id == m.nextId
    ensures var after := m.tasks + [task];
      && (forall k :: 0 <= k < |m.tasks| ==> after[k] == m.tasks[k])
      && IdsFrom(m.tasks, after, m.nextId)
      && (Valid(m) && WellFormed(task) ==> Valid(Manager(after, m.nextId + 1)))
  {
    var after := m.tasks + [task];
    assert forall k :: 0 <= k < |m.tasks| ==> after[k] == m.tasks[k];
  }

  /** Stored titles are never empty, not even after stripping them again. */
  lemma ValidTitlesNonEmpty(m: Manager, k: int)
    requires Valid(m) && 0 <= k < |m.tasks|
    ensures Strip(m.tasks[k].title) == m.tasks[k].title
    ensures !AllWhitespace(m.tasks[k].title)
  {
    StripOfTrimmed(m.tasks[k].title);
    StripEmptyIff(m.tasks[k].title);
  }

  // ---------------------------------------------------------------------------
  // Operations

  /** A fresh manager: no tasks, and the first id handed out is 1. */
  function Init(): (m: Manager)
    ensures m.tasks == [] && m.nextId == 1
    ensures Valid(m)
  {
    Manager([], 1)
  }

  /** Linear scan: the position of the first task carrying `id`. */
  function IndexOf(tasks: seq<Task>, id: int): (r: Option<nat>)
    ensures r.Some? ==> r.value < |tasks| && tasks[r.value].id == id
    ensures r.Some? ==> forall k :: 0 <= k < r.value ==> tasks[k].id != id
    ensures r.None? <==> !HasId(tasks, id)
  {
    if tasks == [] then None
    else if tasks[0].id == id then Some(0)
    else
      match IndexOf(tasks[1..], id)
      case None =>
        assert forall k :: 1 <= k < |tasks| ==> tasks[k] == tasks[1..][k - 1];
        None
      case Some(j) =>
        assert tasks[1..][j] == tasks[j + 1];
        Some(j + 1)
  }

  /** All tasks, in insertion order. The model has value semantics, so the
      caller's sequence cannot alias the manager's. */
  function ListTasks(m: Manager): (r: seq<Task>)
    ensures |r| == |m.tasks|
    ensures forall k :: 0 <= k < |r| ==> r[k] == m.tasks[k]
  {
    m.tasks
  }

  /** The task with the given id, or None. */
  function GetTask(m: Manager, id: int): (r: Option<Task>)
    ensures r.Some? <==> HasId(m.tasks, id)
    ensures r.Some? ==> r.value.id == id && r.value in m.tasks
    ensures Valid(m) ==> forall k :: 0 <= k < |m.tasks| && m.tasks[k].id == id ==> r == Some(m.tasks[k])
  {
    match IndexOf(m.tasks, id)
    case None => None
    case Some(i) => Some(m.tasks[i])
  }

  /** The scan of `GetTask` written as the loop it is in the source. */
  method FindTask(m: Manager, id: int) returns (r: Option<Task>)
    ensures r == GetTask(m, id)
  {
    var i := 0;
    while i < |m.tasks|
      invariant 0 <= i <= |m.tasks|
      invariant forall k :: 0 <= k < i ==> m.tasks[k].id != id
    {
      if m.tasks[i].id == id {
        return Some(m.tasks[i]);
      }
      i := i + 1;
    }
    return None;
  }

  /** Creates a task from the stripped title and description under the next
      id, or raises the validation error if the title strips to nothing. */
  function AddTask(m: Manager, title: string, description: string := ""): (r: Step<Result<Task>>)
    ensures r.out.Err? <==> AllWhitespace(title)
    ensures r.out.Err? ==> r.state == m && r.out.error == ValidationError(EmptyTitleMessage)
    ensures r.out.Ok? ==>
      && r.out.value == Task(m.nextId, Strip(title), Strip(description), false)
      && r.state.tasks == m.tasks + [r.out.value]
      && r.state.nextId == m.nextId + 1
    ensures r.state.nextId >= m.nextId
    ensures IdsFrom(m.tasks, r.state.tasks, m.nextId)
    ensures Valid(m) && r.out.Ok? ==> !HasId(m.tasks, r.out.value.id)
    ensures Valid(m) ==> Valid(r.state)
  {
    var stripped := Strip(title);
    StripEmptyIff(title);
    if stripped == [] then
      Step(m, Err(ValidationError(EmptyTitleMessage)))
    else
      var task := Task(m.nextId, stripped, Strip(description), false);
      AppendKeepsValid(m, task);
      Step(Manager(m.tasks + [task], m.nextId + 1), Ok(task))
  }

  /** Sets the completion flag of the task with the given id; false if there
      is none. */
  function CompleteTask(m: Manager, id: int): (r: Step<bool>)
    ensures r.out <==> HasId(m.tasks, id)
    ensures !r.out ==> r.state == m
    ensures r.state.nextId == m.nextId
    ensures SameButCompletion(m.tasks, r.state.tasks)
    ensures forall k :: 0 <= k < |m.tasks| && m.tasks[k].isCompleted ==> r.state.tasks[k].isCompleted
    ensures Valid(m) ==> forall k :: 0 <= k < |m.tasks| ==>
      r.state.tasks[k].isCompleted == (m.tasks[k].isCompleted || m.tasks[k].id == id)
    ensures IdsFrom(m.tasks, r.state.tasks, m.nextId)
    ensures Valid(m) ==> Valid(r.state)
  {
    match IndexOf(m.tasks, id)
    case None => Step(m, false)
    case Some(i) =>
      var after := m.tasks[i := MarkCompleted(m.tasks[i])];
      ReplaceKeepsValid(m, i, MarkCompleted(m.tasks[i]));
      OnlyPositionWithId(m.tasks, i);
      Step(m.(tasks := after), true)
  }

  /** Renames the task with the given id to the stripped title. An empty
      stripped title raises the validation error whether or not the id
      exists; a missing id answers false. */
  function UpdateTask(m: Manager, id: int, title: string): (r: Step<Result<bool>>)
    ensures r.out.Err? <==> AllWhitespace(title)
    ensures r.out.Err? ==> r.out.error == ValidationError(EmptyTitleMessage)
    ensures r.out == Ok(false) <==> !AllWhitespace(title) && !HasId(m.tasks, id)
    ensures r.out != Ok(true) ==> r.state == m
    ensures r.state.nextId == m.nextId
    ensures SameButTitles(m.tasks, r.state.tasks)
    ensures Valid(m) && r.out == Ok(true) ==> forall k :: 0 <= k < |m.tasks| ==>
      r.state.tasks[k].title == (if m.tasks[k].id == id then Strip(title) else m.tasks[k].title)
    ensures IdsFrom(m.tasks, r.state.tasks, m.nextId)
    ensures Valid(m) ==> Valid(r.state)
  {
    var stripped := Strip(title);
    StripEmptyIff(title);
    if stripped == [] then
      Step(m, Err(ValidationError(EmptyTitleMessage)))
    else
      match IndexOf(m.tasks, id)
      case None => Step(m, Ok(false))
      case Some(i) => RenameAt(m, i, stripped)
  }

  /** The rename step of `UpdateTask` once the title is valid and the task is
      found at position `i`. */
  function RenameAt(m: Manager, i: int, stripped: string): (r: Step<Result<bool>>)
    requires 0 <= i < |m.tasks|
    requires stripped != [] && TrimmedEdges(stripped)
    ensures r.out == Ok(true)
    ensures r.state.nextId == m.nextId
    ensures SameButTitles(m.tasks, r.state.tasks)
    ensures Valid(m) ==> forall k :: 0 <= k < |m.tasks| ==>
      r.state.tasks[k].title == (if m.tasks[k].id == m.tasks[i].id then stripped else m.tasks[k].title)
    ensures IdsFrom(m.tasks, r.state.tasks, m.nextId)
    ensures Valid(m) ==> Valid(r.state)
  {
    var after := m.tasks[i := Renamed(m.tasks[i], stripped)];
    ReplaceKeepsValid(m, i, Renamed(m.tasks[i], stripped));
    OnlyPositionWithId(m.tasks, i);
    Step(m.(tasks := after), Ok(true))
  }

  /** Replacing the task at `i` by one with the same id invents no id and,
      when the new task is well formed, keeps the invariant. */
  lemma ReplaceKeepsValid(m: Manager, i: int, t: Task)
    requires 0 <= i < |m.tasks| && t.id == m.tasks[i].id
    ensures var after := m.tasks[i := t];
      && (forall k :: 0 <= k < |after| ==> after[k].id == m.tasks[k].id)
      && IdsFrom(m.tasks, after, m.nextId)
      && (Valid(m) && WellFormed(t) ==> Valid(m.(tasks := after)))
  {
    var after := m.tasks[i := t];
    assert forall k :: 0 <= k < |after| ==> after[k].id == m.tasks[k].id;
  }

  /** With distinct ids, position `i` is the only one holding its id. */
  lemma OnlyPositionWithId(s: seq<Task>, i: int)
    requires 0 <= i < |s|
    ensures DistinctIds(s) ==> forall k :: 0 <= k < |s| ==> (s[k].id == s[i].id <==> k == i)
  {
  }

  /** The list's own `remove`: drops the first element equal to `t`, or
      fails, as Python's `ValueError` does, when no element equals `t`. */
  function RemoveFirst(s: seq<Task>, t: Task): (r: Option<seq<Task>>)
    ensures r.None? <==> t !in s
    ensures r.Some? ==> |r.value| == |s| - 1
  {
    if s == [] then None
    else if s[0] == t then Some(s[1..])
    else
      assert s == [s[0]] + s[1..];
      match RemoveFirst(s[1..], t)
      case None => None
      case Some(rest) => Some([s[0]] + rest)
  }

  /** A successful `remove` takes out exactly one occurrence of `t`. */
  lemma {:induction false} RemoveFirstCount(s: seq<Task>, t: Task)
    ensures RemoveFirst(s, t).Some? ==>
      multiset(RemoveFirst(s, t).value) == multiset(s) - multiset{t}
  {
    if s != [] {
      assert s == [s[0]] + s[1..];
      if s[0] != t {
        RemoveFirstCount(s[1..], t);
      }
    }
  }

  /** When `i` is the first position holding `t`, `remove` cuts exactly that
      position and keeps the others in order. */
  lemma {:induction false} RemoveFirstAt(s: seq<Task>, t: Task, i: int)
    requires 0 <= i < |s| && s[i] == t
    requires forall k :: 0 <= k < i ==> s[k] != t
    ensures RemoveFirst(s, t) == Some(s[..i] + s[i + 1..])
  {
    if i == 0 {
      assert s[..0] + s[1..] == s[1..];
    } else {
      var tail := s[1..];
      assert s[0] != t;
      assert tail[i - 1] == t;
      assert forall k :: 0 <= k < i - 1 ==> tail[k] == s[k + 1];
      RemoveFirstAt(tail, t, i - 1);
      assert RemoveFirst(s, t) == Some([s[0]] + RemoveFirst(tail, t).value);
      assert tail[..i - 1] == s[1..i];
      assert tail[i..] == s[i + 1..];
      assert [s[0]] + s[1..i] == s[..i];
      assert [s[0]] + (s[1..i] + s[i + 1..]) == s[..i] + s[i + 1..];
    }
  }

  /** Reference definition of deletion: every task except those with `id`,
      in their original order. */
  function WithoutId(s: seq<Task>, id: int): (r: seq<Task>)
    ensures |r| <= |s|
    ensures !HasId(r, id)
  {
    if s == [] then []
    else if s[0].id == id then WithoutId(s[1..], id)
    else
      var rest := WithoutId(s[1..], id);
      HasIdTail([s[0]] + rest, id);
      assert ([s[0]] + rest)[1..] == rest;
      [s[0]] + rest
  }

  /** A task survives the filter exactly when it was there and has another id. */
  lemma {:induction false} WithoutIdMembers(s: seq<Task>, id: int, t: Task)
    ensures t in WithoutId(s, id) <==> t in s && t.id != id
  {
    if s != [] {
      WithoutIdMembers(s[1..], id, t);
      assert s == [s[0]] + s[1..];
    }
  }

  lemma {:induction false} WithoutAbsentId(s: seq<Task>, id: int)
    requires !HasId(s, id)
    ensures WithoutId(s, id) == s
  {
    if s != [] {
      assert s[0].id != id;
      HasIdTail(s, id);
      WithoutAbsentId(s[1..], id);
      assert s == [s[0]] + s[1..];
    }
  }

  /** With distinct ids, filtering out `id` is the same as cutting the one
      position that holds it. */
  lemma {:induction false} WithoutIdIsCut(s: seq<Task>, id: int, i: int)
    requires 0 <= i < |s| && s[i].id == id
    ensures DistinctIds(s) ==> WithoutId(s, id) == s[..i] + s[i + 1..]
  {
    if DistinctIds(s) {
      DistinctIdsTail(s);
      var tail := s[1..];
      if i == 0 {
        WithoutAbsentId(tail, id);
        assert s[..0] + s[1..] == tail;
      } else {
        assert s[0].id != id;
        assert WithoutId(s, id) == [s[0]] + WithoutId(tail, id);
        assert tail[i - 1] == s[i];
        WithoutIdIsCut(tail, id, i - 1);
        assert tail[..i - 1] == s[1..i];
        assert tail[i..] == s[i + 1..];
        assert [s[0]] + s[1..i] == s[..i];
      }
    }
  }

  /** The rest of a sequence with distinct ids has distinct ids, none of them
      the first task's. */
  lemma DistinctIdsTail(s: seq<Task>)
    requires DistinctIds(s) && s != []
    ensures DistinctIds(s[1..])
    ensures !HasId(s[1..], s[0].id)
  {
    assert forall k :: 0 <= k < |s| - 1 ==> s[1..][k] == s[k + 1];
  }

  /** Cutting one position keeps the invariant, and the ids that remain are
      the old ones. */
  lemma CutKeepsValid(m: Manager, i: int)
    requires 0 <= i < |m.tasks|
    ensures var cut := m.tasks[..i] + m.tasks[i + 1..];
      && |cut| == |m.tasks| - 1
      && (forall k :: 0 <= k < |cut| ==> cut[k] == m.tasks[if k < i then k else k + 1])
      && IdsFrom(m.tasks, cut, m.nextId)
      && (Valid(m) ==> Valid(m.(tasks := cut)))
  {
    var cut := m.tasks[..i] + m.tasks[i + 1..];
    assert forall k :: 0 <= k < |cut| ==> cut[k] == m.tasks[if k < i then k else k + 1];
    assert IdsFrom(m.tasks, cut, m.nextId) by {
      forall k | 0 <= k < |cut|
        ensures HasId(m.tasks, cut[k].id)
      {
        var src := if k < i then k else k + 1;
        assert cut[k] == m.tasks[src];
      }
    }
  }

  /** Removes the task with the given id; false if there is none. The counter
      is not touched, so the id is never handed out again. */
  function DeleteTask(m: Manager, id: int): (r: Step<bool>)
    ensures r.out <==> HasId(m.tasks, id)
    ensures !r.out ==> r.state == m
    ensures r.state.nextId == m.nextId
    ensures r.out ==> |r.state.tasks| == |m.tasks| - 1
    ensures r.out ==> exists i :: (0 <= i < |m.tasks| && m.tasks[i].id == id &&
                                   r.state.tasks == m.tasks[..i] + m.tasks[i + 1..])
    ensures Valid(m) ==> r.state.tasks == WithoutId(m.tasks, id)
    ensures IdsFrom(m.tasks, r.state.tasks, m.nextId)
    ensures Valid(m) ==> Valid(r.state)
  {
    match IndexOf(m.tasks, id)
    case None =>
      WithoutAbsentId(m.tasks, id);
      Step(m, false)
    case Some(i) =>
      var found := m.tasks[i];
      RemoveFirstAt(m.tasks, found, i);
      CutKeepsValid(m, i);
      WithoutIdIsCut(m.tasks, id, i);
      Step(m.(tasks := RemoveFirst(m.tasks, found).value), true)
  }
}
