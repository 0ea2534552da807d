/** Properties that relate several manager operations: what a later lookup
    sees after an operation, idempotence of completion, and, over a whole
    session of calls, that the invariant holds and no id is handed out twice. */
module Sessions {
  import opened Strings
  import opened Tasks
  import opened TodoManager

  /** The state-changing calls a front end can make. Listing and lookup do
      not change the state, so they have no entry here. */
  datatype Op =
    | Add(title: string, description: string)
    | Complete(id: int)
    | Update(id: int, title: string)
    | Delete(id: int)

  function Apply(m: Manager, op: Op): (m': Manager)
    ensures m'.nextId >= m.nextId
    ensures IdsFrom(m.tasks, m'.tasks, m.nextId)
    ensures Valid(m) ==> Valid(m')
  {
    match op
    case Add(title, description) => AddTask(m, title, description).state
    case Complete(id) => CompleteTask(m, id).state
    case Update(id, title) => UpdateTask(m, id, title).state
    case Delete(id) => DeleteTask(m, id).state
  }

  /** The state after performing `ops` in order, starting from `m`. */
  function Run(m: Manager, ops: seq<Op>): Manager
    decreases |ops|
  {
    if ops == [] then m else Run(Apply(m, ops[0]), ops[1..])
  }

  /** Over any session the invariant holds, the counter never goes down, and
      every id below the starting counter belongs to a task that was already
      there at the start. */
  lemma {:induction false} RunKeepsValid(m: Manager, ops: seq<Op>)
    requires Valid(m)
    ensures Valid(Run(m, ops))
    ensures Run(m, ops).nextId >= m.nextId
    ensures IdsFrom(m.tasks, Run(m, ops).tasks, m.nextId)
    decreases |ops|
  {
    if ops != [] {
      var m1 := Apply(m, ops[0]);
      RunKeepsValid(m1, ops[1..]);
      var last := Run(m1, ops[1..]);
      forall k | 0 <= k < |last.tasks| && last.tasks[k].id < m.nextId
        ensures HasId(m.tasks, last.tasks[k].id)
      {
        var j :| 0 <= j < |m1.tasks| && m1.tasks[j].id == last.tasks[k].id;
        assert m1.tasks[j].id < m.nextId;
      }
    }
  }

  /** An id that is below the counter and not in use never comes back, in
      particular the id of a deleted task. */
  lemma IdNeverReused(m: Manager, ops: seq<Op>, id: int)
    requires Valid(m)
    requires id < m.nextId && !HasId(m.tasks, id)
    ensures !HasId(Run(m, ops).tasks, id)
  {
    RunKeepsValid(m, ops);
  }

  /** After a task is deleted, no later session contains a task with its id. */
  lemma DeletedIdNeverReturns(m: Manager, id: int, ops: seq<Op>)
    requires Valid(m) && HasId(m.tasks, id)
    ensures DeleteTask(m, id).out
    ensures !HasId(Run(DeleteTask(m, id).state, ops).tasks, id)
  {
    var after := DeleteTask(m, id).state;
    var k :| 0 <= k < |m.tasks| && m.tasks[k].id == id;
    assert id < after.nextId;
    IdNeverReused(after, ops, id);
  }

  /** Ids handed out by two successful adds, with any session in between,
      strictly increase. */
  lemma AddIdsIncrease(m: Manager, t1: string, d1: string, ops: seq<Op>, t2: string, d2: string)
    requires Valid(m)
    requires !AllWhitespace(t1) && !AllWhitespace(t2)
    ensures var first := AddTask(m, t1, d1);
      var second := AddTask(Run(first.state, ops), t2, d2);
      first.out.Ok? && second.out.Ok? && first.out.value.id < second.out.value.id
  {
    var first := AddTask(m, t1, d1);
    RunKeepsValid(first.state, ops);
  }

  /** Completing a second time answers true again and changes nothing. */
  lemma {:induction false} CompleteIdempotent(m: Manager, id: int)
    ensures var once := CompleteTask(m, id);
      CompleteTask(once.state, id) == Step(once.state, once.out)
  {
    var once := CompleteTask(m, id);
    match IndexOf(m.tasks, id)
    case None =>
    case Some(i) =>
      var again := IndexOf(once.state.tasks, id);
      assert again == Some(i);
      assert once.state.tasks[i].isCompleted;
      assert once.state.tasks[i := MarkCompleted(once.state.tasks[i])] == once.state.tasks;
  }

  /** A task just added is found by its id with the stripped title, the
      stripped description and the flag clear; listing shows it last. */
  lemma AddThenGet(m: Manager, title: string, description: string)
    requires Valid(m) && !AllWhitespace(title)
    ensures var r := AddTask(m, title, description);
      && r.out.Ok?
      && GetTask(r.state, m.nextId) == Some(Task(m.nextId, Strip(title), Strip(description), false))
      && ListTasks(r.state) == ListTasks(m) + [r.out.value]
  {
    var r := AddTask(m, title, description);
    assert r.state.tasks[|m.tasks|] == r.out.value;
  }

  /** After completing an existing task, a lookup shows it completed. */
  lemma CompleteThenGet(m: Manager, id: int)
    requires Valid(m) && HasId(m.tasks, id)
    ensures var r := CompleteTask(m, id);
      && r.out
      && GetTask(r.state, id).Some?
      && GetTask(r.state, id).value.isCompleted
  {
    var r := CompleteTask(m, id);
    var k :| 0 <= k < |m.tasks| && m.tasks[k].id == id;
    assert r.state.tasks[k].id == id;
  }

  /** After renaming an existing task, a lookup shows the stripped title and
      the old description and flag. */
  lemma UpdateThenGet(m: Manager, id: int, title: string)
    requires Valid(m) && HasId(m.tasks, id) && !AllWhitespace(title)
    ensures var r := UpdateTask(m, id, title);
      && r.out == Ok(true)
      && GetTask(r.state, id) == Some(Renamed(GetTask(m, id).value, Strip(title)))
  {
    var r := UpdateTask(m, id, title);
    var k :| 0 <= k < |m.tasks| && m.tasks[k].id == id;
    assert r.state.tasks[k].id == id;
  }

  /** A rejected rename leaves the old title in place. */
  lemma RejectedUpdateKeepsTitle(m: Manager, id: int, title: string)
    requires AllWhitespace(title)
    ensures UpdateTask(m, id, title).out.Err?
    ensures GetTask(UpdateTask(m, id, title).state, id) == GetTask(m, id)
  {
  }

  /** After deleting, the id is no longer found and the list is one shorter. */
  lemma DeleteThenGet(m: Manager, id: int)
    requires Valid(m) && HasId(m.tasks, id)
    ensures var r := DeleteTask(m, id);
      && r.out
      && GetTask(r.state, id) == None
      && |ListTasks(r.state)| == |ListTasks(m)| - 1
  {
  }

  /** Deleting the id of the first task drops just that task. */
  lemma DeleteFront(m: Manager, id: int)
    requires m.tasks != [] && m.tasks[0].id == id
    ensures DeleteTask(m, id) == Step(m.(tasks := m.tasks[1..]), true)
  {
    assert m.tasks[..0] + m.tasks[1..] == m.tasks[1..];
  }

  /** Adding two tasks to a fresh manager gives ids 1 and 2; after deleting
      1, the next add gives id 3, not 1, and the list holds ids 2 and 3. */
  lemma IdScenario(ta: string, tb: string, tc: string)
    requires !AllWhitespace(ta) && !AllWhitespace(tb) && !AllWhitespace(tc)
    ensures var a := AddTask(Init(), ta);
      var b := AddTask(a.state, tb);
      var d := DeleteTask(b.state, 1);
      var c := AddTask(d.state, tc);
      && a.out.Ok? && a.out.value.id == 1
      && b.out.Ok? && b.out.value.id == 2
      && d.out
      && c.out.Ok? && c.out.value.id == 3
      && |ListTasks(c.state)| == 2
      && ListTasks(c.state)[0].id == 2 && ListTasks(c.state)[1].id == 3
  {
    var a := AddTask(Init(), ta);
    var b := AddTask(a.state, tb);
    assert b.state.tasks[0].id == 1;
    DeleteFront(b.state, 1);
  }

  /** Renaming to "  New Title  " stores "New Title". */
  lemma RenameIsStripped(m: Manager, id: int)
    requires Valid(m) && HasId(m.tasks, id)
    ensures UpdateTask(m, id, "  New Title  ").out == Ok(true)
    ensures GetTask(UpdateTask(m, id, "  New Title  ").state, id).value.title == "New Title"
  {
    var s := "  New Title  ";
    assert StripBounds(s, 2, 11);
    assert s[2..11] == "New Title";
    StripIsUnique(s, "New Title");
    assert !AllWhitespace(s) by { assert !IsWhitespace(s[2]); }
    UpdateThenGet(m, id, s);
  }
}
