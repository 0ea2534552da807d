/** The task record: one work item tracked by the manager. */
module Tasks {

  /** `id` is assigned by the manager; `description` defaults to the empty
      string and `isCompleted` to false, as in the record's declaration.
      Uniqueness of `id` and non-emptiness of `title` are not checked here:
      they are invariants of the manager that owns the tasks. */
  datatype Task = Task(id: int, title: string, description: string := "", isCompleted: bool := false)

  /** A task built from an id and a title alone carries the declared defaults. */
  function WithDefaults(id: int, title: string): (t: Task)
    ensures t.id == id && t.title == title
    ensures t.description == [] && !t.isCompleted
  {
    Task(id, title)
  }

  /** The task with its completion flag set; every other field kept. */
  function MarkCompleted(t: Task): (u: Task)
    ensures u.isCompleted
    ensures u.id == t.id && u.title == t.title && u.description == t.description
  {
    t.(isCompleted := true)
  }

  /** The task with a new title; every other field kept. */
  function Renamed(t: Task, title: string): (u: Task)
    ensures u.title == title
    ensures u.id == t.id && u.description == t.description && u.isCompleted == t.isCompleted
  {
    t.(title := title)
  }
}
