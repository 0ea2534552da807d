# Todo manager model

A Dafny model of the in-memory task manager of a small todo application and
the task record it owns. The manager's state is an ordered sequence of tasks
(insertion order) together with the counter that supplies the next id, which
starts at 1. Every manager operation is a pure function from the old state
to the new state and the operation's answer:

- `AddTask` strips the title and rejects it with a validation error when
  nothing is left. Otherwise it strips the description, gives the task the
  counter's value as its id, appends it and bumps the counter.
- `ListTasks` returns the stored sequence.
- `GetTask` is a linear scan by id. `FindTask` writes that scan as a loop.
- `CompleteTask` sets the completion flag. It answers false when the id is
  absent.
- `UpdateTask` strips the new title. It rejects an empty one whatever the id,
  answers false when the id is absent, and otherwise renames the task.
- `DeleteTask` removes the task with the given id. It answers false when the
  id is absent.

The validation error is `Err(ValidationError("Title cannot be empty"))` in a
`Result`. A missing id is a `false` or `None` answer.

Python's `str.strip()` is modelled in module `Strings`. Whitespace is exactly
the set of characters for which `str.isspace()` holds. `Strip` is proved equal
to an independent definition: the unique slice with only whitespace outside
it and no whitespace at its ends. It is also proved idempotent and shown to be
empty exactly when every character is whitespace.

`Valid` is the manager invariant:
- ids are distinct and lie in `[1, nextId)`;
- every title is non-empty and already stripped;
- every description is already stripped.

Every operation preserves `Valid`. No operation lowers the counter. Module
`Sessions` extends these facts to any sequence of operations. It proves that
an id below the counter that is not in use, such as the id of a deleted task,
never appears again.

Files: `strings.dfy` (module `Strings`), `task.dfy` (module `Tasks`),
`todo_manager.dfy` (module `TodoManager`), `session.dfy` (module `Sessions`).

The model has value semantics. `ListTasks` and `GetTask` return values, so
nothing a caller does to them can reach the manager. In the source,
`list_tasks` copies only the list, and `get_task` returns the live task
object.

Python's `list.remove(task)` removes the first element that compares equal
to `task`, and raises `ValueError` when there is none. Dataclass equality
compares all four fields. This is modelled as `RemoveFirst`, which answers
`None` in the `ValueError` case. `RemoveFirstAt` proves that it removes
exactly the position the scan found. When ids are distinct, that is the same
as filtering out the id (`WithoutIdIsCut`).

## Model

| member | source | states |
|---|---|---|
| `Strings.IsWhitespace` | src/services/todo_manager.py:42-49 | the characters `strip()` removes are exactly those `str.isspace()` accepts: TAB..CR, FS..US, SPACE, NEL, NO-BREAK SPACE, U+1680, U+2000..U+200A, U+2028, U+2029, U+202F, U+205F, U+3000 |
| `Strings.Strip` | src/services/todo_manager.py:42 | the result is a slice of the input with only whitespace outside it and no whitespace at either end |
| `Strings.StripIsUnique` | src/services/todo_manager.py:42 | any string that meets the strip definition is `Strip`'s result, so `Strip` is exactly `str.strip()` |
| `Strings.StripEmptyIff` | src/services/todo_manager.py:42-44 | the stripped title is empty if and only if every character of the title is whitespace |
| `Strings.StripIdempotent` | src/services/todo_manager.py:110 | stripping a stripped string changes nothing |
| `Strings.StripOfTrimmed` | src/services/todo_manager.py:42 | a string whose first and last characters are not whitespace is its own strip |
| `Tasks.WithDefaults` | src/models/task.py:23-26 | a task built from id and title alone has an empty description and is not completed |
| `Tasks.MarkCompleted` | src/services/todo_manager.py:93 | setting the flag makes the task completed and keeps id, title and description |
| `Tasks.Renamed` | src/services/todo_manager.py:117 | renaming sets the title and keeps id, description and completion |
| `TodoManager.ValidTitlesNonEmpty` | src/models/task.py:17-18 | in a valid state every stored title is its own strip and is not all whitespace |
| `TodoManager.Valid` | src/models/task.py:17-18 | the manager invariant: ids distinct and in `[1, nextId)` (the counter starts at 1 and is bumped after each assignment, todo_manager.py lines 26, 47, 53), every title non-empty and stripped, every description stripped |
| `TodoManager.Init` | src/services/todo_manager.py:23-26 | a fresh manager has no tasks, its counter is 1, and it satisfies the invariant |
| `TodoManager.IndexOf` | src/services/todo_manager.py:75-78 | the scan finds the first position holding the id, and finds nothing exactly when no task has that id |
| `TodoManager.ListTasks` | src/services/todo_manager.py:63 | the listing has the stored tasks, in insertion order |
| `TodoManager.GetTask` | src/services/todo_manager.py:65-78 | a task is returned if and only if one has the id; it is stored and carries the id; in a valid state it is the only task with that id |
| `TodoManager.FindTask` | src/services/todo_manager.py:75-78 | the loop returns the same answer as `GetTask` |
| `TodoManager.AddTask` | src/services/todo_manager.py:42-54 | error exactly for an all-whitespace title, with state unchanged; otherwise one task appended with id = old counter, stripped title and description, flag clear, counter + 1, id fresh; invariant preserved |
| `TodoManager.AppendKeepsValid` | src/services/todo_manager.py:46-53 | appending a well-formed task under the counter and bumping the counter keeps earlier tasks and the invariant |
| `TodoManager.CompleteTask` | src/services/todo_manager.py:90-94 | true if and only if the id exists; false leaves the state unchanged; only flags change; in a valid state exactly the task with the id becomes completed; invariant preserved |
| `TodoManager.UpdateTask` | src/services/todo_manager.py:110-118 | error exactly for an all-whitespace title, whatever the id, with state unchanged; false exactly when the title is valid and the id is absent; only titles change; in a valid state exactly the task with the id gets the stripped title; invariant preserved |
| `TodoManager.RenameAt` | src/services/todo_manager.py:114-118 | once the title is valid and the task is found, the answer is true, only titles change, exactly the tasks with that id get the new title in a valid state, and the invariant is kept |
| `TodoManager.ReplaceKeepsValid` | src/services/todo_manager.py:93 | replacing a task in place by one with the same id keeps every id and, for a well-formed task, the invariant |
| `TodoManager.RemoveFirst` | src/services/todo_manager.py:133 | list removal fails (Python's `ValueError`) exactly when the task is absent, and otherwise takes out one element |
| `TodoManager.RemoveFirstCount` | src/services/todo_manager.py:133 | a successful list removal takes out exactly one occurrence of the task, counted as a multiset |
| `TodoManager.RemoveFirstAt` | src/services/todo_manager.py:130-133 | removal of the found task cuts exactly its position and keeps the others in order |
| `TodoManager.WithoutId` | src/services/todo_manager.py:130-134 | the reference deletion leaves no task with the id and is no longer than the input |
| `TodoManager.WithoutIdMembers` | src/services/todo_manager.py:130-134 | a task is kept by the reference deletion exactly when it was present and has a different id |
| `TodoManager.WithoutIdIsCut` | src/services/todo_manager.py:130-134 | with distinct ids, cutting the position of the id equals keeping every task without that id, in order |
| `TodoManager.CutKeepsValid` | src/services/todo_manager.py:133 | cutting one position keeps the other tasks in order, invents no id, and keeps the invariant |
| `TodoManager.DeleteTask` | src/services/todo_manager.py:130-134 | true if and only if the id exists; false leaves the state unchanged; the counter is never touched; on success exactly one task with that id is cut, order kept; in a valid state the result is every task except the id's; invariant preserved |
| `Sessions.Apply` | src/services/todo_manager.py:42-134 | each state-changing call keeps the invariant, never lowers the counter and invents no id below it |
| `Sessions.RunKeepsValid` | src/services/todo_manager.py:46-53 | over any sequence of calls the invariant holds, the counter never decreases, and every id below the starting counter was present at the start |
| `Sessions.IdNeverReused` | src/services/todo_manager.py:47-53 | an id below the counter and not in use never appears again |
| `Sessions.DeletedIdNeverReturns` | src/services/todo_manager.py:130-134 | after a task is deleted, no later sequence of calls brings back a task with its id |
| `Sessions.AddIdsIncrease` | src/services/todo_manager.py:47-53 | ids given by two successful adds, with any calls in between, strictly increase |
| `Sessions.CompleteIdempotent` | src/services/todo_manager.py:90-94 | completing twice gives the same answer as once and changes nothing further |
| `Sessions.AddThenGet` | src/services/todo_manager.py:46-54 | a task just added is found under its id with stripped title and description and flag clear, and is listed last |
| `Sessions.CompleteThenGet` | src/services/todo_manager.py:90-94 | after completing an existing id, a lookup shows the task completed |
| `Sessions.UpdateThenGet` | src/services/todo_manager.py:110-118 | after renaming an existing id, a lookup shows the stripped title with the old description and flag |
| `Sessions.RejectedUpdateKeepsTitle` | src/services/todo_manager.py:110-112 | an all-whitespace title is rejected and a lookup still shows the old task |
| `Sessions.DeleteThenGet` | src/services/todo_manager.py:130-134 | after deleting an existing id, a lookup finds nothing and the listing is one shorter |
| `Sessions.DeleteFront` | src/services/todo_manager.py:130-134 | deleting the id of the first task drops just the first task |
| `Sessions.IdScenario` | src/services/todo_manager.py:47-53 | add, add, delete 1, add gives ids 1, 2 and then 3, and the listing holds ids 2 and 3 |
| `Sessions.RenameIsStripped` | src/services/todo_manager.py:110-117 | renaming to "  New Title  " stores "New Title" |

## Left out

- The console menu (`src/cli/main.py`) is not part of this model. It is `input()`/`print()` I/O plus integer parsing of what the user types.
- The HTTP API, its CORS set-up, and the database engine and session set-up (`api/src/`) are not part of this model. They are framework and database plumbing.
- The browser client (`frontend/src/lib/`) is not part of this model. It is network I/O.
- The package re-exports (`src/services/__init__.py`, `src/models/__init__.py`) are not part of this model. They contain no logic.
- Object aliasing is not modelled. In the source, changing a task obtained from `get_task` or `list_tasks` changes the manager's state. The model returns values instead.
- Concurrent use of one manager is not modelled. The source assumes one caller at a time.
- Arguments of the wrong type are not modelled. A title or description without a `strip` method raises `AttributeError` (`src/services/todo_manager.py` lines 42, 49, 110), a `bytes` title is accepted, and a non-int task id is compared with `==` (line 76), so `1.0` or `True` finds task 1. The model's titles and descriptions are strings and its ids are ints by type. The console passes only `input()` strings and `int(...)` ids (`src/cli/main.py` lines 22-23, 77, 119, 161).
- `TodoManager.ListTasks`: states equality with the stored sequence only. The source's list copy is shallow, which the model cannot express because it has no object identity.
