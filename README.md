# To-do list state machine

A Dafny model of the `App` component of a browser to-do list (React,
`src/App.js`). The component lets its user add short text tasks, delete them,
mark them completed, edit their text, and narrow the list to active or
completed tasks. This model covers the five pieces of state the component
holds:

- `tasks`: an ordered list of `{ id, text, completed }` records;
- `newTask`: the add box;
- `editId`: the optional id of the task being edited;
- `editText`: the edit box;
- `filter`: the selector value.

It also covers the event handlers that change that state and the
`filteredTasks` view the component renders.

The project has three modules:

- `JsString` (`js_string.dfy`) models JavaScript's `String.prototype.trim`. It
  strips the white-space and line-terminator characters of ECMAScript
  (the WhiteSpace and LineTerminator productions of ECMA-262). This is the test `!newTask.trim()` that
  keeps blank tasks out.
- `TaskList` (`task_list.dfy`) holds the `Task` record and the pure list
  expressions the handlers build their new list from:
  - the spread-append of `addTask`;
  - `tasks.filter` in `deleteTask` and in `filteredTasks`;
  - `tasks.map` in `toggleComplete` and `saveEdit`;
  - `tasks.find` in `startEdit`.

  Each is a function whose contract describes its result. The module also
  has lemmas about these functions: filtering is characterised uniquely,
  toggling is an involution, an unedited save is the identity, the two
  filtered views partition the list, and the operations keep ids unique.
- `App` (`todo_store.dfy`) holds the class `TodoStore`. Its fields are the
  component's state. Each handler is a method, modelled as one atomic
  transition whose `ensures` gives every field's new value in terms of the
  old state. A ghost field `stored` is the snapshot the persistence effect
  writes to local storage after every change of `tasks`. `Valid()` says
  that this snapshot equals `tasks`. The methods `Session` and
  `SessionContinued` at the end replay a short use of the component and
  assert its state after each step.

`Date.now()` (the id of a new task) is the parameter `freshId` of `AddTask`.
The code does not make ids unique. Uniqueness is therefore never assumed.
Instead, `AddTask`, `DeleteTask`, `ToggleComplete` and `SaveEdit` each state
that they keep ids unique, and `AddTask` needs a `freshId` no task has yet
for that.

Facts about the component that the model keeps:

- The rendered view is the filter alone; the component has no search.
- `filter` is any string. Any value other than `"completed"` or `"active"`
  shows every task.
- `startEdit` on an id no task has throws: the code reads `.text` off the
  `undefined` that `find` returns. The model makes the id's presence a
  precondition. The component only offers the edit button on a task it
  displays.
- Ids are not guaranteed unique.
- `saveEdit` stores the edit text without checking it, so it may store the
  empty string.

## Model

| member | source | states |
|---|---|---|
| `JsString.TrimStart` | src/App.js:85 | the result is a suffix of the input that does not start with a trimmable character, and everything dropped before it is trimmable |
| `JsString.TrimEnd` | src/App.js:85 | the result is a prefix of the input that does not end with a trimmable character, and everything dropped after it is trimmable |
| `JsString.Trim` | src/App.js:85 | `newTask.trim()` is `TrimEnd(TrimStart(s))`, so its meaning is those two contracts; its own contract adds that the result is no longer than the input and neither starts nor ends with a trimmable character |
| `JsString.TrimEmptyIffBlank` | src/App.js:85 | `newTask.trim()` is empty (falsy) exactly when every character of `newTask` is white space or a line terminator |
| `JsString.TrimsToEmpty` | src/App.js:85 | evaluating `!newTask.trim()` yields true exactly when `newTask` is blank |
| `TaskList.Filter` | src/App.js:92 | `s.filter(p)` is an order-preserving subsequence of `s` whose elements all satisfy `p`, keeping every `p`-element as often as it occurs in `s`; an element is in it iff it is in `s` and satisfies `p` |
| `TaskList.FilterUnique` | src/App.js:92 | those three properties determine the result: any sequence that has them equals `s.filter(p)` |
| `TaskList.FilterKeepsAll` | src/App.js:126 | filtering with a callback that accepts every element gives the sequence back |
| `TaskList.SubsequenceKeepsUniqueIds` | src/App.js:92 | a subsequence of a list with unique ids has unique ids, drawn from the original list |
| `TaskList.Append` | src/App.js:86 | `[...tasks, { id, text, completed: false }]` keeps the old tasks, in order, as its prefix and ends with one new task with that id and text that is not completed |
| `TaskList.AppendKeepsUniqueIds` | src/App.js:86 | appending with an id no task has keeps the ids unique |
| `TaskList.Remove` | src/App.js:92 | the list after `deleteTask(id)` is the order-preserving subsequence of exactly the tasks whose id differs from `id`, each as often as before, and no task with `id` remains |
| `TaskList.RemoveAbsent` | src/App.js:92 | deleting an id no task has leaves the list unchanged |
| `TaskList.RemoveUniqueDropsOne` | src/App.js:92 | with unique ids, deleting a present id removes exactly one task |
| `TaskList.UpdateWhere` | src/App.js:97 | `tasks.map(task => task.id === id ? f(task) : task)` keeps the length and replaces exactly the tasks at positions whose id is `id` by their image under `f` |
| `TaskList.ToggleAt` | src/App.js:97 | the list after `toggleComplete(id)` keeps length, order, every id and every text, and flips `completed` exactly on the tasks with that id |
| `TaskList.ToggleTwice` | src/App.js:97 | toggling the same id twice restores the original list |
| `TaskList.ToggleAbsent` | src/App.js:97 | toggling an id no task has leaves the list unchanged |
| `TaskList.SetText` | src/App.js:114 | the list after `saveEdit(id)` keeps length, order, ids and `completed` flags, and the text of exactly the tasks with that id becomes the edit text, whatever it is |
| `TaskList.SetTextAbsent` | src/App.js:114 | saving for an id no task has leaves the list unchanged |
| `TaskList.SetTextTwice` | src/App.js:114 | a later save for the same id overrides an earlier one |
| `TaskList.FirstIndex` | src/App.js:104 | the position of the first task with the id: all earlier tasks have other ids, and it equals the length exactly when no task has the id |
| `TaskList.Find` | src/App.js:104 | `tasks.find(...)` is absent exactly when no task has the id; otherwise it is the first task with that id |
| `TaskList.SaveUneditedIsIdentity` | src/App.js:102-117 | with unique ids, `startEdit(id)` followed by `saveEdit(id)` without typing leaves the list unchanged |
| `TaskList.Visible` | src/App.js:120-127 | `filteredTasks` is an order-preserving subsequence of `tasks` holding every task the filter shows, as often as in `tasks`, and nothing else: for "completed" exactly the completed tasks, for "active" exactly the others |
| `TaskList.VisibleOtherIsAll` | src/App.js:120-127 | any filter value other than "completed" and "active" shows the whole list |
| `TaskList.VisiblePartition` | src/App.js:120-127 | the "active" and "completed" views together hold every task exactly once, and their lengths add up to the list's |
| `App.TodoStore.FilteredTasks` | src/App.js:120-127 | the rendered view is `Visible(tasks, filter)` over the component's state: an order-preserving subsequence of `tasks` holding every task the filter shows, as often as in `tasks`, and nothing else; the whole list for any filter other than "completed" and "active" |
| `App.TodoStore.constructor` | src/App.js:64-68 | the initial state: no tasks, empty boxes, no task in edit, filter "all", and storage in step |
| `App.TodoStore.SetNewTask` | src/App.js:147 | typing into the add box sets `newTask` and nothing else |
| `App.TodoStore.AddTask` | src/App.js:84-88 | a blank `newTask` changes nothing; otherwise exactly one task `{freshId, newTask (untrimmed), false}` is appended after the unchanged old tasks and `newTask` becomes empty; ids stay unique when `freshId` is new; storage follows |
| `App.TodoStore.DeleteTask` | src/App.js:91-93 | `tasks` becomes `Remove(tasks, id)`; unchanged when the id is absent; unique ids stay unique and lose exactly one task when the id is present; other fields unchanged |
| `App.TodoStore.ToggleComplete` | src/App.js:96-98 | `tasks` becomes `ToggleAt(tasks, id)`; unchanged when the id is absent; ids stay unique; other fields unchanged |
| `App.TodoStore.StartEdit` | src/App.js:102-106 | given a task with that id, `editId` becomes the id and `editText` the first such task's text; `tasks`, `newTask` and `filter` unchanged |
| `App.TodoStore.SetEditText` | src/App.js:183 | typing into the edit box sets `editText` and nothing else |
| `App.TodoStore.CancelEdit` | src/App.js:108-111 | leaves edit mode (`editId` none, `editText` empty) without touching any task |
| `App.TodoStore.SaveEdit` | src/App.js:113-117 | `tasks` becomes `SetText(tasks, id, editText)` even for an empty `editText`; unchanged when the id is absent; then edit mode is left |
| `App.TodoStore.HandleFilterChange` | src/App.js:130-132 | the filter becomes the selected value; nothing else changes |

## Left out

- Rendering, the MUI components, the theme and the styled wrappers are not modelled. They contain no logic.
- The load effect is not modelled. On mount the component reads the key "tasks" from local storage and, if a value is there, parses it as JSON. This is foreign I/O and a serialisation library. The constructor starts from the initial `useState` values instead.
- The save effect is modelled only by the ghost snapshot `stored`. JSON encoding is not modelled.
- `Date.now()` is not modelled. It is a clock read, so the model takes the id as the parameter `freshId`.
- React's asynchronous batching of state updates and stale closures are not modelled. Each handler is one atomic transition.
- `App.TodoStore.StartEdit`: the case where no task has the id is excluded by a precondition, because the code throws there. What React does with an `editId` that was already queued before the throw is not modelled.
- `App.TodoStore.HandleFilterChange` takes `event.target.value` rather than the event object.
- Pressing Enter in the add or edit box is not modelled separately. It only calls `addTask` or `saveEdit`, which are modelled.
- Characters are Unicode scalar values, not JavaScript's UTF-16 code units. A lone surrogate cannot be represented.
