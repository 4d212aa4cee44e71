/** The state of the `App` component and its event handlers. Each handler
    is one atomic transition of that state; the new task list it stores is
    the pure function of the old one that TaskList defines. */
module App {
  import opened JsString
  import opened TaskList

  class TodoStore {
    /** `tasks`: the to-do items, in insertion order. */
    var tasks: seq<Task>
    /** `newTask`: the contents of the "Add New Task" box. */
    var newTask: string
    /** `editId`: the id of the task being edited, or `null`. */
    var editId: Option<int>
    /** `editText`: the contents of the edit box. */
    var editText: string
    /** `filter`: the value chosen in the filter selector. */
    var filter: string
    /** What was last written under the key "tasks" of local storage: the
        effect that serializes `tasks` runs after every change of `tasks`. */
    ghost var stored: seq<Task>

    /** Local storage holds the current list. */
    ghost predicate Valid()
      reads this
    {
      stored == tasks
    }

    /** The initial `useState` values. */
    constructor ()
      ensures Valid()
      ensures tasks == [] && newTask == "" && editId == None && editText == "" && filter == "all"
    {
      tasks, newTask, editId, editText, filter := [], "", None, "", "all";
      stored := [];
    }

    /** `filteredTasks`, the list the component renders: the tasks the
        current filter shows, in order and each as often as in `tasks`;
        for a filter other than "completed" and "active", all of them. */
    function FilteredTasks(): (r: seq<Task>)
      reads this
      ensures IsSubsequence(r, tasks)
      ensures forall i :: 0 <= i < |r| ==> Shows(filter, r[i])
      ensures forall t :: Shows(filter, t) ==> multiset(r)[t] == multiset(tasks)[t]
      ensures filter != "completed" && filter != "active" ==> r == tasks
    {
      if filter != "completed" && filter != "active" then
        VisibleOtherIsAll(tasks, filter);
        Visible(tasks, filter)
      else
        Visible(tasks, filter)
    }

    /** Typing into the add box. */
    method SetNewTask(value: string)
      modifies this
      ensures newTask == value
      ensures tasks == old(tasks) && editId == old(editId) && editText == old(editText)
      ensures filter == old(filter) && stored == old(stored)
    {
      newTask := value;
    }

    /** `addTask`, with `freshId` standing for the `Date.now()` the code reads. */
    method AddTask(freshId: int)
      requires Valid()
      modifies this
      ensures Valid()
      ensures IsBlank(old(newTask)) ==> tasks == old(tasks) && newTask == old(newTask)
      ensures !IsBlank(old(newTask)) ==>
                tasks == old(tasks) + [Task(freshId, old(newTask), false)] && newTask == ""
      ensures editId == old(editId) && editText == old(editText) && filter == old(filter)
      ensures old(UniqueIds(tasks)) && !old(HasId(tasks, freshId)) ==> UniqueIds(tasks)
    {
      var blank := TrimsToEmpty(newTask);
      if blank {
        return;
      }
      if UniqueIds(tasks) && !HasId(tasks, freshId) {
        AppendKeepsUniqueIds(tasks, freshId, newTask);
      }
      tasks := Append(tasks, freshId, newTask);
      stored := tasks;
      newTask := "";
    }

    /** `deleteTask(id)`. */
    method DeleteTask(id: int)
      requires Valid()
      modifies this
      ensures Valid()
      ensures tasks == Remove(old(tasks), id)
      ensures !old(HasId(tasks, id)) ==> tasks == old(tasks)
      ensures old(UniqueIds(tasks)) ==> UniqueIds(tasks)
      ensures old(UniqueIds(tasks)) && old(HasId(tasks, id)) ==> |tasks| == old(|tasks|) - 1
      ensures newTask == old(newTask) && editId == old(editId) && editText == old(editText)
      ensures filter == old(filter)
    {
      if !HasId(tasks, id) {
        RemoveAbsent(tasks, id);
      }
      if UniqueIds(tasks) {
        SubsequenceKeepsUniqueIds(Remove(tasks, id), tasks);
        if HasId(tasks, id) {
          RemoveUniqueDropsOne(tasks, id);
        }
      }
      tasks := Remove(tasks, id);
      stored := tasks;
    }

    /** `toggleComplete(id)`. */
    method ToggleComplete(id: int)
      requires Valid()
      modifies this
      ensures Valid()
      ensures tasks == ToggleAt(old(tasks), id)
      ensures !old(HasId(tasks, id)) ==> tasks == old(tasks)
      ensures old(UniqueIds(tasks)) ==> UniqueIds(tasks)
      ensures newTask == old(newTask) && editId == old(editId) && editText == old(editText)
      ensures filter == old(filter)
    {
      if !HasId(tasks, id) {
        ToggleAbsent(tasks, id);
      }
      tasks := ToggleAt(tasks, id);
      stored := tasks;
    }

    /** `startEdit(id)`. The code reads `.text` off the result of
        `tasks.find`, which throws when no task has the id; the list only
        offers the edit button on a task it shows. */
    method StartEdit(id: int)
      requires HasId(tasks, id)
      modifies this
      ensures tasks == old(tasks) && newTask == old(newTask) && filter == old(filter)
      ensures editId == Some(id)
      ensures editText == Find(tasks, id).value.text
      ensures stored == old(stored)
    {
      editId := Some(id);
      var taskToEdit := Find(tasks, id);
      editText := taskToEdit.value.text;
    }

    /** Typing into the edit box. */
    method SetEditText(value: string)
      modifies this
      ensures editText == value
      ensures tasks == old(tasks) && newTask == old(newTask) && editId == old(editId)
      ensures filter == old(filter) && stored == old(stored)
    {
      editText := value;
    }

    /** `cancelEdit`: leaves edit mode; no task changes. */
    method CancelEdit()
      modifies this
      ensures editId == None && editText == ""
      ensures tasks == old(tasks) && newTask == old(newTask) && filter == old(filter)
      ensures stored == old(stored)
    {
      editId := None;
      editText := "";
    }

    /** `saveEdit(id)`: stores the edit buffer as the text of the tasks with
        that id, without checking it, and leaves edit mode. */
    method SaveEdit(id: int)
      requires Valid()
      modifies this
      ensures Valid()
      ensures tasks == SetText(old(tasks), id, old(editText))
      ensures !old(HasId(tasks, id)) ==> tasks == old(tasks)
      ensures old(UniqueIds(tasks)) ==> UniqueIds(tasks)
      ensures editId == None && editText == ""
      ensures newTask == old(newTask) && filter == old(filter)
    {
      if !HasId(tasks, id) {
        SetTextAbsent(tasks, id, editText);
      }
      tasks := SetText(tasks, id, editText);
      stored := tasks;
      editId := None;
      editText := "";
    }

    /** `handleFilterChange`: the selector's value becomes the filter. */
    method HandleFilterChange(value: string)
      modifies this
      ensures filter == value
      ensures tasks == old(tasks) && newTask == old(newTask) && editId == old(editId)
      ensures editText == old(editText) && stored == old(stored)
    {
      filter := value;
    }
  }

  /** A session, first half: two tasks are added and the second is
      completed. */
  method Session() returns (app: TodoStore)
    ensures fresh(app) && app.Valid()
    ensures app.tasks == [Task(1, "Buy milk", false), Task(2, "Clean", true)]
  {
    app := new TodoStore();
    app.SetNewTask("Buy milk");
    assert !IsTrimmable("Buy milk"[0]);
    app.AddTask(1);
    app.SetNewTask("Clean");
    assert !IsTrimmable("Clean"[0]);
    app.AddTask(2);
    assert app.tasks == [Task(1, "Buy milk", false), Task(2, "Clean", false)];
    app.ToggleComplete(2);
  }

  /** A session, second half: the view is narrowed to completed tasks, and
      an edit of the second task is started and cancelled. */
  method SessionContinued(app: TodoStore)
    requires app.Valid()
    requires app.tasks == [Task(1, "Buy milk", false), Task(2, "Clean", true)]
    modifies app
  {
    app.HandleFilterChange("completed");
    ghost var s := app.tasks;
    assert s[1..][1..] == [];
    assert Filter(s[1..], ShownBy("completed")) == [s[1]];
    assert app.FilteredTasks() == [Task(2, "Clean", true)];
    app.StartEdit(2);
    assert app.editText == "Clean";
    app.SetEditText("Clean kitchen");
    app.CancelEdit();
    assert app.tasks == s;
    app.HandleFilterChange("all");
    VisibleOtherIsAll(app.tasks, "all");
    assert app.FilteredTasks() == s;
  }
}
