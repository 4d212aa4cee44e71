/** The task records of the to-do list and the pure list expressions the
    `App` component builds its new state from: the spread-append of
    `addTask`, `tasks.filter` in `deleteTask`, `tasks.map` in
    `toggleComplete` and `saveEdit`, `tasks.find` in `startEdit`, and the
    `filteredTasks` view. */
module TaskList {

  datatype Option<T> = None | Some(value: T)

  /** One to-do item, `{ id, text, completed }`. */
  datatype Task = Task(id: int, text: string, completed: bool)

  // ---------------------------------------------------------------------
  // Sequences: subsequences and Array.prototype.filter
  // ---------------------------------------------------------------------

  /** `a` is obtained from `b` by dropping elements, keeping the order. */
  predicate IsSubsequence<T(==)>(a: seq<T>, b: seq<T>)
    decreases |b|
  {
    if a == [] then true
    else if b == [] then false
    else (a[0] == b[0] && IsSubsequence(a[1..], b[1..])) || IsSubsequence(a, b[1..])
  }

  /** A subsequence holds no element more often than the sequence it is taken from. */
  lemma {:induction false} SubsequenceMultiset<T>(a: seq<T>, b: seq<T>)
    requires IsSubsequence(a, b)
    ensures multiset(a) <= multiset(b)
    decreases |b|
  {
    if a != [] {
      assert b == [b[0]] + b[1..];
      if a[0] == b[0] && IsSubsequence(a[1..], b[1..]) {
        SubsequenceMultiset(a[1..], b[1..]);
        assert a == [a[0]] + a[1..];
      } else {
        SubsequenceMultiset(a, b[1..]);
      }
    }
  }

  /** `s.filter(p)`: the elements of `s` that satisfy `p`, in their order. */
  function Filter<T(!new)>(s: seq<T>, p: T -> bool): (r: seq<T>)
    ensures IsSubsequence(r, s)
    ensures forall i :: 0 <= i < |r| ==> p(r[i])
    ensures forall x :: p(x) ==> multiset(r)[x] == multiset(s)[x]
    ensures forall x :: x in r <==> x in s && p(x)
  {
    if s == [] then []
    else
      var rest := Filter(s[1..], p);
      assert s == [s[0]] + s[1..];
      assert rest != [] ==> IsSubsequence(rest, s);
      if p(s[0]) then
        assert ([s[0]] + rest)[1..] == rest;
        [s[0]] + rest
      else
        rest
  }

  /** The three properties of Filter's contract pin its result down: any
      order-preserving subsequence of `s` that keeps only `p`-elements and
      loses none of them is `s.filter(p)`. */
  lemma {:induction false} FilterUnique<T(!new)>(s: seq<T>, p: T -> bool, r: seq<T>)
    requires IsSubsequence(r, s)
    requires forall i :: 0 <= i < |r| ==> p(r[i])
    requires forall x :: p(x) ==> multiset(r)[x] == multiset(s)[x]
    ensures r == Filter(s, p)
    decreases |s|
  {
    if s == [] {
      assert r == [];
    } else {
      var x := s[0];
      assert s == [x] + s[1..];
      if p(x) {
        assert multiset(r)[x] == multiset(s)[x] > 0;
        assert r != [] && r == [r[0]] + r[1..];
        if r[0] == x && IsSubsequence(r[1..], s[1..]) {
          forall y | p(y) ensures multiset(r[1..])[y] == multiset(s[1..])[y] {
          }
          FilterUnique(s[1..], p, r[1..]);
        } else {
          // Skipping s[0] would leave r one copy of x short.
          SubsequenceMultiset(r, s[1..]);
          assert false;
        }
      } else {
        assert r != [] ==> r[0] != x by {
          if r != [] { assert p(r[0]); }
        }
        assert r == [] || IsSubsequence(r, s[1..]);
        forall y | p(y) ensures multiset(r)[y] == multiset(s[1..])[y] {
          assert y != x;
        }
        FilterUnique(s[1..], p, r);
      }
    }
  }

  /** Filtering with a predicate every element meets gives back the sequence. */
  lemma {:induction false} FilterKeepsAll<T(!new)>(s: seq<T>, p: T -> bool)
    requires forall i :: 0 <= i < |s| ==> p(s[i])
    ensures Filter(s, p) == s
  {
    if s != [] {
      FilterKeepsAll(s[1..], p);
    }
  }

  // ---------------------------------------------------------------------
  // Ids
  // ---------------------------------------------------------------------

  /** Some task in `s` has id `id`. */
  predicate HasId(s: seq<Task>, id: int) {
    exists i :: 0 <= i < |s| && s[i].id == id
  }

  /** No two tasks of `s` share an id (the code does not enforce this). */
  predicate UniqueIds(s: seq<Task>) {
    forall i, j :: 0 <= i < j < |s| ==> s[i].id != s[j].id
  }

  /** A subsequence of a list with unique ids has unique ids. */
  lemma {:induction false} SubsequenceKeepsUniqueIds(a: seq<Task>, b: seq<Task>)
    requires IsSubsequence(a, b) && UniqueIds(b)
    ensures UniqueIds(a)
    ensures forall i :: 0 <= i < |a| ==> HasId(b, a[i].id)
    decreases |b|
  {
    if a != [] {
      assert UniqueIds(b[1..]);
      if a[0] == b[0] && IsSubsequence(a[1..], b[1..]) {
        SubsequenceKeepsUniqueIds(a[1..], b[1..]);
        forall j | 0 < j < |a| ensures a[0].id != a[j].id {
          var k :| 0 <= k < |b[1..]| && b[1..][k].id == a[1..][j - 1].id;
          assert b[k + 1].id == a[j].id;
        }
        forall i | 0 <= i < |a| ensures HasId(b, a[i].id) {
          if i == 0 {
            assert b[0].id == a[0].id;
          } else {
            var k :| 0 <= k < |b[1..]| && b[1..][k].id == a[1..][i - 1].id;
            assert b[k + 1].id == a[i].id;
          }
        }
      } else {
        SubsequenceKeepsUniqueIds(a, b[1..]);
        forall i | 0 <= i < |a| ensures HasId(b, a[i].id) {
          var k :| 0 <= k < |b[1..]| && b[1..][k].id == a[i].id;
          assert b[k + 1].id == a[i].id;
        }
      }
    }
  }

  // ---------------------------------------------------------------------
  // addTask: [...tasks, { id, text, completed: false }]
  // ---------------------------------------------------------------------

  /** The list `addTask` stores: the old tasks, unchanged and in order,
      followed by one new task that is not completed. */
  function Append(s: seq<Task>, id: int, text: string): (r: seq<Task>)
    ensures |r| == |s| + 1 && r[..|s|] == s
    ensures r[|s|] == Task(id, text, false)
  {
    s + [Task(id, text, false)]
  }

  /** With an id that no task has yet, adding keeps the ids unique. */
  lemma AppendKeepsUniqueIds(s: seq<Task>, id: int, text: string)
    requires UniqueIds(s) && !HasId(s, id)
    ensures UniqueIds(Append(s, id, text))
  {
    var r := Append(s, id, text);
    forall i, j | 0 <= i < j < |r| ensures r[i].id != r[j].id {
      if j == |s| {
        assert r[i] == s[i];
      } else {
        assert r[i] == s[i] && r[j] == s[j];
      }
    }
  }

  // ---------------------------------------------------------------------
  // deleteTask: tasks.filter(task => task.id !== id)
  // ---------------------------------------------------------------------

  /** The callback `task => task.id !== id`. */
  function OtherId(id: int): Task -> bool {
    (t: Task) => t.id != id
  }

  /** The list `deleteTask(id)` stores: exactly the tasks whose id is not
      `id`, each as often as before, in the original order. */
  function Remove(s: seq<Task>, id: int): (r: seq<Task>)
    ensures IsSubsequence(r, s)
    ensures forall i :: 0 <= i < |r| ==> r[i].id != id
    ensures forall t: Task :: t.id != id ==> multiset(r)[t] == multiset(s)[t]
    ensures !HasId(r, id)
  {
    Filter(s, OtherId(id))
  }

  /** Deleting an id that no task has leaves the list as it is. */
  lemma RemoveAbsent(s: seq<Task>, id: int)
    requires !HasId(s, id)
    ensures Remove(s, id) == s
  {
    FilterKeepsAll(s, OtherId(id));
  }

  /** When ids are unique, deleting a present id drops exactly one task. */
  lemma {:induction false} RemoveUniqueDropsOne(s: seq<Task>, id: int)
    requires UniqueIds(s) && HasId(s, id)
    ensures |Remove(s, id)| == |s| - 1
  {
    var rest := s[1..];
    assert UniqueIds(rest);
    if s[0].id == id {
      forall k | 0 <= k < |rest| ensures rest[k].id != id {
        assert rest[k] == s[k + 1];
      }
      RemoveAbsent(rest, id);
      assert Remove(s, id) == Remove(rest, id);
    } else {
      var k :| 0 <= k < |s| && s[k].id == id;
      assert rest[k - 1].id == id;
      RemoveUniqueDropsOne(rest, id);
      assert Remove(s, id) == [s[0]] + Remove(rest, id);
    }
  }

  // ---------------------------------------------------------------------
  // toggleComplete and saveEdit: tasks.map(task => task.id === id ? ... : task)
  // ---------------------------------------------------------------------

  /** `s.map(task => task.id === id ? f(task) : task)`: the tasks with id
      `id` are replaced by their image under `f`, the others stay, and
      length and positions are kept. */
  function UpdateWhere(s: seq<Task>, id: int, f: Task -> Task): (r: seq<Task>)
    ensures |r| == |s|
    ensures forall i :: 0 <= i < |s| ==> r[i] == if s[i].id == id then f(s[i]) else s[i]
  {
    if s == [] then []
    else [if s[0].id == id then f(s[0]) else s[0]] + UpdateWhere(s[1..], id, f)
  }

  /** `{ ...task, completed: !task.completed }`. */
  function Toggled(t: Task): Task {
    t.(completed := !t.completed)
  }

  /** The list `toggleComplete(id)` stores: same length, order, ids and
      texts; `completed` flipped exactly on the tasks with id `id`. */
  function ToggleAt(s: seq<Task>, id: int): (r: seq<Task>)
    ensures |r| == |s|
    ensures forall i :: 0 <= i < |s| ==>
              r[i].id == s[i].id && r[i].text == s[i].text
              && (r[i].completed <==> (if s[i].id == id then !s[i].completed else s[i].completed))
  {
    UpdateWhere(s, id, Toggled)
  }

  /** Toggling the same id twice restores the list. */
  lemma ToggleTwice(s: seq<Task>, id: int)
    ensures ToggleAt(ToggleAt(s, id), id) == s
  {
    var r := ToggleAt(ToggleAt(s, id), id);
    assert forall i :: 0 <= i < |s| ==> r[i] == s[i];
  }

  /** Toggling an id that no task has leaves the list as it is. */
  lemma ToggleAbsent(s: seq<Task>, id: int)
    requires !HasId(s, id)
    ensures ToggleAt(s, id) == s
  {
    var r := ToggleAt(s, id);
    assert forall i :: 0 <= i < |s| ==> r[i] == s[i];
  }

  /** `{ ...task, text: text }`. */
  function WithText(text: string): Task -> Task {
    (t: Task) => t.(text := text)
  }

  /** The list `saveEdit(id)` stores: same length, order, ids and
      `completed` flags; the text of every task with id `id` becomes
      `text`, whatever `text` is (the empty string included). */
  function SetText(s: seq<Task>, id: int, text: string): (r: seq<Task>)
    ensures |r| == |s|
    ensures forall i :: 0 <= i < |s| ==>
              r[i].id == s[i].id && r[i].completed == s[i].completed
              && r[i].text == (if s[i].id == id then text else s[i].text)
  {
    UpdateWhere(s, id, WithText(text))
  }

  /** Saving an edit for an id that no task has leaves the list as it is. */
  lemma SetTextAbsent(s: seq<Task>, id: int, text: string)
    requires !HasId(s, id)
    ensures SetText(s, id, text) == s
  {
    var r := SetText(s, id, text);
    assert forall i :: 0 <= i < |s| ==> r[i] == s[i];
  }

  /** A later edit of the same task overrides an earlier one. */
  lemma SetTextTwice(s: seq<Task>, id: int, a: string, b: string)
    ensures SetText(SetText(s, id, a), id, b) == SetText(s, id, b)
  {
    var l, r := SetText(SetText(s, id, a), id, b), SetText(s, id, b);
    assert forall i :: 0 <= i < |s| ==> l[i] == r[i];
  }

  // ---------------------------------------------------------------------
  // startEdit: tasks.find(task => task.id === id)
  // ---------------------------------------------------------------------

  /** The position of the first task with id `id`, or `|s|` when there is none. */
  function FirstIndex(s: seq<Task>, id: int): (k: nat)
    ensures k <= |s|
    ensures forall j :: 0 <= j < k ==> s[j].id != id
    ensures k < |s| ==> s[k].id == id
    ensures k == |s| <==> !HasId(s, id)
  {
    if s == [] then 0
    else if s[0].id == id then 0
    else 1 + FirstIndex(s[1..], id)
  }

  /** `s.find(task => task.id === id)`: the first task with that id, or
      `None` (JavaScript's `undefined`) when there is none. */
  function Find(s: seq<Task>, id: int): (r: Option<Task>)
    ensures r.None? <==> !HasId(s, id)
    ensures r.Some? ==> r.value.id == id && r.value == s[FirstIndex(s, id)]
  {
    var k := FirstIndex(s, id);
    if k < |s| then Some(s[k]) else None
  }

  /** With unique ids, saving the text that `startEdit` copied into the edit
      buffer, unchanged, gives back the list it started from. */
  lemma SaveUneditedIsIdentity(s: seq<Task>, id: int)
    requires UniqueIds(s) && HasId(s, id)
    ensures SetText(s, id, Find(s, id).value.text) == s
  {
    var k := FirstIndex(s, id);
    var r := SetText(s, id, Find(s, id).value.text);
    forall i | 0 <= i < |s| ensures r[i] == s[i] {
      if s[i].id == id {
        assert i == k;
      }
    }
  }

  // ---------------------------------------------------------------------
  // filteredTasks
  // ---------------------------------------------------------------------

  /** Whether the filter value shows a task: "completed" shows the completed
      ones, "active" the others, and every other value shows all. */
  predicate Shows(filter: string, t: Task) {
    if filter == "completed" then t.completed
    else if filter == "active" then !t.completed
    else true
  }

  /** The callback of `tasks.filter` that computes `filteredTasks`. */
  function ShownBy(filter: string): Task -> bool {
    (t: Task) => Shows(filter, t)
  }

  /** `filteredTasks`: the order-preserving subsequence of `s` made of every
      task the filter shows, each as often as in `s` ("completed": exactly
      the completed tasks, "active": exactly the others, anything else:
      all of them). */
  function Visible(s: seq<Task>, filter: string): (r: seq<Task>)
    ensures IsSubsequence(r, s)
    ensures forall i :: 0 <= i < |r| ==> Shows(filter, r[i])
    ensures forall t :: Shows(filter, t) ==> multiset(r)[t] == multiset(s)[t]
    ensures filter == "completed" ==> forall t :: t in r <==> t in s && t.completed
    ensures filter == "active" ==> forall t :: t in r <==> t in s && !t.completed
  {
    Filter(s, ShownBy(filter))
  }

  /** A filter value other than "completed" and "active" shows the whole list. */
  lemma VisibleOtherIsAll(s: seq<Task>, filter: string)
    requires filter != "completed" && filter != "active"
    ensures Visible(s, filter) == s
  {
    FilterKeepsAll(s, ShownBy(filter));
  }

  /** The "active" and "completed" views split the list: between them they
      hold every task exactly once. */
  lemma {:induction false} VisiblePartition(s: seq<Task>)
    ensures multiset(Visible(s, "active")) + multiset(Visible(s, "completed")) == multiset(s)
    ensures |Visible(s, "active")| + |Visible(s, "completed")| == |s|
  {
    var a, c := Visible(s, "active"), Visible(s, "completed");
    assert forall t :: (multiset(a) + multiset(c))[t] == multiset(s)[t] by {
      forall t ensures (multiset(a) + multiset(c))[t] == multiset(s)[t] {
        if t.completed {
          assert t !in a;
        } else {
          assert t !in c;
        }
      }
    }
    assert multiset(a) + multiset(c) == multiset(s);
    assert |multiset(a) + multiset(c)| == |multiset(s)|;
  }
}
