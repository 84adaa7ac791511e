/** The reducer of the todo app: the next list from the current list and one
    action. Every case builds a new list from the old one (spread, `map`,
    `filter`, `some`) and never changes its input, so each case is a function
    on sequences. */
module Reducer {
  import opened Todos
  import opened Seqs

  /** `todos.some(todo => !todo.completed)`. */
  predicate SomeIncomplete(todos: seq<Todo>): (b: bool)
    ensures b <==> !AllCompleted(todos)
    ensures todos == [] ==> !b
  {
    exists i :: 0 <= i < |todos| && !todos[i].completed
  }

  /** ADD_TODO: the old list followed by one new, incomplete entry holding
      the action's text as it is. The id that the source draws from
      `window.crypto.randomUUID()` is the parameter `freshId`. */
  function ReduceAddTodo(todos: seq<Todo>, value: string, freshId: string): (r: seq<Todo>)
    ensures |r| == |todos| + 1
    ensures r[..|todos|] == todos
    ensures r[|todos|].id == freshId && r[|todos|].title == value && !r[|todos|].completed
  {
    todos + [Todo(freshId, value, false)]
  }

  /** TOGGLE_COMPLETED: flips the flag of the entries whose id is `id`. */
  function ReduceToggleCompleted(todos: seq<Todo>, id: string): (r: seq<Todo>)
    ensures SameExceptCompleted(r, todos)
    ensures forall i :: 0 <= i < |r| ==> (r[i].completed != todos[i].completed <==> todos[i].id == id)
  {
    seq(|todos|, i requires 0 <= i < |todos| =>
      if todos[i].id == id then todos[i].(completed := !todos[i].completed) else todos[i])
  }

  /** TOGGLE_ALL: every flag becomes "some entry was incomplete". */
  function ReduceToggleAll(todos: seq<Todo>): (r: seq<Todo>)
    ensures SameExceptCompleted(r, todos)
    ensures forall i :: 0 <= i < |r| ==> r[i].completed == SomeIncomplete(todos)
  {
    var completed := SomeIncomplete(todos);
    seq(|todos|, i requires 0 <= i < |todos| => todos[i].(completed := completed))
  }

  /** DESTROY: the entries whose id is not `id`, in their order. */
  function ReduceDestroy(todos: seq<Todo>, id: string): (r: seq<Todo>)
    ensures |r| <= |todos|
    ensures forall t :: t in r <==> t in todos && t.id != id
    ensures id !in Ids(r)
  {
    Filter(todos, (t: Todo) => t.id != id)
  }

  /** EDIT_TODO: replaces the text of the entries whose id is `id`. */
  function ReduceEditTodo(todos: seq<Todo>, id: string, value: string): (r: seq<Todo>)
    ensures |r| == |todos|
    ensures forall i :: 0 <= i < |r| ==>
      r[i].id == todos[i].id && r[i].completed == todos[i].completed &&
      r[i].title == (if todos[i].id == id then value else todos[i].title)
  {
    seq(|todos|, i requires 0 <= i < |todos| =>
      if todos[i].id == id then todos[i].(title := value) else todos[i])
  }

  /** DESTROY_COMPLETED: the incomplete entries, in their order. */
  function ReduceDestroyCompleted(todos: seq<Todo>): (r: seq<Todo>)
    ensures |r| <= |todos|
    ensures NoneCompleted(r)
    ensures forall t :: t in r <==> t in todos && !t.completed
  {
    var r := Filter(todos, (t: Todo) => !t.completed);
    assert forall i :: 0 <= i < |r| ==> r[i] in r;
    r
  }

  /** The reducer. Only ADD_TODO adds an entry, only DESTROY and
      DESTROY_COMPLETED remove any, and every other action keeps the length. */
  function Reduce(todos: seq<Todo>, action: Action, freshId: string): (r: seq<Todo>)
    ensures action.AddTodo? ==> |r| == |todos| + 1
    ensures action.Destroy? || action.DestroyCompleted? ==> |r| <= |todos|
    ensures action.ToggleCompleted? || action.ToggleAll? || action.EditTodo? ==> |r| == |todos|
  {
    match action
    case AddTodo(value) => ReduceAddTodo(todos, value, freshId)
    case ToggleCompleted(id) => ReduceToggleCompleted(todos, id)
    case ToggleAll => ReduceToggleAll(todos)
    case Destroy(id) => ReduceDestroy(todos, id)
    case EditTodo(id, value) => ReduceEditTodo(todos, id, value)
    case DestroyCompleted => ReduceDestroyCompleted(todos)
  }

  // ---------------------------------------------------------------------
  // ADD_TODO

  /** A fresh id keeps the ids of the list unique, and the new entry is the
      only one carrying it. */
  lemma AddTodoKeepsIdsUnique(todos: seq<Todo>, value: string, freshId: string)
    requires UniqueIds(todos)
    requires freshId !in Ids(todos)
    ensures UniqueIds(ReduceAddTodo(todos, value, freshId))
    ensures Ids(ReduceAddTodo(todos, value, freshId)) == Ids(todos) + {freshId}
  {
  }

  // ---------------------------------------------------------------------
  // TOGGLE_COMPLETED

  /** Toggling an id that no entry has changes nothing. */
  lemma ToggleCompletedAbsent(todos: seq<Todo>, id: string)
    requires id !in Ids(todos)
    ensures ReduceToggleCompleted(todos, id) == todos
  {
  }

  /** Toggling the same id twice restores the list. */
  lemma ToggleCompletedTwice(todos: seq<Todo>, id: string)
    ensures ReduceToggleCompleted(ReduceToggleCompleted(todos, id), id) == todos
  {
  }

  // ---------------------------------------------------------------------
  // TOGGLE_ALL

  /** On a list with an incomplete entry, TOGGLE_ALL completes everything. */
  lemma ToggleAllCompletes(todos: seq<Todo>)
    requires SomeIncomplete(todos)
    ensures AllCompleted(ReduceToggleAll(todos))
  {
  }

  /** On a non-empty list whose entries are all completed, TOGGLE_ALL makes
      every entry incomplete. */
  lemma ToggleAllReopens(todos: seq<Todo>)
    requires |todos| > 0 && AllCompleted(todos)
    ensures NoneCompleted(ReduceToggleAll(todos))
  {
  }

  /** Once TOGGLE_ALL has made a non-empty list uniform, the next TOGGLE_ALL
      flips every entry. */
  lemma ToggleAllFlips(todos: seq<Todo>)
    requires |todos| > 0
    ensures forall i :: 0 <= i < |todos| ==>
      ReduceToggleAll(ReduceToggleAll(todos))[i].completed == !ReduceToggleAll(todos)[i].completed
  {
  }

  /** On a list with an incomplete entry, the first TOGGLE_ALL completes
      every entry and the second makes every entry incomplete. */
  lemma ToggleAllTwice(todos: seq<Todo>)
    requires SomeIncomplete(todos)
    ensures NoneCompleted(ReduceToggleAll(ReduceToggleAll(todos)))
  {
  }

  /** After the first TOGGLE_ALL the list alternates: a third application
      gives what the first gave. */
  lemma ToggleAllAlternates(todos: seq<Todo>)
    ensures ReduceToggleAll(ReduceToggleAll(ReduceToggleAll(todos))) == ReduceToggleAll(todos)
  {
  }

  // ---------------------------------------------------------------------
  // DESTROY

  /** DESTROY keeps the other entries in their original relative order. */
  lemma DestroyKeepsOrder(todos: seq<Todo>, id: string)
    ensures IsSubsequence(ReduceDestroy(todos, id), todos)
  {
    FilterIsSubsequence(todos, (t: Todo) => t.id != id);
  }

  /** Destroying an id that no entry has changes nothing. */
  lemma DestroyAbsent(todos: seq<Todo>, id: string)
    requires id !in Ids(todos)
    ensures ReduceDestroy(todos, id) == todos
  {
    forall i | 0 <= i < |todos| ensures todos[i].id != id {
      assert todos[i] in todos;
    }
    FilterIdentity(todos, (t: Todo) => t.id != id);
  }

  /** With unique ids, destroying a present id removes exactly one entry. */
  lemma {:induction false} DestroyRemovesOne(todos: seq<Todo>, id: string)
    requires UniqueIds(todos)
    requires id in Ids(todos)
    ensures |ReduceDestroy(todos, id)| == |todos| - 1
  {
    var t :| t in todos && t.id == id;
    if todos[0].id == id {
      assert id !in Ids(todos[1..]) by {
        forall u | u in todos[1..] ensures u.id != id {
          var k :| 0 <= k < |todos[1..]| && todos[1..][k] == u;
          assert todos[k + 1] == u;
        }
      }
      DestroyAbsent(todos[1..], id);
    } else {
      assert t in todos[1..] by {
        var k :| 0 <= k < |todos| && todos[k] == t;
        assert todos[1..][k - 1] == t;
      }
      assert UniqueIds(todos[1..]) by {
        forall i, j | 0 <= i < j < |todos[1..]| ensures todos[1..][i].id != todos[1..][j].id {
          assert todos[1..][i] == todos[i + 1] && todos[1..][j] == todos[j + 1];
        }
      }
      DestroyRemovesOne(todos[1..], id);
    }
  }

  // ---------------------------------------------------------------------
  // EDIT_TODO

  /** Editing an id that no entry has changes nothing. */
  lemma EditTodoAbsent(todos: seq<Todo>, id: string, value: string)
    requires id !in Ids(todos)
    ensures ReduceEditTodo(todos, id, value) == todos
  {
  }

  /** Repeating an edit changes nothing more. */
  lemma EditTodoIdempotent(todos: seq<Todo>, id: string, value: string)
    ensures ReduceEditTodo(ReduceEditTodo(todos, id, value), id, value) == ReduceEditTodo(todos, id, value)
  {
  }

  // ---------------------------------------------------------------------
  // DESTROY_COMPLETED

  /** DESTROY_COMPLETED keeps the incomplete entries in their original
      relative order. */
  lemma DestroyCompletedKeepsOrder(todos: seq<Todo>)
    ensures IsSubsequence(ReduceDestroyCompleted(todos), todos)
  {
    FilterIsSubsequence(todos, (t: Todo) => !t.completed);
  }

  /** Clearing completed entries twice is clearing them once. */
  lemma DestroyCompletedIdempotent(todos: seq<Todo>)
    ensures ReduceDestroyCompleted(ReduceDestroyCompleted(todos)) == ReduceDestroyCompleted(todos)
  {
    FilterIdempotent(todos, (t: Todo) => !t.completed);
  }

  // ---------------------------------------------------------------------
  // The whole reducer

  /** Filtering never introduces a repeated id. */
  lemma {:induction false} FilterKeepsIdsUnique(todos: seq<Todo>, keep: Todo -> bool)
    requires UniqueIds(todos)
    ensures UniqueIds(Filter(todos, keep))
  {
    if todos != [] {
      var rest := todos[1..];
      assert UniqueIds(rest) by {
        forall i, j | 0 <= i < j < |rest| ensures rest[i].id != rest[j].id {
          assert rest[i] == todos[i + 1] && rest[j] == todos[j + 1];
        }
      }
      FilterKeepsIdsUnique(rest, keep);
      if keep(todos[0]) {
        var tail := Filter(rest, keep);
        var r := [todos[0]] + tail;
        forall j | 0 < j < |r| ensures r[0].id != r[j].id {
          assert r[j] == tail[j - 1] && tail[j - 1] in rest;
          var k :| 0 <= k < |rest| && rest[k] == r[j];
          assert rest[k] == todos[k + 1];
        }
        assert forall i, j :: 0 < i < j < |r| ==> r[i] == tail[i - 1] && r[j] == tail[j - 1];
      }
    }
  }

  /** Ids are never invented: every id after a step was already there, or it
      is the fresh id of an ADD_TODO. */
  lemma ReduceIds(todos: seq<Todo>, action: Action, freshId: string)
    ensures Ids(Reduce(todos, action, freshId)) <= Ids(todos) + (if action.AddTodo? then {freshId} else {})
  {
  }

  /** Every action keeps the ids of the list unique, provided an ADD_TODO is
      given an id the list does not already use. */
  lemma ReduceKeepsIdsUnique(todos: seq<Todo>, action: Action, freshId: string)
    requires UniqueIds(todos)
    requires action.AddTodo? ==> freshId !in Ids(todos)
    ensures UniqueIds(Reduce(todos, action, freshId))
  {
    match action
    case AddTodo(value) => AddTodoKeepsIdsUnique(todos, value, freshId);
    case ToggleCompleted(_) =>
    case ToggleAll =>
    case Destroy(id) => FilterKeepsIdsUnique(todos, (t: Todo) => t.id != id);
    case EditTodo(_, _) =>
    case DestroyCompleted => FilterKeepsIdsUnique(todos, (t: Todo) => !t.completed);
  }
}
