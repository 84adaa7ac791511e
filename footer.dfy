/** The footer of the app: how many entries are left, how that count is
    labelled, and whether the "Clear completed" button shows. */
module Footer {
  import opened Todos
  import opened Reducer
  import opened Seqs

  /** `itemsLeft`: `todos.reduce` from 0, adding one for every incomplete
      entry, left to right. */
  function ItemsLeft(todos: seq<Todo>): (n: nat)
    ensures n <= |todos|
  {
    if todos == [] then 0
    else
      var acc := ItemsLeft(todos[..|todos| - 1]);
      if !todos[|todos| - 1].completed then acc + 1 else acc
  }

  /** The "Clear completed" button shows when the count of entries left
      differs from the length of the list, which is exactly when some entry
      is completed. */
  function ShowClearCompleted(todos: seq<Todo>): (show: bool)
    ensures show <==> exists i :: 0 <= i < |todos| && todos[i].completed
  {
    ItemsLeftAllIncomplete(todos);
    ItemsLeft(todos) != |todos|
  }

  /** Every entry is left exactly when none is completed. */
  lemma {:induction false} ItemsLeftAllIncomplete(todos: seq<Todo>)
    ensures ItemsLeft(todos) == |todos| <==> NoneCompleted(todos)
  {
    if todos != [] {
      var init := todos[..|todos| - 1];
      ItemsLeftAllIncomplete(init);
      assert forall i :: 0 <= i < |init| ==> init[i] == todos[i];
    }
  }

  /** Nothing is left exactly when every entry is completed. */
  lemma {:induction false} ItemsLeftNone(todos: seq<Todo>)
    ensures ItemsLeft(todos) == 0 <==> AllCompleted(todos)
  {
    if todos != [] {
      var init := todos[..|todos| - 1];
      ItemsLeftNone(init);
      assert forall i :: 0 <= i < |init| ==> init[i] == todos[i];
    }
  }

  /** The label after the count: plural only for more than one entry, so
      zero entries read "item left". */
  function CountLabel(itemsLeft: nat): (text: string)
    ensures text == "items left" <==> itemsLeft > 1
    ensures text == "item left" <==> itemsLeft <= 1
  {
    if itemsLeft > 1 then "items left" else "item left"
  }

  /** The count of entries left is the length of the list that
      DESTROY_COMPLETED would leave. */
  lemma {:induction false} ItemsLeftIsIncompleteCount(todos: seq<Todo>)
    ensures ItemsLeft(todos) == |ReduceDestroyCompleted(todos)|
  {
    if todos != [] {
      var init, last := todos[..|todos| - 1], todos[|todos| - 1];
      assert todos == init + [last];
      ItemsLeftIsIncompleteCount(init);
      FilterAppend(init, [last], (t: Todo) => !t.completed);
      assert Filter([last], (t: Todo) => !t.completed) == if !last.completed then [last] else [] by {
        assert [last][1..] == [];
      }
    }
  }

  /** After "Clear completed" every entry left is incomplete, so the button
      disappears and the count is the length of the list. */
  lemma ClearCompletedHidesButton(todos: seq<Todo>)
    ensures !ShowClearCompleted(ReduceDestroyCompleted(todos))
    ensures ItemsLeft(ReduceDestroyCompleted(todos)) == ItemsLeft(todos)
  {
    var r := ReduceDestroyCompleted(todos);
    ItemsLeftIsIncompleteCount(todos);
    ItemsLeftAllIncomplete(r);
  }

  /** After TOGGLE_ALL nothing is left when something was left before, and
      everything is left otherwise. */
  lemma ItemsLeftAfterToggleAll(todos: seq<Todo>)
    ensures ItemsLeft(ReduceToggleAll(todos)) == if SomeIncomplete(todos) then 0 else |todos|
  {
    var r := ReduceToggleAll(todos);
    if SomeIncomplete(todos) {
      ItemsLeftNone(r);
    } else {
      ItemsLeftAllIncomplete(r);
    }
  }

  /** With unique ids, toggling a present entry moves the count by exactly
      one: down when the entry was incomplete, up when it was completed. */
  lemma ItemsLeftAfterToggle(todos: seq<Todo>, k: nat)
    requires k < |todos|
    requires UniqueIds(todos)
    ensures ItemsLeft(ReduceToggleCompleted(todos, todos[k].id)) ==
      if todos[k].completed then ItemsLeft(todos) + 1 else ItemsLeft(todos) - 1
  {
    var r := ReduceToggleCompleted(todos, todos[k].id);
    forall i | 0 <= i < |todos| && i != k ensures r[i].completed == todos[i].completed {
      assert todos[i].id != todos[k].id;
    }
    ItemsLeftFlipOne(todos, r, k);
  }

  /** Helper for ItemsLeftAfterToggle: flipping one flag moves the count by
      one. */
  lemma {:induction false} ItemsLeftFlipOne(a: seq<Todo>, b: seq<Todo>, k: nat)
    requires |a| == |b| && k < |a|
    requires forall i :: 0 <= i < |a| && i != k ==> a[i].completed == b[i].completed
    requires b[k].completed == !a[k].completed
    ensures ItemsLeft(b) == if a[k].completed then ItemsLeft(a) + 1 else ItemsLeft(a) - 1
  {
    var n := |a|;
    ItemsLeftLast(a);
    ItemsLeftLast(b);
    if k == n - 1 {
      SameFlagsSameCount(a[..n - 1], b[..n - 1]);
    } else {
      ItemsLeftFlipOne(a[..n - 1], b[..n - 1], k);
    }
  }

  /** Helper: the fold's last step. */
  lemma ItemsLeftLast(todos: seq<Todo>)
    requires todos != []
    ensures ItemsLeft(todos) == ItemsLeft(todos[..|todos| - 1]) + (if todos[|todos| - 1].completed then 0 else 1)
  {
  }

  /** Helper for ItemsLeftAfterToggle: two lists whose entries agree on
      their flags have the same count. */
  lemma {:induction false} SameFlagsSameCount(a: seq<Todo>, b: seq<Todo>)
    requires |a| == |b|
    requires forall i :: 0 <= i < |a| ==> a[i].completed == b[i].completed
    ensures ItemsLeft(a) == ItemsLeft(b)
  {
    if a != [] {
      SameFlagsSameCount(a[..|a| - 1], b[..|b| - 1]);
    }
  }
}
