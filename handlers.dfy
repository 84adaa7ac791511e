/** The event handlers of the `App` component, reduced to the decision each
    one makes: which action, if any, it dispatches for a user event. The
    reducer takes titles as they come; trimming and the empty check happen
    here only. */
module Handlers {
  import opened Todos
  import opened Reducer

  // ---------------------------------------------------------------------
  // String.prototype.trim

  /** The characters JavaScript's `trim` removes: the WhiteSpace and
      LineTerminator code points of ECMAScript (tab, vertical tab, form
      feed, space, no-break space, the byte-order mark, the space separators
      of Unicode category Zs, line feed, carriage return, and the line and
      paragraph separators). */
  predicate IsWhitespace(c: char): (b: bool)
    ensures b ==> c as int < 0x1_0000
    ensures ('0' <= c <= '9' || 'a' <= c <= 'z' || 'A' <= c <= 'Z') ==> !b
  {
    || c == '\t' || c == '\U{000B}' || c == '\U{000C}' || c == ' '
    || c == '\U{00A0}' || c == '\U{FEFF}' || c == '\U{1680}'
    || ('\U{2000}' <= c <= '\U{200A}')
    || c == '\U{202F}' || c == '\U{205F}' || c == '\U{3000}'
    || c == '\n' || c == '\r' || c == '\U{2028}' || c == '\U{2029}'
  }

  /** The text is whitespace only (the empty text included). */
  predicate IsBlank(s: string)
  {
    forall k :: 0 <= k < |s| ==> IsWhitespace(s[k])
  }

  /** Drops the leading whitespace: the result is the suffix of `s` that
      starts at its first other character. */
  function TrimStart(s: string): (r: string)
    ensures |r| <= |s| && r == s[|s| - |r|..]
    ensures forall k :: 0 <= k < |s| - |r| ==> IsWhitespace(s[k])
    ensures r == [] || !IsWhitespace(r[0])
    decreases |s|
  {
    if |s| > 0 && IsWhitespace(s[0]) then
      var r := TrimStart(s[1..]);
      assert s[1..][|s| - 1 - |r|..] == s[|s| - |r|..];
      assert forall k :: 1 <= k < |s| - |r| ==> s[k] == s[1..][k - 1];
      r
    else s
  }

  /** Drops the trailing whitespace: the result is the prefix of `s` that
      ends at its last other character. */
  function TrimEnd(s: string): (r: string)
    ensures |r| <= |s| && r == s[..|r|]
    ensures forall k :: |r| <= k < |s| ==> IsWhitespace(s[k])
    ensures r == [] || !IsWhitespace(r[|r| - 1])
    decreases |s|
  {
    if |s| > 0 && IsWhitespace(s[|s| - 1]) then
      var r := TrimEnd(s[..|s| - 1]);
      assert s[..|s| - 1][..|r|] == s[..|r|];
      assert forall k :: |r| <= k < |s| - 1 ==> s[k] == s[..|s| - 1][k];
      r
    else s
  }

  /** `s.trim()`. The result is empty exactly when `s` is whitespace only;
      otherwise it neither starts nor ends with whitespace. */
  function Trim(s: string): (r: string)
    ensures |r| <= |s|
    ensures r == [] <==> IsBlank(s)
    ensures r != [] ==> !IsWhitespace(r[0]) && !IsWhitespace(r[|r| - 1])
  {
    var t := TrimStart(s);
    var r := TrimEnd(t);
    assert r != [] ==> r[0] == t[0];
    r
  }

  /** `Trim` is the one slice of `s` that sheds only whitespace on either
      side and has no whitespace at its ends. */
  lemma TrimIsCoreSlice(s: string, i: nat, j: nat)
    requires i <= j <= |s|
    requires forall k :: 0 <= k < i ==> IsWhitespace(s[k])
    requires forall k :: j <= k < |s| ==> IsWhitespace(s[k])
    requires i < j ==> !IsWhitespace(s[i]) && !IsWhitespace(s[j - 1])
    ensures Trim(s) == s[i..j]
  {
  }

  /** Trimming twice is trimming once. */
  lemma TrimIdempotent(s: string)
    ensures Trim(Trim(s)) == Trim(s)
  {
    var r := Trim(s);
    TrimIsCoreSlice(r, 0, |r|);
    assert r[0..|r|] == r;
  }

  // ---------------------------------------------------------------------
  // The handlers

  /** What a user can do to the list: submit the new-todo form, click an
      entry's checkbox, click "toggle all", click an entry's destroy button,
      finish editing an entry, or click "Clear completed". */
  datatype Event =
    | Submit(value: string)
    | CompletedToggle(id: string)
    | ToggleAllClicked
    | DestroyClicked(id: string)
    | TodoEdit(id: string, value: string)
    | ClearCompleted

  /** A title is what the handlers let into the list: non-empty, and
      neither starting nor ending with whitespace. */
  predicate IsTitle(s: string)
  {
    s != [] && !IsWhitespace(s[0]) && !IsWhitespace(s[|s| - 1])
  }

  /** `handleSubmit`: adds the trimmed text, and dispatches nothing when that
      is empty. */
  function SubmitToAction(value: string): (a: Option<Action>)
    ensures a.Some? <==> !IsBlank(value)
    ensures a.Some? ==> a.value == AddTodo(Trim(value))
  {
    var trimmed := Trim(value);
    if |trimmed| > 0 then Some(AddTodo(trimmed)) else None
  }

  /** `handleTodoEdit`: an edit to whitespace only destroys the entry, any
      other edit stores the trimmed text. */
  function EditToAction(id: string, value: string): (a: Action)
    ensures a.Destroy? || a.EditTodo?
    ensures a.id == id
    ensures a.Destroy? <==> IsBlank(value)
    ensures a.EditTodo? ==> a.value == Trim(value) && a.value != []
  {
    var trimmed := Trim(value);
    if trimmed == "" then Destroy(id) else EditTodo(id, trimmed)
  }

  /** The action dispatched for an event, if any: `handleSubmit`,
      `handleCompletedToggle`, `handleToggleAll`, `handleDestroy`,
      `handleTodoEdit` and `handleClearingCompleted`. */
  function Handle(e: Event): (a: Option<Action>)
    ensures a.None? <==> e.Submit? && IsBlank(e.value)
  {
    match e
    case Submit(value) => SubmitToAction(value)
    case CompletedToggle(id) => Some(ToggleCompleted(id))
    case ToggleAllClicked => Some(ToggleAll)
    case DestroyClicked(id) => Some(Destroy(id))
    case TodoEdit(id, value) => Some(EditToAction(id, value))
    case ClearCompleted => Some(DestroyCompleted)
  }

  /** Every ADD_TODO or EDIT_TODO a handler dispatches carries a title:
      non-empty and trimmed. */
  lemma HandleDispatchesTitles(e: Event)
    ensures Handle(e).Some? && (Handle(e).value.AddTodo? || Handle(e).value.EditTodo?) ==>
      IsTitle(Handle(e).value.value)
  {
    match e
    case Submit(value) =>
      if !IsBlank(value) {
        TrimIsTitle(value);
        assert Handle(e) == Some(AddTodo(Trim(value)));
      }
    case TodoEdit(id, value) =>
      if !IsBlank(value) {
        TrimIsTitle(value);
        assert Handle(e) == Some(EditTodo(id, Trim(value)));
      }
    case _ =>
  }

  /** Helper: trimming text that is not blank gives a title. */
  lemma TrimIsTitle(s: string)
    requires !IsBlank(s)
    ensures IsTitle(Trim(s))
  {
  }

  /** The list after an event: the reducer's result when the handler
      dispatches, the list unchanged when it does not. Only a submit of
      text that is not blank grows the list, by one entry; no event brings
      in an id other than the fresh one. */
  function Step(todos: seq<Todo>, e: Event, freshId: string): (r: seq<Todo>)
    ensures e.Submit? ==> |r| == if IsBlank(e.value) then |todos| else |todos| + 1
    ensures !e.Submit? ==> |r| <= |todos|
    ensures Ids(r) <= Ids(todos) + {freshId}
  {
    match Handle(e)
    case Some(a) =>
      ReduceIds(todos, a, freshId);
      Reduce(todos, a, freshId)
    case None => todos
  }

  // ---------------------------------------------------------------------
  // Properties of the handlers together with the reducer

  /** Editing an entry's text to whitespace only has the same effect as
      destroying it. */
  lemma EditToWhitespaceDestroys(todos: seq<Todo>, id: string, value: string, freshId: string)
    requires IsBlank(value)
    ensures Step(todos, TodoEdit(id, value), freshId) == ReduceDestroy(todos, id)
  {
    StepIsReduce(todos, TodoEdit(id, value), Destroy(id), freshId);
  }

  /** The titles are exactly the non-empty strings that trimming leaves
      alone. */
  lemma IsTitleIffTrimmed(s: string)
    ensures IsTitle(s) <==> s != [] && Trim(s) == s
  {
  }

  /** Every entry has a title. */
  ghost predicate TitlesValid(todos: seq<Todo>)
  {
    forall i :: 0 <= i < |todos| ==> IsTitle(todos[i].title)
  }

  /** Removing entries keeps the titles of the rest valid. */
  lemma SurvivorsKeepTitles(todos: seq<Todo>, r: seq<Todo>)
    requires TitlesValid(todos)
    requires forall t :: t in r ==> t in todos
    ensures TitlesValid(r)
  {
    forall i | 0 <= i < |r| ensures IsTitle(r[i].title) {
      assert r[i] in r;
      var k :| 0 <= k < |todos| && todos[k] == r[i];
    }
  }

  /** Appending an entry with a title keeps the titles valid. */
  lemma AppendKeepsTitles(todos: seq<Todo>, title: string, freshId: string)
    requires TitlesValid(todos) && IsTitle(title)
    ensures TitlesValid(ReduceAddTodo(todos, title, freshId))
  {
  }

  /** Retitling entries with a title keeps the titles valid. */
  lemma RetitleKeepsTitles(todos: seq<Todo>, id: string, title: string)
    requires TitlesValid(todos) && IsTitle(title)
    ensures TitlesValid(ReduceEditTodo(todos, id, title))
  {
  }

  /** Whatever the user does, the entries' titles stay non-empty and
      trimmed: the reducer itself does not check titles, but the handlers
      never dispatch an empty or untrimmed one. */
  lemma {:induction false} StepKeepsTitlesValid(todos: seq<Todo>, e: Event, freshId: string)
    requires TitlesValid(todos)
    ensures TitlesValid(Step(todos, e, freshId))
  {
    match e
    case Submit(value) => SubmitKeepsTitles(todos, value, freshId);
    case CompletedToggle(id) =>
      assert Step(todos, e, freshId) == ReduceToggleCompleted(todos, id);
    case ToggleAllClicked =>
      assert Step(todos, e, freshId) == ReduceToggleAll(todos);
    case DestroyClicked(id) =>
      SurvivorsKeepTitles(todos, ReduceDestroy(todos, id));
    case TodoEdit(id, value) => EditKeepsTitles(todos, id, value, freshId);
    case ClearCompleted =>
      SurvivorsKeepTitles(todos, ReduceDestroyCompleted(todos));
  }

  lemma SubmitKeepsTitles(todos: seq<Todo>, value: string, freshId: string)
    requires TitlesValid(todos)
    ensures TitlesValid(Step(todos, Submit(value), freshId))
  {
    if SubmitToAction(value).Some? {
      assert IsTitle(Trim(value));
      AppendKeepsTitles(todos, Trim(value), freshId);
    }
  }

  lemma EditKeepsTitles(todos: seq<Todo>, id: string, value: string, freshId: string)
    requires TitlesValid(todos)
    ensures TitlesValid(Step(todos, TodoEdit(id, value), freshId))
  {
    var trimmed := Trim(value);
    if trimmed == [] {
      EditToWhitespaceDestroys(todos, id, value, freshId);
      SurvivorsKeepTitles(todos, ReduceDestroy(todos, id));
    } else {
      EditTextStep(todos, id, value, freshId);
      RetitleKeepsTitles(todos, id, trimmed);
    }
  }

  /** Any other edit stores the trimmed text. */
  lemma EditTextStep(todos: seq<Todo>, id: string, value: string, freshId: string)
    requires Trim(value) != []
    ensures Step(todos, TodoEdit(id, value), freshId) == ReduceEditTodo(todos, id, Trim(value))
  {
    EditIsReduce(todos, id, value, freshId);
    assert EditToAction(id, value) == EditTodo(id, Trim(value));
    ReduceEditTodoArm(todos, id, Trim(value), freshId);
  }

  /** Helper: an edit leads to the reducer's result for the edit handler's
      action. */
  lemma EditIsReduce(todos: seq<Todo>, id: string, value: string, freshId: string)
    ensures Step(todos, TodoEdit(id, value), freshId) == Reduce(todos, EditToAction(id, value), freshId)
  {
    StepIsReduce(todos, TodoEdit(id, value), EditToAction(id, value), freshId);
  }

  /** Helper: the reducer's EDIT_TODO arm. */
  lemma ReduceEditTodoArm(todos: seq<Todo>, id: string, title: string, freshId: string)
    ensures Reduce(todos, EditTodo(id, title), freshId) == ReduceEditTodo(todos, id, title)
  {
  }

  /** The edit handler may run twice for one edit (the form's submit, then
      the blur of the edit field); the second run changes nothing. */
  lemma EditTwiceIsOnce(todos: seq<Todo>, id: string, value: string, freshId: string)
    ensures Step(Step(todos, TodoEdit(id, value), freshId), TodoEdit(id, value), freshId)
      == Step(todos, TodoEdit(id, value), freshId)
  {
    var once := Step(todos, TodoEdit(id, value), freshId);
    if IsBlank(value) {
      EditToWhitespaceDestroys(todos, id, value, freshId);
      EditToWhitespaceDestroys(once, id, value, freshId);
      DestroyAbsent(once, id);
    } else {
      EditTextStep(todos, id, value, freshId);
      EditTextStep(once, id, value, freshId);
      EditTodoIdempotent(todos, id, Trim(value));
    }
  }

  /** Helper: an event whose handler dispatches `a` leads to the reducer's
      result for `a`. */
  lemma StepIsReduce(todos: seq<Todo>, e: Event, a: Action, freshId: string)
    requires Handle(e) == Some(a)
    ensures Step(todos, e, freshId) == Reduce(todos, a, freshId)
  {
  }

  /** The reducer on its own accepts an empty title: the check lives only in
      the handlers. */
  lemma ReducerAcceptsEmptyTitle(freshId: string)
    ensures Reduce([], AddTodo(""), freshId) == [Todo(freshId, "", false)]
    ensures !TitlesValid(Reduce([], AddTodo(""), freshId))
  {
  }

  /** The reducer's EDIT_TODO with empty text keeps the entry with an empty
      title; it is the edit handler that turns such an edit into DESTROY. */
  lemma ReducerEditToEmptyKeepsEntry(t: Todo, freshId: string)
    ensures Reduce([t], EditTodo(t.id, ""), freshId) == [t.(title := "")]
    ensures Reduce([t], Destroy(t.id), freshId) == []
  {
  }
}
