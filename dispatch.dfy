/** The app's state over time: `useReducer` starts from the empty list and
    replaces the list by the reducer's result for every dispatched action.
    Each user event goes through its handler first; the id that ADD_TODO
    would draw from the random source comes with the event. */
module Dispatch {
  import opened Todos
  import opened Reducer
  import opened Handlers

  /** One user event, with the id `randomUUID` yields if it adds an entry. */
  datatype Input = Input(event: Event, freshId: string)

  /** The ids the random source supplies over a series of events. */
  function FreshIdsOf(inputs: seq<Input>): set<string>
    decreases |inputs|
  {
    if inputs == [] then {} else {inputs[0].freshId} + FreshIdsOf(inputs[1..])
  }

  /** The list after a series of events: each event adds at most one entry,
      and every id in the result was in the list or came from the random
      source. */
  function Run(todos: seq<Todo>, inputs: seq<Input>): (r: seq<Todo>)
    ensures |r| <= |todos| + |inputs|
    ensures Ids(r) <= Ids(todos) + FreshIdsOf(inputs)
    decreases |inputs|
  {
    if inputs == [] then todos
    else Run(Step(todos, inputs[0].event, inputs[0].freshId), inputs[1..])
  }

  /** What holds of every list the app shows: ids are unique and every
      title is non-empty and trimmed. */
  ghost predicate Valid(todos: seq<Todo>)
  {
    UniqueIds(todos) && TitlesValid(todos)
  }

  /** The random source never repeats itself and never yields an id already
      in the list. */
  ghost predicate FreshIds(todos: seq<Todo>, inputs: seq<Input>)
  {
    && (forall i :: 0 <= i < |inputs| ==> inputs[i].freshId !in Ids(todos))
    && (forall i, j :: 0 <= i < j < |inputs| ==> inputs[i].freshId != inputs[j].freshId)
  }

  /** One event keeps the list valid and brings in no id other than its
      own fresh one. */
  lemma StepKeepsValid(todos: seq<Todo>, input: Input)
    requires Valid(todos)
    requires input.freshId !in Ids(todos)
    ensures Valid(Step(todos, input.event, input.freshId))
    ensures Ids(Step(todos, input.event, input.freshId)) <= Ids(todos) + {input.freshId}
  {
    StepKeepsTitlesValid(todos, input.event, input.freshId);
    match Handle(input.event)
    case Some(a) =>
      ReduceKeepsIdsUnique(todos, a, input.freshId);
      ReduceIds(todos, a, input.freshId);
    case None =>
  }

  /** Starting from a valid list, with a random source that never repeats,
      the list stays valid whatever the user does. */
  lemma {:induction false} RunKeepsValid(todos: seq<Todo>, inputs: seq<Input>)
    requires Valid(todos)
    requires FreshIds(todos, inputs)
    ensures Valid(Run(todos, inputs))
    decreases |inputs|
  {
    if inputs != [] {
      var next := Step(todos, inputs[0].event, inputs[0].freshId);
      StepKeepsValid(todos, inputs[0]);
      var rest := inputs[1..];
      forall i | 0 <= i < |rest| ensures rest[i].freshId !in Ids(next) {
        assert rest[i] == inputs[i + 1];
      }
      forall i, j | 0 <= i < j < |rest| ensures rest[i].freshId != rest[j].freshId {
        assert rest[i] == inputs[i + 1] && rest[j] == inputs[j + 1];
      }
      RunKeepsValid(next, rest);
    }
  }

  /** The app starts from the empty list, which is valid, so every list it
      reaches is valid. */
  lemma RunFromEmptyIsValid(inputs: seq<Input>)
    requires FreshIds([], inputs)
    ensures Valid(Run([], inputs))
  {
    RunKeepsValid([], inputs);
  }

  /** Submitting text that is not blank to the empty list gives a list of
      exactly one incomplete entry holding the trimmed text; submitting
      blanks leaves the list empty. */
  lemma SubmitToEmptyList(text: string, blanks: string, freshId: string)
    requires !IsBlank(text)
    requires IsBlank(blanks)
    ensures Run([], [Input(Submit(text), freshId)]) == [Todo(freshId, Trim(text), false)]
    ensures Run([], [Input(Submit(blanks), freshId)]) == []
  {
    RunOne([], Input(Submit(text), freshId));
    RunOne([], Input(Submit(blanks), freshId));
  }

  /** Editing the first of two entries to blanks leaves only the second. */
  lemma EditToBlanksRemoves(a: Todo, b: Todo, blanks: string, freshId: string)
    requires a.id != b.id
    requires IsBlank(blanks)
    ensures Run([a, b], [Input(TodoEdit(a.id, blanks), freshId)]) == [b]
  {
    RunOne([a, b], Input(TodoEdit(a.id, blanks), freshId));
    EditToWhitespaceDestroys([a, b], a.id, blanks, freshId);
    DestroyFirstOfTwo(a, b);
  }

  /** Helper: a run of one event is one step. */
  lemma RunOne(todos: seq<Todo>, input: Input)
    ensures Run(todos, [input]) == Step(todos, input.event, input.freshId)
  {
    assert [input][1..] == [];
  }

  /** Helper: destroying the first of two entries with different ids
      leaves the second. */
  lemma DestroyFirstOfTwo(a: Todo, b: Todo)
    requires a.id != b.id
    ensures ReduceDestroy([a, b], a.id) == [b]
  {
    var keep := (t: Todo) => t.id != a.id;
    assert [a, b][1..] == [b] && [b][1..] == [];
    assert Seqs.Filter([a, b], keep) == [b];
  }
}
