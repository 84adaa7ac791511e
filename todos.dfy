/** The values the todo app works on: the records of the list and the
    actions dispatched to the reducer. */
module Todos {

  /** One list entry `{id, todo, completed}`; the source's `todo` field, the
      item's text, is called `title` here. */
  datatype Todo = Todo(id: string, title: string, completed: bool)

  /** The actions the reducer understands. The source switches on a string
      `type` field and has no default case, so an action of any other type
      would make it return `undefined`; a closed datatype rules that case
      out. */
  datatype Action =
    | AddTodo(value: string)
    | ToggleCompleted(id: string)
    | ToggleAll
    | Destroy(id: string)
    | EditTodo(id: string, value: string)
    | DestroyCompleted

  /** A value that may be absent. */
  datatype Option<T> = None | Some(value: T)

  /** The ids that occur in a list. */
  function Ids(todos: seq<Todo>): set<string>
  {
    set t | t in todos :: t.id
  }

  /** No two entries share an id. */
  ghost predicate UniqueIds(todos: seq<Todo>)
  {
    forall i, j :: 0 <= i < j < |todos| ==> todos[i].id != todos[j].id
  }

  /** Every entry is completed. */
  ghost predicate AllCompleted(todos: seq<Todo>)
  {
    forall i :: 0 <= i < |todos| ==> todos[i].completed
  }

  /** No entry is completed. */
  ghost predicate NoneCompleted(todos: seq<Todo>)
  {
    forall i :: 0 <= i < |todos| ==> !todos[i].completed
  }

  /** Two lists hold the same entries in the same order up to their
      `completed` flags. */
  ghost predicate SameExceptCompleted(a: seq<Todo>, b: seq<Todo>)
  {
    |a| == |b| && forall i :: 0 <= i < |a| ==> a[i].id == b[i].id && a[i].title == b[i].title
  }
}
