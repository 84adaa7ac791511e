# TodoMVC reducer, modelled in Dafny

This project models the logic of a React TodoMVC app (`src/App.tsx`). The app
keeps an ordered list of todo entries `{id, todo, completed}` in a
`useReducer` hook. The model has three parts:

- **The reducer.** It takes the list and one action (`ADD_TODO`,
  `TOGGLE_COMPLETED`, `TOGGLE_ALL`, `DESTROY`, `EDIT_TODO`,
  `DESTROY_COMPLETED`) and returns a new list. It never mutates its input, so
  the model writes each case as a function on `seq<Todo>`. JavaScript's
  `Array.filter` is the function `Seqs.Filter`.
- **The event handlers.** They decide which action, if any, a user event
  dispatches. JavaScript's `String.prototype.trim` is modelled over the
  ECMAScript whitespace and line-terminator characters. The submit handler
  adds only non-blank text. The edit handler turns a blank edit into
  `DESTROY` and any other edit into `EDIT_TODO` with the trimmed text.
- **The footer.** It computes `itemsLeft` with a fold, picks the singular or
  plural label, and decides whether to show "Clear completed".

`useReducer` is modelled as `Dispatch.Run`, which applies `Handlers.Step` to
each event in turn. `Handlers.Step` is the handler's action, if there is
one, fed to `Reducer.Reduce`.

The entry's text field, `todo` in the source, is called `title` in the model.
The random id that `window.crypto.randomUUID()` supplies for a new entry is a
parameter (`freshId`). The lemmas that need fresh ids require them.

Modules: `Seqs` (seqs.dfy), `Todos` (todos.dfy: the `Todo` and `Action`
datatypes), `Reducer` (reducer.dfy), `Handlers` (handlers.dfy), `Footer`
(footer.dfy) and `Dispatch` (dispatch.dfy).

Three facts about the code shape the model:

- The reducer neither trims nor rejects an empty title. `ADD_TODO("")`
  appends an entry titled `""`, and `EDIT_TODO(id, "")` stores `""`. The
  blank check and the "an empty edit deletes" rule live only in
  `handleSubmit` and `handleTodoEdit` (`Handlers.ReducerAcceptsEmptyTitle`,
  `Handlers.ReducerEditToEmptyKeepsEntry`). So "editing to blank is
  destroying" holds for the edit handler, not for the reducer's `EDIT_TODO`
  (`Handlers.EditToWhitespaceDestroys`).
- An action of unknown type does not raise an error. The `switch` has no
  default case, so the reducer returns `undefined`. The model's `Action` is a
  closed datatype, so that case cannot arise.
- The repository has no persistence code (no load, no save), so none is
  modelled.

## Model

| member | source | states |
|---|---|---|
| `Seqs.Filter` | src/App.tsx:214-216 | `Array.filter`: the result is no longer than the input and holds exactly the input's elements that the predicate accepts |
| `Seqs.FilterIsSubsequence` | src/App.tsx:224-226 | filtering keeps the survivors in their original relative order (the result is a subsequence of the input) |
| `Seqs.FilterAppend` | src/App.tsx:224-226 | filtering a concatenation is the concatenation of the filtered parts |
| `Seqs.FilterIdentity` | src/App.tsx:214-216 | filtering returns its input unchanged if and only if the predicate accepts every element |
| `Seqs.FilterKeepsAll` | src/App.tsx:214-216 | filtering with a predicate that accepts every element returns the input unchanged |
| `Seqs.FilterIdempotent` | src/App.tsx:224-226 | filtering twice with the same predicate gives the same result as filtering once |
| `Reducer.SomeIncomplete` | src/App.tsx:210 | `todos.some(todo => !todo.completed)` holds if and only if not every entry is completed, and never for the empty list |
| `Reducer.ReduceAddTodo` | src/App.tsx:192-201 | ADD_TODO returns the old list with exactly one entry appended: it has the fresh id, the action's text as given and `completed = false`, and every earlier entry is unchanged |
| `Reducer.ReduceToggleCompleted` | src/App.tsx:203-207 | TOGGLE_COMPLETED keeps length, order, ids and titles, and changes an entry's flag if and only if its id is the action's id |
| `Reducer.ReduceToggleAll` | src/App.tsx:209-212 | TOGGLE_ALL keeps length, order, ids and titles, and sets every flag to "some entry of the input was incomplete" |
| `Reducer.ReduceDestroy` | src/App.tsx:214-216 | DESTROY never grows the list, keeps exactly the entries whose id differs from the action's id, and leaves no entry with that id |
| `Reducer.ReduceEditTodo` | src/App.tsx:218-222 | EDIT_TODO keeps length, order, ids and flags, and gives the action's text to exactly the entries with the action's id |
| `Reducer.ReduceDestroyCompleted` | src/App.tsx:224-226 | DESTROY_COMPLETED never grows the list, leaves no completed entry, and keeps every incomplete entry |
| `Reducer.Reduce` | src/App.tsx:190-228 | the reducer: only ADD_TODO adds (exactly one entry), only DESTROY and DESTROY_COMPLETED can shrink the list, and the other actions keep its length |
| `Reducer.AddTodoKeepsIdsUnique` | src/App.tsx:193-200 | with an id the list does not use, ADD_TODO keeps ids unique and adds exactly that id to the list's ids |
| `Reducer.ToggleCompletedAbsent` | src/App.tsx:204-206 | toggling an id no entry has returns the list unchanged |
| `Reducer.ToggleCompletedTwice` | src/App.tsx:204-206 | toggling the same id twice restores the list |
| `Reducer.ToggleAllCompletes` | src/App.tsx:210-211 | on a list with an incomplete entry, TOGGLE_ALL completes every entry |
| `Reducer.ToggleAllReopens` | src/App.tsx:210-211 | on a non-empty list of completed entries, TOGGLE_ALL makes every entry incomplete |
| `Reducer.ToggleAllFlips` | src/App.tsx:210-211 | on a non-empty list, a second TOGGLE_ALL flips every flag the first one set |
| `Reducer.ToggleAllTwice` | src/App.tsx:210-211 | on a list with an incomplete entry, two TOGGLE_ALLs leave every entry incomplete |
| `Reducer.ToggleAllAlternates` | src/App.tsx:210-211 | after the first TOGGLE_ALL the list alternates: three applications equal one |
| `Reducer.DestroyKeepsOrder` | src/App.tsx:215 | DESTROY keeps the other entries in their original relative order |
| `Reducer.DestroyAbsent` | src/App.tsx:215 | destroying an id no entry has returns the list unchanged |
| `Reducer.DestroyRemovesOne` | src/App.tsx:215 | with unique ids, destroying a present id removes exactly one entry |
| `Reducer.EditTodoAbsent` | src/App.tsx:219-221 | editing an id no entry has returns the list unchanged |
| `Reducer.EditTodoIdempotent` | src/App.tsx:219-221 | repeating the same edit changes nothing more |
| `Reducer.DestroyCompletedKeepsOrder` | src/App.tsx:225 | DESTROY_COMPLETED keeps the incomplete entries in their original relative order |
| `Reducer.DestroyCompletedIdempotent` | src/App.tsx:225 | applying DESTROY_COMPLETED twice gives the same result as applying it once |
| `Reducer.FilterKeepsIdsUnique` | src/App.tsx:215 | filtering a list with unique ids leaves its ids unique |
| `Reducer.ReduceIds` | src/App.tsx:190-228 | no action invents an id: every id after a step was already in the list, or is the fresh id of an ADD_TODO |
| `Reducer.ReduceKeepsIdsUnique` | src/App.tsx:190-228 | every action keeps ids unique, provided ADD_TODO gets an id the list does not use |
| `Handlers.TrimStart` | src/App.tsx:32 | the result is the suffix of the input that starts at its first non-whitespace character; everything dropped is whitespace |
| `Handlers.TrimEnd` | src/App.tsx:32 | the result is the prefix of the input that ends at its last non-whitespace character; everything dropped is whitespace |
| `Handlers.Trim` | src/App.tsx:9 | `trim()` returns the empty string if and only if the input is all whitespace; otherwise the result neither starts nor ends with whitespace |
| `Handlers.TrimIsCoreSlice` | src/App.tsx:32 | `trim()` returns the unique slice that sheds only whitespace on both sides and has no whitespace at either end |
| `Handlers.TrimIdempotent` | src/App.tsx:32 | trimming twice gives the same result as trimming once |
| `Handlers.SubmitToAction` | src/App.tsx:9-14 | the submit handler dispatches if and only if the text has a non-whitespace character, and then it dispatches ADD_TODO with the trimmed text |
| `Handlers.EditToAction` | src/App.tsx:31-37 | the edit handler dispatches DESTROY for the same id if and only if the text is all whitespace; otherwise it dispatches EDIT_TODO with the non-empty trimmed text |
| `Handlers.IsWhitespace` | src/App.tsx:9 | the characters `trim()` removes, the ECMAScript WhiteSpace and LineTerminator code points; all lie in the Basic Multilingual Plane and none is an ASCII letter or digit |
| `Handlers.Handle` | src/App.tsx:6-41 | of all user events, only a blank submit dispatches nothing |
| `Handlers.HandleDispatchesTitles` | src/App.tsx:6-41 | every ADD_TODO or EDIT_TODO a handler dispatches carries a non-empty title with no whitespace at either end |
| `Handlers.TrimIsTitle` | src/App.tsx:9-10 | trimming text that is not all whitespace gives a non-empty title with no whitespace at either end |
| `Handlers.Step` | src/App.tsx:5-41 | one user event through its handler and the reducer: only a submit of non-blank text grows the list, by exactly one entry; no event brings in an id other than the fresh one |
| `Handlers.EditToWhitespaceDestroys` | src/App.tsx:31-37 | editing an entry to whitespace-only text has the same effect as DESTROY of its id |
| `Handlers.IsTitleIffTrimmed` | src/App.tsx:32-36 | a string has no whitespace at either end and is non-empty if and only if it is non-empty and `trim()` leaves it unchanged |
| `Handlers.SurvivorsKeepTitles` | src/App.tsx:215 | removing entries keeps the remaining titles non-empty and trimmed |
| `Handlers.AppendKeepsTitles` | src/App.tsx:193-200 | appending an entry with a trimmed, non-empty title keeps all titles so |
| `Handlers.RetitleKeepsTitles` | src/App.tsx:219-221 | retitling with a trimmed, non-empty title keeps all titles so |
| `Handlers.EditTextStep` | src/App.tsx:36 | any other edit leaves the list EDIT_TODO with the trimmed text would leave |
| `Handlers.EditTwiceIsOnce` | src/App.tsx:31-37 | running the edit handler a second time with the same id and text leaves the list as the first run left it |
| `Handlers.SubmitKeepsTitles` | src/App.tsx:6-17 | submitting any text keeps every title non-empty and trimmed |
| `Handlers.EditKeepsTitles` | src/App.tsx:31-37 | editing to any text keeps every title non-empty and trimmed |
| `Handlers.StepKeepsTitlesValid` | src/App.tsx:6-41 | whatever the user does, every title stays non-empty and trimmed, although the reducer itself does not check titles |
| `Handlers.ReducerAcceptsEmptyTitle` | src/App.tsx:192-201 | the reducer on its own appends an entry with an empty title for `ADD_TODO("")` |
| `Handlers.ReducerEditToEmptyKeepsEntry` | src/App.tsx:218-222 | the reducer's EDIT_TODO with `""` keeps the entry with an empty title, while DESTROY removes it |
| `Footer.ItemsLeft` | src/App.tsx:168-173 | the `itemsLeft` fold never exceeds the length of the list |
| `Footer.ItemsLeftAllIncomplete` | src/App.tsx:168-173 | `itemsLeft` equals the length of the list if and only if no entry is completed |
| `Footer.ItemsLeftNone` | src/App.tsx:168-173 | `itemsLeft` is 0 if and only if every entry is completed |
| `Footer.ShowClearCompleted` | src/App.tsx:181 | "Clear completed" is shown if and only if some entry is completed |
| `Footer.CountLabel` | src/App.tsx:179 | the label is plural exactly when more than one entry is left, so a count of 0 reads "item left" |
| `Footer.ItemsLeftIsIncompleteCount` | src/App.tsx:168-173 | `itemsLeft` equals the length of the list DESTROY_COMPLETED would leave |
| `Footer.ClearCompletedHidesButton` | src/App.tsx:181 | after DESTROY_COMPLETED the button is hidden and `itemsLeft` is unchanged |
| `Footer.ItemsLeftAfterToggleAll` | src/App.tsx:168-173 | after TOGGLE_ALL, `itemsLeft` is 0 if some entry was incomplete, and the length of the list otherwise |
| `Footer.ItemsLeftAfterToggle` | src/App.tsx:168-173 | with unique ids, toggling a present entry lowers `itemsLeft` by one if the entry was incomplete, and raises it by one if it was completed |
| `Footer.ItemsLeftFlipOne` | src/App.tsx:168-173 | flipping exactly one flag moves the fold's count by exactly one |
| `Footer.SameFlagsSameCount` | src/App.tsx:168-173 | two lists of equal length whose entries have the same flags have the same count |
| `Dispatch.Run` | src/App.tsx:5 | `useReducer` over a series of events: the list grows by at most one entry per event, and every id in it was there at the start or came from the random source |
| `Dispatch.StepKeepsValid` | src/App.tsx:5 | one event with a fresh id keeps ids unique and titles valid, and brings in no id but its own fresh one |
| `Dispatch.RunKeepsValid` | src/App.tsx:5 | if the random source never repeats an id and never yields one already in use, every list the app reaches has unique ids and non-empty trimmed titles |
| `Dispatch.RunFromEmptyIsValid` | src/App.tsx:5 | starting from `useReducer`'s empty list, every reachable list is valid under the same freshness condition |
| `Dispatch.SubmitToEmptyList` | src/App.tsx:6-17 | submitting text that is not all whitespace to the empty list gives exactly one incomplete entry holding the trimmed text, and submitting blanks leaves the list empty |
| `Dispatch.EditToBlanksRemoves` | src/App.tsx:31-37 | editing the first of two entries to blanks leaves only the second |

## Left out

- Rendering is not modelled: `App`'s JSX, `TodosList`, `TodoItem` with its editing and focus state, `clsx` class names, and the rule that the footer shows only for a non-empty list (src/App.tsx:51-165, 67). It is presentation, not state logic.
- Browser event plumbing is not modelled: `preventDefault`, reading the form fields, `reset()`, `blur()`, and the Escape key. The handlers are modelled from the text they receive. After an edit submit, the edit field's blur handler (src/App.tsx:126-129) may call the edit handler a second time with the same text, depending on whether the browser fires `blur` once the field leaves editing; the model covers one call per event, and `Handlers.EditTwiceIsOnce` shows that a second call changes nothing.
- `window.crypto.randomUUID()` is not modelled. Each step takes the id as a parameter. Fresh, never-repeating ids are a precondition of the lemmas that need them.
- `useReducer` is not modelled beyond applying the reducer in order (`Dispatch.Run`). React's re-rendering and its same-state bail-out are not modelled.
- Persistence is not modelled. The repository has no load or save code.
- Text is not modelled as JavaScript's UTF-16 code units: strings are sequences of Unicode scalar values. `trim` removes only characters in the Basic Multilingual Plane, so trimming gives the same result either way. The whitespace set follows current Unicode (category Zs without U+180E).
