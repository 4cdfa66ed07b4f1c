# Todo app with a REST backend: state transitions

This project models the state-transition logic of a small React todo-list
application. The application loads one user's todos from a REST backend. It can
create, rename, complete and delete single todos, toggle all of them, and delete
all completed ones. Rendering, styling and the network are left out. Every request
becomes a parameter that says how the request settled: fulfilled with the server's
answer, or rejected.

Modules, one per source component:

- `TodoTypes` (todo_types.dfy): the `Todo` record, the update `Patch`, the error
  banner's `ErrorMessage` values, `Option` and `Outcome`, and `USER_ID = 907`.
- `Text` (text.dfy): JavaScript's `String.prototype.trim` over the ECMAScript
  white-space and line-terminator characters.
- `TodoLists` (todo_lists.dfy): the pure list transforms inside the handlers.
  These are `filter` by a criterion, and the two id-keyed `map`s that set a status
  or replace a record.
- `AppComponent` (app.dfy): class `App` holds the state slots of `App.tsx`
  (`todos`, `errorMessage`, `isLoading`, `tempTodo`, `deletedTodoId`,
  `editedTodoId`). Each asynchronous handler is split into two methods.
  `Begin…` runs when the user acts. `Finish…` runs when the request settles and
  takes its outcome. A `Promise.allSettled` over a batch becomes a `seq<bool>`
  aligned with the batch snapshot. `Finish…` applies it with a loop, in batch
  order, like the source's `forEach`. The specification functions
  `AfterBulkDelete` and `AfterToggleAll` define what those loops compute. The
  lemmas beside them prove what the handlers promise.
- `TodoItemComponent` (todo_item.dfy): class `TodoItem` holds one row's inline-edit
  state (`editTitle`, `currentEditing`). It returns the `onDelete`/`onEdit`
  requests as `Request` values. It also holds the loader predicate, which
  `App.RowLoaderActive` feeds with the application's state.
- `HeaderComponent` (header.dfy): class `Header` holds the new-todo input. Its
  submit validation returns the parent callbacks it makes (`Callback` values). The
  3-second reset of the empty-title error is an explicit later event. `View`
  gives the toggle-all button and the input's disabled flag, and
  `App.RenderedHeader` feeds it with the application's state.

Behaviour of the code that the model keeps as written:

- A fulfilled update replaces the records whose id is the *requested* id with the
  server's record. The id inside that record is not used for the match.
- `editedTodoId` is cleared only when the update returns a non-zero id. A rejected
  update leaves it set. So that row shows its loader again during the next add,
  delete or toggle-all, until another edit replaces the id.
- `isLoading` is one flag shared by every handler, and whichever request settles
  first clears it. So the header's input can be enabled again while a create is
  still in flight, and a second create then replaces the placeholder.
- The loader condition tests the global `isLoading`. So a row in edit mode shows
  its loader during any request, even one about another row.
- When an edit field is blurred with a blank title, the row stays in edit mode.
  `onDelete` never throws synchronously, so the `catch` branch is never taken.
- The blank test comes before the "unchanged" test. So blurring an unchanged
  title that is itself blank deletes the todo.

## Model

| member | source | states |
|---|---|---|
| `Text.Trim` | src/components/Header.tsx:42-44 | `trim` returns a slice of the input that leaves out only white space before and after it; the slice is empty exactly on blank input (the "empty title" test), and otherwise starts and ends with a non-white character |
| `Text.TrimIdempotent` | src/components/TodoItem.tsx:45-46 | a trimmed title is unchanged by a second `trim`, so the title sent by an edit is already clean |
| `TodoLists.Filter` | src/App.tsx:90 | `filter` returns exactly the records of the list that the criterion accepts |
| `TodoLists.FilterPreservesOrder` | src/App.tsx:117-119 | the records a `filter` keeps stay in their original relative order |
| `TodoLists.FilterMultiplicity` | src/App.tsx:117-119 | a `filter` keeps each accepted record as often as it occurred and drops every rejected record |
| `TodoLists.FilterRemovesOneMore` | src/App.tsx:114-120 | removing one more id after a set of removed ids is the same as one filter by the larger set |
| `TodoLists.FilterUniqueIds` | src/App.tsx:104 | a filtered snapshot of a list with unique ids also has unique ids |
| `TodoLists.DistinctTodosDistinctIds` | src/App.tsx:117-119 | in a list with unique ids, two different records never share an id |
| `TodoLists.FilterOutUniqueRecord` | src/App.tsx:88-90 | in a list with unique ids, filtering out the id of the record at position `i` removes that record and no other, and the rest keep their order |
| `TodoLists.AppendFreshKeepsUniqueIds` | src/App.tsx:71 | appending a record whose id is not in use keeps the ids unique |
| `TodoLists.SetCompletedById` | src/App.tsx:176-182 | the `map` keeps the length; records with the id get the new status with every other field kept; all other records are unchanged |
| `TodoLists.ReplaceById` | src/App.tsx:137-145 | the `map` keeps the length; records with the id become the replacement; all other records are unchanged |
| `AppComponent.ActiveTodos` | src/App.tsx:33 | definition: the todos that are not completed, in list order |
| `AppComponent.CompletedTodos` | src/App.tsx:104 | definition: the completed todos, in list order, the snapshot a bulk delete sends |
| `AppComponent.IsAllActive` | src/App.tsx:34 | definition: no todo is completed |
| `AppComponent.IsAllCompleted` | src/App.tsx:35 | definition: every todo is completed |
| `AppComponent.DerivedFlags` | src/App.tsx:33-35 | `isAllCompleted` iff `activeTodos` is empty; `isAllActive` iff filtering the active todos changes nothing, iff no todo is completed; both flags hold together only of the empty list |
| `AppComponent.DerivedListsExample` | src/App.tsx:33-35 | for [{1,"A",active},{2,"B",completed}] the active list is the first todo and the completed list is the second; neither flag holds |
| `AppComponent.ToggleAllButtonActive` | src/components/Header.tsx:62-67 | the toggle-all button is shown and marked active iff nothing is loading and the list is non-empty with no active todo; it is shown unmarked iff nothing is loading and some todo is active |
| `AppComponent.DeleteRemovesExactlyThatId` | src/App.tsx:88-90 | a fulfilled delete removes exactly the records with the target id; the rest keep their order and multiplicity |
| `AppComponent.SucceededIdsSnoc` | src/App.tsx:110-122 | the set of fulfilled ids grows by one result at a time, in batch order |
| `AppComponent.AfterBulkDelete` | src/App.tsx:109-122 | the settlements of a bulk delete are applied in batch order; each fulfilled one removes its todo's id |
| `AppComponent.BulkDeleteIsOneFilter` | src/App.tsx:109-122 | applying the settlements one by one equals one filter by all fulfilled ids, so a rejection never blocks another removal |
| `AppComponent.SucceededIdOf` | src/App.tsx:106-108 | in a batch with unique ids, a member's id counts as fulfilled iff that member's own request was fulfilled |
| `AppComponent.BulkDeleteKeepsUniqueIds` | src/App.tsx:109-122 | a bulk delete of a list with unique ids leaves a list with unique ids |
| `AppComponent.BulkDeleteOutcome` | src/App.tsx:102-122 | with unique ids: the remaining todos keep their order; the active todos are exactly as before; a completed todo is removed iff its own delete was fulfilled |
| `AppComponent.ToggleAllTarget` | src/App.tsx:159-160 | definition: the status toggle-all sets, the negation of "every todo completed" |
| `AppComponent.TodosToUpdate` | src/App.tsx:162 | definition: the todos whose status differs from the target, one update request each |
| `AppComponent.AfterToggleAll` | src/App.tsx:169-184 | applying the toggle-all settlements keeps the list's length |
| `AppComponent.ToggleAllClosedForm` | src/App.tsx:169-184 | toggle-all changes only `completed`; a record gets the target status iff its id had a fulfilled update, and otherwise keeps its status |
| `AppComponent.ToggleAllKeepsUniqueIds` | src/App.tsx:169-184 | toggle-all of a list with unique ids leaves a list with unique ids |
| `AppComponent.ToggleAllFulfilled` | src/App.tsx:157-184 | the target is the negation of "every todo completed"; ids, owners, titles and order never change; if every update is fulfilled, every todo ends at the target, which flips "all completed" for a non-empty list |
| `AppComponent.ToggleAllPartialFailure` | src/App.tsx:162-184 | with unique ids: a todo that was not sent, or whose update was rejected, keeps its record; a todo whose update was fulfilled gets the target status |
| `AppComponent.AfterEdit` | src/App.tsx:136-145 | definition: a returned record with a non-zero id replaces every record with the requested id; a returned id 0 leaves the list as it is |
| `AppComponent.EditKeepsUniqueIds` | src/App.tsx:136-145 | an update keeps the ids unique when the server's record keeps the requested id or carries an id not in use |
| `AppComponent.EditCanDuplicateIds` | src/App.tsx:136-145 | an update of todo 1 answered with a record of id 2 leaves two records with id 2: the replacement takes the server's id, not the requested one |
| `AppComponent.EchoedEditTouchesOnlyThatTodo` | src/App.tsx:134-145 | in a list with unique ids: if the server answers an update of a saved todo with the patched record, only that todo is replaced, in place |
| `AppComponent.CheckboxFlipsOnlyThatTodo` | src/components/TodoItem.tsx:84-86 | in a list with unique ids: the checkbox sends `{completed: !completed}` for its own id; when fulfilled, it flips only that todo's status |
| `AppComponent.App.RenderedHeader` | src/App.tsx:205-215 | definition: the header's view computed from the application's list, its `isLoading` and its `isAllCompleted` |
| `AppComponent.App.RowLoaderActive` | src/App.tsx:217-225 | definition: a row's loader flag computed from the application's `isLoading`, `deletedTodoId` and `editedTodoId` and the row's own edit state |
| `AppComponent.App.Mount` | src/App.tsx:20-38 | the state starts with an empty list, no error, no placeholder and no tracked ids, and the initial fetch sets `isLoading` |
| `AppComponent.App.FinishLoad` | src/App.tsx:39-49 | success sets the list to the fetched records in the order received; failure sets the LOAD error and keeps the list (empty after mount); `isLoading` ends false |
| `AppComponent.App.BeginAdd` | src/App.tsx:52-65 | shows the placeholder {id 0, `USER_ID`, the title, not completed} and sets `isLoading`; so the header's input is disabled and the toggle-all button hidden until some request settles, and every row in edit mode shows its loader |
| `AppComponent.App.FinishAdd` | src/App.tsx:67-78 | success appends the server record after the unchanged earlier list; failure keeps the list and sets the ADD error; the placeholder is cleared, `isLoading` ends false and the input is enabled again either way; ids stay unique when the server's id is not in use |
| `AppComponent.App.HandleError` | src/App.tsx:81-83 | the banner shows the given message (`Default` is the banner's close action) |
| `AppComponent.App.BeginDelete` | src/App.tsx:85-88 | sets `isLoading` and marks the todo being deleted, so that row shows its loader whatever its edit mode, and so does every row in edit mode |
| `AppComponent.App.FinishDelete` | src/App.tsx:88-99 | success removes the records with that id; failure keeps the list and sets the DELETE error; `isLoading` ends false and `deletedTodoId` is cleared either way, so no row shows its loader; unique ids stay unique |
| `AppComponent.App.BeginDeleteCompleted` | src/App.tsx:102-107 | the batch is the snapshot of the completed todos, taken at call time |
| `AppComponent.App.FinishDeleteCompleted` | src/App.tsx:109-127 | the list becomes `AfterBulkDelete` of the old list; the DELETE error is set iff some delete was rejected; `isLoading` ends false; unique ids stay unique |
| `AppComponent.App.BeginEdit` | src/App.tsx:130-132 | sets `isLoading` and marks the todo being edited, so that row shows its loader whatever its edit mode, and so does every row in edit mode |
| `AppComponent.App.FinishEdit` | src/App.tsx:133-154 | a returned record with a non-zero id replaces the records with the requested id and clears `editedTodoId`; a returned id 0 changes nothing; a rejection keeps the list, sets the UPDATE error and reports failure; `isLoading` ends false, so no row shows its loader; unique ids stay unique when the server's record keeps the requested id or carries an unused id |
| `AppComponent.App.BeginToggleAll` | src/App.tsx:157-167 | the target is "not every todo completed"; only the todos whose status differs from it are sent |
| `AppComponent.App.FinishToggleAll` | src/App.tsx:169-188 | the list becomes `AfterToggleAll` of the old list; the UPDATE error is set iff some update was rejected; `isLoading` ends false; unique ids stay unique |
| `AppComponent.OverlappingCreates` | src/App.tsx:52-98 | a delete that settles during a create re-enables the header's input while the placeholder "X" is still shown; a second create replaces the placeholder with "Y"; the first create's settlement then clears it while "Y" is still in flight |
| `AppComponent.StaleEditLoader` | src/App.tsx:130-153 | after a rejected update of todo 1, its row shows the loader during the next add, but not during an edit of todo 2, which replaces `editedTodoId` |
| `TodoItemComponent.IsLoaderActive` | src/components/TodoItem.tsx:128-132 | definition: the overlay is on while loading when the row's id is the deleting id, the editing id or the id in edit mode |
| `TodoItemComponent.ToggleRequest` | src/components/TodoItem.tsx:84-86 | definition: the checkbox asks for an update of this row's id whose only field is the negated completion flag |
| `TodoItemComponent.TodoItem.IsEditing` | src/components/TodoItem.tsx:90 | definition: the row shows its edit field instead of its title and delete button when its id is the one in edit mode |
| `TodoItemComponent.BlurRequest` | src/components/TodoItem.tsx:37-53 | a blank edit title requests deletion of this row and never an edit; a non-blank title that differs (untrimmed) from the current title requests an edit whose only field is the trimmed, non-blank title; an unchanged non-blank title requests nothing |
| `TodoItemComponent.TodoItem.constructor` | src/components/TodoItem.tsx:24-25 | a row starts with an empty edit title and not in edit mode |
| `TodoItemComponent.TodoItem.HandleEdit` | src/components/TodoItem.tsx:28-31 | a double-click sets the edit title to the todo's title and puts the todo in edit mode |
| `TodoItemComponent.TodoItem.HandleEditChange` | src/components/TodoItem.tsx:33-35 | typing replaces the edit title only |
| `TodoItemComponent.TodoItem.HandleEditBlur` | src/components/TodoItem.tsx:37-54 | a blur issues `BlurRequest`; it leaves edit mode at once, and the row shows its title again, only when no request is issued |
| `TodoItemComponent.TodoItem.HandleEditSettled` | src/components/TodoItem.tsx:46-50 | a fulfilled edit leaves edit mode; a rejected edit stays in edit mode |
| `TodoItemComponent.TodoItem.HandleEditKeyDown` | src/components/TodoItem.tsx:56-63 | Enter acts exactly like a blur; Escape leaves edit mode, so the row shows its title again, and restores the todo's title; other keys change nothing |
| `HeaderComponent.SubmitCallbacks` | src/components/Header.tsx:39-52 | a submit makes exactly one call; it is `onAdd` with the trimmed, non-blank title iff the title is not blank, and otherwise `onError(EMPTY_TITLE)` |
| `HeaderComponent.SubmitTrimsExample` | src/components/Header.tsx:42-51 | submitting "  Buy milk  " calls `onAdd("Buy milk")` |
| `HeaderComponent.View` | src/components/Header.tsx:62-82 | definition: the toggle-all button exists while nothing loads and the list is non-empty, marked active by `isAllCompleted`; the input is disabled while loading |
| `HeaderComponent.Header.constructor` | src/components/Header.tsx:31 | the input starts empty with no reset scheduled |
| `HeaderComponent.Header.HandleTitleChange` | src/components/Header.tsx:81 | typing replaces the input's title |
| `HeaderComponent.Header.HandleSubmit` | src/components/Header.tsx:39-52 | makes the calls of `SubmitCallbacks`; a blank title schedules one reset; the title is kept |
| `HeaderComponent.Header.ResetTimerFires` | src/components/Header.tsx:46 | a scheduled reset later calls `onError(DEFAULT)` |
| `HeaderComponent.Header.ResetTitleEffect` | src/components/Header.tsx:54-58 | one run of the effect, which happens only when `isLoading` or `isError` changes, clears the input iff nothing is loading and no error is shown, and otherwise keeps it; typing while idle is not cleared |

## Left out

- FinishEdit: keeps ids unique only when the server's record keeps the requested id or carries an id not in use. `EditCanDuplicateIds` shows a server answer that leaves two records with one id. The code does not guard against this, so the model promises nothing more.
- FinishLoad: the fetched list is taken as received, so unique ids are not established by the model. The other `Finish…` methods only preserve them.

- The REST client (src/api/todos.ts and the `client` it wraps) is not modelled. Each request's outcome is a method parameter. `ApplyPatch` states what a PATCH is expected to return. Only the lemmas `EchoedEditTouchesOnlyThatTodo` and `CheckboxFlipsOnlyThatTodo` assume it.
- Real asynchrony is not modelled. `Begin…`/`Finish…` pairs of different handlers may interleave in any order. The settlements of one `Promise.allSettled` are applied together, in batch order.
- The 3-second timer is an explicit later event, `Header.ResetTimerFires`. `EMPTY_TITLE_RESET_MS` records the delay; time itself is not modelled.
- Focus management is left out: `inputRef.current?.focus()`, the `setTimeout(…, 0)` focus calls and the focus effects in the header and the rows. So are CSS classes and `CSSTransition` animations.
- The filter projection `getPrepearedTodos` and the `filterType` state are left out. The source of that function is not part of this model.
- The `UserWarning` branch when `USER_ID` is falsy is left out. `USER_ID` is the constant 907.
- The rendering-only components (Footer, TodoList, TempTodo, the error banner) are left out. They pass props through and decide nothing beyond what `App` computes.
- The `ErrorMessages` values are not part of this model. `ErrorMessage.Default` stands for the falsy "no error" value, so the header's `isError` is `errorMessage != Default`.
- JavaScript numbers are modelled as unbounded integers. The truthiness test `if (editedTodo.id)` becomes `id != 0`.
- The `catch` around `onDelete` in `handleEditBlur` is not modelled. `handleDeleteTodo` is asynchronous and handles its own failure, so that branch is never taken.
- EchoedEditTouchesOnlyThatTodo: assumes the list's ids are unique; without that, the returned record also overwrites every other record with the same id (`ReplaceById` and `App.FinishEdit` state that general case).
- CheckboxFlipsOnlyThatTodo: assumes the list's ids are unique; without that, the toggled copy also overwrites every other record with the same id, whose own title is lost (`ReplaceById` and `App.FinishEdit` state that general case).
- BulkDeleteOutcome: assumes the list's ids are unique; without that, a fulfilled delete also removes any other record with the same id (`BulkDeleteIsOneFilter` states that general case).
- ToggleAllPartialFailure: assumes the list's ids are unique; without that, a fulfilled update also sets the status of any other record with the same id (`ToggleAllClosedForm` states that general case).
