/** The application component (src/App.tsx): the todo list, its derived flags,
    and the handlers that reconcile the list with the backend. Each asynchronous
    handler is split in two methods: `Begin…` is the part that runs when the user
    acts, `Finish…` the part that runs when the request settles, with the
    request's outcome as a parameter. */
module AppComponent {
  import opened TodoTypes
  import opened TodoLists
  import TodoItemComponent
  import HeaderComponent

  /** `todos.filter(todo => !todo.completed)`. */
  function ActiveTodos(todos: seq<Todo>): seq<Todo> {
    Filter(todos, CompletedIs(false))
  }

  /** `todos.filter(todo => todo.completed)`: the snapshot a bulk delete sends. */
  function CompletedTodos(todos: seq<Todo>): seq<Todo> {
    Filter(todos, CompletedIs(true))
  }

  /** `todos.every(todo => !todo.completed)`. */
  predicate IsAllActive(todos: seq<Todo>) {
    forall i :: 0 <= i < |todos| ==> !todos[i].completed
  }

  /** `todos.every(todo => todo.completed)`. */
  predicate IsAllCompleted(todos: seq<Todo>) {
    forall i :: 0 <= i < |todos| ==> todos[i].completed
  }

  /** The three derived values agree: everything is completed exactly when no
      todo is active, everything is active exactly when filtering the active
      ones changes nothing, and both flags hold only of the empty list. */
  lemma DerivedFlags(todos: seq<Todo>)
    ensures IsAllCompleted(todos) <==> ActiveTodos(todos) == []
    ensures IsAllActive(todos) <==> ActiveTodos(todos) == todos
    ensures IsAllActive(todos) <==> CompletedTodos(todos) == []
    ensures IsAllActive(todos) && IsAllCompleted(todos) <==> todos == []
  {
    if IsAllActive(todos) {
      FilterKeepsAll(todos, CompletedIs(false));
    }
    if ActiveTodos(todos) == todos {
      forall i | 0 <= i < |todos| ensures !todos[i].completed {
        assert todos[i] in ActiveTodos(todos);
      }
    }
    if ActiveTodos(todos) != [] {
      assert ActiveTodos(todos)[0] in todos;
    } else {
      forall i | 0 <= i < |todos| ensures todos[i].completed {
        assert todos[i] in todos;
      }
    }
    if CompletedTodos(todos) != [] {
      assert CompletedTodos(todos)[0] in todos;
    } else {
      forall i | 0 <= i < |todos| ensures !todos[i].completed {
        assert todos[i] in todos;
      }
    }
    if todos != [] {
      assert todos[0] in todos;
    }
  }

  /** A list with one active and one completed todo splits into each. */
  lemma DerivedListsExample()
    ensures var todos := [Todo(1, USER_ID, "A", false), Todo(2, USER_ID, "B", true)];
      && ActiveTodos(todos) == [Todo(1, USER_ID, "A", false)]
      && CompletedTodos(todos) == [Todo(2, USER_ID, "B", true)]
      && !IsAllActive(todos) && !IsAllCompleted(todos)
  {
    var todos := [Todo(1, USER_ID, "A", false), Todo(2, USER_ID, "B", true)];
    assert todos[1..] == [Todo(2, USER_ID, "B", true)];
    assert todos[1..][1..] == [];
    assert Filter(todos[1..], CompletedIs(false)) == [];
    assert Filter(todos, CompletedIs(false)) == [todos[0]];
    assert Filter(todos[1..], CompletedIs(true)) == [todos[1]];
    assert Filter(todos, CompletedIs(true)) == [todos[1]];
  }

  /** The header's toggle-all button, as the application renders it: hidden
      while anything loads, shown and marked active exactly when the list is
      non-empty and has no active todo left, shown unmarked while some todo is
      active. */
  lemma ToggleAllButtonActive(todos: seq<Todo>, isLoading: bool)
    ensures HeaderComponent.View(todos, isLoading, IsAllCompleted(todos)).toggleAll == Some(true)
      <==> !isLoading && todos != [] && ActiveTodos(todos) == []
    ensures HeaderComponent.View(todos, isLoading, IsAllCompleted(todos)).toggleAll == Some(false)
      <==> !isLoading && ActiveTodos(todos) != []
  {
    if ActiveTodos(todos) != [] {
      assert ActiveTodos(todos)[0] in todos;
    }
    DerivedFlags(todos);
  }

  /** A fulfilled delete of `id` removes exactly the records with that id,
      the others keeping their order and multiplicity. */
  lemma DeleteRemovesExactlyThatId(todos: seq<Todo>, id: int)
    ensures SubsequenceOf(Filter(todos, IdIsNot(id)), todos)
    ensures forall t :: multiset(Filter(todos, IdIsNot(id)))[t] == if t.id == id then 0 else multiset(todos)[t]
  {
    FilterPreservesOrder(todos, IdIsNot(id));
    forall t ensures multiset(Filter(todos, IdIsNot(id)))[t] == if t.id == id then 0 else multiset(todos)[t] {
      FilterMultiplicity(todos, IdIsNot(id), t);
    }
  }

  /** Ids of the batch members whose request was fulfilled. */
  function SucceededIds(batch: seq<Todo>, results: seq<bool>): set<int>
    requires |batch| == |results|
  {
    set k | 0 <= k < |batch| && results[k] :: batch[k].id
  }

  lemma SucceededIdsSnoc(batch: seq<Todo>, results: seq<bool>)
    requires |batch| == |results| > 0
    ensures SucceededIds(batch, results)
      == SucceededIds(batch[..|batch| - 1], results[..|results| - 1])
         + if results[|results| - 1] then {batch[|batch| - 1].id} else {}
  {
    var n := |batch| - 1;
    var prefix := SucceededIds(batch[..n], results[..n]);
    forall x | x in prefix ensures x in SucceededIds(batch, results) {
      var k :| 0 <= k < n && results[..n][k] && batch[..n][k].id == x;
      assert results[k] && batch[k].id == x;
    }
  }

  /** The list after the settled results of a bulk delete are applied in order:
      each fulfilled delete removes the records with its todo's id. */
  function AfterBulkDelete(todos: seq<Todo>, batch: seq<Todo>, results: seq<bool>): seq<Todo>
    requires |batch| == |results|
    decreases |batch|
  {
    if batch == [] then todos
    else
      var n := |batch| - 1;
      var before := AfterBulkDelete(todos, batch[..n], results[..n]);
      if results[n] then Filter(before, IdIsNot(batch[n].id)) else before
  }

  /** Applying the settlements one by one is one filter by all fulfilled ids:
      a rejection does not keep any other delete from taking effect. */
  lemma {:induction false} BulkDeleteIsOneFilter(todos: seq<Todo>, batch: seq<Todo>, results: seq<bool>)
    requires |batch| == |results|
    ensures AfterBulkDelete(todos, batch, results) == Filter(todos, IdNotIn(SucceededIds(batch, results)))
    decreases |batch|
  {
    if batch == [] {
      assert SucceededIds(batch, results) == {};
      FilterKeepsAll(todos, IdNotIn({}));
    } else {
      var n := |batch| - 1;
      BulkDeleteIsOneFilter(todos, batch[..n], results[..n]);
      SucceededIdsSnoc(batch, results);
      var before := SucceededIds(batch[..n], results[..n]);
      if results[n] {
        FilterRemovesOneMore(todos, before, batch[n].id);
      } else {
        assert SucceededIds(batch, results) == before;
      }
    }
  }

  /** Within a uniquely identified batch, an id was fulfilled exactly when the
      request of the batch member carrying it was. */
  lemma SucceededIdOf(batch: seq<Todo>, results: seq<bool>, k: nat)
    requires |batch| == |results| && k < |batch| && UniqueIds(batch)
    ensures batch[k].id in SucceededIds(batch, results) <==> results[k]
  {
    if !results[k] {
      forall j | 0 <= j < |batch| && results[j] ensures batch[j].id != batch[k].id {
        assert j != k;
      }
    }
  }

  /** What deleting the completed todos does to a uniquely identified list:
      the survivors keep their order, no active todo is removed, and a
      completed todo is gone exactly when its own delete was fulfilled. */
  lemma BulkDeleteOutcome(todos: seq<Todo>, results: seq<bool>)
    requires UniqueIds(todos)
    requires |results| == |CompletedTodos(todos)|
    ensures SubsequenceOf(AfterBulkDelete(todos, CompletedTodos(todos), results), todos)
    ensures ActiveTodos(AfterBulkDelete(todos, CompletedTodos(todos), results)) == ActiveTodos(todos)
    ensures forall k :: 0 <= k < |results| ==>
      (CompletedTodos(todos)[k] in AfterBulkDelete(todos, CompletedTodos(todos), results) <==> !results[k])
  {
    var batch := CompletedTodos(todos);
    var removed := SucceededIds(batch, results);
    BulkDeleteIsOneFilter(todos, batch, results);
    FilterPreservesOrder(todos, IdNotIn(removed));
    forall t | t in todos && Keeps(CompletedIs(false), t) ensures Keeps(IdNotIn(removed), t) {
      forall k | 0 <= k < |batch| ensures batch[k].id != t.id {
        assert batch[k] in batch;
        DistinctTodosDistinctIds(todos, t, batch[k]);
      }
    }
    FilterRedundant(todos, IdNotIn(removed), CompletedIs(false));
    FilterUniqueIds(todos, CompletedIs(true));
    forall k | 0 <= k < |results| ensures batch[k] in todos {
      assert batch[k] in batch;
    }
    forall k | 0 <= k < |results| ensures batch[k].id in removed <==> results[k] {
      SucceededIdOf(batch, results, k);
    }
  }

  /** A bulk delete never makes two records share an id. */
  lemma BulkDeleteKeepsUniqueIds(todos: seq<Todo>, batch: seq<Todo>, results: seq<bool>)
    requires |batch| == |results| && UniqueIds(todos)
    ensures UniqueIds(AfterBulkDelete(todos, batch, results))
  {
    BulkDeleteIsOneFilter(todos, batch, results);
    FilterUniqueIds(todos, IdNotIn(SucceededIds(batch, results)));
  }

  /** `!todos.every(todo => todo.completed)`: the status toggle-all sets. */
  function ToggleAllTarget(todos: seq<Todo>): bool {
    !IsAllCompleted(todos)
  }

  /** `todos.filter(todo => todo.completed !== target)`: the todos toggle-all sends. */
  function TodosToUpdate(todos: seq<Todo>, target: bool): seq<Todo> {
    Filter(todos, CompletedIs(!target))
  }

  /** The list after the settled results of a toggle-all are applied in order:
      each fulfilled update sets `completed` of the records with its todo's id. */
  function AfterToggleAll(todos: seq<Todo>, batch: seq<Todo>, results: seq<bool>, target: bool): (r: seq<Todo>)
    requires |batch| == |results|
    ensures |r| == |todos|
    decreases |batch|
  {
    if batch == [] then todos
    else
      var n := |batch| - 1;
      var before := AfterToggleAll(todos, batch[..n], results[..n], target);
      if results[n] then SetCompletedById(before, batch[n].id, target) else before
  }

  /** Toggle-all changes only `completed`, and sets it to the target exactly on
      the records whose id had a fulfilled update. */
  lemma {:induction false} ToggleAllClosedForm(todos: seq<Todo>, batch: seq<Todo>, results: seq<bool>, target: bool)
    requires |batch| == |results|
    ensures forall i :: 0 <= i < |todos| ==>
      AfterToggleAll(todos, batch, results, target)[i]
        == todos[i].(completed := if todos[i].id in SucceededIds(batch, results) then target else todos[i].completed)
    decreases |batch|
  {
    if batch != [] {
      var n := |batch| - 1;
      ToggleAllClosedForm(todos, batch[..n], results[..n], target);
      SucceededIdsSnoc(batch, results);
    }
  }

  /** Toggle-all never makes two records share an id. */
  lemma ToggleAllKeepsUniqueIds(todos: seq<Todo>, batch: seq<Todo>, results: seq<bool>, target: bool)
    requires |batch| == |results| && UniqueIds(todos)
    ensures UniqueIds(AfterToggleAll(todos, batch, results, target))
  {
    ToggleAllClosedForm(todos, batch, results, target);
  }

  /** What toggle-all does to a list: ids, owners, titles and order never
      change, and when every update is fulfilled all todos end with the target
      status, which flips the "all completed" flag of a non-empty list. */
  lemma ToggleAllFulfilled(todos: seq<Todo>, results: seq<bool>)
    requires |results| == |TodosToUpdate(todos, ToggleAllTarget(todos))|
    ensures var after := AfterToggleAll(todos, TodosToUpdate(todos, ToggleAllTarget(todos)), results, ToggleAllTarget(todos));
      && |after| == |todos|
      && (forall i :: 0 <= i < |todos| ==>
            after[i].id == todos[i].id && after[i].userId == todos[i].userId && after[i].title == todos[i].title)
      && ((forall k :: 0 <= k < |results| ==> results[k]) ==>
            && (forall i :: 0 <= i < |todos| ==> after[i].completed == ToggleAllTarget(todos))
            && (todos != [] ==> IsAllCompleted(after) == !IsAllCompleted(todos)))
  {
    var target := ToggleAllTarget(todos);
    var batch := TodosToUpdate(todos, target);
    var after := AfterToggleAll(todos, batch, results, target);
    ToggleAllClosedForm(todos, batch, results, target);
    if forall k :: 0 <= k < |results| ==> results[k] {
      forall i | 0 <= i < |todos| ensures after[i].completed == target {
        if todos[i].completed != target {
          assert todos[i] in batch;
          var k :| 0 <= k < |batch| && batch[k] == todos[i];
          assert todos[i].id in SucceededIds(batch, results);
        }
      }
      if todos != [] {
        assert after[0].completed == target;
      }
    }
  }

  /** With unique ids, toggle-all leaves a todo that was not sent, or whose
      update was rejected, as it was, and gives one whose update was fulfilled
      the target status: one failure does not hold back the others. */
  lemma ToggleAllPartialFailure(todos: seq<Todo>, results: seq<bool>)
    requires UniqueIds(todos)
    requires |results| == |TodosToUpdate(todos, ToggleAllTarget(todos))|
    ensures var batch := TodosToUpdate(todos, ToggleAllTarget(todos));
      var after := AfterToggleAll(todos, batch, results, ToggleAllTarget(todos));
      && (forall i :: 0 <= i < |todos| && todos[i] !in batch ==> after[i] == todos[i])
      && (forall i, k :: 0 <= i < |todos| && 0 <= k < |batch| && todos[i] == batch[k] ==>
            after[i] == if results[k] then todos[i].(completed := ToggleAllTarget(todos)) else todos[i])
  {
    var target := ToggleAllTarget(todos);
    var batch := TodosToUpdate(todos, target);
    ToggleAllClosedForm(todos, batch, results, target);
    FilterUniqueIds(todos, CompletedIs(!target));
    forall i, k | 0 <= i < |todos| && 0 <= k < |batch| && todos[i] == batch[k]
      ensures todos[i].id in SucceededIds(batch, results) <==> results[k]
    {
      SucceededIdOf(batch, results, k);
    }
  }

  /** The list after an update request settled with the server's record:
      a record with a non-zero id replaces the records with the requested id. */
  function AfterEdit(todos: seq<Todo>, id: int, edited: Todo): seq<Todo> {
    if edited.id != 0 then ReplaceById(todos, id, edited) else todos
  }

  /** An update keeps the ids unique when the server's record keeps the
      requested id, or carries an id not in use. */
  lemma EditKeepsUniqueIds(todos: seq<Todo>, id: int, edited: Todo)
    requires UniqueIds(todos)
    requires edited.id == id || IdFree(todos, edited.id)
    ensures UniqueIds(AfterEdit(todos, id, edited))
  {
    var after := AfterEdit(todos, id, edited);
    forall i, j | 0 <= i < j < |after| ensures after[i].id != after[j].id {
      if edited.id != 0 && edited.id != id {
        assert todos[i].id != edited.id && todos[j].id != edited.id;
      }
    }
  }

  /** An update answered with another record's id leaves two records with
      that id: replacing todo 1 by a record with id 2 duplicates id 2. */
  lemma EditCanDuplicateIds()
    ensures var todos := [Todo(1, USER_ID, "A", false), Todo(2, USER_ID, "B", false)];
      var after := AfterEdit(todos, 1, Todo(2, USER_ID, "A", false));
      && UniqueIds(todos) && !UniqueIds(after)
  {
    var todos := [Todo(1, USER_ID, "A", false), Todo(2, USER_ID, "B", false)];
    var after := AfterEdit(todos, 1, Todo(2, USER_ID, "A", false));
    assert after[0].id == 2 && after[1].id == 2;
  }

  /** When the server answers an update of a saved todo with the patched record,
      that todo alone is replaced, in place, in a uniquely identified list. */
  lemma EchoedEditTouchesOnlyThatTodo(todos: seq<Todo>, item: Todo, data: Patch)
    requires UniqueIds(todos) && item in todos && item.id != 0
    ensures |AfterEdit(todos, item.id, ApplyPatch(item, data))| == |todos|
    ensures forall i :: 0 <= i < |todos| ==>
      AfterEdit(todos, item.id, ApplyPatch(item, data))[i] == if todos[i] == item then ApplyPatch(item, data) else todos[i]
  {
    forall i | 0 <= i < |todos| && todos[i] != item ensures todos[i].id != item.id {
      DistinctTodosDistinctIds(todos, todos[i], item);
    }
  }

  /** A fulfilled checkbox toggle of a saved todo flips that todo's completion
      and changes nothing else. */
  lemma CheckboxFlipsOnlyThatTodo(todos: seq<Todo>, item: Todo)
    requires UniqueIds(todos) && item in todos && item.id != 0
    ensures var request := TodoItemComponent.ToggleRequest(item);
      var after := AfterEdit(todos, request.id, ApplyPatch(item, request.data));
      && |after| == |todos|
      && forall i :: 0 <= i < |todos| ==>
           after[i] == if todos[i] == item then item.(completed := !item.completed) else todos[i]
  {
    EchoedEditTouchesOnlyThatTodo(todos, item, TodoItemComponent.ToggleRequest(item).data);
  }

  /** The application's state: the list, the error banner, the global loading
      flag, the creation placeholder and the ids of the todos being deleted and
      edited. */
  class App {
    var todos: seq<Todo>
    var errorMessage: ErrorMessage
    var isLoading: bool
    var tempTodo: Option<Todo>
    var deletedTodoId: Option<int>
    var editedTodoId: Option<int>

    /** Whether the row of `itemId`, whose own edit state is `currentEditing`,
        shows its loader overlay given the application's state. */
    predicate RowLoaderActive(itemId: int, currentEditing: Option<int>)
      reads this
    {
      TodoItemComponent.IsLoaderActive(itemId, isLoading, deletedTodoId, editedTodoId, currentEditing)
    }

    /** The header as the application renders it. */
    function RenderedHeader(): HeaderComponent.HeaderView
      reads this
    {
      HeaderComponent.View(todos, isLoading, IsAllCompleted(todos))
    }

    /** First render and the synchronous part of the mount effect: the state
        starts empty and the initial fetch is started. */
    constructor Mount()
      ensures todos == [] && errorMessage == Default && isLoading
      ensures tempTodo == None && deletedTodoId == None && editedTodoId == None
    {
      todos := [];
      errorMessage := Default;
      isLoading := true;
      tempTodo := None;
      deletedTodoId := None;
      editedTodoId := None;
    }

    /** The initial fetch settles: the list becomes the fetched records in the
        order received, or the load error is shown and the list is kept. */
    method FinishLoad(fetched: Outcome<seq<Todo>>)
      modifies this`todos, this`errorMessage, this`isLoading
      ensures todos == if fetched.Ok? then fetched.value else old(todos)
      ensures errorMessage == if fetched.Ok? then old(errorMessage) else Load
      ensures !isLoading
    {
      match fetched {
        case Ok(received) => todos := received;
        case Fail => errorMessage := Load;
      }
      isLoading := false;
    }

    /** `handleAddTodo(title)` up to the request: the placeholder is shown and
        the header's input is disabled until some request settles, which need
        not be this one (`OverlappingCreates`). A row in edit mode shows its
        loader although the request is not about it. */
    method BeginAdd(title: string)
      modifies this`tempTodo, this`isLoading
      ensures tempTodo == Some(Todo(0, USER_ID, title, false)) && isLoading
      ensures RenderedHeader().inputDisabled && RenderedHeader().toggleAll == None
      ensures forall itemId :: RowLoaderActive(itemId, Some(itemId))
    {
      tempTodo := Some(Todo(0, USER_ID, title, false));
      isLoading := true;
    }

    /** The create request settles: the server's record is appended, or the
        add error is shown; the placeholder goes away either way. */
    method FinishAdd(created: Outcome<Todo>)
      modifies this`todos, this`tempTodo, this`errorMessage, this`isLoading
      ensures todos == if created.Ok? then old(todos) + [created.value] else old(todos)
      ensures errorMessage == if created.Ok? then old(errorMessage) else Add
      ensures tempTodo == None && !isLoading && !RenderedHeader().inputDisabled
      ensures UniqueIds(old(todos)) && (created.Ok? ==> IdFree(old(todos), created.value.id))
        ==> UniqueIds(todos)
    {
      if created.Ok? && UniqueIds(todos) && IdFree(todos, created.value.id) {
        AppendFreshKeepsUniqueIds(todos, created.value);
      }
      match created {
        case Ok(response) =>
          isLoading := true;
          todos := todos + [response];
          tempTodo := None;
        case Fail =>
          errorMessage := Add;
          tempTodo := None;
      }
      isLoading := false;
    }

    /** `handleError`, and the banner's close button with `Default`. */
    method HandleError(message: ErrorMessage)
      modifies this`errorMessage
      ensures errorMessage == message
    {
      errorMessage := message;
    }

    /** `handleDeleteTodo(id)` up to the request: the todo shows its loader,
        in edit mode or not, and so does any row in edit mode. */
    method BeginDelete(id: int)
      modifies this`isLoading, this`deletedTodoId
      ensures isLoading && deletedTodoId == Some(id)
      ensures forall currentEditing :: RowLoaderActive(id, currentEditing)
      ensures forall itemId :: RowLoaderActive(itemId, Some(itemId))
    {
      isLoading := true;
      deletedTodoId := Some(id);
    }

    /** The delete request settles: the records with that id are removed, or
        the delete error is shown and the list is kept. */
    method FinishDelete(id: int, deleted: bool)
      modifies this`todos, this`errorMessage, this`isLoading, this`deletedTodoId
      ensures todos == if deleted then Filter(old(todos), IdIsNot(id)) else old(todos)
      ensures errorMessage == if deleted then old(errorMessage) else Delete
      ensures !isLoading && deletedTodoId == None
      ensures forall itemId, currentEditing :: !RowLoaderActive(itemId, currentEditing)
      ensures UniqueIds(old(todos)) ==> UniqueIds(todos)
    {
      if UniqueIds(todos) {
        FilterUniqueIds(todos, IdIsNot(id));
      }
      if deleted {
        todos := Filter(todos, IdIsNot(id));
      } else {
        errorMessage := Delete;
      }
      isLoading := false;
      deletedTodoId := None;
    }

    /** `handleDeleteCompletedTodos` up to the requests: the snapshot of the
        completed todos, one delete request each. */
    method BeginDeleteCompleted() returns (batch: seq<Todo>)
      modifies this`isLoading
      ensures isLoading && batch == CompletedTodos(todos)
    {
      isLoading := true;
      batch := CompletedTodos(todos);
    }

    /** All deletes of the batch have settled (`results[k]` for `batch[k]`):
        each result is applied in order, a fulfilled one removing its todo's
        id, a rejected one showing the delete error. */
    method FinishDeleteCompleted(batch: seq<Todo>, results: seq<bool>)
      requires |results| == |batch|
      modifies this`todos, this`errorMessage, this`isLoading
      ensures todos == AfterBulkDelete(old(todos), batch, results)
      ensures errorMessage == if false in results then Delete else old(errorMessage)
      ensures !isLoading
      ensures UniqueIds(old(todos)) ==> UniqueIds(todos)
    {
      var i := 0;
      while i < |batch|
        invariant 0 <= i <= |batch|
        invariant todos == AfterBulkDelete(old(todos), batch[..i], results[..i])
        invariant errorMessage == if false in results[..i] then Delete else old(errorMessage)
      {
        if !results[i] {
          errorMessage := Delete;
        } else {
          todos := Filter(todos, IdIsNot(batch[i].id));
        }
        assert batch[..i + 1][..i] == batch[..i];
        assert results[..i + 1][..i] == results[..i];
        assert results[..i + 1] == results[..i] + [results[i]];
        i := i + 1;
      }
      assert batch[..i] == batch && results[..i] == results;
      if UniqueIds(old(todos)) {
        BulkDeleteKeepsUniqueIds(old(todos), batch, results);
      }
      isLoading := false;
    }

    /** `handleEditTodo(id, data)` up to the request, which carries `data` to
        the server: the todo shows its loader, in edit mode or not, and so does
        any row in edit mode. */
    method BeginEdit(id: int)
      modifies this`isLoading, this`editedTodoId
      ensures isLoading && editedTodoId == Some(id)
      ensures forall currentEditing :: RowLoaderActive(id, currentEditing)
      ensures forall itemId :: RowLoaderActive(itemId, Some(itemId))
    {
      isLoading := true;
      editedTodoId := Some(id);
    }

    /** The update request settles. A record with a non-zero id replaces the
        records with the requested id and ends the edit; a record with id 0
        changes nothing; a rejection shows the update error, keeps the list and
        reports failure to the caller (the thrown error). */
    method FinishEdit(id: int, edited: Outcome<Todo>) returns (ok: bool)
      modifies this`todos, this`errorMessage, this`isLoading, this`editedTodoId
      ensures ok == edited.Ok?
      ensures todos == if edited.Ok? then AfterEdit(old(todos), id, edited.value) else old(todos)
      ensures editedTodoId == if edited.Ok? && edited.value.id != 0 then None else old(editedTodoId)
      ensures errorMessage == if edited.Ok? then old(errorMessage) else Update
      ensures !isLoading
      ensures forall itemId, currentEditing :: !RowLoaderActive(itemId, currentEditing)
      ensures UniqueIds(old(todos)) && (edited.Ok? ==> edited.value.id == id || IdFree(old(todos), edited.value.id))
        ==> UniqueIds(todos)
    {
      if edited.Ok? && UniqueIds(todos) && (edited.value.id == id || IdFree(todos, edited.value.id)) {
        EditKeepsUniqueIds(todos, id, edited.value);
      }
      match edited {
        case Ok(editedTodo) =>
          if editedTodo.id != 0 {
            todos := ReplaceById(todos, id, editedTodo);
            editedTodoId := None;
          }
          ok := true;
        case Fail =>
          errorMessage := Update;
          ok := false;
      }
      isLoading := false;
    }

    /** `handleToggleAll` up to the requests: the target status and the todos
        whose status differs from it, one update request each. */
    method BeginToggleAll() returns (target: bool, batch: seq<Todo>)
      modifies this`isLoading
      ensures isLoading
      ensures target == ToggleAllTarget(todos) && batch == TodosToUpdate(todos, target)
    {
      isLoading := true;
      target := !IsAllCompleted(todos);
      batch := TodosToUpdate(todos, target);
    }

    /** All updates of the batch have settled: each result is applied in
        order, a fulfilled one setting its todo's status, a rejected one
        showing the update error. */
    method FinishToggleAll(target: bool, batch: seq<Todo>, results: seq<bool>)
      requires |results| == |batch|
      modifies this`todos, this`errorMessage, this`isLoading
      ensures todos == AfterToggleAll(old(todos), batch, results, target)
      ensures errorMessage == if false in results then Update else old(errorMessage)
      ensures !isLoading
      ensures UniqueIds(old(todos)) ==> UniqueIds(todos)
    {
      var i := 0;
      while i < |batch|
        invariant 0 <= i <= |batch|
        invariant todos == AfterToggleAll(old(todos), batch[..i], results[..i], target)
        invariant errorMessage == if false in results[..i] then Update else old(errorMessage)
      {
        if !results[i] {
          errorMessage := Update;
        } else {
          todos := SetCompletedById(todos, batch[i].id, target);
        }
        assert batch[..i + 1][..i] == batch[..i];
        assert results[..i + 1][..i] == results[..i];
        assert results[..i + 1] == results[..i] + [results[i]];
        i := i + 1;
      }
      assert batch[..i] == batch && results[..i] == results;
      if UniqueIds(old(todos)) {
        ToggleAllKeepsUniqueIds(old(todos), batch, results, target);
      }
      isLoading := false;
    }
  }

  /** The loading flag is shared by every handler, so a delete that settles
      while a create is in flight enables the header's input again although
      the placeholder is still shown. A second create then replaces the
      placeholder, and the first create's settlement removes it while the
      second is still in flight. */
  method OverlappingCreates(id: int, created: Todo)
    returns (enabledWhileCreating: bool, secondPlaceholder: Option<Todo>, placeholderAfterFirst: Option<Todo>)
    ensures enabledWhileCreating
    ensures secondPlaceholder == Some(Todo(0, USER_ID, "Y", false))
    ensures placeholderAfterFirst == None
  {
    var app := new App.Mount();
    app.BeginAdd("X");
    app.BeginDelete(id);
    app.FinishDelete(id, true);
    assert app.tempTodo == Some(Todo(0, USER_ID, "X", false));
    enabledWhileCreating := !app.RenderedHeader().inputDisabled;
    app.BeginAdd("Y");
    secondPlaceholder := app.tempTodo;
    app.FinishAdd(Ok(created));
    placeholderAfterFirst := app.tempTodo;
  }

  /** A rejected update leaves `editedTodoId` set: that row shows its loader
      during the next add, but not during an edit of another row, which
      replaces the tracked id. */
  method StaleEditLoader() returns (shownDuringAdd: bool, shownDuringOtherEdit: bool)
    ensures shownDuringAdd && !shownDuringOtherEdit
  {
    var listed := [Todo(1, USER_ID, "A", false), Todo(2, USER_ID, "B", false)];
    var app := new App.Mount();
    app.FinishLoad(Ok(listed));
    app.BeginEdit(1);
    var ok := app.FinishEdit(1, Fail);
    app.BeginAdd("X");
    shownDuringAdd := app.RowLoaderActive(1, None);
    var other := new App.Mount();
    other.FinishLoad(Ok(listed));
    other.BeginEdit(1);
    ok := other.FinishEdit(1, Fail);
    other.BeginEdit(2);
    shownDuringOtherEdit := other.RowLoaderActive(1, None);
  }
}
