/** One row of the list (src/components/TodoItem.tsx): its inline-edit state
    machine, the requests it hands to the application, and its loader flag. */
module TodoItemComponent {
  import opened TodoTypes
  import opened Text

  /** What an event on the row asks of the application: nothing, `onDelete(id)`
      or `onEdit(id, data)`. */
  datatype Request = NoRequest | DeleteRequest(id: int) | EditRequest(id: int, data: Patch)

  /** The decision taken when the edit field loses focus (or Enter is pressed):
      a blank title deletes the row, a changed title is saved trimmed, and an
      unchanged title only leaves edit mode. The blank test comes first, so an
      unchanged title that is itself blank also deletes. */
  function BlurRequest(item: Todo, editTitle: string): (r: Request)
    ensures r == DeleteRequest(item.id) <==> IsBlank(editTitle)
    ensures r.EditRequest? <==> !IsBlank(editTitle) && editTitle != item.title
    ensures r.EditRequest? ==>
      && r == EditRequest(item.id, Patch(Some(Trim(editTitle)), None))
      && Trim(editTitle) != [] && Trim(Trim(editTitle)) == Trim(editTitle)
    ensures r == NoRequest <==> !IsBlank(editTitle) && editTitle == item.title
  {
    TrimIdempotent(editTitle);
    if Trim(editTitle) == [] then DeleteRequest(item.id)
    else if editTitle != item.title then EditRequest(item.id, Patch(Some(Trim(editTitle)), None))
    else NoRequest
  }

  /** The checkbox's `onChange`: an update of this row's completion flag only. */
  function ToggleRequest(item: Todo): Request {
    EditRequest(item.id, Patch(None, Some(!item.completed)))
  }

  /** The overlay is shown while something is loading and this row is the one
      being deleted, the one the application is editing, or the one in edit mode
      here (`[deletingTodoId, editingTodoId, currentEditing].includes(id)`). */
  function IsLoaderActive(itemId: int, isLoading: bool, deletingTodoId: Option<int>,
                          editingTodoId: Option<int>, currentEditing: Option<int>): bool
  {
    isLoading && Some(itemId) in [deletingTodoId, editingTodoId, currentEditing]
  }

  /** The row's own state: the text of the edit field and the id of the row in
      edit mode (`None` when it shows the title). */
  class TodoItem {
    var editTitle: string
    var currentEditing: Option<int>

    constructor ()
      ensures editTitle == [] && currentEditing == None
    {
      editTitle := [];
      currentEditing := None;
    }

    /** Whether the row renders its edit field instead of its title and
        delete button (`currentEditing !== todoItem.id` picks the title). */
    predicate IsEditing(item: Todo)
      reads this
    {
      currentEditing == Some(item.id)
    }

    /** Double-click on the title: enter edit mode with the current title. */
    method HandleEdit(todo: Todo)
      modifies this
      ensures editTitle == todo.title && currentEditing == Some(todo.id)
      ensures IsEditing(todo)
    {
      editTitle := todo.title;
      currentEditing := Some(todo.id);
    }

    /** Typing in the edit field. */
    method HandleEditChange(value: string)
      modifies this
      ensures editTitle == value && currentEditing == old(currentEditing)
    {
      editTitle := value;
    }

    /** The edit field loses focus. A delete or an edit leaves the row in edit
        mode until the request settles; an unchanged title leaves edit mode now. */
    method HandleEditBlur(item: Todo) returns (request: Request)
      modifies this
      ensures request == BlurRequest(item, old(editTitle))
      ensures editTitle == old(editTitle)
      ensures currentEditing == if request == NoRequest then None else old(currentEditing)
      ensures request == NoRequest ==> !IsEditing(item)
    {
      request := BlurRequest(item, editTitle);
      if request == NoRequest {
        currentEditing := None;
      }
    }

    /** Settlement of the promise returned by `onEdit` for a saved title: a
        fulfilled edit leaves edit mode, a rejected one keeps the field open. */
    method HandleEditSettled(ok: bool)
      modifies this
      ensures currentEditing == if ok then None else old(currentEditing)
      ensures editTitle == old(editTitle)
    {
      if ok {
        currentEditing := None;
      }
    }

    /** A key press in the edit field: Enter acts exactly as a blur, Escape
        leaves edit mode and restores the row's title, other keys do nothing. */
    method HandleEditKeyDown(key: string, item: Todo) returns (request: Request)
      modifies this
      ensures key == "Enter" ==>
        && request == BlurRequest(item, old(editTitle))
        && editTitle == old(editTitle)
        && currentEditing == if request == NoRequest then None else old(currentEditing)
      ensures key == "Escape" ==>
        request == NoRequest && currentEditing == None && editTitle == item.title && !IsEditing(item)
      ensures key != "Enter" && key != "Escape" ==>
        request == NoRequest && editTitle == old(editTitle) && currentEditing == old(currentEditing)
    {
      if key == "Enter" {
        request := HandleEditBlur(item);
      } else if key == "Escape" {
        currentEditing := None;
        editTitle := item.title;
        request := NoRequest;
      } else {
        request := NoRequest;
      }
    }
  }
}
