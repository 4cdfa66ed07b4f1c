/** The records the application exchanges with its REST backend and the small
    enumerations shared by the components. */
module TodoTypes {

  datatype Option<T> = None | Some(value: T)

  /** How a request settled: fulfilled with the server's answer, or rejected
      (any non-2xx response or transport failure). */
  datatype Outcome<T> = Ok(value: T) | Fail

  /** The fixed user whose todos the application shows. */
  const USER_ID: int := 907

  /** A todo record; id 0 is reserved for the unsaved placeholder. */
  datatype Todo = Todo(id: int, userId: int, title: string, completed: bool)

  /** The partial record an update request sends; the components only ever
      send a title or a completion flag. */
  datatype Patch = Patch(title: Option<string>, completed: Option<bool>)

  /** The single-slot error banner's messages; `Default` means "no error". */
  datatype ErrorMessage = Default | Load | Add | Delete | Update | EmptyTitle

  /** The record the backend's `PATCH /todos/{id}` is expected to answer with:
      the stored record with the sent fields overwritten. */
  function ApplyPatch(t: Todo, p: Patch): Todo {
    t.(title := if p.title.Some? then p.title.value else t.title,
       completed := if p.completed.Some? then p.completed.value else t.completed)
  }
}
