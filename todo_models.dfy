/** The records of the TODO API (main.py) and the field-level changes its handlers make to one record. */
module TodoModels {

  datatype Option<+T> = None | Some(value: T)

  /** `TodoBase`: what a client supplies on create and on update. A missing description is `None`. */
  datatype TodoBase = TodoBase(title: string, description: Option<string>, completed: bool)

  /** A stored record: the dict `{id, title, description, completed, created_at}` the handlers build. */
  datatype Todo = Todo(id: int, title: string, description: Option<string>, completed: bool, createdAt: string)

  /** An `HTTPException`: a status code and a detail message. */
  datatype Error = HttpError(status: int, detail: string)

  /** The one error the handlers raise: 404 for an id that is not a key of the table. */
  const NotFound: Error := HttpError(404, "TODO not found")

  datatype Result<+T> = Ok(value: T) | Err(error: Error)

  /** The response of `delete_todo`: a message and the record that was removed. */
  datatype Deleted = Deleted(message: string, deletedTodo: Todo)

  /** The `TodoBase` part of a record: the three fields a client controls. */
  function Base(t: Todo): TodoBase
  {
    TodoBase(t.title, t.description, t.completed)
  }

  /** The record `create_todo` builds from the request, the id it allocates and the creation time. */
  function NewTodo(id: int, todo: TodoBase, createdAt: string): Todo
  {
    Todo(id, todo.title, todo.description, todo.completed, createdAt)
  }

  /** The record after `update_todo` overwrites title, description and completed. */
  function WithBase(t: Todo, todo: TodoBase): Todo
  {
    t.(title := todo.title, description := todo.description, completed := todo.completed)
  }

  /** The record after `toggle_todo` negates `completed`. */
  function Toggled(t: Todo): Todo
  {
    t.(completed := !t.completed)
  }

  /** A created record carries exactly the client's fields, the allocated id and the creation time. */
  lemma NewTodoCarriesRequest(id: int, todo: TodoBase, createdAt: string)
    ensures NewTodo(id, todo, createdAt).id == id
    ensures Base(NewTodo(id, todo, createdAt)) == todo
    ensures NewTodo(id, todo, createdAt).createdAt == createdAt
  {
  }

  /** Update is a full replace of the client fields: reading them back gives the request,
      `id` and `created_at` are untouched, and writing back a record's own fields changes nothing. */
  lemma WithBaseRoundTrip(t: Todo, todo: TodoBase)
    ensures Base(WithBase(t, todo)) == todo
    ensures WithBase(t, todo).id == t.id && WithBase(t, todo).createdAt == t.createdAt
    ensures WithBase(t, Base(t)) == t
  {
  }

  /** Two updates in a row leave only the second one's fields: nothing of the first survives. */
  lemma WithBaseLastWins(t: Todo, first: TodoBase, second: TodoBase)
    ensures WithBase(WithBase(t, first), second) == WithBase(t, second)
  {
  }

  /** Toggle changes `completed` and nothing else. */
  lemma ToggledChangesOnlyCompleted(t: Todo)
    ensures Toggled(t).completed == !t.completed
    ensures Toggled(t).id == t.id && Toggled(t).title == t.title
    ensures Toggled(t).description == t.description && Toggled(t).createdAt == t.createdAt
  {
  }

  /** Toggle is an involution: toggling twice gives back the original record. */
  lemma ToggleInvolution(t: Todo)
    ensures Toggled(Toggled(t)) == t
  {
  }
}
