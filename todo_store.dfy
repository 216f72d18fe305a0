/** The in-memory TODO table of main.py: the dict `todos_db`, the counter `next_id`, and the
    handlers that read and change them. Routing is left to the web framework; each handler is
    a method of the store that owns both globals. */
module TodoApi {
  import opened TodoModels
  import opened OrderedDict

  const DeletedMessage: string := "TODO deleted successfully"
  const ClearedMessage: string := "All TODOs cleared"

  /** Ids issued so far appear in the dict in the order they were issued. */
  ghost predicate Increasing(keys: seq<int>)
  {
    forall i, j :: 0 <= i < j < |keys| ==> keys[i] < keys[j]
  }

  /** Popping a key from an ascending key order leaves it ascending. */
  lemma RemoveKeepsIncreasing(keys: seq<int>, k: int)
    requires Increasing(keys) && k in keys
    ensures Increasing(Remove(keys, k))
  {
    var i := IndexOf(keys, k);
    assert Distinct(keys);
    RemoveAt(keys, i);
    var r := Remove(keys, k);
    forall a, b | 0 <= a < b < |r| ensures r[a] < r[b] {
      CutAt(keys, i, a);
      CutAt(keys, i, b);
    }
  }

  class TodoStore {
    /** `todos_db`, a Python dict: its keys in insertion order, and the record under each key. */
    var keys: seq<int>
    var todos: map<int, Todo>
    /** `next_id`: the id the next create hands out. */
    var nextId: int

    /** The table invariant: the key order lists exactly the dict's keys, ascending; every key
        was issued by the counter (so lies in 1 .. nextId - 1); every record's id is its key. */
    ghost predicate Valid()
      reads this
    {
      && 1 <= nextId
      && (forall k :: k in todos ==> 1 <= k < nextId && todos[k].id == k)
      && IsOrderOf(keys, todos)
      && Increasing(keys)
    }

    /** What `list(todos_db.values())` gives in this state. */
    ghost function Listing(): seq<Todo>
      reads this
      requires Valid()
    {
      Values(keys, todos)
    }

    /** The module-level initial state: an empty dict and `next_id = 1`. */
    constructor ()
      ensures Valid()
      ensures keys == [] && todos == map[] && nextId == 1
    {
      keys, todos, nextId := [], map[], 1;
    }

    /** `create_todo`: store a new record under `next_id`, then advance the counter. */
    method CreateTodo(todo: TodoBase, createdAt: string) returns (t: Todo)
      requires Valid()
      modifies this
      ensures Valid()
      ensures t == NewTodo(old(nextId), todo, createdAt)
      ensures t.id !in old(todos)
      ensures todos == old(todos)[t.id := t]
      ensures keys == old(keys) + [t.id]
      ensures nextId == old(nextId) + 1
      ensures Listing() == old(Listing()) + [t]
    {
      t := NewTodo(nextId, todo, createdAt);
      InsertOrder(keys, todos, nextId, t);
      ValuesAppend(keys, todos, nextId, t);
      keys := Insert(keys, nextId);
      todos := todos[nextId := t];
      nextId := nextId + 1;
    }

    /** `get_all_todos`: every stored record, one per key, in insertion order (which is also
        ascending id order). */
    method GetAllTodos() returns (list: seq<Todo>)
      requires Valid()
      ensures list == Listing()
      ensures |list| == |todos|
      ensures forall i :: 0 <= i < |list| ==> list[i] == todos[keys[i]]
      ensures forall k :: k in todos ==> todos[k] in list
      ensures forall i :: 0 <= i < |list| ==> list[i].id in todos && todos[list[i].id] == list[i]
      ensures forall i, j :: 0 <= i < j < |list| ==> list[i].id < list[j].id
    {
      list := Values(keys, todos);
      OneEntryPerKey(keys, todos);
      ValuesCover(keys, todos);
    }

    /** `get_todo`: 404 exactly when the id is not a key; otherwise the stored record. */
    method GetTodo(id: int) returns (r: Result<Todo>)
      requires Valid()
      ensures r.Err? <==> id !in todos
      ensures r.Err? ==> r.error == NotFound
      ensures r.Ok? ==> r.value == todos[id] && r.value.id == id
    {
      if id !in todos {
        return Err(NotFound);
      }
      r := Ok(todos[id]);
    }

    /** `update_todo`: 404 on an absent id; otherwise title, description and completed are
        replaced in place, and id, created_at, the key order, the other records and the counter
        stay as they were. */
    method UpdateTodo(id: int, todo: TodoBase) returns (r: Result<Todo>)
      requires Valid()
      modifies this
      ensures Valid()
      ensures r.Err? <==> id !in old(todos)
      ensures r.Err? ==> r.error == NotFound && todos == old(todos)
      ensures r.Ok? ==> r.value == WithBase(old(todos)[id], todo)
      ensures r.Ok? ==> todos == old(todos)[id := r.value]
      ensures r.Ok? ==> Listing() == old(Listing())[IndexOf(old(keys), id) := r.value]
      ensures keys == old(keys) && nextId == old(nextId)
    {
      if id !in todos {
        return Err(NotFound);
      }
      var t := WithBase(todos[id], todo);
      ValuesReplace(keys, todos, id, t);
      todos := todos[id := t];
      r := Ok(t);
    }

    /** `toggle_todo`: 404 on an absent id; otherwise `completed` is negated in place and
        nothing else changes. */
    method ToggleTodo(id: int) returns (r: Result<Todo>)
      requires Valid()
      modifies this
      ensures Valid()
      ensures r.Err? <==> id !in old(todos)
      ensures r.Err? ==> r.error == NotFound && todos == old(todos)
      ensures r.Ok? ==> r.value == Toggled(old(todos)[id])
      ensures r.Ok? ==> todos == old(todos)[id := r.value]
      ensures r.Ok? ==> Listing() == old(Listing())[IndexOf(old(keys), id) := r.value]
      ensures keys == old(keys) && nextId == old(nextId)
    {
      if id !in todos {
        return Err(NotFound);
      }
      var t := Toggled(todos[id]);
      ValuesReplace(keys, todos, id, t);
      todos := todos[id := t];
      r := Ok(t);
    }

    /** `delete_todo`: 404 on an absent id; otherwise exactly that key is popped and the record
        it held is returned. The counter is not touched. */
    method DeleteTodo(id: int) returns (r: Result<Deleted>)
      requires Valid()
      modifies this
      ensures Valid()
      ensures r.Err? <==> id !in old(todos)
      ensures r.Err? ==> r.error == NotFound && todos == old(todos) && keys == old(keys)
      ensures r.Ok? ==> r.value == Deleted(DeletedMessage, old(todos)[id])
      ensures r.Ok? ==> todos == old(todos) - {id} && keys == Remove(old(keys), id)
      ensures r.Ok? ==> var i := IndexOf(old(keys), id);
        Listing() == old(Listing())[..i] + old(Listing())[i + 1..]
      ensures nextId == old(nextId)
    {
      if id !in todos {
        return Err(NotFound);
      }
      var t := todos[id];
      ValuesRemove(keys, todos, id);
      RemoveOrder(keys, todos, id);
      RemoveKeepsIncreasing(keys, id);
      keys := Remove(keys, id);
      todos := todos - {id};
      r := Ok(Deleted(DeletedMessage, t));
    }

    /** `clear_all_todos`: the dict is emptied in place; `next_id` is not reset. */
    method ClearAllTodos() returns (message: string)
      requires Valid()
      modifies this
      ensures Valid()
      ensures todos == map[] && keys == [] && Listing() == []
      ensures nextId == old(nextId)
      ensures message == ClearedMessage
    {
      keys, todos := [], map[];
      message := ClearedMessage;
    }
  }

  /** A request sequence on a fresh table: create "buy milk", toggle it, delete it, then look
      it up again. */
  method ExampleSession(createdAt: string)
    returns (created: Todo, toggled: Result<Todo>, deleted: Result<Deleted>, after: Result<Todo>)
    ensures created == Todo(1, "buy milk", None, false, createdAt)
    ensures toggled == Ok(created.(completed := true))
    ensures deleted == Ok(Deleted(DeletedMessage, created.(completed := true)))
    ensures after == Err(NotFound)
  {
    var store := new TodoStore();
    created := store.CreateTodo(TodoBase("buy milk", None, false), createdAt);
    toggled := store.ToggleTodo(1);
    deleted := store.DeleteTodo(1);
    after := store.GetTodo(1);
  }

  /** Toggling the same id twice restores the table exactly. */
  method ToggleTwice(store: TodoStore, id: int) returns (first: Result<Todo>, second: Result<Todo>)
    requires store.Valid()
    modifies store
    ensures store.Valid()
    ensures first.Ok? <==> id in old(store.todos)
    ensures second.Ok? <==> id in old(store.todos)
    ensures second.Ok? ==> second.value == old(store.todos)[id]
    ensures store.todos == old(store.todos) && store.keys == old(store.keys)
    ensures store.nextId == old(store.nextId)
  {
    first := store.ToggleTodo(id);
    second := store.ToggleTodo(id);
    if first.Ok? {
      ToggleInvolution(old(store.todos)[id]);
    }
  }

  /** Once an id is deleted, both a lookup and a second delete of it answer 404. */
  method DeleteThenRetry(store: TodoStore, id: int)
    returns (deleted: Result<Deleted>, lookup: Result<Todo>, again: Result<Deleted>)
    requires store.Valid()
    modifies store
    ensures store.Valid()
    ensures deleted.Ok? <==> id in old(store.todos)
    ensures lookup == Err(NotFound) && again == Err(NotFound)
    ensures store.todos == old(store.todos) - {id} && store.nextId == old(store.nextId)
  {
    deleted := store.DeleteTodo(id);
    lookup := store.GetTodo(id);
    again := store.DeleteTodo(id);
  }

  /** Clearing keeps the counter, so an id issued after a clear was never issued before it,
      and the cleared table then holds only the new record. */
  method ClearThenCreate(store: TodoStore, todo: TodoBase, createdAt: string) returns (t: Todo)
    requires store.Valid()
    modifies store
    ensures store.Valid()
    ensures t.id == old(store.nextId)
    ensures forall k :: k in old(store.todos) ==> k < t.id
    ensures store.todos == map[t.id := t] && store.keys == [t.id]
  {
    var _ := store.ClearAllTodos();
    t := store.CreateTodo(todo, createdAt);
  }

  /** A record read back after create and update holds the update's fields, while its id and
      `created_at` are still the ones create gave it. */
  method CreateThenUpdate(store: TodoStore, todo: TodoBase, createdAt: string, change: TodoBase)
    returns (t: Todo, fetched: Result<Todo>)
    requires store.Valid()
    modifies store
    ensures store.Valid()
    ensures Base(t) == todo && t.createdAt == createdAt
    ensures fetched.Ok? && Base(fetched.value) == change
    ensures fetched.value.id == t.id && fetched.value.createdAt == createdAt
  {
    t := store.CreateTodo(todo, createdAt);
    var _ := store.UpdateTodo(t.id, change);
    fetched := store.GetTodo(t.id);
    NewTodoCarriesRequest(old(store.nextId), todo, createdAt);
    WithBaseRoundTrip(t, change);
  }

  /** Clearing is idempotent: a second clear leaves the same empty table and the same counter. */
  method ClearTwice(store: TodoStore) returns (first: string, second: string)
    requires store.Valid()
    modifies store
    ensures store.Valid()
    ensures first == second == ClearedMessage
    ensures store.todos == map[] && store.keys == [] && store.nextId == old(store.nextId)
  {
    first := store.ClearAllTodos();
    second := store.ClearAllTodos();
  }
}
