# TODO CRUD API: the in-memory table, in Dafny

The TODO API in `main.py` keeps all its data in two module globals. `todos_db` is a dict from integer ids to records `{id, title, description, completed, created_at}`. `next_id` is the id the next create hands out, starting at 1. Seven handlers work on them: create, list all, get one, update (full replace of title, description and completed), toggle `completed`, delete one, and clear all. A lookup of an id that is not a key answers HTTP 404 "TODO not found".

This project models that table and its handlers and proves what they promise:

- `todo_models.dfy` (module `TodoModels`) holds the records. `TodoBase` is what a client sends. `Todo` is a stored record. It also holds the 404 error and the result of each handler, plus the field-level changes that create, update and toggle make to one record.
- `ordered_dict.dfy` (module `OrderedDict`) models a Python dict's insertion order. It is a key sequence beside a map, with the orders produced by `d[k] = v`, `d.pop(k)` and `list(d.values())`.
- `todo_store.dfy` (module `TodoApi`) holds the class `TodoStore`. Its fields are `keys` and `todos` (together, `todos_db`) and `nextId` (`next_id`). It has one method per handler, and `Valid()` is the table invariant. The invariant says:
  - the key order lists each key once, in ascending order;
  - every key lies in `1 .. nextId - 1`;
  - every record's `id` equals its key.

  The module also holds client methods that run the API's request sequences on the store.

Each handler's 404 is an `Err(NotFound)` result, with `NotFound == HttpError(404, "TODO not found")`. Delete's response is `Deleted(message, deletedTodo)`. Clear returns the message `"All TODOs cleared"`. The wall-clock `created_at` is a parameter of create.

A multi-user variant of this API, with owners, password login and bearer tokens, has a stricter contract than `main.py`. Where the two differ, the model follows `main.py`:
- clear returns a message, not a count of removed records;
- create stores the client's `completed` (it defaults to false only when the client omits it);
- a title is any string, with no non-empty check;
- there are no users, owners or tokens.

## Model

| member | source | states |
|---|---|---|
| TodoModels.NewTodoCarriesRequest | main.py:27-33 | a created record has the allocated id, exactly the client's title, description and completed, and the given creation time |
| TodoModels.WithBaseRoundTrip | main.py:58-60 | after update the record's client fields read back as the request; id and created_at are untouched; writing back a record's own fields changes nothing |
| TodoModels.WithBaseLastWins | main.py:58-60 | update is a full replace: of two successive updates only the second's fields remain |
| TodoModels.ToggledChangesOnlyCompleted | main.py:70 | toggle negates completed and leaves id, title, description and created_at as they were |
| TodoModels.ToggleInvolution | main.py:70 | toggling a record twice gives back the original record |
| OrderedDict.Values | main.py:42 | `list(d.values())` has one entry per key of the order, and entry i is the value of the i-th key |
| OrderedDict.Remove | main.py:80 | the key order after `d.pop(k)` is no longer than before |
| OrderedDict.RemoveMembers | main.py:80 | after `d.pop(k)` the order holds exactly the previous keys other than k |
| OrderedDict.RemoveAt | main.py:80 | popping the key at position i of a distinct order cuts out exactly position i and keeps the others in order |
| OrderedDict.RemoveOrder | main.py:80 | after popping a present key the order is still an insertion order of the smaller dict (distinct, and covers every remaining key) |
| OrderedDict.InsertOrder | main.py:34 | `d[k] = v` appends a new key at the end, keeps the order of an existing key, and leaves an insertion order of the new dict |
| OrderedDict.OneEntryPerKey | main.py:42 | an insertion order has as many entries as the dict has keys |
| OrderedDict.ValuesCover | main.py:42 | every value of the dict appears in `list(d.values())` |
| OrderedDict.ValuesAppend | main.py:34 | storing under a new key appends exactly that value to the listing |
| OrderedDict.ValuesReplace | main.py:58-60 | replacing the value of an existing key changes only its own position in the listing |
| OrderedDict.ValuesRemove | main.py:80 | popping a key removes exactly its value from the listing; the others stay in order |
| TodoApi.RemoveKeepsIncreasing | main.py:80 | popping a key from an ascending id order leaves it ascending |
| TodoApi.TodoStore.constructor | main.py:19-20 | the initial table is empty with next id 1, and satisfies the table invariant |
| TodoApi.TodoStore.CreateTodo | main.py:24-36 | the new record is built from the request with id = old next_id; that id was not a key before; it is stored under that id, appended to the order and listing, every other entry unchanged; next_id grows by one; the invariant is kept |
| TodoApi.TodoStore.GetAllTodos | main.py:40-42 | returns exactly the stored records, one per key, in insertion order, which is ascending id order |
| TodoApi.TodoStore.GetTodo | main.py:45-49 | 404 exactly when the id is not a key; otherwise the stored record, whose id is the requested one |
| TodoApi.TodoStore.UpdateTodo | main.py:53-62 | 404 exactly when the id is absent, with the table unchanged; otherwise only that record changes, to the request's fields with id and created_at kept; its listing position is replaced in place; order and next_id unchanged; invariant kept |
| TodoApi.TodoStore.ToggleTodo | main.py:65-71 | 404 exactly when the id is absent, with the table unchanged; otherwise only that record's completed flips; its listing position is replaced in place; order and next_id unchanged; invariant kept |
| TodoApi.TodoStore.DeleteTodo | main.py:75-81 | 404 exactly when the id is absent, with the table unchanged; otherwise exactly that key is removed and the prior record is returned with the success message; its listing entry is cut out; next_id unchanged; invariant kept |
| TodoApi.TodoStore.ClearAllTodos | main.py:101-105 | the table and its listing become empty, next_id is not reset, the message is the fixed one; invariant kept |
| TodoApi.ExampleSession | main.py:24-81 | on a fresh table: create "buy milk" gives id 1 with completed false; toggle gives completed true; delete returns that toggled record; a later get answers 404 |
| TodoApi.ToggleTwice | main.py:65-71 | two toggles of one id leave the table exactly as it was, and both succeed exactly when the id is present |
| TodoApi.DeleteThenRetry | main.py:75-81 | after a delete, both a get and a second delete of that id answer 404 |
| TodoApi.CreateThenUpdate | main.py:24-62 | a record read back after create and update holds the update's fields with the id and created_at from create |
| TodoApi.ClearThenCreate | main.py:101-105 | after a clear, create hands out the old next_id, which is above every id in the table before the clear, and the table holds only the new record |
| TodoApi.ClearTwice | main.py:101-105 | clearing twice leaves the same empty table and the same next_id as clearing once |

## Left out

- HTTP routing, the decorators, response-model serialisation and the `HTTPException` mechanism are framework glue. A 404 is an error result here.
- Request validation of `TodoBase` and of path ids is done by the framework and is not modelled: a missing title or a non-integer id gives a 422. Title is a given string and description an optional string.
- `datetime.now().isoformat()` reads the wall clock. The creation time is a parameter of `CreateTodo`.
- `root()` returns a fixed description dictionary and has no behaviour to model.
- Server startup with `uvicorn` is process I/O.
- Users, password hashing, bearer tokens and per-owner scoping belong to the multi-user variant and are not in `main.py`; they are not part of this model.
- The model assumes requests are handled one at a time, each handler running to completion before the next starts. The handlers are plain functions, and the framework runs those on a worker thread pool, so in the running program two requests can interleave. The model does not capture what follows from that:
- Aliasing of returned records: records are values in the model, but a handler returns the very dict stored in the table (main.py:36, 49, 62, 71). A concurrent update or toggle can change that dict before it is serialised, so a response can show fields written by another request.
- Racing creates: two concurrent creates can both read `next_id` (main.py:28) before either increments it (main.py:35). The second then overwrites the first's entry (main.py:34), so in the running program fresh ids can collide. The proof that create never overwrites an entry holds only for one-at-a-time handling.
