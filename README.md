# Todo board API: card and task updates

A model of the two update routes of the kanban board's HTTP API
(`amplify/backend/function/todo/src/app.js`), over an in-memory picture of the
PostgreSQL tables they write:

- `cards`: a map from card id to `Card(userId, name, position)`;
- `tasks`: a map from task id to `Task(description, status, position, cardId)`.

Column values are nullable scalars (`Value = Null | Int | Text`). Fields of a
JSON request body are `Option<Value>`: `None` is an absent field, `Some(Null)`
a field sent as `null`. The database driver binds an absent field as SQL NULL
(`SqlParam`). So a kept task sent with a position but no status has its
stored status set to NULL (`PositionOnlyTaskClearsStatus`).

**PUT /cards/:id** (`Store.PutCard`, specified by the pure `PutCardOutcome`):
1. the card's name and position are overwritten (`UpdateCardRow`);
2. with no `tasks` list the reply is "Card updated successfully";
3. otherwise the stored rows of the incoming ids are read (`FetchRows`) and the
   list is filtered (`Selection`, `Keep`, `SelectionMembers`);
4. nothing kept: "Card and tasks updated successfully"; else each kept task, in
   list order, writes status, position and `card_id := id` to its row
   (`WriteTask`, `ApplyWrites`), and the reply is the same message.

The filter is not a diff. `oldTasks.some(...)` yields a boolean, and the
`status` and `position` of a boolean are undefined, so a task is kept exactly
when its own `status` or `position` field is present. The rows read in step 3
never affect the result (`Keep`, `SelectionIgnoresStoredRows`).
`FilterVersusIntendedDiff` contrasts this with the field-wise diff against the
matched stored row that the SELECT suggests was intended (`IntendedKeep`).
This model follows the code, not that intent: with stored tasks 1 (status
"todo", position 0) and 2 ("done", 1), and a body resending task 1 unchanged and
task 2 with status "in-progress", both rows are rewritten, not only task 2.

Any statement may fail in the database: the parameter `failAt` names the first
failing statement (0 the card UPDATE, 1 the SELECT, 2 + i the i-th task
UPDATE). A failure ends the route with "Update failed", and writes already made
stay, because there is no transaction.

**PUT /todos/:todo** (`Store.PutTodo`, `OverwriteTask`) overwrites the
description, position and card id of one task. On success it only sets the
status code 200 and never sends or ends the response (`StatusOnly(200)`). The
task's status is not touched. A database failure replies "Query
execution failed" and changes nothing.

Files: `wrappers.dfy` (Option), `todo_app.dfy` (data, statements, filter,
handlers), `card_update_properties.dfy` (properties of both routes).

## Model

| member | source | states |
|---|---|---|
| TodoApp.UpdateCardRow | amplify/backend/function/todo/src/app.js:116-121 | the card UPDATE sets name and position of exactly card `id`, keeps its owner, changes no other card, and changes nothing for an unknown id |
| TodoApp.WriteTask | amplify/backend/function/todo/src/app.js:136-141 | one task UPDATE sets status, position and card id of the named stored row, keeps its description, and leaves every other row and a missing id alone |
| TodoApp.ApplyWrites | amplify/backend/function/todo/src/app.js:134-142 | the loop of task UPDATEs adds and removes no row, keeps every description, and leaves each card id as it was or equal to the route id |
| TodoApp.OverwriteTask | amplify/backend/function/todo/src/app.js:154 | the task UPDATE of PUT /todos sets description, position and card id of exactly task `id`, keeps its status, and changes no other row |
| TodoApp.Keep | amplify/backend/function/todo/src/app.js:127-130 | the filter keeps a task iff its status or its position field is present, whatever the stored rows |
| TodoApp.Selection | amplify/backend/function/todo/src/app.js:127-130 | every kept task carries a status or a position field, no more tasks are kept than sent, and when every incoming task carries one the whole list is kept in order |
| TodoApp.SelectionMembers | amplify/backend/function/todo/src/app.js:127-133 | the kept tasks are exactly the incoming tasks with status or position present, and there are none iff no incoming task has either |
| TodoApp.SelectionIsSubsequence | amplify/backend/function/todo/src/app.js:127-130 | the kept tasks are a subsequence of the incoming list, in the same relative order |
| TodoApp.Store.PutCard | amplify/backend/function/todo/src/app.js:110-149 | the handler, issuing its statements one by one and looping over the kept tasks, leaves the tables and the reply that `PutCardOutcome` gives |
| TodoApp.Store.PutTodo | amplify/backend/function/todo/src/app.js:151-160 | the handler overwrites the task as `OverwriteTask` says and only sets status 200 without sending a response, or on failure changes nothing and replies "Query execution failed"; cards never change |
| TodoAppProperties.SelectionIgnoresStoredRows | amplify/backend/function/todo/src/app.js:126-130 | the selection is the same for any rows the SELECT returned |
| TodoAppProperties.SelectionOfConcat | amplify/backend/function/todo/src/app.js:127-130 | filtering a concatenation is the concatenation of the filtered parts, in order |
| TodoAppProperties.FilterVersusIntendedDiff | amplify/backend/function/todo/src/app.js:127-130 | an unchanged task resent with its status and position is kept though the intended diff drops it, and a task with neither field is dropped though the intended diff keeps it |
| TodoAppProperties.SelectedWritesAt | amplify/backend/function/todo/src/app.js:134-141 | after the task UPDATEs a stored row carries the status and position of the last kept task naming it, the route's card id and its old description, or is unchanged if no kept task names it |
| TodoAppProperties.PutCardCardRow | amplify/backend/function/todo/src/app.js:114-121 | a failed card UPDATE changes nothing and replies "Update failed"; otherwise only card `id` changes, to the body's name and position, and an unknown id changes no card |
| TodoAppProperties.PutCardWithoutTasks | amplify/backend/function/todo/src/app.js:123-125 | with no tasks list no task row changes and the reply is "Card updated successfully" |
| TodoAppProperties.PutCardEmptyTaskList | amplify/backend/function/todo/src/app.js:123-133 | an empty tasks list takes the tasks branch: its SELECT can fail the route, and otherwise the reply is "Card and tasks updated successfully" with no task row changed |
| TodoAppProperties.PutCardNothingSelected | amplify/backend/function/todo/src/app.js:131-133 | when no incoming task has status or position, no task row changes and the reply is "Card and tasks updated successfully" |
| TodoAppProperties.PutCardTaskRows | amplify/backend/function/todo/src/app.js:126-144 | without failure, each stored task named by a kept incoming task takes the last such task's status and position and the route id as card id, keeping its description; all other rows are unchanged and no row is added |
| TodoAppProperties.PositionOnlyTaskClearsStatus | amplify/backend/function/todo/src/app.js:134-141 | without failure, a kept task sent with a position but no status leaves its stored row with that position and a NULL status, unless a later kept task names the same row |
| TodoAppProperties.PutCardFailurePartway | amplify/backend/function/todo/src/app.js:134-148 | when the i-th task UPDATE fails, the card update and the first i task updates remain and the reply is "Update failed" |
| TodoAppProperties.PutCardReportsFailure | amplify/backend/function/todo/src/app.js:114-148 | the reply is "Update failed" iff a statement the route issued failed, and otherwise the success message of the branch taken |
| TodoAppProperties.PutCardKeepsCardRefs | amplify/backend/function/todo/src/app.js:116-141 | updating an existing card keeps every task pointing at an existing card, however far the route gets |
| TodoAppProperties.PutTodoCardRef | amplify/backend/function/todo/src/app.js:154 | overwriting a stored task keeps every task pointing at an existing card iff the body's cardId names one |

## Left out

- GET /cards (app.js:65-86): its grouping, ordering and null stripping happen inside PostgreSQL and are not part of this model.
- POST /todos and POST /cards (app.js:88-108): single INSERTs whose ids the database assigns; not modelled.
- Express setup, body parsing, CORS headers, `app.listen` and the Lambda export (app.js:1-17, 162-170): framework plumbing.
- Secret retrieval and connection setup, with its "Database connection failed" reply (app.js:19-63): network I/O and foreign libraries.
- Database errors are an oracle (`failAt`, `fail`) naming the failing statement; why PostgreSQL fails a statement (type errors, constraints, a route id that is not an integer) is not modelled.
- Ids are modelled as integers after PostgreSQL coerces the bound parameter; string route ids and the int8-as-string row ids are not modelled.
- The `id === task.id` comparison inside `some` is modelled as id membership; its result is discarded, so its coercion details cannot affect the outcome.
- A `tasks` value that is falsy but not absent (`null`, `false`, `0`, `""`) is modelled as absent (`None`); a truthy non-array value, on which `tasks.map` throws, is not modelled.
- Fields of incoming tasks other than `id`, `status` and `position` are not read by the route and are not in the model.
- JavaScript numbers are modelled as unbounded integers; floating point is not modelled.
- Foreign-key constraints are not modelled: a task UPDATE with a route id that names no card succeeds in the model.
- Concurrent requests and transaction isolation are outside the model.
- `amplify/backend/types/amplify-dependent-resources-ref.d.ts` (type declarations) and `src/App.js` (UI) are not part of this model.
- TodoApp.Store.PutTodo: on success the route sets status 200 and never sends or ends the response; the model shows this as the reply `StatusOnly(200)`, and a hanging request is not modelled further.
- Error logging with `console.error` (app.js:146, 157) is output only and is not modelled.
- A `null` element of the `tasks` list, on which reading `task.id` throws at app.js:126 so that the route replies "Update failed" after the card update, is not modelled: incoming tasks are always objects.
