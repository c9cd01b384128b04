/**
 * The card-update and task-update routes of the todo API, over an in-memory
 * picture of the two PostgreSQL tables `cards` and `tasks`.
 *
 * Every SQL statement the routes issue is a pure function on the tables;
 * the request handlers are methods of `Store`, which issues them one by one.
 */
module TodoApp {
  import opened Wrappers

  /** Row identifiers, after PostgreSQL has coerced the bound parameter. */
  type Id = int

  /** A nullable scalar column value. */
  datatype Value = Null | Int(i: int) | Text(s: string)

  /** A row of `cards` (its key is the map key). */
  datatype Card = Card(userId: Value, name: Value, position: Value)

  /** A row of `tasks` (its key is the map key). */
  datatype Task = Task(description: Value, status: Value, position: Value, cardId: Value)

  /**
   * One element of the `tasks` list in a card-update body. `None` is a field
   * absent from the JSON object; `Some(Null)` is a field present as `null`.
   */
  datatype IncomingTask = IncomingTask(id: Option<Id>, status: Option<Value>, position: Option<Value>)

  /** Body of PUT /cards/:id; `tasks` is `None` when absent or any falsy value. */
  datatype CardBody = CardBody(name: Option<Value>, position: Option<Value>, tasks: Option<seq<IncomingTask>>)

  /** Body of PUT /todos/:todo. */
  datatype TodoBody = TodoBody(description: Option<Value>, position: Option<Value>, cardId: Option<Value>)

  /**
   * What the route leaves on the response: a JSON message that is sent, or a
   * status code that is set while the response is never sent (no body, not ended).
   */
  datatype Reply = Message(code: int, text: string) | StatusOnly(code: int)

  const CardUpdated := Message(200, "Card updated successfully")
  const CardAndTasksUpdated := Message(200, "Card and tasks updated successfully")
  const UpdateFailed := Message(500, "Update failed")
  const QueryFailed := Message(500, "Query execution failed")
  const TodoUpdated := StatusOnly(200)

  /** The value a bound query parameter takes: an absent field is bound as NULL. */
  function SqlParam(field: Option<Value>): (v: Value)
    ensures field.Some? ==> v == field.value
    ensures field.None? ==> v.Null?
  {
    match field
    case None => Null
    case Some(x) => x
  }

  // ---------------------------------------------------------------------------
  // The SQL statements, as functions on the tables

  /** UPDATE cards SET name = $1, position = $2 WHERE id = $3 */
  function UpdateCardRow(cards: map<Id, Card>, id: Id, name: Option<Value>, position: Option<Value>): (r: map<Id, Card>)
    ensures r.Keys == cards.Keys
    ensures id in cards ==> r[id] == Card(cards[id].userId, SqlParam(name), SqlParam(position))
    ensures forall k :: k in cards && k != id ==> r[k] == cards[k]
  {
    if id in cards then cards[id := cards[id].(name := SqlParam(name), position := SqlParam(position))]
    else cards
  }

  /** The row a task UPDATE of the card route leaves behind: its description is kept. */
  function Written(row: Task, t: IncomingTask, cardId: Id): (written: Task)
  {
    Task(row.description, SqlParam(t.status), SqlParam(t.position), Int(cardId))
  }

  /** UPDATE tasks SET status = $1, position = $2, card_id = $3 WHERE id = $4 */
  function WriteTask(tasks: map<Id, Task>, t: IncomingTask, cardId: Id): (r: map<Id, Task>)
    ensures r.Keys == tasks.Keys
    ensures forall k :: k in tasks && t.id != Some(k) ==> r[k] == tasks[k]
    ensures t.id.Some? && t.id.value in tasks ==>
      r[t.id.value] == Task(tasks[t.id.value].description, SqlParam(t.status), SqlParam(t.position), Int(cardId))
  {
    match t.id
    case Some(k) => if k in tasks then tasks[k := Written(tasks[k], t, cardId)] else tasks
    case None => tasks
  }

  /** The task UPDATEs of the card route issued in order, one per element of `sel`. */
  function ApplyWrites(tasks: map<Id, Task>, sel: seq<IncomingTask>, cardId: Id): (r: map<Id, Task>)
    ensures r.Keys == tasks.Keys
    ensures forall k :: k in tasks ==> r[k].description == tasks[k].description
    ensures forall k :: k in tasks ==> r[k].cardId == tasks[k].cardId || r[k].cardId == Int(cardId)
    decreases |sel|
  {
    if sel == [] then tasks
    else WriteTask(ApplyWrites(tasks, sel[..|sel| - 1], cardId), sel[|sel| - 1], cardId)
  }

  /** UPDATE tasks SET description = $1, position = $2, card_id = $3 WHERE id = $4 */
  function OverwriteTask(tasks: map<Id, Task>, id: Id, body: TodoBody): (r: map<Id, Task>)
    ensures r.Keys == tasks.Keys
    ensures id in tasks ==>
      r[id] == Task(SqlParam(body.description), tasks[id].status, SqlParam(body.position), SqlParam(body.cardId))
    ensures forall k :: k in tasks && k != id ==> r[k] == tasks[k]
  {
    if id in tasks then
      tasks[id := tasks[id].(description := SqlParam(body.description), position := SqlParam(body.position),
                             cardId := SqlParam(body.cardId))]
    else tasks
  }

  /** The ids the card route asks for: every id present in the incoming list. */
  function IncomingIds(incoming: seq<IncomingTask>): (ids: set<Id>)
  {
    set t | t in incoming && t.id.Some? :: t.id.value
  }

  /** SELECT id, status, position FROM tasks WHERE id = ANY($1) */
  function FetchRows(tasks: map<Id, Task>, incoming: seq<IncomingTask>): (rows: map<Id, Task>)
    ensures rows.Keys == tasks.Keys * IncomingIds(incoming)
    ensures forall k :: k in rows ==> rows[k] == tasks[k]
  {
    map k | k in tasks && k in IncomingIds(incoming) :: tasks[k]
  }

  // ---------------------------------------------------------------------------
  // The task filter

  /** A task carries a `status` or a `position` field (present, possibly as null). */
  predicate HasStatusOrPosition(t: IncomingTask)
  {
    t.status.Some? || t.position.Some?
  }

  /**
   * The JavaScript expression `currentTask.status` (or `.position`) when
   * `currentTask` is a boolean: a boolean primitive has no such property, so
   * the value is undefined whatever `b` is. It only documents that expression.
   */
  function PropertyOfBoolean(b: bool): (property: Option<Value>)
  {
    None
  }

  /**
   * The filter predicate: `currentTask` is the boolean "some stored row has
   * this id", and its `status` and `position` are both undefined, so the
   * stored rows never matter.
   */
  function Keep(t: IncomingTask, oldRows: map<Id, Task>): (keep: bool)
    ensures keep <==> HasStatusOrPosition(t)
  {
    var currentTask := t.id.Some? && t.id.value in oldRows;
    t.status != PropertyOfBoolean(currentTask) || t.position != PropertyOfBoolean(currentTask)
  }

  /** `a` is a subsequence of `b`: `b` with some elements removed, order kept. */
  predicate Subsequence<T(==)>(a: seq<T>, b: seq<T>)
    decreases |b|
  {
    if a == [] then true
    else if b == [] then false
    else if a[|a| - 1] == b[|b| - 1] then Subsequence(a[..|a| - 1], b[..|b| - 1])
    else Subsequence(a, b[..|b| - 1])
  }

  /** `tasks.filter(Keep)`: the incoming tasks the route writes, in list order. */
  function Selection(incoming: seq<IncomingTask>, oldRows: map<Id, Task>): (sel: seq<IncomingTask>)
    ensures |sel| <= |incoming|
    ensures forall i :: 0 <= i < |sel| ==> HasStatusOrPosition(sel[i])
    ensures (forall i :: 0 <= i < |incoming| ==> HasStatusOrPosition(incoming[i])) ==> sel == incoming
    decreases |incoming|
  {
    if incoming == [] then []
    else
      var rest := Selection(incoming[..|incoming| - 1], oldRows);
      var last := incoming[|incoming| - 1];
      if Keep(last, oldRows) then rest + [last] else rest
  }

  /**
   * The selection holds exactly the incoming tasks with a status or a
   * position field, and is empty exactly when no incoming task has either.
   */
  lemma {:induction false} SelectionMembers(incoming: seq<IncomingTask>, oldRows: map<Id, Task>)
    ensures forall t :: t in Selection(incoming, oldRows) <==> t in incoming && HasStatusOrPosition(t)
    ensures Selection(incoming, oldRows) == [] <==> forall t :: t in incoming ==> !HasStatusOrPosition(t)
    decreases |incoming|
  {
    if incoming != [] {
      var init, last := incoming[..|incoming| - 1], incoming[|incoming| - 1];
      assert incoming == init + [last];
      SelectionMembers(init, oldRows);
    }
  }

  /** The selection is a subsequence of the incoming list: nothing reordered, nothing added. */
  lemma {:induction false} SelectionIsSubsequence(incoming: seq<IncomingTask>, oldRows: map<Id, Task>)
    ensures Subsequence(Selection(incoming, oldRows), incoming)
    decreases |incoming|
  {
    if incoming != [] {
      var init, last := incoming[..|incoming| - 1], incoming[|incoming| - 1];
      var rest := Selection(init, oldRows);
      SelectionIsSubsequence(init, oldRows);
      SelectionMembers(init, oldRows);
      if Keep(last, oldRows) {
        assert (rest + [last])[..|rest|] == rest;
      } else if rest != [] {
        assert rest[|rest| - 1] in rest;
      }
    }
  }

  /**
   * Of `failAt`, the index of the first statement that fails (0 the card
   * UPDATE, 1 the SELECT, 2 + i the i-th task UPDATE), the number of task
   * UPDATEs out of `n` that complete before it.
   */
  function WritesDone(failAt: Option<nat>, n: nat): (done: nat)
    ensures done <= n
    ensures done < n <==> failAt.Some? && 2 <= failAt.value < 2 + n
    ensures done < n ==> failAt == Some(2 + done)
  {
    if failAt.Some? && 2 <= failAt.value < 2 + n then failAt.value - 2 else n
  }

  /** The tables and the reply after one PUT /cards/:id. */
  datatype Outcome = Outcome(cards: map<Id, Card>, tasks: map<Id, Task>, reply: Reply)

  /**
   * PUT /cards/:id, statement by statement: what the tables and the reply
   * are when the database fails the statement `failAt` (if any).
   */
  function PutCardOutcome(cards: map<Id, Card>, tasks: map<Id, Task>, id: Id, body: CardBody,
                          failAt: Option<nat>): (outcome: Outcome)
  {
    if failAt == Some(0) then Outcome(cards, tasks, UpdateFailed)
    else
      var cards' := UpdateCardRow(cards, id, body.name, body.position);
      match body.tasks
      case None => Outcome(cards', tasks, CardUpdated)
      case Some(incoming) =>
        if failAt == Some(1) then Outcome(cards', tasks, UpdateFailed)
        else
          var sel := Selection(incoming, FetchRows(tasks, incoming));
          if |sel| == 0 then Outcome(cards', tasks, CardAndTasksUpdated)
          else
            var done := WritesDone(failAt, |sel|);
            Outcome(cards', ApplyWrites(tasks, sel[..done], id),
                    if done < |sel| then UpdateFailed else CardAndTasksUpdated)
  }

  // ---------------------------------------------------------------------------
  // The request handlers

  class Store {
    var cards: map<Id, Card>
    var tasks: map<Id, Task>

    constructor (cards: map<Id, Card>, tasks: map<Id, Task>)
      ensures this.cards == cards && this.tasks == tasks
    {
      this.cards := cards;
      this.tasks := tasks;
    }

    /** PUT /cards/:id with the given body; `failAt` as in `WritesDone`. */
    method PutCard(id: Id, body: CardBody, failAt: Option<nat>) returns (reply: Reply)
      modifies this
      ensures Outcome(cards, tasks, reply) == PutCardOutcome(old(cards), old(tasks), id, body, failAt)
    {
      if failAt == Some(0) {
        return UpdateFailed;
      }
      cards := UpdateCardRow(cards, id, body.name, body.position);
      if body.tasks.None? {
        return CardUpdated;
      }
      var incoming := body.tasks.value;
      if failAt == Some(1) {
        return UpdateFailed;
      }
      var oldTasks := FetchRows(tasks, incoming);
      var filtered := Selection(incoming, oldTasks);
      if |filtered| == 0 {
        return CardAndTasksUpdated;
      }
      var i := 0;
      while i < |filtered|
        invariant 0 <= i <= |filtered|
        invariant cards == UpdateCardRow(old(cards), id, body.name, body.position)
        invariant tasks == ApplyWrites(old(tasks), filtered[..i], id)
        invariant WritesDone(failAt, |filtered|) >= i
      {
        if failAt == Some(2 + i) {
          return UpdateFailed;
        }
        assert filtered[..i + 1][..i] == filtered[..i];
        tasks := WriteTask(tasks, filtered[i], id);
        i := i + 1;
      }
      assert filtered[..i] == filtered;
      return CardAndTasksUpdated;
    }

    /** PUT /todos/:todo with the given body; `fail` is a database failure of the one UPDATE. */
    method PutTodo(todo: Id, body: TodoBody, fail: bool) returns (reply: Reply)
      modifies this
      ensures cards == old(cards)
      ensures tasks == if fail then old(tasks) else OverwriteTask(old(tasks), todo, body)
      ensures reply == if fail then QueryFailed else TodoUpdated
    {
      if fail {
        return QueryFailed;
      }
      tasks := OverwriteTask(tasks, todo, body);
      return TodoUpdated;
    }
  }
}
