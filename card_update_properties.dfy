/**
 * What PUT /cards/:id and PUT /todos/:todo do to the tables, stated over the
 * outcome functions of `TodoApp` for every body, every stored state and every
 * point at which the database may fail.
 */
module TodoAppProperties {
  import opened Wrappers
  import opened TodoApp

  // ---------------------------------------------------------------------------
  // The filter

  /** The selection is fixed by the incoming list alone: the rows fetched before it never matter. */
  lemma {:induction false} SelectionIgnoresStoredRows(incoming: seq<IncomingTask>, rows1: map<Id, Task>, rows2: map<Id, Task>)
    ensures Selection(incoming, rows1) == Selection(incoming, rows2)
    decreases |incoming|
  {
    if incoming != [] {
      SelectionIgnoresStoredRows(incoming[..|incoming| - 1], rows1, rows2);
    }
  }

  /** Filtering a concatenation filters each part and keeps them in order. */
  lemma {:induction false} SelectionOfConcat(a: seq<IncomingTask>, b: seq<IncomingTask>, rows: map<Id, Task>)
    ensures Selection(a + b, rows) == Selection(a, rows) + Selection(b, rows)
    decreases |b|
  {
    if b == [] {
      assert a + b == a;
    } else {
      var init, last := b[..|b| - 1], b[|b| - 1];
      assert b == init + [last];
      assert a + b == (a + init) + [last];
      var sa, si := Selection(a, rows), Selection(init, rows);
      SelectionOfConcat(a, init, rows);
      SelectionSnoc(a + init, last, rows);
      SelectionSnoc(init, last, rows);
      if HasStatusOrPosition(last) {
        assert Selection(a + b, rows) == (sa + si) + [last];
        assert Selection(b, rows) == si + [last];
        assert (sa + si) + [last] == sa + (si + [last]);
      } else {
        assert Selection(a + b, rows) == sa + si;
        assert Selection(b, rows) == si;
      }
    }
  }

  /**
   * The field-wise diff the route was evidently meant to compute: a task with
   * no stored row is written; otherwise one whose status or position differs
   * from the matched row is.
   */
  predicate IntendedKeep(t: IncomingTask, oldRows: map<Id, Task>)
  {
    match t.id
    case None => true
    case Some(k) =>
      k !in oldRows || t.status != Some(oldRows[k].status) || t.position != Some(oldRows[k].position)
  }

  /**
   * The filter is not that diff, in either direction: an unchanged task that
   * repeats its stored status and position is still written, and a task that
   * carries neither field is never written although its stored row differs.
   */
  lemma FilterVersusIntendedDiff(t: IncomingTask, oldRows: map<Id, Task>)
    ensures t.id.Some? && t.id.value in oldRows && t.status == Some(oldRows[t.id.value].status)
            && t.position == Some(oldRows[t.id.value].position)
            ==> Keep(t, oldRows) && !IntendedKeep(t, oldRows)
    ensures t.status.None? && t.position.None? ==> !Keep(t, oldRows) && IntendedKeep(t, oldRows)
  {
  }

  // ---------------------------------------------------------------------------
  // The task writes

  /** `t` is a task the filter keeps that names the stored row `k`. */
  predicate SelectedFor(t: IncomingTask, k: Id)
  {
    t.id == Some(k) && HasStatusOrPosition(t)
  }

  /** `s[i]` is the last element of `s` that is selected for row `k`. */
  predicate LastSelectedFor(s: seq<IncomingTask>, i: int, k: Id)
  {
    0 <= i < |s| && SelectedFor(s[i], k) && forall j :: i < j < |s| ==> !SelectedFor(s[j], k)
  }

  /** Appending one incoming task extends the selection by it exactly when the filter keeps it. */
  lemma SelectionSnoc(init: seq<IncomingTask>, last: IncomingTask, rows: map<Id, Task>)
    ensures Selection(init + [last], rows) ==
      if HasStatusOrPosition(last) then Selection(init, rows) + [last] else Selection(init, rows)
  {
    assert (init + [last])[..|init|] == init;
  }

  /** Issuing one more task UPDATE after a run of them. */
  lemma ApplyWritesSnoc(tasks: map<Id, Task>, sel: seq<IncomingTask>, t: IncomingTask, cardId: Id)
    ensures ApplyWrites(tasks, sel + [t], cardId) == WriteTask(ApplyWrites(tasks, sel, cardId), t, cardId)
  {
    assert (sel + [t])[..|sel|] == sel;
  }

  /** One more incoming task changes row `k` only when it is selected for `k`, and then to what it writes. */
  lemma SelectedWritesStep(tasks: map<Id, Task>, init: seq<IncomingTask>, last: IncomingTask, rows: map<Id, Task>,
                           cardId: Id, k: Id)
    requires k in tasks
    ensures var prev := ApplyWrites(tasks, Selection(init, rows), cardId);
      ApplyWrites(tasks, Selection(init + [last], rows), cardId)[k] ==
        if SelectedFor(last, k) then Written(tasks[k], last, cardId) else prev[k]
  {
    SelectionSnoc(init, last, rows);
    if HasStatusOrPosition(last) {
      ApplyWritesSnoc(tasks, Selection(init, rows), last, cardId);
    }
  }

  /**
   * Issuing the task UPDATEs for the selection of `s`: a stored row takes the
   * status and position of the last selected element naming it (and the card
   * id), keeping its description; a row no selected element names is unchanged.
   */
  lemma {:induction false} SelectedWritesAt(tasks: map<Id, Task>, s: seq<IncomingTask>, rows: map<Id, Task>, cardId: Id, k: Id)
    requires k in tasks
    ensures var r := ApplyWrites(tasks, Selection(s, rows), cardId);
      && k in r
      && (forall i :: LastSelectedFor(s, i, k) ==> r[k] == Written(tasks[k], s[i], cardId))
      && ((forall i :: 0 <= i < |s| ==> !SelectedFor(s[i], k)) ==> r[k] == tasks[k])
    decreases |s|
  {
    if s != [] {
      var init, last := s[..|s| - 1], s[|s| - 1];
      assert s == init + [last];
      SelectedWritesAt(tasks, init, rows, cardId, k);
      SelectedWritesStep(tasks, init, last, rows, cardId, k);
      var r := ApplyWrites(tasks, Selection(s, rows), cardId);
      forall i | LastSelectedFor(s, i, k)
        ensures r[k] == Written(tasks[k], s[i], cardId)
      {
        if i < |s| - 1 {
          assert LastSelectedFor(init, i, k);
        }
      }
      if forall i :: 0 <= i < |s| ==> !SelectedFor(s[i], k) {
        assert forall i :: 0 <= i < |init| ==> !SelectedFor(init[i], k);
      }
    }
  }

  // ---------------------------------------------------------------------------
  // PUT /cards/:id

  /**
   * The card row: a failing card UPDATE changes nothing and replies failure;
   * otherwise exactly the card `id` takes the body's name and position (an
   * unknown id changes no card), whatever happens to the tasks afterwards.
   */
  lemma PutCardCardRow(cards: map<Id, Card>, tasks: map<Id, Task>, id: Id, body: CardBody, failAt: Option<nat>)
    ensures var o := PutCardOutcome(cards, tasks, id, body, failAt);
      failAt == Some(0) ==> o == Outcome(cards, tasks, UpdateFailed)
    ensures var o := PutCardOutcome(cards, tasks, id, body, failAt);
      failAt != Some(0) ==>
        && o.cards.Keys == cards.Keys
        && (id in cards ==> o.cards[id] == Card(cards[id].userId, SqlParam(body.name), SqlParam(body.position)))
        && (forall k :: k in cards && k != id ==> o.cards[k] == cards[k])
  {
  }

  /** Without a `tasks` field the route touches no task and says only the card was updated. */
  lemma PutCardWithoutTasks(cards: map<Id, Card>, tasks: map<Id, Task>, id: Id, body: CardBody, failAt: Option<nat>)
    requires body.tasks.None? && failAt != Some(0)
    ensures var o := PutCardOutcome(cards, tasks, id, body, failAt);
      o.tasks == tasks && o.reply == CardUpdated
  {
  }

  /**
   * An empty `tasks` list is not an absent one: it takes the tasks branch,
   * issuing the SELECT (so its failure is reported) and replying that card
   * and tasks were updated, with no task row changed.
   */
  lemma PutCardEmptyTaskList(cards: map<Id, Card>, tasks: map<Id, Task>, id: Id, body: CardBody, failAt: Option<nat>)
    requires body.tasks == Some([]) && failAt != Some(0)
    ensures var o := PutCardOutcome(cards, tasks, id, body, failAt);
      o.tasks == tasks && o.reply == if failAt == Some(1) then UpdateFailed else CardAndTasksUpdated
  {
  }

  /** When the filter keeps nothing, no task row changes and the reply names card and tasks. */
  lemma PutCardNothingSelected(cards: map<Id, Card>, tasks: map<Id, Task>, id: Id, incoming: seq<IncomingTask>,
                               body: CardBody, failAt: Option<nat>)
    requires body.tasks == Some(incoming) && failAt != Some(0) && failAt != Some(1)
    requires forall i :: 0 <= i < |incoming| ==> !HasStatusOrPosition(incoming[i])
    ensures var o := PutCardOutcome(cards, tasks, id, body, failAt);
      o.tasks == tasks && o.reply == CardAndTasksUpdated
  {
    SelectionMembers(incoming, FetchRows(tasks, incoming));
  }

  /**
   * With no database failure, every stored task row ends up as the last
   * selected incoming task naming it wrote it (status, position, card id from
   * the route, description kept), or unchanged if none names it; no row is
   * added or removed, so incoming ids with no stored row change nothing.
   */
  lemma PutCardTaskRows(cards: map<Id, Card>, tasks: map<Id, Task>, id: Id, incoming: seq<IncomingTask>,
                        body: CardBody, k: Id)
    requires body.tasks == Some(incoming)
    ensures var o := PutCardOutcome(cards, tasks, id, body, None);
      && o.tasks.Keys == tasks.Keys
      && o.reply == CardAndTasksUpdated
      && (k in tasks ==>
           && (forall i :: LastSelectedFor(incoming, i, k) ==> o.tasks[k] == Written(tasks[k], incoming[i], id))
           && ((forall i :: 0 <= i < |incoming| ==> !SelectedFor(incoming[i], k)) ==> o.tasks[k] == tasks[k]))
  {
    var rows := FetchRows(tasks, incoming);
    var sel := Selection(incoming, rows);
    assert sel[..|sel|] == sel;
    if k in tasks {
      SelectedWritesAt(tasks, incoming, rows, id, k);
    }
  }

  /**
   * A kept task that carries `position` but no `status` still writes the
   * status column: the absent field is bound as NULL, so the stored status is
   * erased (when no later kept task names the same row).
   */
  lemma PositionOnlyTaskClearsStatus(cards: map<Id, Card>, tasks: map<Id, Task>, id: Id, incoming: seq<IncomingTask>,
                                     body: CardBody, i: nat)
    requires body.tasks == Some(incoming)
    requires i < |incoming| && incoming[i].id.Some? && incoming[i].id.value in tasks
    requires incoming[i].status.None? && incoming[i].position.Some?
    requires forall j :: i < j < |incoming| ==> !SelectedFor(incoming[j], incoming[i].id.value)
    ensures var o := PutCardOutcome(cards, tasks, id, body, None);
      var k := incoming[i].id.value;
      k in o.tasks && o.tasks[k].status == Null && o.tasks[k].position == incoming[i].position.value
  {
    var k := incoming[i].id.value;
    assert LastSelectedFor(incoming, i, k);
    PutCardTaskRows(cards, tasks, id, incoming, body, k);
  }

  /**
   * A failure partway through is not rolled back: when the i-th task UPDATE
   * fails, the card update and the first i task updates stay, and the reply
   * is failure.
   */
  lemma PutCardFailurePartway(cards: map<Id, Card>, tasks: map<Id, Task>, id: Id, incoming: seq<IncomingTask>,
                              body: CardBody, i: nat)
    requires body.tasks == Some(incoming)
    requires i < |Selection(incoming, FetchRows(tasks, incoming))|
    ensures var o := PutCardOutcome(cards, tasks, id, body, Some(2 + i));
      && o.reply == UpdateFailed
      && o.cards == UpdateCardRow(cards, id, body.name, body.position)
      && o.tasks == ApplyWrites(tasks, Selection(incoming, FetchRows(tasks, incoming))[..i], id)
  {
    var sel := Selection(incoming, FetchRows(tasks, incoming));
    assert WritesDone(Some(2 + i), |sel|) == i;
  }

  /** The statement that fails, if the route issues it at all. */
  predicate FailsIssuedStatement(tasks: map<Id, Task>, body: CardBody, failAt: Option<nat>)
  {
    || failAt == Some(0)
    || (body.tasks.Some? &&
        var sel := Selection(body.tasks.value, FetchRows(tasks, body.tasks.value));
        (failAt == Some(1) || (failAt.Some? && 2 <= failAt.value < 2 + |sel|)))
  }

  /** The route reports failure exactly when a statement it issued failed, and success otherwise. */
  lemma PutCardReportsFailure(cards: map<Id, Card>, tasks: map<Id, Task>, id: Id, body: CardBody, failAt: Option<nat>)
    ensures var o := PutCardOutcome(cards, tasks, id, body, failAt);
      o.reply == UpdateFailed <==> FailsIssuedStatement(tasks, body, failAt)
    ensures var o := PutCardOutcome(cards, tasks, id, body, failAt);
      !FailsIssuedStatement(tasks, body, failAt) ==>
        o.reply == if body.tasks.None? then CardUpdated else CardAndTasksUpdated
  {
  }

  // ---------------------------------------------------------------------------
  // The reference from a task to its card

  /** Every task names an existing card. */
  predicate CardRefsValid(cards: map<Id, Card>, tasks: map<Id, Task>)
  {
    forall k :: k in tasks ==> tasks[k].cardId.Int? && tasks[k].cardId.i in cards
  }

  /** Updating an existing card keeps every task pointing at an existing card, however far it gets. */
  lemma PutCardKeepsCardRefs(cards: map<Id, Card>, tasks: map<Id, Task>, id: Id, body: CardBody, failAt: Option<nat>)
    requires CardRefsValid(cards, tasks) && id in cards
    ensures var o := PutCardOutcome(cards, tasks, id, body, failAt);
      CardRefsValid(o.cards, o.tasks)
  {
  }

  /**
   * PUT /todos/:todo on a stored task keeps every task pointing at an existing
   * card exactly when the body's cardId names one.
   */
  lemma PutTodoCardRef(cards: map<Id, Card>, tasks: map<Id, Task>, todo: Id, body: TodoBody)
    requires CardRefsValid(cards, tasks) && todo in tasks
    ensures CardRefsValid(cards, OverwriteTask(tasks, todo, body)) <==>
      (SqlParam(body.cardId).Int? && SqlParam(body.cardId).i in cards)
  {
    var r := OverwriteTask(tasks, todo, body);
    assert r[todo].cardId == SqlParam(body.cardId);
  }
}
