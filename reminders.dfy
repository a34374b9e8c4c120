/**
 * One run of the bot's once-a-minute overdue check (`check_due_tasks`): fetch the pending
 * rows, and for each one parse its due date and send its user a reminder when that moment
 * lies strictly before `now`. A row whose date does not parse, or whose reminder cannot be
 * delivered, yields an error line and the run goes on with the next row. The run writes
 * nothing back: there is no record of a reminder having been sent.
 */
module Reminders {
  import opened Wrappers
  import opened DateTimes
  import opened DateParse
  import opened Tasks

  /** The content of one reminder message: the task, its due text and its recipient. */
  datatype Reminder = Reminder(taskId: int, userId: int, task: string, dueDate: string)

  datatype Cause = BadDueDate | Undeliverable

  /** What handling one row produces: a direct message sent, or an error line printed. */
  datatype Event = Sent(reminder: Reminder) | Error(userId: int, cause: Cause)

  function ReminderOf(r: Row): Reminder {
    Reminder(r.id, r.userId, r.task, r.dueDate)
  }

  /** `SELECT id, user_id, task, due_date FROM tasks WHERE completed = 0`, in table order. */
  function Incomplete(rows: seq<Row>): (pending: seq<Row>)
    ensures forall r :: r in pending <==> r in rows && r.completed == 0
  {
    if rows == [] then []
    else
      var last := rows[|rows| - 1];
      Incomplete(rows[..|rows| - 1]) + (if last.completed == 0 then [last] else [])
  }

  /** The query returns each pending row once and in table order. */
  lemma {:induction false} IncompleteOrdered(rows: seq<Row>, nextId: int)
    requires WellFormed(rows, nextId)
    ensures WellFormed(Incomplete(rows), nextId)
  {
    if rows != [] {
      var init, last := rows[..|rows| - 1], rows[|rows| - 1];
      IncompleteOrdered(init, nextId);
      var pending := Incomplete(init);
      if last.completed == 0 {
        forall x | x in pending
          ensures x.id < last.id
        {
          IdsBelowLast(rows, nextId, x);
        }
        AppendLarger(pending, nextId, last);
      } else {
        assert pending + [] == pending;
      }
    }
  }

  /** The due text parses and names a moment strictly before now. */
  predicate Overdue(dueDate: string, now: DateTime) {
    Parse(dueDate).Some? && Before(Parse(dueDate).value, now)
  }

  /**
   * The body of the loop for one fetched row; `undeliverable` holds the ids of the tasks whose
   * `fetch_user` or `send` call fails in this run.
   */
  function RowEvents(r: Row, now: DateTime, undeliverable: set<int>): (events: seq<Event>)
    ensures |events| <= 1
  {
    match Parse(r.dueDate)
    case None => [Error(r.userId, BadDueDate)]
    case Some(due) =>
      if !Before(due, now) then []
      else if r.id in undeliverable then [Error(r.userId, Undeliverable)]
      else [Sent(ReminderOf(r))]
  }

  /** The loop over the fetched rows, in order. */
  function PassEvents(pending: seq<Row>, now: DateTime, undeliverable: set<int>): (events: seq<Event>)
    ensures |events| <= |pending|
  {
    if pending == [] then []
    else
      PassEvents(pending[..|pending| - 1], now, undeliverable) +
      RowEvents(pending[|pending| - 1], now, undeliverable)
  }

  /** A run over one more row ends with that row's turn. */
  lemma PassEventsSnoc(pending: seq<Row>, r: Row, now: DateTime, undeliverable: set<int>)
    ensures PassEvents(pending + [r], now, undeliverable) ==
            PassEvents(pending, now, undeliverable) + RowEvents(r, now, undeliverable)
  {
    assert (pending + [r])[..|pending|] == pending;
  }

  /** One whole run over the table. */
  function ReminderPass(rows: seq<Row>, now: DateTime, undeliverable: set<int>): seq<Event> {
    PassEvents(Incomplete(rows), now, undeliverable)
  }

  /** The rows are handled one after the other, each independently of the rest. */
  lemma {:induction false} PassEventsAppend(a: seq<Row>, b: seq<Row>, now: DateTime,
                                            undeliverable: set<int>)
    ensures PassEvents(a + b, now, undeliverable) ==
            PassEvents(a, now, undeliverable) + PassEvents(b, now, undeliverable)
    decreases |b|
  {
    if b == [] {
      assert a + b == a;
    } else {
      var b' := b[..|b| - 1];
      assert (a + b)[..|a + b| - 1] == a + b';
      assert (a + b)[|a + b| - 1] == b[|b| - 1];
      PassEventsAppend(a, b', now, undeliverable);
    }
  }

  /**
   * A row whose due date fails to parse, or whose reminder cannot be delivered, costs one error
   * line; the rows before it and after it are handled exactly as if it were not there.
   */
  lemma FailingRowDoesNotStopPass(a: seq<Row>, r: Row, b: seq<Row>, now: DateTime,
                                  undeliverable: set<int>)
    requires Parse(r.dueDate).None? || (Overdue(r.dueDate, now) && r.id in undeliverable)
    ensures PassEvents(a + [r] + b, now, undeliverable) ==
            PassEvents(a, now, undeliverable) +
            [Error(r.userId, if Parse(r.dueDate).None? then BadDueDate else Undeliverable)] +
            PassEvents(b, now, undeliverable)
  {
    PassEventsAppend(a + [r], b, now, undeliverable);
    PassEventsAppend(a, [r], now, undeliverable);
    assert [r][..0] == [];
  }

  /** Every reminder sent is for an overdue fetched row whose delivery succeeds. */
  lemma {:induction false} PassSound(pending: seq<Row>, now: DateTime, undeliverable: set<int>,
                                     m: Reminder)
    requires Sent(m) in PassEvents(pending, now, undeliverable)
    ensures exists r :: r in pending && Overdue(r.dueDate, now) && r.id !in undeliverable &&
              m == ReminderOf(r)
  {
    var init, last := pending[..|pending| - 1], pending[|pending| - 1];
    if Sent(m) in PassEvents(init, now, undeliverable) {
      PassSound(init, now, undeliverable, m);
      var r :| r in init && Overdue(r.dueDate, now) && r.id !in undeliverable && m == ReminderOf(r);
      assert r in pending;
    } else {
      assert Sent(m) in RowEvents(last, now, undeliverable);
      assert last in pending;
    }
  }

  /** Every overdue fetched row whose delivery succeeds gets its reminder. */
  lemma {:induction false} PassComplete(pending: seq<Row>, now: DateTime, undeliverable: set<int>,
                                        r: Row)
    requires r in pending && Overdue(r.dueDate, now) && r.id !in undeliverable
    ensures Sent(ReminderOf(r)) in PassEvents(pending, now, undeliverable)
  {
    var init, last := pending[..|pending| - 1], pending[|pending| - 1];
    if r == last {
      assert RowEvents(r, now, undeliverable) == [Sent(ReminderOf(r))];
    } else {
      assert r in init by {
        var i :| 0 <= i < |pending| && pending[i] == r;
        assert i < |pending| - 1;
        assert init[i] == r;
      }
      PassComplete(init, now, undeliverable, r);
    }
  }

  /**
   * In a well-formed table a row is reminded in a run exactly when it is pending, its due
   * date parses to a moment strictly before now, and its delivery succeeds.
   */
  lemma RemindedIff(rows: seq<Row>, nextId: int, now: DateTime, undeliverable: set<int>, r: Row)
    requires WellFormed(rows, nextId) && r in rows
    ensures Sent(ReminderOf(r)) in ReminderPass(rows, now, undeliverable) <==>
              r.completed == 0 && Overdue(r.dueDate, now) && r.id !in undeliverable
  {
    var pending := Incomplete(rows);
    if Sent(ReminderOf(r)) in PassEvents(pending, now, undeliverable) {
      PassSound(pending, now, undeliverable, ReminderOf(r));
      var r' :| r' in pending && Overdue(r'.dueDate, now) && r'.id !in undeliverable &&
                ReminderOf(r) == ReminderOf(r');
      SameIdSameRow(rows, nextId, r, r');
    }
    if r.completed == 0 && Overdue(r.dueDate, now) && r.id !in undeliverable {
      PassComplete(pending, now, undeliverable, r);
    }
  }

  /** Ids are a key of a well-formed table. */
  lemma SameIdSameRow(rows: seq<Row>, nextId: int, r: Row, r': Row)
    requires WellFormed(rows, nextId) && r in rows && r' in rows && r.id == r'.id
    ensures r == r'
  {
    var i :| 0 <= i < |rows| && rows[i] == r;
    var j :| 0 <= j < |rows| && rows[j] == r';
  }

  /** A completed task gets no reminder at all, whatever its due date. */
  lemma CompletedNeverReminded(rows: seq<Row>, nextId: int, now: DateTime, undeliverable: set<int>,
                               r: Row)
    requires WellFormed(rows, nextId) && r in rows && r.completed != 0
    ensures forall e :: e in ReminderPass(rows, now, undeliverable) && e.Sent? ==>
              e.reminder.taskId != r.id
  {
    forall e | e in ReminderPass(rows, now, undeliverable) && e.Sent?
      ensures e.reminder.taskId != r.id
    {
      PassSound(Incomplete(rows), now, undeliverable, e.reminder);
      var r' :| r' in Incomplete(rows) && e.reminder == ReminderOf(r');
      if r'.id == r.id {
        SameIdSameRow(rows, nextId, r, r');
      }
    }
  }

  /** A task due exactly at `now` is not yet overdue. */
  lemma DueNowNotReminded(rows: seq<Row>, nextId: int, now: DateTime, undeliverable: set<int>,
                          r: Row)
    requires WellFormed(rows, nextId) && r in rows && Parse(r.dueDate) == Some(now)
    ensures Sent(ReminderOf(r)) !in ReminderPass(rows, now, undeliverable)
  {
    RemindedIff(rows, nextId, now, undeliverable, r);
    BeforeIrreflexive(now);
  }

  /**
   * No cooldown: a task reminded at one run is reminded again at every later run, whatever
   * else was assigned or completed in between, as long as it is still in the table unchanged,
   * still pending, and its delivery succeeds. A run itself changes nothing in the table.
   */
  lemma RemindedAgainLater(rows: seq<Row>, nextId: int, rowsLater: seq<Row>, nextIdLater: int,
                           now: DateTime, later: DateTime, undeliverable: set<int>,
                           undeliverableLater: set<int>, r: Row)
    requires WellFormed(rows, nextId) && r in rows
    requires WellFormed(rowsLater, nextIdLater) && r in rowsLater
    requires Sent(ReminderOf(r)) in ReminderPass(rows, now, undeliverable)
    requires !Before(later, now) && r.id !in undeliverableLater
    ensures Sent(ReminderOf(r)) in ReminderPass(rowsLater, later, undeliverableLater)
  {
    RemindedIff(rows, nextId, now, undeliverable, r);
    BeforeTotal(now, later);
    if Before(now, later) {
      BeforeTransitive(Parse(r.dueDate).value, now, later);
    }
    RemindedIff(rowsLater, nextIdLater, later, undeliverableLater, r);
  }

  /** A row whose due date parses to a moment not before now produces nothing: no message, no error line. */
  lemma NotYetDueIsSilent(r: Row, now: DateTime, undeliverable: set<int>)
    requires Parse(r.dueDate).Some? && !Before(Parse(r.dueDate).value, now)
    ensures RowEvents(r, now, undeliverable) == []
  {
  }

  /** The failure that makes a row print an error line with the given cause. */
  predicate FailsWith(r: Row, now: DateTime, undeliverable: set<int>, c: Cause) {
    if c == BadDueDate then Parse(r.dueDate).None?
    else Overdue(r.dueDate, now) && r.id in undeliverable
  }

  /** One row prints an error line with cause c exactly when it fails that way. */
  lemma RowErrorIff(r: Row, now: DateTime, undeliverable: set<int>, u: int, c: Cause)
    ensures Error(u, c) in RowEvents(r, now, undeliverable) <==>
              r.userId == u && FailsWith(r, now, undeliverable, c)
  {
  }

  /**
   * An error line for user u is printed in a run exactly when some fetched row of u has a due
   * date that does not parse (a bad-date line), or is overdue and its delivery fails (an
   * undeliverable line).
   */
  lemma {:induction false} ErrorIff(pending: seq<Row>, now: DateTime, undeliverable: set<int>,
                                    u: int, c: Cause)
    ensures Error(u, c) in PassEvents(pending, now, undeliverable) <==>
              exists r :: r in pending && r.userId == u && FailsWith(r, now, undeliverable, c)
  {
    if pending != [] {
      var init, last := pending[..|pending| - 1], pending[|pending| - 1];
      assert pending == init + [last];
      PassEventsSnoc(init, last, now, undeliverable);
      ErrorIff(init, now, undeliverable, u, c);
      RowErrorIff(last, now, undeliverable, u, c);
      if exists r :: r in pending && r.userId == u && FailsWith(r, now, undeliverable, c) {
        var r :| r in pending && r.userId == u && FailsWith(r, now, undeliverable, c);
        if r != last {
          InInit(pending, r);
        }
      }
      if exists r :: r in init && r.userId == u && FailsWith(r, now, undeliverable, c) {
        var r :| r in init && r.userId == u && FailsWith(r, now, undeliverable, c);
        assert r in pending;
      }
    }
  }

  /** A table whose due dates all parse never produces a bad-date error line. */
  lemma {:induction false} NoBadDateErrors(pending: seq<Row>, now: DateTime, undeliverable: set<int>)
    requires forall r :: r in pending ==> Parse(r.dueDate).Some?
    ensures forall e :: e in PassEvents(pending, now, undeliverable) ==>
              !(e.Error? && e.cause == BadDueDate)
  {
    if pending != [] {
      var init := pending[..|pending| - 1];
      assert pending[|pending| - 1] in pending;
      forall r | r in init ensures Parse(r.dueDate).Some? {
        assert r in pending;
      }
      NoBadDateErrors(init, now, undeliverable);
    }
  }

  /** Inserting a task leaves the run over the earlier rows as it was, followed by the new row's turn. */
  lemma InsertExtendsPass(rows: seq<Row>, r: Row, now: DateTime, undeliverable: set<int>)
    requires r.completed == 0
    ensures ReminderPass(rows + [r], now, undeliverable) ==
            ReminderPass(rows, now, undeliverable) + RowEvents(r, now, undeliverable)
  {
    assert (rows + [r])[..|rows|] == rows;
    PassEventsAppend(Incomplete(rows), [r], now, undeliverable);
    assert [r][..0] == [];
  }

  /** Once the owner completes a task, no later run reminds anyone of it. */
  lemma CompletedTaskNoLongerReminded(rows: seq<Row>, nextId: int, taskId: int, callerId: int,
                                      now: DateTime, undeliverable: set<int>)
    requires WellFormed(rows, nextId)
    requires exists r :: r in rows && Owns(r, taskId, callerId)
    ensures forall e ::
              (e in ReminderPass(CompleteRows(rows, taskId, callerId), now, undeliverable) && e.Sent?)
              ==> e.reminder.taskId != taskId
  {
    var r :| r in rows && Owns(r, taskId, callerId);
    var i :| 0 <= i < |rows| && rows[i] == r;
    var after := CompleteRows(rows, taskId, callerId);
    CompleteEffect(rows, taskId, callerId);
    CompleteTouchesOneRow(rows, nextId, taskId, callerId);
    assert after[i] in after;
    CompletedNeverReminded(after, nextId, now, undeliverable, after[i]);
  }
}
