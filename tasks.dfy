/**
 * The `tasks` table of bot.py and the queries and updates its slash commands run on it,
 * as functions on the sequence of rows in rowid order.
 */
module Tasks {

  /** One row: (id, user_id, username, task, due_date, completed). */
  datatype Row = Row(id: int, userId: int, username: string, task: string, dueDate: string,
                     completed: int)

  /**
   * What the bot's own statements keep true of the table: AUTOINCREMENT ids start at 1, grow
   * with every insert and stay below the next id to be handed out; `completed` is only ever
   * the column default 0 or the 1 that /complete writes.
   */
  predicate WellFormed(rows: seq<Row>, nextId: int) {
    1 <= nextId &&
    (forall i :: 0 <= i < |rows| ==> 1 <= rows[i].id < nextId && rows[i].completed in {0, 1}) &&
    (forall i, j :: 0 <= i < j < |rows| ==> rows[i].id < rows[j].id)
  }

  /** The row /assign inserts: the columns it names, and the default `completed = 0`. */
  function NewRow(id: int, userId: int, username: string, task: string, dueDate: string): Row {
    Row(id, userId, username, task, dueDate, 0)
  }

  /** Inserting with the next AUTOINCREMENT id keeps the table well formed, under a fresh id. */
  lemma InsertKeepsWellFormed(rows: seq<Row>, nextId: int, userId: int, username: string,
                              task: string, dueDate: string)
    requires WellFormed(rows, nextId)
    ensures forall r :: r in rows ==> r.id != nextId
    ensures WellFormed(rows + [NewRow(nextId, userId, username, task, dueDate)], nextId + 1)
  {
  }

  /** `WHERE id = ? AND user_id = ?` of /complete. */
  predicate Owns(r: Row, taskId: int, callerId: int) {
    r.id == taskId && r.userId == callerId
  }

  /** `UPDATE tasks SET completed = 1 WHERE id = ? AND user_id = ?`, row by row. */
  function CompleteRows(rows: seq<Row>, taskId: int, callerId: int): (result: seq<Row>)
    ensures |result| == |rows|
  {
    if rows == [] then []
    else
      var last := rows[|rows| - 1];
      CompleteRows(rows[..|rows| - 1], taskId, callerId) +
      [if Owns(last, taskId, callerId) then last.(completed := 1) else last]
  }

  /** Updating one more row extends the updated table by that row's new value. */
  lemma CompleteRowsSnoc(rows: seq<Row>, r: Row, taskId: int, callerId: int)
    ensures CompleteRows(rows + [r], taskId, callerId) ==
            CompleteRows(rows, taskId, callerId) +
            [if Owns(r, taskId, callerId) then r.(completed := 1) else r]
  {
    assert (rows + [r])[..|rows|] == rows;
  }

  /** The update marks exactly the caller's rows with that id and leaves every other row as it was. */
  lemma {:induction false} CompleteEffect(rows: seq<Row>, taskId: int, callerId: int)
    ensures forall i :: 0 <= i < |rows| && Owns(rows[i], taskId, callerId) ==>
              CompleteRows(rows, taskId, callerId)[i] == rows[i].(completed := 1)
    ensures forall i :: 0 <= i < |rows| && !Owns(rows[i], taskId, callerId) ==>
              CompleteRows(rows, taskId, callerId)[i] == rows[i]
  {
    if rows != [] {
      CompleteEffect(rows[..|rows| - 1], taskId, callerId);
    }
  }

  /** An id that is not the caller's, or no such id at all, leaves the table unchanged. */
  lemma {:induction false} CompleteMismatchIsNoOp(rows: seq<Row>, taskId: int, callerId: int)
    requires forall r :: r in rows ==> !Owns(r, taskId, callerId)
    ensures CompleteRows(rows, taskId, callerId) == rows
  {
    CompleteEffect(rows, taskId, callerId);
  }

  /** Completing the same task twice is the same as completing it once. */
  lemma {:induction false} CompleteIdempotent(rows: seq<Row>, taskId: int, callerId: int)
    ensures CompleteRows(CompleteRows(rows, taskId, callerId), taskId, callerId) ==
            CompleteRows(rows, taskId, callerId)
  {
    var once := CompleteRows(rows, taskId, callerId);
    CompleteEffect(rows, taskId, callerId);
    CompleteEffect(once, taskId, callerId);
  }

  /** No completed row becomes pending again, and a pending row stays pending unless it is the caller's. */
  lemma {:induction false} CompleteNeverReopens(rows: seq<Row>, taskId: int, callerId: int)
    ensures forall i :: 0 <= i < |rows| && rows[i].completed != 0 ==>
              CompleteRows(rows, taskId, callerId)[i].completed != 0
    ensures forall i :: 0 <= i < |rows| && CompleteRows(rows, taskId, callerId)[i].completed == 0 ==>
              rows[i].completed == 0 && !Owns(rows[i], taskId, callerId)
  {
    CompleteEffect(rows, taskId, callerId);
  }

  /** In a well-formed table the update touches at most one row and keeps the table well formed. */
  lemma CompleteTouchesOneRow(rows: seq<Row>, nextId: int, taskId: int, callerId: int)
    requires WellFormed(rows, nextId)
    ensures WellFormed(CompleteRows(rows, taskId, callerId), nextId)
    ensures forall i, j ::
              (0 <= i < |rows| && 0 <= j < |rows| &&
               CompleteRows(rows, taskId, callerId)[i] != rows[i] &&
               CompleteRows(rows, taskId, callerId)[j] != rows[j]) ==> i == j
  {
    CompleteEffect(rows, taskId, callerId);
    var result := CompleteRows(rows, taskId, callerId);
    forall i, j | 0 <= i < j < |rows|
      ensures result[i].id < result[j].id
    {
    }
  }

  /** `SELECT ... FROM tasks WHERE user_id = ?` of /tasks, in table order. */
  function UserTasks(rows: seq<Row>, userId: int): (mine: seq<Row>)
    ensures forall r :: r in mine <==> r in rows && r.userId == userId
  {
    if rows == [] then []
    else
      var last := rows[|rows| - 1];
      UserTasks(rows[..|rows| - 1], userId) + (if last.userId == userId then [last] else [])
  }

  /** An element of a sequence other than its last one lies in the sequence without its last. */
  lemma InInit<T>(s: seq<T>, x: T)
    requires x in s && x != s[|s| - 1]
    ensures x in s[..|s| - 1]
  {
    var i :| 0 <= i < |s| && s[i] == x;
    assert s[..|s| - 1][i] == x;
  }

  /** Every row before the last of a well-formed table has a smaller id than the last. */
  lemma IdsBelowLast(rows: seq<Row>, nextId: int, x: Row)
    requires WellFormed(rows, nextId) && |rows| > 0 && x in rows[..|rows| - 1]
    ensures x.id < rows[|rows| - 1].id
  {
    var i :| 0 <= i < |rows| - 1 && rows[i] == x;
  }

  /** A row whose id exceeds every id of a well-formed table can be appended to it. */
  lemma AppendLarger(rows: seq<Row>, nextId: int, r: Row)
    requires WellFormed(rows, nextId)
    requires 1 <= r.id < nextId && r.completed in {0, 1}
    requires forall x :: x in rows ==> x.id < r.id
    ensures WellFormed(rows + [r], nextId)
  {
    var s := rows + [r];
    forall i, j | 0 <= i < j < |s|
      ensures s[i].id < s[j].id
    {
      if j == |rows| {
        assert s[i] in rows;
      }
    }
  }

  /**
   * The query returns each of the caller's rows once and in table order: its result keeps the
   * table's strictly increasing ids.
   */
  lemma {:induction false} UserTasksOrdered(rows: seq<Row>, nextId: int, userId: int)
    requires WellFormed(rows, nextId)
    ensures WellFormed(UserTasks(rows, userId), nextId)
  {
    if rows != [] {
      var init, last := rows[..|rows| - 1], rows[|rows| - 1];
      UserTasksOrdered(init, nextId, userId);
      var mine := UserTasks(init, userId);
      if last.userId == userId {
        forall x | x in mine
          ensures x.id < last.id
        {
          IdsBelowLast(rows, nextId, x);
        }
        AppendLarger(mine, nextId, last);
      } else {
        assert mine + [] == mine;
      }
    }
  }

  /** The status column of both listings: Python's truth test on `completed`. */
  datatype Status = Done | Pending

  function StatusOf(completed: int): (s: Status)
    ensures s == Done <==> completed != 0
  {
    if completed != 0 then Done else Pending
  }

  /** One line of /tasks: id, task, due date and status. */
  datatype Entry = Entry(id: int, task: string, dueDate: string, status: Status)

  datatype ListReply = NoTasks | TaskList(entries: seq<Entry>)

  /** The lines of /tasks for the fetched rows, in order. */
  function Entries(mine: seq<Row>): (es: seq<Entry>)
    ensures |es| == |mine|
    ensures forall i :: 0 <= i < |mine| ==>
              es[i] == Entry(mine[i].id, mine[i].task, mine[i].dueDate, StatusOf(mine[i].completed))
  {
    if mine == [] then []
    else
      var last := mine[|mine| - 1];
      Entries(mine[..|mine| - 1]) + [Entry(last.id, last.task, last.dueDate, StatusOf(last.completed))]
  }

  /**
   * The reply of /tasks: the "no tasks" message exactly when the caller has no row, and
   * otherwise one line for each of the caller's rows, in table order.
   */
  function ListReplyOf(rows: seq<Row>, callerId: int): (reply: ListReply)
    ensures reply.NoTasks? <==> forall r :: r in rows ==> r.userId != callerId
    ensures reply.TaskList? ==> reply.entries == Entries(UserTasks(rows, callerId))
  {
    var mine := UserTasks(rows, callerId);
    if mine == [] then NoTasks
    else
      assert mine[0] in rows;
      TaskList(Entries(mine))
  }

  /** The caller sees every one of their rows, labelled Done exactly when it is completed. */
  lemma {:induction false} ListShowsEveryOwnRow(rows: seq<Row>, callerId: int, r: Row)
    requires r in rows && r.userId == callerId
    ensures ListReplyOf(rows, callerId).TaskList?
    ensures Entry(r.id, r.task, r.dueDate, if r.completed != 0 then Done else Pending) in
            ListReplyOf(rows, callerId).entries
  {
    var mine := UserTasks(rows, callerId);
    assert r in mine;
    var i :| 0 <= i < |mine| && mine[i] == r;
    assert Entries(mine)[i] == Entry(r.id, r.task, r.dueDate, StatusOf(r.completed));
  }

  /** Every line the caller sees comes from one of the caller's own rows. */
  lemma {:induction false} ListShowsOnlyOwnRows(rows: seq<Row>, callerId: int, e: Entry)
    requires ListReplyOf(rows, callerId).TaskList?
    requires e in ListReplyOf(rows, callerId).entries
    ensures exists r :: r in rows && r.userId == callerId &&
              e == Entry(r.id, r.task, r.dueDate, StatusOf(r.completed))
  {
    var mine := UserTasks(rows, callerId);
    var es := Entries(mine);
    var i :| 0 <= i < |es| && es[i] == e;
    assert mine[i] in mine;
  }

  /** One line of /admin_tasks: username, task, due date and status. */
  datatype AdminEntry = AdminEntry(username: string, task: string, dueDate: string, status: Status)

  datatype AdminReply = NotPermitted | NoTasksInSystem | AllTasks(entries: seq<AdminEntry>)

  /** The lines of /admin_tasks for all rows, in order. */
  function AdminEntries(rows: seq<Row>): (es: seq<AdminEntry>)
    ensures |es| == |rows|
    ensures forall i :: 0 <= i < |rows| ==>
              es[i] == AdminEntry(rows[i].username, rows[i].task, rows[i].dueDate,
                                  StatusOf(rows[i].completed))
  {
    if rows == [] then []
    else
      var last := rows[|rows| - 1];
      AdminEntries(rows[..|rows| - 1]) +
      [AdminEntry(last.username, last.task, last.dueDate, StatusOf(last.completed))]
  }

  /**
   * The reply of /admin_tasks: refused without the administrator permission, the "no tasks"
   * message for an empty table, and otherwise one line per row of the whole table.
   */
  function AdminReplyOf(rows: seq<Row>, isAdministrator: bool): (reply: AdminReply)
    ensures reply.NotPermitted? <==> !isAdministrator
    ensures reply.NoTasksInSystem? <==> isAdministrator && rows == []
    ensures reply.AllTasks? ==> reply.entries == AdminEntries(rows)
  {
    if !isAdministrator then NotPermitted
    else if rows == [] then NoTasksInSystem
    else AllTasks(AdminEntries(rows))
  }
}
