/**
 * The bot's task table as the object its slash commands and its minute loop act on. The
 * table lives in SQLite; here it is the sequence of its rows in rowid order and the next
 * AUTOINCREMENT id. Discord replies are returned as values, direct messages and error
 * lines as events.
 */
module Bot {
  import opened Wrappers
  import opened DateTimes
  import opened DateParse
  import opened Tasks
  import opened Reminders

  /** The reply of /assign: the date-format error, or the confirmation. */
  datatype AssignReply = InvalidDateFormat | Assigned

  /**
   * The body of the `check_due_tasks` loop for one fetched row: parse the due text, and if
   * it is before now, fetch the user and send the reminder; any failure becomes an error line.
   */
  method RemindOne(r: Row, now: DateTime, undeliverable: set<int>) returns (step: seq<Event>)
    ensures step == RowEvents(r, now, undeliverable)
  {
    var due := Parse(r.dueDate);
    if due.None? {
      return [Error(r.userId, BadDueDate)];
    }
    step := [];
    if Before(due.value, now) {
      if r.id in undeliverable {
        step := [Error(r.userId, Undeliverable)];
      } else {
        step := [Sent(ReminderOf(r))];
      }
    }
  }

  class TaskTable {
    var rows: seq<Row>
    var nextId: int

    predicate Valid()
      reads this
    {
      WellFormed(rows, nextId)
    }

    /** `CREATE TABLE IF NOT EXISTS tasks` on a new database file: an empty table. */
    constructor ()
      ensures Valid() && rows == [] && nextId == 1
    {
      rows := [];
      nextId := 1;
    }

    /**
     * /assign: a due date that strptime refuses is answered with the format error and
     * inserts nothing; any other is inserted as a new pending row under a fresh id.
     */
    method Assign(userId: int, username: string, task: string, dueDate: string)
      returns (reply: AssignReply)
      requires Valid()
      modifies this
      ensures Valid()
      ensures reply == InvalidDateFormat <==> Parse(dueDate).None?
      ensures reply == InvalidDateFormat ==> rows == old(rows) && nextId == old(nextId)
      ensures reply == Assigned ==>
                (forall r :: r in old(rows) ==> r.id != old(nextId)) &&
                rows == old(rows) + [NewRow(old(nextId), userId, username, task, dueDate)] &&
                nextId == old(nextId) + 1
    {
      var due := Parse(dueDate);
      if due.None? {
        return InvalidDateFormat;
      }
      InsertKeepsWellFormed(rows, nextId, userId, username, task, dueDate);
      rows := rows + [NewRow(nextId, userId, username, task, dueDate)];
      nextId := nextId + 1;
      reply := Assigned;
    }

    /**
     * /complete: sets `completed` to 1 on the row with that id if it belongs to the caller;
     * on any other id it changes nothing.
     */
    method Complete(taskId: int, callerId: int)
      requires Valid()
      modifies this
      ensures Valid() && nextId == old(nextId)
      ensures rows == CompleteRows(old(rows), taskId, callerId)
    {
      ghost var before := rows;
      var i := 0;
      while i < |rows|
        invariant 0 <= i <= |rows| == |before|
        invariant rows[..i] == CompleteRows(before[..i], taskId, callerId)
        invariant forall k :: i <= k < |rows| ==> rows[k] == before[k]
        invariant nextId == old(nextId)
      {
        var r := rows[i];
        assert before[..i + 1] == before[..i] + [r];
        CompleteRowsSnoc(before[..i], r, taskId, callerId);
        if Owns(r, taskId, callerId) {
          rows := rows[i := r.(completed := 1)];
        }
        assert rows[..i + 1] == rows[..i] + [rows[i]];
        i := i + 1;
      }
      assert before[..|before|] == before;
      assert rows[..|rows|] == rows;
      CompleteTouchesOneRow(before, nextId, taskId, callerId);
    }

    /** /tasks: the caller's own rows, or the "no tasks" message when there are none. */
    method TasksList(callerId: int) returns (reply: ListReply)
      ensures reply == ListReplyOf(rows, callerId)
    {
      var mine := UserTasks(rows, callerId);
      if mine == [] {
        return NoTasks;
      }
      var entries: seq<Entry> := [];
      var i := 0;
      while i < |mine|
        invariant 0 <= i <= |mine|
        invariant entries == Entries(mine[..i])
      {
        assert mine[..i + 1][..i] == mine[..i];
        var r := mine[i];
        entries := entries + [Entry(r.id, r.task, r.dueDate, StatusOf(r.completed))];
        i := i + 1;
      }
      assert mine[..|mine|] == mine;
      reply := TaskList(entries);
    }

    /** /admin_tasks: every row of the table, for administrators only. */
    method AdminTasks(isAdministrator: bool) returns (reply: AdminReply)
      ensures reply == AdminReplyOf(rows, isAdministrator)
    {
      if !isAdministrator {
        return NotPermitted;
      }
      var all := rows;
      if all == [] {
        return NoTasksInSystem;
      }
      var entries: seq<AdminEntry> := [];
      var i := 0;
      while i < |all|
        invariant 0 <= i <= |all|
        invariant entries == AdminEntries(all[..i])
      {
        assert all[..i + 1][..i] == all[..i];
        var r := all[i];
        entries := entries + [AdminEntry(r.username, r.task, r.dueDate, StatusOf(r.completed))];
        i := i + 1;
      }
      assert all[..|all|] == all;
      reply := AllTasks(entries);
    }

    /**
     * One run of `check_due_tasks` at the moment `now`, with `undeliverable` the tasks whose
     * recipient cannot be fetched or messaged in this run: the events it produces, row by
     * row. It reads the table and writes nothing.
     */
    method CheckDueTasks(now: DateTime, undeliverable: set<int>) returns (events: seq<Event>)
      ensures events == ReminderPass(rows, now, undeliverable)
    {
      var pending := Incomplete(rows);
      events := [];
      var i := 0;
      while i < |pending|
        invariant 0 <= i <= |pending|
        invariant events == PassEvents(pending[..i], now, undeliverable)
      {
        var r := pending[i];
        assert pending[..i + 1] == pending[..i] + [r];
        PassEventsSnoc(pending[..i], r, now, undeliverable);
        var step := RemindOne(r, now, undeliverable);
        events := events + step;
        i := i + 1;
      }
      assert pending[..|pending|] == pending;
    }
  }
}
