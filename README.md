# CrewTaskBot task table and overdue reminders, in Dafny

CrewTaskBot is a Discord bot that keeps a table of tasks in SQLite. `/assign` adds a task
for a member with a due date, `/complete` lets the assignee mark it done, and `/tasks` and
`/admin_tasks` list tasks. Once a minute, `check_due_tasks` sends a direct-message reminder
for every pending task whose due time has passed.

This project models that core:

- `DateTimes`: Python's naive `datetime`: calendar validity, and the strict order `<`.
- `DateParse`: `datetime.strptime(text, "%Y-%m-%d %H:%M")` as a grammar that either gives a
  timestamp or fails. It is written after the regular expressions CPython builds for these
  directives. It accepts unpadded month, day, hour and minute fields and a day written as a
  blank and a digit. It accepts any run of whitespace between date and time. It refuses
  leftover text, year 0 and days the month does not have. `Format` writes the documented
  "YYYY-MM-DD HH:MM" form, and it round-trips through `Parse`.
- `Tasks`: the `tasks` table as a sequence of rows in rowid order. It holds the
  AUTOINCREMENT invariant, the `/complete` update, and the `/tasks` and `/admin_tasks`
  listings with their Done/Pending label. These are pure functions with lemmas.
- `Reminders`: one run of `check_due_tasks` as a pure function. It yields one event per
  fetched row: a reminder sent, an error line, or nothing when the task is not yet due.
- `Bot`: class `TaskTable` holds the rows and the next id. Its methods are the
  commands and the reminder run, each proved against the functions above.

The clock is the parameter `now`. It is a full timestamp down to the microsecond, as
`datetime.now()` gives. Due dates parse to whole minutes, so a task due at 10:00 is
overdue at 10:00:30 but not at 10:00:00. Whether Discord delivers a reminder is the
parameter `undeliverable`: the ids of the tasks for which `fetch_user` or `send` fails in
this run. Each row makes its own calls, so two reminders for one user can end differently.

The code keeps no last-notified time and no cooldown. A run writes nothing back, so
every run reminds again of every pending overdue task (`RemindedAgainLater`). Delivery
failures are not classified: each is an error line, and the run goes on.

`/complete` gives the same confirmation whether or not a row changed. `Complete` therefore
returns no reply, and its effect on the table is the whole of its contract.

## Model

| member | source | states |
|---|---|---|
| DateTimes.DaysInMonth | bot.py:74 | month lengths strptime checks days against: 28 exactly for February of a common year, 29 exactly for February of a Gregorian leap year, 30 exactly for April, June, September and November, 31 exactly for the seven long months |
| DateTimes.Before | bot.py:54 | `due < now` on naive datetimes: field by field from year down to microsecond |
| DateTimes.BeforeIrreflexive | bot.py:54 | `due < now` is false when due equals now |
| DateTimes.BeforeTransitive | bot.py:54 | the datetime order used for `due < now` is transitive |
| DateTimes.BeforeTotal | bot.py:54 | two distinct timestamps are ordered exactly one way |
| DateTimes.WholeMinuteBeforeSameMinute | bot.py:50-54 | a due time in the same minute as `now` is before it exactly when `now` has a nonzero second or microsecond |
| DateParse.Parse | bot.py:53 | whatever strptime accepts is a valid calendar timestamp with zero seconds |
| DateParse.Format | bot.py:71 | the documented "YYYY-MM-DD HH:MM" spelling is sixteen characters |
| DateParse.ParseFormat | bot.py:71-76 | every valid whole-minute timestamp in the documented form is accepted by /assign's check and parses back to itself |
| DateParse.ParsedHasCanonicalForm | bot.py:74 | every accepted due text has a canonical spelling that denotes the same moment |
| DateParse.ParseUnpadded | bot.py:74 | every valid whole-minute timestamp, written with month, day, hour and minute without leading zeros, parses to itself |
| DateParse.AcceptsUnpaddedFields | bot.py:74 | "2024-1-5 9:7" is accepted as 2024-01-05 09:07 |
| DateParse.AcceptsBlankPaddedDay | bot.py:74 | a day written " 5" and a tab among the blanks are accepted |
| DateParse.AcceptsLeapDay | bot.py:74 | 29 February parses in a leap year |
| DateParse.RefusesMissingDay | bot.py:74-77 | 29 February 2023 is refused |
| DateParse.RefusesHourOutOfRange | bot.py:74-77 | hour 24 is refused |
| DateParse.RefusesTrailingText | bot.py:74-77 | text after the minutes is refused |
| Tasks.WellFormed | bot.py:32-37 | the table invariant: AUTOINCREMENT ids from 1, strictly increasing in table order and below the next id; `completed` is 0 or 1 |
| Tasks.NewRow | bot.py:81-82 | the inserted row: the given user id, username, task and due text, and the column default completed = 0 |
| Tasks.Owns | bot.py:98 | the WHERE clause of /complete: the row's id is the given one and its user id is the caller's |
| Tasks.InsertKeepsWellFormed | bot.py:31-37 | the inserted row's AUTOINCREMENT id is new to the table, and the table stays well formed |
| Tasks.CompleteRows | bot.py:97-99 | the update keeps the number of rows |
| Tasks.CompleteEffect | bot.py:97-99 | the row with the given id and the caller's user id gets completed = 1 with all other columns kept; every other row is unchanged |
| Tasks.CompleteMismatchIsNoOp | bot.py:97-99 | an id the caller does not own, or that does not exist, leaves the table unchanged |
| Tasks.CompleteIdempotent | bot.py:97-99 | completing twice equals completing once |
| Tasks.CompleteNeverReopens | bot.py:97-99 | no completed row becomes pending; a row left pending was pending and not the caller's |
| Tasks.CompleteTouchesOneRow | bot.py:97-99 | in a well-formed table at most one row changes and the table stays well formed |
| Tasks.UserTasks | bot.py:107 | the fetched rows are exactly the table's rows whose user id is the caller's |
| Tasks.UserTasksOrdered | bot.py:107 | the fetched rows keep the table's strictly increasing ids: each of the caller's rows once, in table order |
| Tasks.StatusOf | bot.py:116 | the label is Done exactly when `completed` is nonzero |
| Tasks.Entries | bot.py:115-117 | one listing line per fetched row, in order, with its id, task, due text and label |
| Tasks.ListReplyOf | bot.py:107-119 | /tasks answers "no tasks" exactly when the caller owns no row, and otherwise lists the caller's rows |
| Tasks.ListShowsEveryOwnRow | bot.py:107-117 | each of the caller's rows is listed, labelled Done exactly when completed |
| Tasks.ListShowsOnlyOwnRows | bot.py:107-117 | every listed line comes from a row of the caller |
| Tasks.AdminEntries | bot.py:137-139 | one admin line per row, in order, with username, task, due text and label |
| Tasks.AdminReplyOf | bot.py:123-141 | refused exactly without the administrator permission; "no tasks" exactly for an empty table; otherwise every row listed |
| Reminders.Incomplete | bot.py:47 | the fetched rows are exactly the rows with completed = 0 |
| Reminders.IncompleteOrdered | bot.py:47 | the fetched rows keep the table's strictly increasing ids: each pending row once, in table order |
| Reminders.Overdue | bot.py:53-54 | the due text parses and the parsed time is strictly before now |
| Reminders.ReminderPass | bot.py:46-58 | a run is the loop over the rows the pending-rows query returns |
| Reminders.RowEvents | bot.py:52-58 | one row yields at most one event |
| Reminders.PassEvents | bot.py:51-58 | a run yields at most one event per fetched row |
| Reminders.PassEventsAppend | bot.py:51-58 | rows are handled independently and in order: a run over a + b is the run over a followed by the run over b |
| Reminders.FailingRowDoesNotStopPass | bot.py:51-58 | a row whose date fails to parse or whose reminder cannot be delivered costs one error line, and every later row is still handled |
| Reminders.PassSound | bot.py:47-56 | every reminder sent is for a fetched row whose due date parses to a moment strictly before now and whose delivery succeeds |
| Reminders.PassComplete | bot.py:47-56 | every such row is sent its reminder |
| Reminders.RemindedIff | bot.py:47-56 | a row is reminded exactly when completed = 0, its due text parses, the parsed time is strictly before now, and its delivery succeeds |
| Reminders.SameIdSameRow | bot.py:32 | ids identify rows in a well-formed table |
| Reminders.CompletedNeverReminded | bot.py:47 | no reminder ever names a completed task |
| Reminders.DueNowNotReminded | bot.py:54 | a task due exactly at now is not reminded |
| Reminders.RemindedAgainLater | bot.py:44-58 | no cooldown: a task reminded at one run is reminded at every later run, over any later well-formed table that still holds the row unchanged, if its delivery succeeds |
| Reminders.NotYetDueIsSilent | bot.py:53-54 | a row whose due time parses and is not before now produces no message and no error line |
| Reminders.FailsWith | bot.py:52-58 | the failure behind each kind of error line: a due text that does not parse, or an overdue row whose delivery fails |
| Reminders.RowErrorIff | bot.py:52-58 | a row prints an error line with a given cause exactly when it fails that way |
| Reminders.ErrorIff | bot.py:51-58 | a run prints an error line for user u with a given cause exactly when some fetched row of u fails that way |
| Reminders.NoBadDateErrors | bot.py:51-58 | if every fetched due date parses, no run prints a bad-date error |
| Reminders.InsertExtendsPass | bot.py:80-83 | a new pending row leaves the run over the earlier rows unchanged and adds its own turn at the end |
| Reminders.CompletedTaskNoLongerReminded | bot.py:97-99 | after its owner completes a task, no run reminds anyone of it |
| Bot.RemindOne | bot.py:52-58 | the loop body gives exactly the row's events |
| Bot.TaskTable.constructor | bot.py:29-40 | a new database holds an empty, well-formed table whose first id will be 1 |
| Bot.TaskTable.Assign | bot.py:72-84 | an unparseable due date is refused and changes nothing; otherwise exactly one pending row is appended under a fresh id, with the given user, username, task and due text, and earlier rows are untouched |
| Bot.TaskTable.Complete | bot.py:95-100 | the table becomes CompleteRows of the old table, in place, and stays well formed |
| Bot.TaskTable.TasksList | bot.py:105-119 | the reply is ListReplyOf the current table |
| Bot.TaskTable.AdminTasks | bot.py:123-141 | the reply is AdminReplyOf the current table |
| Bot.TaskTable.CheckDueTasks | bot.py:44-58 | the events are ReminderPass of the current table; the run modifies nothing |

## Left out

- Discord plumbing is not modelled: intents, the client, the command tree and `tree.sync`, `on_ready`, and replies through `interaction.response` (bot.py:16-25, 60-62). It is I/O on an external library.
- The direct message /assign sends to the assignee, with its failure swallowed (bot.py:86-90), is not modelled. It changes nothing in the table.
- SQLite connections, `commit` and SQL text are not modelled. Only their effect on the rows is kept. Rows are taken in rowid order, as SQLite returns them for these queries without `ORDER BY`.
- AUTOINCREMENT's failure once ids reach 2^63 - 1 is not modelled; ids, user ids and `completed` are unbounded integers.
- Rows with a NULL or non-text `due_date`, which the bot never writes, are not modelled. They could only come from a database written by other software.
- The `tasks.loop(minutes=1)` schedule, `async` execution, and interleaving of commands with a run are not modelled. The model is one run at a given `now`.
- A failure of the fetch query itself, which escapes the loop, is not modelled.
- `datetime.now()` is the parameter `now`; the tasks whose `fetch_user` or `send` call fails in a run are the parameter `undeliverable`.
- Loading the token from the environment and the startup error (bot.py:9-14) are not modelled.
- The administrator check (bot.py:124) is the boolean parameter `isAdministrator`.
- Message wording and emoji are not modelled. The two listings' labels ("Done" in /tasks, "Completed" in /admin_tasks) are both the value `Done`.
- DateParse.Parse: reads only ASCII digits. Python's `\d` also matches other Unicode decimal digits, which `int` then converts.
