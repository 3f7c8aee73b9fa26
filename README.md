# Family task ledger, in Dafny

This project models the core of a small family task bot. The core is a ledger that maps
each username to a chat id and a list of tasks, together with a history log of what was
completed, left undone or deleted. Two Python files hold it:

- `storage.py` is the store. Every call loads the users file or the history file, changes
  it and writes it back.
- `task_manager.py` adds the task rules on top of the store: input validation,
  the "due today" rule, create, complete, edit and delete, the listings, and a daily
  sweep that writes one "incomplete" entry per due, unfinished task.

The model has one module per concern:

- `errors.dfy` (`Errors`): `Option`, `Result` and `Outcome`. An `Error` stands for
  the Python exception that took the place of a value: a `ValueError` with its message,
  or the `KeyError` raised when a task dict lacks a key.
- `config.dfy` (`Config`): the task types, the seven day abbreviations and the
  14-day retention period.
- `calendar.dfy` (`Calendar`): the parts of Python's `datetime` the core relies on.
  - The proleptic Gregorian ordinal and the weekday abbreviation.
  - Timestamps and the retention window.
  - Zero-padded ISO dates.
  - Python's `<=` on strings.
  - The two `strptime` formats, `%Y-%m-%d` and `%H:%M`, with the exact spellings
    each field accepts.
- `storage.dfy` (`Storage`): the task record and its normalisation, task lists,
  history pruning, and the `Storage` class.
  - The two JSON files become three fields: `users`, `names` and `history`.
    `names` holds the users' key order.
  - Each method states the whole new state.
- `task_manager.dfy` (`TaskManager`): the rules as functions, the sweep as a fold
  over (user, task) pairs, and the `TaskManager` class.
  - The class holds the shared store, and each of its methods is proved against
    those functions.
- `day_selection.dfy` (`DaySelection`): the day multi-select toggle of the
  "new recurring task" conversation.

The clock, the weekday and the uuid are parameters. `today` is a `Date` and `now` is a
`Timestamp` whose date is today; `freshId` is the id `add_task` would draw.

## Model

| member | source | states |
|---|---|---|
| Calendar.DaysInMonth | task_manager.py:138 | month lengths lie between 28 and 31; the value is 29 exactly for February of a leap year |
| Calendar.WeekdayName | task_manager.py:43 | the day's English abbreviation is always one of Mon..Sun |
| Calendar.DaysInYear | task_manager.py:43 | a year has 366 days when it is a leap year and 365 otherwise |
| Calendar.NextYear | task_manager.py:43 | the first day of the next year comes that year's length after the first day of this one |
| Calendar.DivStep | task_manager.py:43 | the count of multiples of 4, 100 or 400 up to a year grows by one exactly at such a multiple |
| Calendar.MonthsAfter | task_manager.py:43 | a later month of a year starts at least a whole month after an earlier one |
| Calendar.YearsAfter | task_manager.py:43 | a later year never starts on an earlier day number |
| Calendar.OrdinalWithinYear | task_manager.py:43 | a valid date's day number lies after the start of its year and within it |
| Calendar.OrdinalRange | task_manager.py:42-43 | `Ordinal`, the model of `toordinal`, maps every date `ValidDate` admits (years 1 to 9999, real month lengths) into 1..3652059 |
| Calendar.OrdinalOrder | storage.py:118-121 | `Ordinal` follows the calendar: of two valid dates, the earlier has the smaller day number |
| Calendar.OrdinalLaterYear | storage.py:118-121 | a valid date in a later year has a larger day number |
| Calendar.OrdinalSameYear | storage.py:118-121 | within one year, a later month or a later day of the same month has a larger day number |
| Calendar.InstantOrder | storage.py:118-121 | `Instant`, by which naive datetimes compare, puts every timestamp of an earlier day before every timestamp of a later day |
| Calendar.SameDayIsWithin | storage.py:118-121 | `WithinDays`, the `>= now - timedelta(days=n)` test: an entry stamped on the same day as `now` is inside any window of one day or more |
| Calendar.Digits | task_manager.py:42 | the zero-padded rendering has exactly the requested width and only ASCII digits |
| Calendar.ValueOfDigits | task_manager.py:42 | reading back a padded rendering gives the number |
| Calendar.DigitsOfValue | task_manager.py:138 | a digit string is the padded rendering of its own value |
| Calendar.StrLeConcat | task_manager.py:65 | when the first blocks have equal length, string order is decided by the first blocks, or by the rest when those are equal |
| Calendar.StrLeTotal | task_manager.py:65 | `StrLe`, Python's `<=` on strings, is total, and two strings each `<=` the other are equal |
| Calendar.DigitsOrder | task_manager.py:65 | padded numbers of equal width compare as strings exactly as they compare as numbers, and are equal exactly when the numbers are |
| Calendar.IsoDate | task_manager.py:42 | `isoformat` of a valid date is ten characters |
| Calendar.IsoDateOrder | task_manager.py:65 | for ISO spellings, the string comparison `date <= today` holds exactly when the date is not after today |
| Calendar.MonthToken | task_manager.py:138 | an accepted month field is between 1 and 12 |
| Calendar.DayToken | task_manager.py:138 | an accepted day field is between 1 and 31 |
| Calendar.MonthTokenExact | task_manager.py:138 | the month field accepts exactly two-digit month numbers and, below ten, single-digit ones |
| Calendar.DayTokenExact | task_manager.py:138 | the day field accepts exactly two-digit day numbers and, below ten, single-digit ones, with or without a leading space |
| Calendar.ParseDate | task_manager.py:138 | `strptime` only accepts dates that exist (years 1 to 9999, the month's real number of days) |
| Calendar.ParseDateSound | task_manager.py:138 | every accepted string is four year digits, a month spelling and a day spelling of the parsed date |
| Calendar.ParseDateComplete | task_manager.py:138 | every such spelling of a valid date is accepted and parses to that date |
| Calendar.ParseIsoDate | task_manager.py:138 | the ISO spelling of a valid date parses back to the same date |
| Calendar.HourToken | task_manager.py:148 | an accepted hour field is digits and between 0 and 23 |
| Calendar.MinuteToken | task_manager.py:148 | an accepted minute field is digits and between 0 and 59 |
| Calendar.HourTokenExact | task_manager.py:148 | the hour field accepts exactly one- or two-digit spellings of 0..23 |
| Calendar.MinuteTokenExact | task_manager.py:148 | the minute field accepts exactly one- or two-digit spellings of 0..59 |
| Calendar.ParseTime | task_manager.py:148 | a parsed time has hour 0..23 and minute 0..59 |
| Calendar.ParseTimeExact | task_manager.py:148 | "hh:mm" with given fields parses to (h, m) exactly when both fields spell those numbers |
| Calendar.ParseTimeSound | task_manager.py:148 | every accepted string is an hour spelling, a colon and a minute spelling of the parsed time |
| Storage.FieldsOf | task_manager.py:75-78 | a stored task handed back to the store keeps its id, its title and its `completed` key |
| Storage.NewEntry | storage.py:105-111 | the history entry carries the task's id and title, the status, the timestamp `now` and the user |
| Storage.Normalise | storage.py:50-57 | through `OrElse`, the `dict.get` with a default: missing title, type, time and completions default to "Untitled", "one-time", "23:59" and []; date and days are kept; every other key, `completed` among them, is dropped |
| Storage.NormaliseIdempotent | storage.py:50-57 | a record the store wrote passes the check again and is rebuilt unchanged |
| Storage.FindIndex | storage.py:65-70 | the index is that of the first task with the id, or the list's length when there is none |
| Storage.FindTask | storage.py:81 | the task returned has the id and is the one at the first index holding it (`FindIndex`); None exactly when no task has it |
| Storage.Upsert | storage.py:64-73 | an existing id: the task at its first index becomes the saved task and the length stays; a new id is appended; every other position is unchanged; the saved task is found afterwards |
| Storage.UpsertIdempotent | storage.py:64-73 | saving the same task twice equals saving it once |
| Storage.UpsertKeepsIdsDistinct | storage.py:64-73 | saving never creates a second task with the same id |
| Storage.RemoveTask | storage.py:81-84 | the list is cut at the first index holding the id and closed up, so the survivors keep their order and the length drops by one; an absent id leaves the list unchanged; every task with another id stays; with distinct ids, none with this id is left |
| Storage.RemoveAtKeepsOthers | storage.py:84 | cutting one task out keeps every task with another id, adds none, and keeps ids distinct |
| Storage.RemoveAfterUpsertFresh | storage.py:64-84 | deleting a task just saved under a fresh id gives back the original list |
| Storage.StoredUser | storage.py:45 | an unknown user is seen as a user with no chat id and no tasks |
| Storage.RemoveName | storage.py:95-99 | the key list keeps every other key, as often as before and in its old order (a subsequence of length `|names|` minus the user's count), loses this user, keeps no duplicates, and is unchanged for an unknown user |
| Storage.Prune | storage.py:116-122 | with `Recent` the 14-day test of storage.py:121: no entry is added; every survivor lies inside the window; every entry inside the window survives |
| Storage.PruneConcat | storage.py:119-122 | pruning a concatenation prunes each part in place |
| Storage.PruneIdempotent | storage.py:116-122 | pruning twice with the same clock equals pruning once |
| Storage.PruneIsSubsequence | storage.py:119-122 | the survivors keep their relative order |
| Storage.SubsequenceSkip | storage.py:119-122 | a subsequence of the tail is a subsequence of the whole list |
| Storage.SubsequenceDrop | storage.py:119-122 | a subsequence minus its first element is still a subsequence |
| Storage.LoggedEntryKept | storage.py:102-114 | the entry `log_history` writes always survives the prune, as the last entry |
| Storage.Storage.constructor | storage.py:10-16 | a fresh store has no users and an empty history |
| Storage.Storage.AddUserIfNew | storage.py:31-40 | an unknown user is created with the chat id and no tasks; a known user only gets a new chat id when one is given and it differs; tasks and history are never touched |
| Storage.Storage.GetUserTasks | storage.py:42-45 | the user's tasks, or none for an unknown user |
| Storage.Storage.SaveTask | storage.py:47-74 | fails with the id/title message and no change exactly when the rebuilt record is not `Saveable` (storage.py:58-59: no id or an empty title); otherwise creates an unknown user with no chat id and upserts the normalised record; other users and the history are unchanged |
| Storage.Storage.DeleteTask | storage.py:76-88 | unknown user: no change; unknown id: "Task not found." and no change; otherwise the task is removed and exactly one "deleted" entry for it is logged and pruned |
| Storage.Storage.GetAllUsers | storage.py:90-93 | every user once: the list holds exactly the keys of the users map, without repeats |
| Storage.Storage.DeleteUser | storage.py:95-100 | the user and their tasks are gone, an unknown user is a no-op, and the history is untouched |
| Storage.Storage.LogHistory | storage.py:102-114 | the history becomes the old one plus the new entry, pruned to the 14-day window; users are untouched |
| Storage.Storage.GetHistory | storage.py:124-126 | a read-only accessor for the history |
| Storage.Storage.GetUserChatId | storage.py:128-131 | the user's chat id, or None for an unknown user |
| TaskManager.ValidateDate | task_manager.py:135-143 | returns its input exactly when it parses and is not before today; otherwise raises the "Invalid date format" error, whatever the reason |
| TaskManager.ValidateDateAcceptsExactly | task_manager.py:135-143 | accepted strings are exactly the four-digit year, month spelling and day spelling of an existing date that is not before today |
| TaskManager.PastDateLooksMalformed | task_manager.py:139-143 | a well-formed past date gets the same error as a malformed string |
| TaskManager.UnpaddedDateMissesDueDay | task_manager.py:65 | as written, "2026-1-5" is accepted unchanged and its task is not due on 2026-01-05 or 2026-09-30, but is due on 2026-10-01 |
| TaskManager.LeAfterSharedPrefix | task_manager.py:65 | strings with a shared prefix compare as their remainders |
| TaskManager.ValidateDateCanonical | task_manager.py:135-143 | accepts the same strings as `validate_date`, with the same error, but returns the ISO spelling of the parsed date |
| TaskManager.CanonicalDateOrdersByCalendar | task_manager.py:65 | a stored canonical date parses to the same date, and the due comparison then agrees with the calendar on every later day |
| TaskManager.ValidateTime | task_manager.py:145-151 | returns its input exactly when `%H:%M` parses it, and otherwise raises the "Invalid time format" error |
| TaskManager.ValidateTimeAcceptsExactly | task_manager.py:145-151 | accepted strings are exactly an hour 0-23 and a minute 0-59, each written with one or two digits, joined by a colon |
| TaskManager.ValidateDays | task_manager.py:153-157 | returns its input exactly when it is non-empty and every element is one of Mon..Sun, and otherwise raises the "Invalid days" error |
| TaskManager.IsTaskDue | task_manager.py:56-66 | each KeyError exactly in its case, naming its key: `completed` whenever it is missing, before anything else; `days` for a pending recurring task without it; `date` for a pending one-time task without it; no other error; a task is due exactly when not completed and daily, recurring on today's weekday, or one-time with date <= today; every other type is not due |
| TaskManager.OneTimeDueByCalendar | task_manager.py:65 | a one-time task dated with an ISO spelling is due from that date on and not before |
| TaskManager.StoredTaskBreaksDueCheck | task_manager.py:58 | every task the store has written raises KeyError at the `completed` read |
| TaskManager.DueTasks | task_manager.py:47 | fails exactly when some task fails the due check; otherwise returns a subsequence of the list, in list order, holding exactly the due tasks |
| TaskManager.DueTasksFirstError | task_manager.py:47 | a failed listing carries the error of the first task whose due check raises |
| TaskManager.DueTasksCounts | task_manager.py:47 | a successful listing holds each due task exactly as often as the list does, and no other task |
| TaskManager.ListingBreaksOnStoredTask | task_manager.py:47 | one stored task without `completed` makes the whole listing raise |
| TaskManager.OthersDueCovers | task_manager.py:49-54 | a successful `OthersDue`: every listed task is a due task of some other user in the key list, and every due task of every other user is listed |
| TaskManager.OthersDueExcludesCaller | task_manager.py:49-54 | a task held by no other user never appears in the listing of others |
| TaskManager.CreationError | task_manager.py:16-23 | all checks pass exactly when title and time are non-empty, the type is known, a one-time task has a date, and a recurring task has a non-empty list of days; empty title or time takes precedence, then an unknown type; a one-time task without a date gets "One-time tasks require a date." and a recurring task without days "Recurring tasks require a list of days." |
| TaskManager.NewTaskFields | task_manager.py:25-35 | the new dict has the id, `completed` False and no completions, a date only for a one-time task and days only for a recurring task |
| TaskManager.CreatedTaskShape | task_manager.py:25-36 | the saved task has the caller's id, title, type and time, no completions, `date` exactly when one-time, `days` exactly when recurring, and no `completed` key |
| TaskManager.CreateThenFind | task_manager.py:36 | with a fresh id, creation appends exactly the new task and the id then finds it |
| TaskManager.ApplyEdit | task_manager.py:89-96 | id, type, completions and `completed` never change; title and time change when given; a one-time task's date becomes the string as given and a recurring task's days the list as given, otherwise both stay; fails exactly when the given time, date or days do not validate, with the time error first |
| TaskManager.ApplyEditCanonical | task_manager.py:89-96 | the corrected edit: succeeds and fails exactly as `edit_task`, and differs only in storing a new date in the ISO spelling of the date it parses to |
| TaskManager.CanonicalEditDueByCalendar | task_manager.py:65 | after the corrected edit, a pending one-time task is due on a day exactly when that day is not before the date typed |
| TaskManager.EditResult | task_manager.py:81-96 | a missing task gives "Task not found."; a task without `completed` raises KeyError; a completed one gives "Cannot edit a completed task."; a pending one gets the field updates of `ApplyEdit`; a successful edit keeps the id and type |
| TaskManager.EditedTaskCannotBeEditedAgain | task_manager.py:86-97 | after a successful edit is written back, the next edit of the task raises KeyError |
| TaskManager.UserWork | task_manager.py:118-119 | one step per task of the user, in list order |
| TaskManager.AllWork | task_manager.py:117-119 | the work holds exactly the (user, task) pairs of the users in the key list |
| TaskManager.Step | task_manager.py:120-129 | a sweep an exception has stopped is left as it is |
| TaskManager.StepFailsExactly | task_manager.py:120-129 | a step leaves the sweep stopped exactly when it was stopped already or the due check raises |
| TaskManager.Run | task_manager.py:117-129 | a stopped sweep never resumes: a run that ends going started going |
| TaskManager.RunBound | task_manager.py:117-129 | each step writes at most one entry, so the log grows by at most the number of steps |
| TaskManager.RunLastFails | task_manager.py:117-129 | a run ends stopped exactly when it stopped before its last step or the due check raises on the last task |
| TaskManager.RunFailsExactly | task_manager.py:117-129 | a running sweep ends stopped exactly when the due check raises on one of its tasks |
| TaskManager.SweepAll | task_manager.py:113-129 | the whole sweep raises exactly when the due check raises on some task of some user |
| TaskManager.LoggedTodayConcat | task_manager.py:122-127 | `LoggedToday`, the `already_logged` test (an entry for the id that is `IncompleteOn` today), holds on two logs joined exactly when it holds on one of them |
| TaskManager.RunConcat | task_manager.py:117-129 | a sweep over two stretches of work is the second run on the result of the first |
| TaskManager.RunStopped | task_manager.py:117-129 | once an exception stops the sweep, nothing more is written |
| TaskManager.StepKeepsLogged | task_manager.py:122-129 | an "incomplete" entry stamped today survives every later step of the sweep |
| TaskManager.RunKeepsLogged | task_manager.py:122-129 | an "incomplete" entry stamped today survives the rest of the sweep |
| TaskManager.StepLogsDueTask | task_manager.py:120-129 | after a running step on a due task, that task is logged for today |
| TaskManager.Replay | task_manager.py:113-129 | replaying any prefix of the work on the finished log, at any later instant of the same day, writes nothing and stops where the first run stopped |
| TaskManager.ReplayStep | task_manager.py:117-129 | the replay of the first k items follows from that of the first k - 1 |
| TaskManager.ReplayNext | task_manager.py:120-129 | where the first run was still going and the task is logged whenever due, the replayed step ends as the first did and writes nothing |
| TaskManager.StepOnLoggedLater | task_manager.py:120-129 | a step later the same day, on a log where the task is logged whenever it is due, raises as the due check does and writes nothing |
| TaskManager.StepOutcome | task_manager.py:120 | a running step ends as the due check does: raising with its error, or running on |
| TaskManager.DueTaskStaysLogged | task_manager.py:117-129 | a due task reached while the first run is still going is logged in the final log |
| TaskManager.DueTaskLoggedAtOnce | task_manager.py:120-129 | a due task reached while the run is still going is logged by its own step |
| TaskManager.RunExtendKeepsLogged | task_manager.py:117-129 | what a run has logged for today stays logged as the run goes on |
| TaskManager.SweepIdempotent | task_manager.py:113-129 | a second sweep at any later instant of the same day, over the same users, appends nothing and ends the same way |
| TaskManager.PruneKeepsOncePerTask | task_manager.py:113-129 | pruning keeps "at most one incomplete entry per task id today" |
| TaskManager.AppendKeepsOncePerTask | task_manager.py:122-129 | appending an entry that passes the `already_logged` test keeps that property |
| TaskManager.SweepOncePerTask | task_manager.py:113-129 | the sweep never writes a second "incomplete" entry for one task id on one day |
| TaskManager.SweepCoversDueTasks | task_manager.py:113-129 | after a sweep that ran to the end, every due task of every user is logged for today |
| TaskManager.TaskManager.constructor | task_manager.py:10-12 | the manager works on the given store |
| TaskManager.TaskManager.AddTask | task_manager.py:14-37 | fails, with no store change, on the first failed check; otherwise saves exactly the record `add_task` builds, returns its id and, under a fresh id, appends exactly one task to the user's list |
| TaskManager.TaskManager.GetUserTasks | task_manager.py:39-54 | the caller's due tasks (mine) or the other users' due tasks in key order (not mine), errors included; nothing is changed |
| TaskManager.TaskManager.CollectOthers | task_manager.py:49-54 | the loop over all users computes exactly the listing of others |
| TaskManager.TaskManager.CollectOne | task_manager.py:51-54 | one pass of that loop extends the listing of the users so far by the next user |
| TaskManager.TaskManager.GetTaskById | task_manager.py:68-71 | the task found is the user's task at the first index holding the id; None exactly when the user has no task with it |
| TaskManager.TaskManager.CompleteTask | task_manager.py:73-79 | a missing or completed task changes nothing; a task without `completed` raises KeyError; otherwise the task is saved with the flag set, which the store drops, and exactly one "completed" entry by the user is logged |
| TaskManager.TaskManager.CompleteTwice | task_manager.py:73-79 | two calls log "completed" at most once: after a successful first call the users are those the first write left and the second raises KeyError and writes nothing, and otherwise the second does what the first did |
| TaskManager.TaskManager.EditTask | task_manager.py:81-97 | the outcome is that of the edit rules; on success the edited record is saved; the history is never touched |
| TaskManager.TaskManager.DeleteTask | task_manager.py:99-104 | a missing task changes nothing; otherwise the task is removed and two identical "deleted" entries follow the pruned old log |
| TaskManager.TaskManager.GetTasksForReminder | task_manager.py:106-111 | the listing `DueTasks` computes over the user's tasks: a task is listed exactly when it is one of the user's due tasks; raises exactly when one of the user's tasks fails the due check |
| TaskManager.TaskManager.LogIfDue | task_manager.py:120-129 | one task of the sweep: a due task not yet logged today gets one "incomplete" entry |
| TaskManager.TaskManager.LogUserTasks | task_manager.py:118-129 | the loop over one user's tasks is the sweep over that user's work |
| TaskManager.TaskManager.LogIncompleteTasks | task_manager.py:113-129 | the nested loops leave users untouched and end with exactly the outcome and history of the sweep over all (user, task) pairs in key order |
| TaskManager.TaskManager.GetHistory | task_manager.py:131-133 | the store's history, unchanged |
| TaskManager.AllWorkPrefix | task_manager.py:117-119 | the work of the first k users is a prefix of all the work |
| TaskManager.RunSnoc | task_manager.py:117-129 | one more pair of work is one more step |
| TaskManager.AllWorkNext | task_manager.py:117-119 | one more user adds that user's tasks to the end of the work |
| TaskManager.UserWorkNext | task_manager.py:119 | one more task adds one step, and a prefix of the tasks gives a prefix of the work |
| TaskManager.SweepStoppedAt | task_manager.py:117-129 | an exception on user i's tasks ends the whole sweep there |
| TaskManager.RunStoppedEarly | task_manager.py:117-129 | a run stopped within a prefix of the work ends as that prefix's run ended |
| TaskManager.LoggedTwice | task_manager.py:103-104 | two appends stamped `now`, each followed by a prune, leave the pruned old log followed by both entries |
| TaskManager.OthersDueNext | task_manager.py:50-53 | one more user in the listing is skipped when it is the caller, otherwise its due tasks are appended or its error ends the listing |
| TaskManager.OthersStopped | task_manager.py:50-53 | an exception on one user's tasks ends the whole listing |
| DaySelection.FirstIndex | main.py:70 | the index found holds the day, and no earlier index does |
| DaySelection.RemoveFirst | main.py:69-70 | removing a day drops one occurrence: the length falls by one, the multiset loses exactly that day, and nothing new appears |
| DaySelection.RemoveFirstKeepsOrder | main.py:69-70 | `remove` cuts the selection at the first occurrence of the day and closes it up, so the other days keep their order |
| DaySelection.RemoveFirstKeepsOthers | main.py:69-70 | every other day keeps its membership |
| DaySelection.RemoveFirstDistinct | main.py:69-70 | on a selection without repeats, no copy of the removed day is left and there are still no repeats |
| DaySelection.ToggleDay | main.py:65-73 | an absent day is appended; a present one is cut out at its first occurrence, the rest keeping their order; other days keep their membership; on a selection without repeats the day's membership flips and no repeat appears |
| DaySelection.ToggleTwiceRestores | main.py:65-73 | tapping an unselected day twice restores the selection |

## Left out

- JSON file I/O (`load_data`, `save_data`, storage.py:18-29) is not modelled. This includes
  the fallback to an empty record when a file is missing or corrupt and the creation of
  both files at start-up. The store holds the two values in memory instead.
- The `indent=2` formatting of the files is not modelled; writing is not modelled.
- Explicit JSON `null` values are not modelled. A present key with value `None` is treated
  like a missing key where that matters (`save_task`'s defaults, the `completed` test).
- Python's `\d` also matches non-ASCII digits. The model accepts ASCII digits only in dates
  and times.
- `strftime("%A")` depends on the locale. The model assumes English day names.
- Years outside 1..9999 and the `OverflowError` that `now - 14 days` raises near year 1
  are not modelled. Timestamps are ordered by day number and microseconds, which is
  what `datetime` comparison does within that range.
- The clock is a parameter. `log_history` and `prune_history` each call `datetime.now()`.
  The model uses one `now` for both, and the sweep and the listings take today from the
  same clock.
- `h["timestamp"].startswith(today)` is modelled as equality of the entry's date with
  today, which is what the prefix test amounts to for ISO timestamps.
- `uuid.uuid4()` becomes the `freshId` parameter. `TaskManager.TaskManager.AddTask`
  states the append-one-task result under the assumption that the id is not already used.
- Tasks whose `type` or `days` have shapes the bot never writes are not modelled. This
  covers `isinstance(days, list)` on a non-list and dict keys other than the seven known
  ones.
- Concurrency is not modelled: the lost-update race between handlers without file
  locking, and the scheduled daily job.
- The Telegram handlers and conversation state of main.py are not part of this model,
  except the day toggle. ui.py is not part of this model.
- dotenv loading, `BOT_TOKEN`, the file names and `REMINDER_TIME` from config.py are not
  part of this model. Only the task types, the day list and the retention period are.
- TaskManager.TaskManager.GetUserTasks: its contract ties the result to
  `TaskManager.OthersDue`. The statement that the listing holds exactly the other users'
  due tasks is the lemma `TaskManager.OthersDueCovers` rather than repeated on the method.
- TaskManager.DueTasks: which error a failed listing carries and how often each task is
  listed are the lemmas `TaskManager.DueTasksFirstError` and `TaskManager.DueTasksCounts`
  rather than clauses of the function.

## Findings

| source | as written | input that shows it | evidently intended | confidence | as-written member | corrected member |
|---|---|---|---|---|---|---|
| task_manager.py:135-143, task_manager.py:65 | `validate_date` returns the date string exactly as typed, and `strptime` accepts unpadded fields, so "2026-1-5" is stored as is. The due check compares strings, so this task is not due on 2026-01-05 ("2026-1-5" > "2026-01-05") and first becomes due on 2026-10-01 | a one-time task created through `add_task` on 2026-01-05 with date "2026-1-5" (main.py:158 validates it, task_manager.py:33 stores it), read as a task that carries `completed` False | a one-time task is due from its date on, which holds if the validated date is stored in its ISO spelling | not executed; latent | TaskManager.UnpaddedDateMissesDueDay | TaskManager.ApplyEditCanonical, TaskManager.ValidateDateCanonical, TaskManager.CanonicalDateOrdersByCalendar |

The misordering is latent in the program as written. `save_task` drops `completed`, so
the due check raises KeyError at task_manager.py:58 on every stored task before it reaches
the comparison at task_manager.py:65 (`TaskManager.StoredTaskBreaksDueCheck`), and
`edit_task` raises at task_manager.py:86 before it validates a new date. The comparison is
reached only for a task that carries `completed`, which this store never writes back.

The model keeps the code as written: `TaskManager.ValidateDate`, `TaskManager.ApplyEdit`
and `TaskManager.TaskManager.AddTask` store the date string as typed. The corrected
variants stand beside them. `TaskManager.ValidateDateCanonical` and
`TaskManager.ApplyEditCanonical` store the ISO spelling, and
`TaskManager.CanonicalDateOrdersByCalendar` and `TaskManager.CanonicalEditDueByCalendar`
prove that the due comparison then agrees with the calendar.
