/** Task lifecycle on top of the store: input validators, the due-today rule, create,
    complete, edit and delete, the listings, and the daily sweep that logs unfinished
    tasks. The clock and the id generator are parameters: `today` is the date,
    `now` the timestamp, `freshId` the uuid a call would draw. */
module TaskManager {
  import opened Errors
  import opened Calendar
  import opened Config
  import opened Storage

  const TITLE_AND_TIME_REQUIRED := "Title and time are required."
  const INVALID_TASK_TYPE := "Invalid task type."
  const ONE_TIME_NEEDS_DATE := "One-time tasks require a date."
  const RECURRING_NEEDS_DAYS := "Recurring tasks require a list of days."
  const CANNOT_EDIT_COMPLETED := "Cannot edit a completed task."
  const INVALID_DATE := "Invalid date format. Use YYYY-MM-DD."
  const INVALID_TIME := "Invalid time format. Use HH:MM (24-hour)."
  const INVALID_DAYS := "Invalid days. Use Mon, Tue, Wed, Thu, Fri, Sat, Sun."

  // ----------------------------------------------------------- validators

  /** `validate_date`: a date `strptime` reads that is not before today is returned as
      given; a malformed date and a past date raise the same error, because the inner
      "must be today or in the future" error is caught and replaced. */
  function ValidateDate(s: string, today: Date): (r: Result<string>)
    ensures r.Ok? ==> r.value == s
    ensures r.Err? ==> r.error == ValueError(INVALID_DATE)
    ensures r.Ok? <==> ParseDate(s).Some? && !Before(ParseDate(s).value, today)
  {
    match ParseDate(s)
    case Some(d) => if Before(d, today) then Err(ValueError(INVALID_DATE)) else Ok(s)
    case None => Err(ValueError(INVALID_DATE))
  }

  /** `validate_date` accepts exactly: four year digits, a month spelling and a day
      spelling of an existing date that is not before today. */
  lemma ValidateDateAcceptsExactly(s: string, today: Date)
    ensures ValidateDate(s, today).Ok? <==>
      exists d, ms, ds :: ValidDate(d) && !Before(d, today) &&
        NumberSpells(ms, d.month) && DaySpells(ds, d.day) && s == Digits(d.year, 4) + "-" + ms + "-" + ds
  {
    if ValidateDate(s, today).Ok? {
      ParseDateSound(s);
    }
    if exists d, ms, ds :: ValidDate(d) && !Before(d, today) &&
        NumberSpells(ms, d.month) && DaySpells(ds, d.day) && s == Digits(d.year, 4) + "-" + ms + "-" + ds {
      var d, ms, ds :| ValidDate(d) && !Before(d, today) &&
        NumberSpells(ms, d.month) && DaySpells(ds, d.day) && s == Digits(d.year, 4) + "-" + ms + "-" + ds;
      ParseDateComplete(d, ms, ds);
    }
  }

  /** A well-formed date in the past gets the very error a malformed string gets. */
  lemma PastDateLooksMalformed(d: Date, today: Date)
    requires ValidDate(d) && Before(d, today)
    ensures ValidateDate(IsoDate(d), today) == ValidateDate("not a date", today)
    ensures ValidateDate(IsoDate(d), today).Err?
  {
    ParseIsoDate(d);
  }

  /** `validate_date` as evidently intended: the same acceptance, but the date is
      returned in its ISO spelling, so that the string comparison of the due check
      orders it as the calendar does. */
  function ValidateDateCanonical(s: string, today: Date): (r: Result<string>)
    ensures r.Ok? <==> ValidateDate(s, today).Ok?
    ensures r.Err? ==> r.error == ValueError(INVALID_DATE)
    ensures r.Ok? ==> ParseDate(s).Some? && r.value == IsoDate(ParseDate(s).value)
  {
    match ParseDate(s)
    case Some(d) => if Before(d, today) then Err(ValueError(INVALID_DATE)) else Ok(IsoDate(d))
    case None => Err(ValueError(INVALID_DATE))
  }

  /** A stored canonical date means the same date, and compares with every later
      `today` exactly as the calendar does. */
  lemma CanonicalDateOrdersByCalendar(s: string, created: Date, today: Date)
    requires ValidateDateCanonical(s, created).Ok? && ValidDate(today)
    ensures var v := ValidateDateCanonical(s, created).value;
      ParseDate(v) == ParseDate(s) &&
      (StrLe(v, IsoDate(today)) <==> !Before(today, ParseDate(s).value))
  {
    var d := ParseDate(s).value;
    ParseIsoDate(d);
    IsoDateOrder(d, today);
  }

  /** As written, `validate_date` keeps an unpadded spelling, and the string comparison
      of `_is_task_due` then misses the due day: a task dated "2026-1-5" is not due on
      2026-01-05, nor on any day of September, and first shows up on 2026-10-01. */
  lemma UnpaddedDateMissesDueDay(t: Task)
    requires t.completed == Some(false) && t.kind == "one-time" && t.date == Some("2026-1-5")
    ensures ValidateDate("2026-1-5", Date(2026, 1, 5)) == Ok("2026-1-5")
    ensures IsTaskDue(t, IsoDate(Date(2026, 1, 5)), WeekdayName(Date(2026, 1, 5))) == Ok(false)
    ensures IsTaskDue(t, IsoDate(Date(2026, 9, 30)), WeekdayName(Date(2026, 9, 30))) == Ok(false)
    ensures IsTaskDue(t, IsoDate(Date(2026, 10, 1)), WeekdayName(Date(2026, 10, 1))) == Ok(true)
  {
    UnpaddedDateParses();
    ExampleIsoDates();
    LeAfterSharedPrefix("2026-", "1-5", "01-05");
    LeAfterSharedPrefix("2026-", "1-5", "09-30");
    LeAfterSharedPrefix("2026-", "1-5", "10-01");
    LeAfterSharedPrefix("1", "-5", "0-01");
    assert "2026-" + "1-5" == "2026-1-5";
    assert "1" + "-5" == "1-5" && "1" + "0-01" == "10-01";
  }

  lemma UnpaddedDateParses()
    ensures ParseDate("2026-1-5") == Some(Date(2026, 1, 5))
  {
    assert Digits(1, 1) == "1" && Digits(5, 1) == "5";
    YearDigits();
    assert Digits(2026, 4) + "-" + "1" + "-" + "5" == "2026-1-5";
    ParseDateComplete(Date(2026, 1, 5), "1", "5");
  }

  lemma YearDigits()
    ensures Digits(2026, 4) == "2026"
  {
    assert Digits(2, 1) == "2";
    assert Digits(20, 2) == "20";
    assert Digits(202, 3) == "202";
  }

  lemma ExampleIsoDates()
    ensures IsoDate(Date(2026, 1, 5)) == "2026-" + "01-05"
    ensures IsoDate(Date(2026, 9, 30)) == "2026-" + "09-30"
    ensures IsoDate(Date(2026, 10, 1)) == "2026-" + "10-01"
  {
    IsoDateOf(Date(2026, 1, 5), "01", "05");
    IsoDateOf(Date(2026, 9, 30), "09", "30");
    IsoDateOf(Date(2026, 10, 1), "10", "01");
  }

  lemma IsoDateOf(d: Date, ms: string, ds: string)
    requires ValidDate(d) && d.year == 2026
    requires ms == [DigitChar(d.month / 10), DigitChar(d.month % 10)]
    requires ds == [DigitChar(d.day / 10), DigitChar(d.day % 10)]
    ensures IsoDate(d) == "2026-" + (ms + "-" + ds)
  {
    YearDigits();
    DigitsTwo(d.month);
    DigitsTwo(d.day);
  }

  /** Strings that share a prefix compare as their remainders. */
  lemma {:induction false} LeAfterSharedPrefix(p: string, a: string, b: string)
    ensures StrLe(p + a, p + b) == StrLe(a, b)
  {
    if p != [] {
      assert (p + a)[1..] == p[1..] + a && (p + b)[1..] == p[1..] + b;
      LeAfterSharedPrefix(p[1..], a, b);
    } else {
      assert p + a == a && p + b == b;
    }
  }

  /** `validate_time`: what `strptime(s, "%H:%M")` reads is returned as given. */
  function ValidateTime(s: string): (r: Result<string>)
    ensures r.Ok? ==> r.value == s
    ensures r.Err? ==> r.error == ValueError(INVALID_TIME)
    ensures r.Ok? <==> ParseTime(s).Some?
  {
    if ParseTime(s).Some? then Ok(s) else Err(ValueError(INVALID_TIME))
  }

  /** `validate_time` accepts exactly an hour 0-23 and a minute 0-59, each written with
      two digits or (below ten) one, joined by a colon. */
  lemma ValidateTimeAcceptsExactly(s: string)
    ensures ValidateTime(s).Ok? <==>
      exists h, m, hs, ms :: 0 <= h < 24 && 0 <= m < 60 &&
        NumberSpells(hs, h) && NumberSpells(ms, m) && s == hs + ":" + ms
  {
    if ValidateTime(s).Ok? {
      ParseTimeSound(s);
      var (h, m) := ParseTime(s).value;
      var hs, ms :| NumberSpells(hs, h) && NumberSpells(ms, m) && s == hs + ":" + ms;
      assert 0 <= h < 24 && 0 <= m < 60;
    }
    if exists h, m, hs, ms :: 0 <= h < 24 && 0 <= m < 60 &&
        NumberSpells(hs, h) && NumberSpells(ms, m) && s == hs + ":" + ms {
      var h, m, hs, ms :| 0 <= h < 24 && 0 <= m < 60 &&
        NumberSpells(hs, h) && NumberSpells(ms, m) && s == hs + ":" + ms;
      ParseTimeExact(hs, ms, h, m);
    }
  }

  /** `validate_days`: a non-empty list of names from VALID_DAYS, returned as given. */
  function ValidateDays(days: seq<string>): (r: Result<seq<string>>)
    ensures r.Ok? <==> |days| > 0 && forall i :: 0 <= i < |days| ==> days[i] in VALID_DAYS
    ensures r.Ok? ==> r.value == days
    ensures r.Err? ==> r.error == ValueError(INVALID_DAYS)
  {
    if |days| == 0 || exists i :: 0 <= i < |days| && days[i] !in VALID_DAYS
    then Err(ValueError(INVALID_DAYS))
    else Ok(days)
  }

  // ------------------------------------------------------------ due check

  /** `_is_task_due`. Reading a key the dict lacks raises KeyError: `completed`
      always (before anything else), `days` for a recurring task, `date` for a
      one-time task. `today` is the ISO string of the day, compared as a string. */
  function IsTaskDue(t: Task, today: string, weekday: string): (r: Result<bool>)
    ensures r == Err(KeyError("completed")) <==> t.completed.None?
    ensures r == Err(KeyError("days")) <==> t.completed == Some(false) && t.kind == "recurring" && t.days.None?
    ensures r == Err(KeyError("date")) <==> t.completed == Some(false) && t.kind == "one-time" && t.date.None?
    ensures r.Err? <==> (t.completed.None? ||
      (t.completed == Some(false) && ((t.kind == "recurring" && t.days.None?) || (t.kind == "one-time" && t.date.None?))))
    ensures r == Ok(true) <==> (t.completed == Some(false) &&
      (t.kind == "daily" ||
       (t.kind == "recurring" && t.days.Some? && weekday in t.days.value) ||
       (t.kind == "one-time" && t.date.Some? && StrLe(t.date.value, today))))
  {
    match t.completed
    case None => Err(KeyError("completed"))
    case Some(done) =>
      if done then Ok(false)
      else if t.kind == "daily" then Ok(true)
      else if t.kind == "recurring" then
        (match t.days
         case None => Err(KeyError("days"))
         case Some(ds) => Ok(weekday in ds))
      else if t.kind == "one-time" then
        (match t.date
         case None => Err(KeyError("date"))
         case Some(s) => Ok(StrLe(s, today)))
      else Ok(false)
  }

  /** For a one-time task whose date is an ISO spelling, the string comparison is the
      calendar: due from that date on, not before. */
  lemma OneTimeDueByCalendar(t: Task, due: Date, today: Date)
    requires t.completed == Some(false) && t.kind == "one-time"
    requires ValidDate(due) && ValidDate(today) && t.date == Some(IsoDate(due))
    ensures IsTaskDue(t, IsoDate(today), WeekdayName(today)) == Ok(!Before(today, due))
  {
    IsoDateOrder(due, today);
  }

  /** Every task the store has written lacks `completed`, so the due check raises on it. */
  lemma StoredTaskBreaksDueCheck(f: TaskFields, today: string, weekday: string)
    requires Saveable(f)
    ensures IsTaskDue(Normalise(f), today, weekday) == Err(KeyError("completed"))
  {
  }

  /** The filtering of a task list by the due check:
      the due tasks in their order, or the first KeyError. */
  function DueTasks(ts: seq<Task>, today: string, weekday: string): (r: Result<seq<Task>>)
    ensures r.Err? <==> exists i :: 0 <= i < |ts| && IsTaskDue(ts[i], today, weekday).Err?
    ensures r.Ok? ==> IsSubsequence(r.value, ts)
    ensures r.Ok? ==> forall t :: t in r.value <==> t in ts && IsTaskDue(t, today, weekday) == Ok(true)
  {
    if ts == [] then Ok([])
    else
      assert ts == [ts[0]] + ts[1..];
      match IsTaskDue(ts[0], today, weekday)
      case Err(e) => Err(e)
      case Ok(due) =>
        match DueTasks(ts[1..], today, weekday)
        case Err(e) =>
          var i :| 0 <= i < |ts[1..]| && IsTaskDue(ts[1..][i], today, weekday).Err?;
          assert ts[i + 1] == ts[1..][i];
          Err(e)
        case Ok(rest) =>
          assert forall i :: 0 <= i < |ts| ==> IsTaskDue(ts[i], today, weekday).Ok? by {
            forall i | 0 <= i < |ts| ensures IsTaskDue(ts[i], today, weekday).Ok? {
              if i > 0 { assert ts[i] == ts[1..][i - 1]; }
            }
          }
          if due then
            assert ([ts[0]] + rest)[1..] == rest;
            Ok([ts[0]] + rest)
          else
            SubsequenceSkip(rest, ts);
            Ok(rest)
  }

  /** A failed filtering carries the error of the first task whose due check raises. */
  lemma {:induction false} DueTasksFirstError(ts: seq<Task>, today: string, weekday: string)
    requires DueTasks(ts, today, weekday).Err?
    ensures exists i :: (0 <= i < |ts| && FirstDueError(ts, i, today, weekday) &&
      DueTasks(ts, today, weekday).error == IsTaskDue(ts[i], today, weekday).error)
  {
    if IsTaskDue(ts[0], today, weekday).Err? {
      assert FirstDueError(ts, 0, today, weekday);
    } else {
      DueTasksFirstError(ts[1..], today, weekday);
      var i :| 0 <= i < |ts[1..]| && FirstDueError(ts[1..], i, today, weekday) &&
        DueTasks(ts[1..], today, weekday).error == IsTaskDue(ts[1..][i], today, weekday).error;
      FirstDueErrorCons(ts, i, today, weekday);
    }
  }

  /** A successful filtering holds each due task exactly as often as the list does, and
      no other task. */
  lemma {:induction false} DueTasksCounts(ts: seq<Task>, today: string, weekday: string)
    requires DueTasks(ts, today, weekday).Ok?
    ensures forall t :: (multiset(DueTasks(ts, today, weekday).value)[t] ==
      if IsTaskDue(t, today, weekday) == Ok(true) then multiset(ts)[t] else 0)
  {
    if ts != [] {
      DueTasksCounts(ts[1..], today, weekday);
      assert ts == [ts[0]] + ts[1..];
      assert multiset(ts) == multiset{ts[0]} + multiset(ts[1..]);
      var rest := DueTasks(ts[1..], today, weekday).value;
      if IsTaskDue(ts[0], today, weekday) == Ok(true) {
        assert multiset([ts[0]] + rest) == multiset{ts[0]} + multiset(rest);
      }
    }
  }

  /** Task `i` is the first whose due check raises. */
  predicate FirstDueError(ts: seq<Task>, i: nat, today: string, weekday: string)
    requires i < |ts|
  {
    IsTaskDue(ts[i], today, weekday).Err? && forall j :: 0 <= j < i ==> IsTaskDue(ts[j], today, weekday).Ok?
  }

  lemma FirstDueErrorCons(ts: seq<Task>, i: nat, today: string, weekday: string)
    requires ts != [] && i < |ts| - 1 && IsTaskDue(ts[0], today, weekday).Ok? && FirstDueError(ts[1..], i, today, weekday)
    ensures FirstDueError(ts, i + 1, today, weekday) && ts[i + 1] == ts[1..][i]
  {
    forall j | 0 < j < i + 1 ensures IsTaskDue(ts[j], today, weekday).Ok? {
      assert ts[j] == ts[1..][j - 1];
    }
  }

  /** A listing of a user with any task this store has written raises KeyError. */
  lemma ListingBreaksOnStoredTask(ts: seq<Task>, i: nat, today: string, weekday: string)
    requires i < |ts| && ts[i].completed.None?
    ensures DueTasks(ts, today, weekday).Err?
  {
  }

  /** The loop of `get_user_tasks(mine=False)`: every other user's due tasks, user after
      user in key order, or the first KeyError. */
  function OthersDue(users: map<string, User>, names: seq<string>, username: string, today: string, weekday: string): (r: Result<seq<Task>>)
    decreases |names|
  {
    if names == [] then Ok([])
    else
      var prefix := names[..|names| - 1];
      var u := names[|names| - 1];
      match OthersDue(users, prefix, username, today, weekday)
      case Err(e) => Err(e)
      case Ok(acc) =>
        if u == username then Ok(acc)
        else
          match DueTasks(StoredUser(users, u).tasks, today, weekday)
          case Err(e) => Err(e)
          case Ok(ts) =>
            assert forall v :: v in prefix ==> v in names;
            Ok(acc + ts)
  }

  /** The caller's own tasks never appear among "others' tasks" unless another user
      holds an equal task. */
  lemma OthersDueExcludesCaller(users: map<string, User>, names: seq<string>, username: string, today: string, weekday: string, t: Task)
    requires OthersDue(users, names, username, today, weekday).Ok?
    requires forall u :: u in names && u != username ==> t !in StoredUser(users, u).tasks
    ensures t !in OthersDue(users, names, username, today, weekday).value
  {
    OthersDueCovers(users, names, username, today, weekday);
  }

  /** A successful listing of others holds exactly the due tasks of the users in the
      key list other than the caller. */
  lemma {:induction false} OthersDueCovers(users: map<string, User>, names: seq<string>, username: string, today: string, weekday: string)
    requires OthersDue(users, names, username, today, weekday).Ok?
    ensures forall t :: t in OthersDue(users, names, username, today, weekday).value ==>
      exists u :: u in names && u != username && t in StoredUser(users, u).tasks && IsTaskDue(t, today, weekday) == Ok(true)
    ensures forall u, t ::
      (u in names && u != username && t in StoredUser(users, u).tasks && IsTaskDue(t, today, weekday) == Ok(true)) ==>
        t in OthersDue(users, names, username, today, weekday).value
    decreases |names|
  {
    if names != [] {
      var prefix := names[..|names| - 1];
      var u := names[|names| - 1];
      assert names == prefix + [u];
      OthersDueCovers(users, prefix, username, today, weekday);
    }
  }

  // ------------------------------------------------------------- creation

  /** The checks of `add_task`, in order; None when all pass. */
  function CreationError(title: string, kind: string, time: string, date: Option<string>, days: Option<seq<string>>): (r: Option<Error>)
    ensures r.None? <==>
      title != "" && time != "" && kind in TASK_TYPES &&
      (kind == "one-time" ==> date.Some? && date.value != "") &&
      (kind == "recurring" ==> days.Some? && |days.value| > 0)
    ensures r.Some? && (title == "" || time == "") ==> r.value == ValueError(TITLE_AND_TIME_REQUIRED)
    ensures r.Some? && title != "" && time != "" && kind !in TASK_TYPES ==> r.value == ValueError(INVALID_TASK_TYPE)
    ensures r.Some? && title != "" && time != "" && kind == "one-time" && (date.None? || date.value == "") ==>
      r.value == ValueError(ONE_TIME_NEEDS_DATE)
    ensures r.Some? && title != "" && time != "" && kind == "recurring" && (days.None? || |days.value| == 0) ==>
      r.value == ValueError(RECURRING_NEEDS_DAYS)
  {
    if title == "" || time == "" then Some(ValueError(TITLE_AND_TIME_REQUIRED))
    else if kind !in TASK_TYPES then Some(ValueError(INVALID_TASK_TYPE))
    else if kind == "one-time" && (date.None? || date.value == "") then Some(ValueError(ONE_TIME_NEEDS_DATE))
    else if kind == "recurring" && (days.None? || |days.value| == 0) then Some(ValueError(RECURRING_NEEDS_DAYS))
    else None
  }

  /** The dict `add_task` builds: `completed` False, `date` only for a one-time task,
      `days` only for a recurring task, no `completions`. */
  function NewTaskFields(id: string, title: string, kind: string, time: string, date: Option<string>, days: Option<seq<string>>): (f: TaskFields)
    ensures f.id == Some(id) && f.completed == Some(false) && f.completions.None?
    ensures f.date.Some? <==> kind == "one-time" && date.Some?
    ensures f.days.Some? <==> kind == "recurring" && days.Some?
  {
    TaskFields(Some(id), Some(title), Some(kind), Some(time), None,
               if kind == "one-time" then date else None,
               if kind == "recurring" then days else None,
               Some(false))
  }

  /** What `add_task` stores: the caller's fields, no completions, `date` exactly for a
      one-time task, `days` exactly for a recurring one, and no `completed` key, which
      `save_task` dropped. */
  lemma CreatedTaskShape(id: string, title: string, kind: string, time: string, date: Option<string>, days: Option<seq<string>>)
    requires id != "" && CreationError(title, kind, time, date, days).None?
    ensures Saveable(NewTaskFields(id, title, kind, time, date, days))
    ensures var t := Normalise(NewTaskFields(id, title, kind, time, date, days));
      t.id == id && t.title == title && t.kind == kind && t.time == time && t.completions == [] &&
      (t.date.Some? <==> kind == "one-time") && (kind == "one-time" ==> t.date == date) &&
      (t.days.Some? <==> kind == "recurring") && (kind == "recurring" ==> t.days == days) &&
      t.completed.None?
  {
  }

  /** With a fresh id, creation appends exactly the new task, and looking the id up
      afterwards finds it. */
  lemma CreateThenFind(tasks: seq<Task>, t: Task)
    requires FindTask(tasks, t.id).None?
    ensures Upsert(tasks, t) == tasks + [t]
    ensures FindTask(Upsert(tasks, t), t.id) == Some(t)
  {
    var r := Upsert(tasks, t);
    assert |r| == |tasks| + 1;
    assert forall j :: 0 <= j < |r| ==> r[j] == (tasks + [t])[j];
  }

  // ---------------------------------------------------------------- editing

  /** The field updates of `edit_task` on a task that is neither missing nor completed:
      title and time when given, `date` only on a one-time task, `days` only on a
      recurring one; the first validation error otherwise. */
  function ApplyEdit(t: Task, title: Option<string>, time: Option<string>, date: Option<string>, days: Option<seq<string>>, today: Date): (r: Result<Task>)
    ensures r.Ok? ==> r.value.id == t.id && r.value.kind == t.kind
    ensures r.Ok? ==> r.value.completions == t.completions && r.value.completed == t.completed
    ensures r.Ok? ==> r.value.title == if title.Some? && title.value != "" then title.value else t.title
    ensures r.Ok? ==> r.value.time == if time.Some? && time.value != "" then time.value else t.time
    ensures r.Ok? ==> r.value.date == if t.kind == "one-time" && date.Some? && date.value != "" then date else t.date
    ensures r.Ok? ==> r.value.days == if t.kind == "recurring" && days.Some? && |days.value| > 0 then days else t.days
    ensures r.Err? <==>
      (time.Some? && time.value != "" && ValidateTime(time.value).Err?) ||
      (t.kind == "one-time" && date.Some? && date.value != "" && ValidateDate(date.value, today).Err?) ||
      (t.kind == "recurring" && days.Some? && |days.value| > 0 && ValidateDays(days.value).Err?)
    ensures r.Err? ==>
      r.error == (if time.Some? && time.value != "" && ValidateTime(time.value).Err? then ValueError(INVALID_TIME)
                  else if t.kind == "one-time" then ValueError(INVALID_DATE)
                  else ValueError(INVALID_DAYS))
  {
    var t1 := if title.Some? && title.value != "" then t.(title := title.value) else t;
    if time.Some? && time.value != "" && ValidateTime(time.value).Err? then Err(ValidateTime(time.value).error)
    else
      var t2 := if time.Some? && time.value != "" then t1.(time := time.value) else t1;
      if t.kind == "one-time" && date.Some? && date.value != "" then
        match ValidateDate(date.value, today)
        case Err(e) => Err(e)
        case Ok(d) => Ok(t2.(date := Some(d)))
      else if t.kind == "recurring" && days.Some? && |days.value| > 0 then
        match ValidateDays(days.value)
        case Err(e) => Err(e)
        case Ok(ds) => Ok(t2.(days := Some(ds)))
      else Ok(t2)
  }

  /** `edit_task` as evidently intended: the same edit, but a new date is stored in its
      ISO spelling, so that the due check's string comparison follows the calendar. */
  function ApplyEditCanonical(t: Task, title: Option<string>, time: Option<string>, date: Option<string>, days: Option<seq<string>>, today: Date): (r: Result<Task>)
    ensures r.Ok? <==> ApplyEdit(t, title, time, date, days, today).Ok?
    ensures r.Err? ==> r == ApplyEdit(t, title, time, date, days, today)
    ensures r.Ok? && !(t.kind == "one-time" && date.Some? && date.value != "") ==> r == ApplyEdit(t, title, time, date, days, today)
    ensures r.Ok? && t.kind == "one-time" && date.Some? && date.value != "" ==>
      ParseDate(date.value).Some? && r.value == ApplyEdit(t, title, time, date, days, today).value.(date := Some(IsoDate(ParseDate(date.value).value)))
  {
    var e := ApplyEdit(t, title, time, date, days, today);
    if e.Ok? && t.kind == "one-time" && date.Some? && date.value != "" then
      Ok(e.value.(date := Some(ValidateDateCanonical(date.value, today).value)))
    else e
  }

  /** After the intended edit, a pending one-time task is due exactly from the date the
      user typed, on every later day, however that date was spelled. */
  lemma CanonicalEditDueByCalendar(t: Task, title: Option<string>, time: Option<string>, date: Option<string>, days: Option<seq<string>>, today: Date, later: Date)
    requires t.completed == Some(false) && t.kind == "one-time" && date.Some? && date.value != ""
    requires ApplyEditCanonical(t, title, time, date, days, today).Ok? && ValidDate(later)
    ensures IsTaskDue(ApplyEditCanonical(t, title, time, date, days, today).value, IsoDate(later), WeekdayName(later)) ==
      Ok(!Before(later, ParseDate(date.value).value))
  {
    var d := ParseDate(date.value).value;
    OneTimeDueByCalendar(ApplyEditCanonical(t, title, time, date, days, today).value, d, later);
  }

  /** The outcome of `edit_task` before it writes: the edited task, or the error. */
  function EditResult(tasks: seq<Task>, taskId: string, title: Option<string>, time: Option<string>, date: Option<string>, days: Option<seq<string>>, today: Date): (r: Result<Task>)
    ensures FindTask(tasks, taskId).None? ==> r == Err(ValueError(TASK_NOT_FOUND))
    ensures FindTask(tasks, taskId).Some? && FindTask(tasks, taskId).value.completed == Some(true) ==>
      r == Err(ValueError(CANNOT_EDIT_COMPLETED))
    ensures FindTask(tasks, taskId).Some? && FindTask(tasks, taskId).value.completed.None? ==>
      r == Err(KeyError("completed"))
    ensures FindTask(tasks, taskId).Some? && FindTask(tasks, taskId).value.completed == Some(false) ==>
      r == ApplyEdit(FindTask(tasks, taskId).value, title, time, date, days, today)
    ensures r.Ok? ==> (r.value.id == taskId && FindTask(tasks, taskId).Some? &&
      r.value.kind == FindTask(tasks, taskId).value.kind && r.value.completed == Some(false))
  {
    match FindTask(tasks, taskId)
    case None => Err(ValueError(TASK_NOT_FOUND))
    case Some(t) =>
      match t.completed
      case None => Err(KeyError("completed"))
      case Some(done) =>
        if done then Err(ValueError(CANNOT_EDIT_COMPLETED))
        else ApplyEdit(t, title, time, date, days, today)
  }

  /** An edit writes the task back without `completed`, so the same task cannot be
      edited a second time: the next attempt raises KeyError. */
  lemma EditedTaskCannotBeEditedAgain(tasks: seq<Task>, taskId: string, title: Option<string>, time: Option<string>, date: Option<string>, days: Option<seq<string>>, today: Date,
                                      title2: Option<string>, time2: Option<string>, date2: Option<string>, days2: Option<seq<string>>)
    requires EditResult(tasks, taskId, title, time, date, days, today).Ok?
    requires Saveable(FieldsOf(EditResult(tasks, taskId, title, time, date, days, today).value))
    ensures var stored := Upsert(tasks, Normalise(FieldsOf(EditResult(tasks, taskId, title, time, date, days, today).value)));
      EditResult(stored, taskId, title2, time2, date2, days2, today) == Err(KeyError("completed"))
  {
  }

  // --------------------------------------------------------------- sweep

  /** One step of the sweep's nested loops: a task and the user whose list holds it. */
  datatype Work = Work(user: string, task: Task)

  /** Where the sweep stands: still running or stopped by an exception, and the log. */
  datatype Sweep = Sweep(outcome: Outcome, history: seq<HistoryEntry>)

  function UserWork(username: string, ts: seq<Task>): (w: seq<Work>)
    ensures |w| == |ts| && forall i :: 0 <= i < |ts| ==> w[i] == Work(username, ts[i])
  {
    seq(|ts|, i requires 0 <= i < |ts| => Work(username, ts[i]))
  }

  /** Every (user, task) pair, users in key order, each user's tasks in list order. */
  function AllWork(users: map<string, User>, names: seq<string>): (w: seq<Work>)
    ensures forall x :: x in w ==> x.user in names && x.task in StoredUser(users, x.user).tasks
    ensures forall u, t :: (u in names && t in StoredUser(users, u).tasks) ==> Work(u, t) in w
    decreases |names|
  {
    if names == [] then []
    else
      var prefix, u := names[..|names| - 1], names[|names| - 1];
      var before := AllWork(users, prefix);
      var mine := UserWork(u, StoredUser(users, u).tasks);
      assert forall v :: v in names <==> v in prefix || v == u by {
        assert names == prefix + [u];
      }
      assert forall t :: t in StoredUser(users, u).tasks ==> Work(u, t) in mine by {
        forall t | t in StoredUser(users, u).tasks ensures Work(u, t) in mine {
          var i :| 0 <= i < |StoredUser(users, u).tasks| && StoredUser(users, u).tasks[i] == t;
          assert mine[i] == Work(u, t);
        }
      }
      before + mine
  }

  predicate IncompleteOn(e: HistoryEntry, day: Date) {
    e.status == Incomplete && e.timestamp.date == day
  }

  /** The `already_logged` test: an "incomplete" entry for this task id stamped today. */
  predicate LoggedToday(h: seq<HistoryEntry>, id: string, day: Date) {
    exists e :: e in h && e.taskId == id && IncompleteOn(e, day)
  }

  /** `any(...)` over a log made of two parts is `any` over either part. */
  lemma LoggedTodayConcat(h1: seq<HistoryEntry>, h2: seq<HistoryEntry>, id: string, day: Date)
    ensures LoggedToday(h1 + h2, id, day) <==> LoggedToday(h1, id, day) || LoggedToday(h2, id, day)
  {
    if LoggedToday(h1 + h2, id, day) {
      var e :| e in h1 + h2 && e.taskId == id && IncompleteOn(e, day);
      assert e in h1 || e in h2;
    }
  }

  /** The body of the inner loop of `log_incomplete_tasks`. */
  function Step(s: Sweep, w: Work, now: Timestamp): (r: Sweep)
    requires ValidDate(now.date)
    ensures s.outcome.Fail? ==> r == s
  {
    if s.outcome.Fail? then s
    else
      match IsTaskDue(w.task, IsoDate(now.date), WeekdayName(now.date))
      case Err(e) => Sweep(Fail(e), s.history)
      case Ok(due) =>
        if due && !LoggedToday(s.history, w.task.id, now.date)
        then Sweep(Pass, Prune(s.history + [NewEntry(w.task, Incomplete, w.user, now)], now))
        else s
  }

  /** The steps of the sweep in order: a stopped sweep never resumes. */
  function Run(s: Sweep, work: seq<Work>, now: Timestamp): (r: Sweep)
    requires ValidDate(now.date)
    ensures r.outcome.Pass? ==> s.outcome.Pass?
    decreases |work|
  {
    if work == [] then s else Step(Run(s, work[..|work| - 1], now), work[|work| - 1], now)
  }

  /** Each step of the sweep adds at most one entry to the log. */
  lemma {:induction false} RunBound(s: Sweep, work: seq<Work>, now: Timestamp)
    requires ValidDate(now.date)
    ensures |Run(s, work, now).history| <= |s.history| + |work|
    decreases |work|
  {
    if work != [] {
      RunBound(s, work[..|work| - 1], now);
    }
  }

  /** A running sweep stops exactly when the due check raises on one of its tasks. */
  lemma {:induction false} RunFailsExactly(s: Sweep, work: seq<Work>, now: Timestamp)
    requires ValidDate(now.date) && s.outcome.Pass?
    ensures Run(s, work, now).outcome.Fail? <==>
      exists x :: x in work && IsTaskDue(x.task, IsoDate(now.date), WeekdayName(now.date)).Err?
    decreases |work|
  {
    if work != [] {
      var pre, last := work[..|work| - 1], work[|work| - 1];
      assert work == pre + [last];
      RunFailsExactly(s, pre, now);
      RunLastFails(s, work, now);
    }
  }

  /** The last step of a run stops it when the run had not stopped before and the due
      check raises on the last task. */
  lemma RunLastFails(s: Sweep, work: seq<Work>, now: Timestamp)
    requires ValidDate(now.date) && work != []
    ensures Run(s, work, now).outcome.Fail? <==>
      Run(s, work[..|work| - 1], now).outcome.Fail? ||
      IsTaskDue(work[|work| - 1].task, IsoDate(now.date), WeekdayName(now.date)).Err?
  {
    StepFailsExactly(Run(s, work[..|work| - 1], now), work[|work| - 1], now);
  }

  /** One step stops a running sweep exactly when the due check raises. */
  lemma StepFailsExactly(s: Sweep, w: Work, now: Timestamp)
    requires ValidDate(now.date)
    ensures Step(s, w, now).outcome.Fail? <==>
      s.outcome.Fail? || IsTaskDue(w.task, IsoDate(now.date), WeekdayName(now.date)).Err?
  {
  }

  /** The whole `log_incomplete_tasks` on a history and a users file: it raises exactly
      when the due check raises on some task of some user. */
  function SweepAll(h: seq<HistoryEntry>, users: map<string, User>, names: seq<string>, now: Timestamp): (r: Sweep)
    requires ValidDate(now.date)
    ensures r.outcome.Fail? <==> exists x :: x in AllWork(users, names) && IsTaskDue(x.task, IsoDate(now.date), WeekdayName(now.date)).Err?
  {
    var work := AllWork(users, names);
    var r := Run(Sweep(Pass, h), work, now);
    RunFailsExactly(Sweep(Pass, h), work, now);
    r
  }

  lemma {:induction false} RunConcat(s: Sweep, w1: seq<Work>, w2: seq<Work>, now: Timestamp)
    requires ValidDate(now.date)
    ensures Run(s, w1 + w2, now) == Run(Run(s, w1, now), w2, now)
    decreases |w2|
  {
    if w2 == [] {
      assert w1 + w2 == w1;
    } else {
      var w := w1 + w2;
      assert w[..|w| - 1] == w1 + w2[..|w2| - 1];
      assert w[|w| - 1] == w2[|w2| - 1];
      RunConcat(s, w1, w2[..|w2| - 1], now);
    }
  }

  /** A stopped sweep stays stopped and writes nothing more. */
  lemma {:induction false} RunStopped(s: Sweep, work: seq<Work>, now: Timestamp)
    requires ValidDate(now.date) && s.outcome.Fail?
    ensures Run(s, work, now) == s
    decreases |work|
  {
    if work != [] {
      RunStopped(s, work[..|work| - 1], now);
    }
  }

  /** Entries stamped today survive every prune the sweep performs. */
  lemma StepKeepsLogged(s: Sweep, w: Work, now: Timestamp, id: string)
    requires ValidTimestamp(now) && LoggedToday(s.history, id, now.date)
    ensures LoggedToday(Step(s, w, now).history, id, now.date)
  {
    var e :| e in s.history && e.taskId == id && IncompleteOn(e, now.date);
    SameDayIsWithin(e.timestamp, now, HISTORY_RETENTION_DAYS);
    var h := s.history + [NewEntry(w.task, Incomplete, w.user, now)];
    assert e in h;
  }

  lemma {:induction false} RunKeepsLogged(s: Sweep, work: seq<Work>, now: Timestamp, id: string)
    requires ValidTimestamp(now) && LoggedToday(s.history, id, now.date)
    ensures LoggedToday(Run(s, work, now).history, id, now.date)
    decreases |work|
  {
    if work != [] {
      RunKeepsLogged(s, work[..|work| - 1], now, id);
      StepKeepsLogged(Run(s, work[..|work| - 1], now), work[|work| - 1], now, id);
    }
  }

  /** A step that runs a due task leaves it logged for today. */
  lemma StepLogsDueTask(s: Sweep, w: Work, now: Timestamp)
    requires ValidTimestamp(now) && s.outcome.Pass?
    requires IsTaskDue(w.task, IsoDate(now.date), WeekdayName(now.date)) == Ok(true)
    ensures LoggedToday(Step(s, w, now).history, w.task.id, now.date)
  {
    if !LoggedToday(s.history, w.task.id, now.date) {
      var e := NewEntry(w.task, Incomplete, w.user, now);
      LoggedEntryKept(s.history, e, now);
      assert e in Step(s, w, now).history;
    }
  }

  /** A step taken later on the same day, on a log where the task is already logged
      whenever it is due, raises as the due check does and writes nothing. */
  lemma StepOnLoggedLater(s: Sweep, w: Work, later: Timestamp)
    requires ValidDate(later.date) && s.outcome.Pass?
    requires IsTaskDue(w.task, IsoDate(later.date), WeekdayName(later.date)) == Ok(true) ==>
      LoggedToday(s.history, w.task.id, later.date)
    ensures Step(s, w, later).history == s.history
    ensures Step(s, w, later).outcome ==
      match IsTaskDue(w.task, IsoDate(later.date), WeekdayName(later.date))
      case Err(e) => Fail(e)
      case Ok(_) => Pass
  {
  }

  /** Replaying any prefix of the work on the finished log, at any later instant of the
      same day, changes nothing and stops exactly where the first run stopped. */
  lemma {:induction false} Replay(h: seq<HistoryEntry>, work: seq<Work>, k: nat, now: Timestamp, later: Timestamp)
    requires ValidTimestamp(now) && later.date == now.date && k <= |work|
    ensures var final := Run(Sweep(Pass, h), work, now).history;
      Run(Sweep(Pass, final), work[..k], later) == Sweep(Run(Sweep(Pass, h), work[..k], now).outcome, final)
  {
    if k > 0 {
      Replay(h, work, k - 1, now, later);
      ReplayStep(h, work, k, now, later);
    }
  }

  /** The inductive step of `Replay`: from the first `k - 1` items to the first `k`. */
  lemma ReplayStep(h: seq<HistoryEntry>, work: seq<Work>, k: nat, now: Timestamp, later: Timestamp)
    requires ValidTimestamp(now) && later.date == now.date && 0 < k <= |work|
    requires var final := Run(Sweep(Pass, h), work, now).history;
      Run(Sweep(Pass, final), work[..k - 1], later) == Sweep(Run(Sweep(Pass, h), work[..k - 1], now).outcome, final)
    ensures var final := Run(Sweep(Pass, h), work, now).history;
      Run(Sweep(Pass, final), work[..k], later) == Sweep(Run(Sweep(Pass, h), work[..k], now).outcome, final)
  {
    var start, final := Sweep(Pass, h), Run(Sweep(Pass, h), work, now).history;
    var x, mid := work[k - 1], Run(start, work[..k - 1], now);
    assert work[..k] == work[..k - 1] + [x];
    RunSnoc(Sweep(Pass, final), work[..k - 1], x, later);
    RunSnoc(start, work[..k - 1], x, now);
    if mid.outcome.Pass? && IsTaskDue(x.task, IsoDate(now.date), WeekdayName(now.date)) == Ok(true) {
      DueTaskStaysLogged(h, work, k, now);
    }
    ReplayNext(final, mid, x, now, later);
  }

  /** One step of the replay: where the first run was still going, the task is logged
      in the final log whenever it is due, so the replayed step ends as the first one
      did and writes nothing. */
  lemma ReplayNext(final: seq<HistoryEntry>, mid: Sweep, x: Work, now: Timestamp, later: Timestamp)
    requires ValidTimestamp(now) && later.date == now.date
    requires mid.outcome.Pass? && IsTaskDue(x.task, IsoDate(now.date), WeekdayName(now.date)) == Ok(true) ==>
      LoggedToday(final, x.task.id, now.date)
    ensures Step(Sweep(mid.outcome, final), x, later) == Sweep(Step(mid, x, now).outcome, final)
  {
    if mid.outcome.Pass? {
      StepOnLoggedLater(Sweep(Pass, final), x, later);
      StepOutcome(mid, x, now);
    }
  }

  /** The outcome of one step of a running sweep is the outcome of the due check. */
  lemma StepOutcome(s: Sweep, w: Work, now: Timestamp)
    requires ValidDate(now.date) && s.outcome.Pass?
    ensures Step(s, w, now).outcome ==
      match IsTaskDue(w.task, IsoDate(now.date), WeekdayName(now.date))
      case Err(e) => Fail(e)
      case Ok(_) => Pass
  {
  }

  /** A due task reached while the first run is still going is logged in its final log. */
  lemma DueTaskStaysLogged(h: seq<HistoryEntry>, work: seq<Work>, k: nat, now: Timestamp)
    requires ValidTimestamp(now) && 0 < k <= |work|
    requires Run(Sweep(Pass, h), work[..k - 1], now).outcome.Pass?
    requires IsTaskDue(work[k - 1].task, IsoDate(now.date), WeekdayName(now.date)) == Ok(true)
    ensures LoggedToday(Run(Sweep(Pass, h), work, now).history, work[k - 1].task.id, now.date)
  {
    assert work[..k][..k - 1] == work[..k - 1] && work[..k][k - 1] == work[k - 1];
    DueTaskLoggedAtOnce(Sweep(Pass, h), work[..k], now);
    assert work[..k] + work[k..] == work;
    RunExtendKeepsLogged(Sweep(Pass, h), work[..k], work[k..], now, work[k - 1].task.id);
  }

  /** A due task reached while a run is still going is logged by its own step. */
  lemma DueTaskLoggedAtOnce(s: Sweep, work: seq<Work>, now: Timestamp)
    requires ValidTimestamp(now) && work != []
    requires Run(s, work[..|work| - 1], now).outcome.Pass?
    requires IsTaskDue(work[|work| - 1].task, IsoDate(now.date), WeekdayName(now.date)) == Ok(true)
    ensures LoggedToday(Run(s, work, now).history, work[|work| - 1].task.id, now.date)
  {
    StepLogsDueTask(Run(s, work[..|work| - 1], now), work[|work| - 1], now);
  }

  /** What a run has logged for today stays logged when the run goes on. */
  lemma RunExtendKeepsLogged(s: Sweep, w1: seq<Work>, w2: seq<Work>, now: Timestamp, id: string)
    requires ValidTimestamp(now) && LoggedToday(Run(s, w1, now).history, id, now.date)
    ensures LoggedToday(Run(s, w1 + w2, now).history, id, now.date)
  {
    RunConcat(s, w1, w2, now);
    RunKeepsLogged(Run(s, w1, now), w2, now, id);
  }

  /** `log_incomplete_tasks` run a second time later the same day, over the same users,
      appends nothing and ends the same way. */
  lemma SweepIdempotent(h: seq<HistoryEntry>, users: map<string, User>, names: seq<string>, now: Timestamp, later: Timestamp)
    requires ValidTimestamp(now) && later.date == now.date
    ensures SweepAll(SweepAll(h, users, names, now).history, users, names, later) == SweepAll(h, users, names, now)
  {
    var work := AllWork(users, names);
    Replay(h, work, |work|, now, later);
    assert work[..|work|] == work;
  }

  /** At most one "incomplete" entry per task id is stamped on `day`. */
  predicate OncePerTask(h: seq<HistoryEntry>, day: Date) {
    h == [] || ((IncompleteOn(h[0], day) ==> !LoggedToday(h[1..], h[0].taskId, day)) && OncePerTask(h[1..], day))
  }

  lemma {:induction false} PruneKeepsOncePerTask(h: seq<HistoryEntry>, day: Date, now: Timestamp)
    requires OncePerTask(h, day)
    ensures OncePerTask(Prune(h, now), day)
  {
    if h != [] {
      PruneKeepsOncePerTask(h[1..], day, now);
      var r := Prune(h, now);
      if Recent(h[0], now) {
        assert r[0] == h[0] && r[1..] == Prune(h[1..], now);
      } else {
        assert r == Prune(h[1..], now);
      }
    }
  }

  lemma {:induction false} AppendKeepsOncePerTask(h: seq<HistoryEntry>, e: HistoryEntry, day: Date)
    requires OncePerTask(h, day)
    requires IncompleteOn(e, day) ==> !LoggedToday(h, e.taskId, day)
    ensures OncePerTask(h + [e], day)
  {
    if h == [] {
      assert [e][1..] == [];
    } else {
      var g := h + [e];
      assert g[0] == h[0] && g[1..] == h[1..] + [e];
      assert IncompleteOn(e, day) ==> !LoggedToday(h[1..], e.taskId, day);
      AppendKeepsOncePerTask(h[1..], e, day);
      if IncompleteOn(h[0], day) && IncompleteOn(e, day) {
        assert h[0] in h;
        assert e.taskId != h[0].taskId;
      }
    }
  }

  /** The sweep never stamps a second "incomplete" entry for one task id on one day. */
  lemma {:induction false} SweepOncePerTask(s: Sweep, work: seq<Work>, now: Timestamp)
    requires ValidTimestamp(now) && OncePerTask(s.history, now.date)
    ensures OncePerTask(Run(s, work, now).history, now.date)
    decreases |work|
  {
    if work != [] {
      var before := Run(s, work[..|work| - 1], now);
      SweepOncePerTask(s, work[..|work| - 1], now);
      var w := work[|work| - 1];
      if before.outcome.Pass? && IsTaskDue(w.task, IsoDate(now.date), WeekdayName(now.date)) == Ok(true)
         && !LoggedToday(before.history, w.task.id, now.date) {
        var e := NewEntry(w.task, Incomplete, w.user, now);
        AppendKeepsOncePerTask(before.history, e, now.date);
        PruneKeepsOncePerTask(before.history + [e], now.date, now);
      }
    }
  }

  /** After a sweep that ran to the end, every due task of every user is logged for today. */
  lemma {:induction false} SweepCoversDueTasks(s: Sweep, work: seq<Work>, now: Timestamp, i: nat)
    requires ValidTimestamp(now) && i < |work|
    requires Run(s, work, now).outcome.Pass?
    requires IsTaskDue(work[i].task, IsoDate(now.date), WeekdayName(now.date)) == Ok(true)
    ensures LoggedToday(Run(s, work, now).history, work[i].task.id, now.date)
  {
    var w, mid := work[i], Run(s, work[..i], now);
    if mid.outcome.Fail? {
      RunStoppedEarly(s, work[..i], work, now);
    }
    assert work[..i + 1] == work[..i] + [w];
    RunSnoc(s, work[..i], w, now);
    StepLogsDueTask(mid, w, now);
    assert work[..i + 1] + work[i + 1..] == work;
    RunExtendKeepsLogged(s, work[..i + 1], work[i + 1..], now, w.task.id);
  }

  // ---------------------------------------------------------- the manager

  class TaskManager {
    const storage: Storage

    /** The manager works on a store that the bot's handlers may share. */
    constructor (storage: Storage)
      ensures this.storage == storage
    {
      this.storage := storage;
    }

    /** `add_task` with `freshId` standing for the uuid it draws. */
    method AddTask(username: string, title: string, kind: string, time: string, date: Option<string>, days: Option<seq<string>>, freshId: string)
      returns (r: Result<string>)
      requires storage.Valid()
      modifies storage
      ensures storage.Valid()
      ensures CreationError(title, kind, time, date, days).Some? ==>
        r == Err(CreationError(title, kind, time, date, days).value) &&
        storage.users == old(storage.users) && storage.names == old(storage.names) && storage.history == old(storage.history)
      ensures CreationError(title, kind, time, date, days).None? && freshId == "" ==>
        r == Err(ValueError(NEEDS_ID_AND_TITLE)) &&
        storage.users == old(storage.users) && storage.names == old(storage.names) && storage.history == old(storage.history)
      ensures CreationError(title, kind, time, date, days).None? && freshId != "" ==>
        var u := StoredUser(old(storage.users), username);
        r == Ok(freshId) && storage.history == old(storage.history) &&
        storage.users == old(storage.users)[username := u.(tasks := Upsert(u.tasks, Normalise(NewTaskFields(freshId, title, kind, time, date, days))))] &&
        storage.names == if username in old(storage.users) then old(storage.names) else old(storage.names) + [username]
      ensures (CreationError(title, kind, time, date, days).None? && freshId != "" &&
        FindTask(old(storage.GetUserTasks(username)), freshId).None?) ==>
        storage.GetUserTasks(username) == old(storage.GetUserTasks(username)) + [Normalise(NewTaskFields(freshId, title, kind, time, date, days))]
    {
      var err := CreationError(title, kind, time, date, days);
      if err.Some? {
        return Err(err.value);
      }
      ghost var before := storage.GetUserTasks(username);
      var saved := storage.SaveTask(username, NewTaskFields(freshId, title, kind, time, date, days));
      if saved.Fail? {
        return Err(saved.error);
      }
      if FindTask(before, freshId).None? {
        CreateThenFind(before, Normalise(NewTaskFields(freshId, title, kind, time, date, days)));
      }
      r := Ok(freshId);
    }

    /** `get_user_tasks`: the caller's due tasks, or (mine = false) every other user's. */
    method GetUserTasks(username: string, mine: bool, today: Date) returns (r: Result<seq<Task>>)
      requires storage.Valid() && ValidDate(today)
      ensures mine ==> r == DueTasks(storage.GetUserTasks(username), IsoDate(today), WeekdayName(today))
      ensures !mine ==> r == OthersDue(storage.users, storage.names, username, IsoDate(today), WeekdayName(today))
    {
      var isoToday, weekday := IsoDate(today), WeekdayName(today);
      if mine {
        r := DueTasks(storage.GetUserTasks(username), isoToday, weekday);
      } else {
        r := CollectOthers(username, isoToday, weekday);
      }
    }

    /** The `for other_user in all_users` loop of `get_user_tasks`. */
    method CollectOthers(username: string, today: string, weekday: string) returns (r: Result<seq<Task>>)
      requires storage.Valid()
      ensures r == OthersDue(storage.users, storage.names, username, today, weekday)
    {
      var names := storage.GetAllUsers();
      var others: seq<Task> := [];
      var i := 0;
      while i < |names|
        invariant names == storage.names && 0 <= i <= |names|
        invariant OthersDue(storage.users, names[..i], username, today, weekday) == Ok(others)
      {
        var next := CollectOne(names, i, username, today, weekday, others);
        if next.Err? {
          OthersStopped(storage.users, names, i + 1, username, today, weekday);
          return next;
        }
        others := next.value;
        i := i + 1;
      }
      assert names[..i] == names;
      r := Ok(others);
    }

    /** One pass of that loop: the user `names[i]` is skipped when it is the caller,
        otherwise their due tasks are appended to `others`. */
    method CollectOne(names: seq<string>, i: nat, username: string, today: string, weekday: string, others: seq<Task>) returns (next: Result<seq<Task>>)
      requires i < |names| && OthersDue(storage.users, names[..i], username, today, weekday) == Ok(others)
      ensures next == OthersDue(storage.users, names[..i + 1], username, today, weekday)
    {
      OthersDueNext(storage.users, names, i, username, today, weekday, others);
      if names[i] == username {
        return Ok(others);
      }
      var due := DueTasks(storage.GetUserTasks(names[i]), today, weekday);
      if due.Err? {
        return Err(due.error);
      }
      next := Ok(others + due.value);
    }

    /** `get_task_by_id`: the first of the user's tasks with this id. */
    function GetTaskById(username: string, taskId: string): (r: Option<Task>)
      reads storage
      ensures r.Some? ==> username in storage.users && r.value in storage.users[username].tasks && r.value.id == taskId
      ensures r.None? <==> forall t :: t in storage.GetUserTasks(username) ==> t.id != taskId
      ensures r.Some? ==> r.value == storage.GetUserTasks(username)[FindIndex(storage.GetUserTasks(username), taskId)]
    {
      FindTask(storage.GetUserTasks(username), taskId)
    }

    /** `complete_task`: nothing for a missing or completed task; KeyError for a task
      without `completed`; otherwise the task is written back (which drops the flag
      just set) and one "completed" entry is logged. */
    method CompleteTask(username: string, taskId: string, now: Timestamp) returns (r: Outcome)
      requires storage.Valid()
      modifies storage
      ensures storage.Valid() && storage.names == old(storage.names)
      ensures var found := old(GetTaskById(username, taskId));
        found.None? || found.value.completed == Some(true) ==>
          r == Pass && storage.users == old(storage.users) && storage.history == old(storage.history)
      ensures var found := old(GetTaskById(username, taskId));
        found.Some? && found.value.completed.None? ==>
          r == Fail(KeyError("completed")) && storage.users == old(storage.users) && storage.history == old(storage.history)
      ensures var found := old(GetTaskById(username, taskId));
        found.Some? && found.value.completed == Some(false) && !Saveable(FieldsOf(found.value)) ==>
          r == Fail(ValueError(NEEDS_ID_AND_TITLE)) && storage.users == old(storage.users) && storage.history == old(storage.history)
      ensures var found := old(GetTaskById(username, taskId));
        found.Some? && found.value.completed == Some(false) && Saveable(FieldsOf(found.value)) ==>
          var done := found.value.(completed := Some(true));
          var u := old(storage.users)[username];
          r == Pass &&
          storage.users == old(storage.users)[username := u.(tasks := Upsert(u.tasks, Normalise(FieldsOf(done))))] &&
          storage.history == Prune(old(storage.history) + [NewEntry(done, Completed, username, now)], now)
    {
      var found := GetTaskById(username, taskId);
      if found.None? {
        return Pass;
      }
      var task := found.value;
      if task.completed.None? {
        return Fail(KeyError("completed"));
      }
      if task.completed.value {
        return Pass;
      }
      task := task.(completed := Some(true));
      r := storage.SaveTask(username, FieldsOf(task));
      if r.Pass? {
        storage.LogHistory(task, Completed, username, now);
      }
    }

    /** Completing a task twice logs "completed" at most once: the write-back drops the
      flag, so a second call after a successful one raises KeyError and touches nothing;
      after a call that did nothing or raised, the second call does the same. */
    method CompleteTwice(username: string, taskId: string, now: Timestamp) returns (first: Outcome, second: Outcome)
      requires storage.Valid()
      modifies storage
      ensures storage.Valid() && storage.names == old(storage.names)
      ensures var found := old(GetTaskById(username, taskId));
        found.Some? && found.value.completed == Some(false) && Saveable(FieldsOf(found.value)) ==>
          var done := found.value.(completed := Some(true));
          var u := old(storage.users)[username];
          first == Pass && second == Fail(KeyError("completed")) &&
          storage.users == old(storage.users)[username := u.(tasks := Upsert(u.tasks, Normalise(FieldsOf(done))))] &&
          storage.history == Prune(old(storage.history) + [NewEntry(done, Completed, username, now)], now)
      ensures var found := old(GetTaskById(username, taskId));
        !(found.Some? && found.value.completed == Some(false) && Saveable(FieldsOf(found.value))) ==>
          second == first && storage.users == old(storage.users) && storage.history == old(storage.history)
    {
      var found := GetTaskById(username, taskId);
      first := CompleteTask(username, taskId, now);
      if found.Some? && found.value.completed == Some(false) && Saveable(FieldsOf(found.value)) {
        var done := found.value.(completed := Some(true));
        var stored := Normalise(FieldsOf(done));
        var u := old(storage.users)[username];
        assert storage.GetUserTasks(username) == Upsert(u.tasks, stored);
        assert GetTaskById(username, taskId) == Some(stored);
        second := CompleteTask(username, taskId, now);
      } else {
        ghost var mid := storage.history;
        if found.Some? && found.value.completed.Some? && !found.value.completed.value {
          assert found.value.completed == Some(false);
          assert !Saveable(FieldsOf(found.value));
          assert storage.users == old(storage.users);
        }
        assert storage.users == old(storage.users) && mid == old(storage.history);
        assert GetTaskById(username, taskId) == found;
        second := CompleteTask(username, taskId, now);
        assert storage.users == old(storage.users) && storage.history == mid;
      }
    }

    /** `edit_task`: validate, apply the fields the task's type allows, write back;
      nothing is logged. */
    method EditTask(username: string, taskId: string, title: Option<string>, time: Option<string>, date: Option<string>, days: Option<seq<string>>, today: Date)
      returns (r: Outcome)
      requires storage.Valid()
      modifies storage
      ensures storage.Valid() && storage.names == old(storage.names) && storage.history == old(storage.history)
      ensures var e := EditResult(old(storage.GetUserTasks(username)), taskId, title, time, date, days, today);
        e.Err? ==> r == Fail(e.error) && storage.users == old(storage.users)
      ensures var e := EditResult(old(storage.GetUserTasks(username)), taskId, title, time, date, days, today);
        e.Ok? && !Saveable(FieldsOf(e.value)) ==> r == Fail(ValueError(NEEDS_ID_AND_TITLE)) && storage.users == old(storage.users)
      ensures var e := EditResult(old(storage.GetUserTasks(username)), taskId, title, time, date, days, today);
        e.Ok? && Saveable(FieldsOf(e.value)) ==>
          var u := old(storage.users)[username];
          r == Pass && storage.users == old(storage.users)[username := u.(tasks := Upsert(u.tasks, Normalise(FieldsOf(e.value))))]
    {
      var found := GetTaskById(username, taskId);
      if found.None? {
        return Fail(ValueError(TASK_NOT_FOUND));
      }
      var task := found.value;
      if task.completed.None? {
        return Fail(KeyError("completed"));
      }
      if task.completed.value {
        return Fail(ValueError(CANNOT_EDIT_COMPLETED));
      }
      var edited := ApplyEdit(task, title, time, date, days, today);
      if edited.Err? {
        return Fail(edited.error);
      }
      r := storage.SaveTask(username, FieldsOf(edited.value));
    }

    /** `delete_task`: the store removes the task and logs "deleted", then the manager
      logs "deleted" a second time. */
    method DeleteTask(username: string, taskId: string, now: Timestamp) returns (r: Outcome)
      requires storage.Valid()
      modifies storage
      ensures storage.Valid() && storage.names == old(storage.names) && r == Pass
      ensures var found := old(GetTaskById(username, taskId));
        found.None? ==> storage.users == old(storage.users) && storage.history == old(storage.history)
      ensures var found := old(GetTaskById(username, taskId));
        found.Some? ==>
          var u := old(storage.users)[username];
          var e := NewEntry(found.value, Deleted, username, now);
          storage.users == old(storage.users)[username := u.(tasks := RemoveTask(u.tasks, taskId))] &&
          storage.history == Prune(old(storage.history), now) + [e, e]
    {
      var found := GetTaskById(username, taskId);
      r := Pass;
      if found.Some? {
        ghost var h0 := storage.history;
        var e := NewEntry(found.value, Deleted, username, now);
        r := storage.DeleteTask(username, taskId, now);
        storage.LogHistory(found.value, Deleted, username, now);
        LoggedTwice(h0, e, now);
      }
    }

    /** `get_tasks_for_reminder`: the user's due tasks, as the listing computes them. */
    function GetTasksForReminder(username: string, today: Date): (r: Result<seq<Task>>)
      reads storage
      requires ValidDate(today)
      ensures r == DueTasks(storage.GetUserTasks(username), IsoDate(today), WeekdayName(today))
      ensures r.Ok? ==> forall t :: t in r.value <==>
        t in storage.GetUserTasks(username) && IsTaskDue(t, IsoDate(today), WeekdayName(today)) == Ok(true)
      ensures r.Err? <==> exists t :: t in storage.GetUserTasks(username) && IsTaskDue(t, IsoDate(today), WeekdayName(today)).Err?
    {
      var ts := storage.GetUserTasks(username);
      var r := DueTasks(ts, IsoDate(today), WeekdayName(today));
      assert r.Err? <==> exists i :: 0 <= i < |ts| && IsTaskDue(ts[i], IsoDate(today), WeekdayName(today)).Err?;
      r
    }

    /** The body of the inner loop of `log_incomplete_tasks`: a due task not yet logged
      today gets one "incomplete" entry. */
    method LogIfDue(username: string, task: Task, now: Timestamp) returns (r: Outcome)
      requires storage.Valid() && ValidTimestamp(now)
      modifies storage
      ensures storage.Valid() && storage.users == old(storage.users) && storage.names == old(storage.names)
      ensures Sweep(r, storage.history) == Step(Sweep(Pass, old(storage.history)), Work(username, task), now)
    {
      var today := now.date;
      var due := IsTaskDue(task, IsoDate(today), WeekdayName(today));
      if due.Err? {
        return Fail(due.error);
      }
      r := Pass;
      if due.value {
        var history := storage.GetHistory();
        var alreadyLogged := exists e :: e in history && e.taskId == task.id && e.status == Incomplete && e.timestamp.date == today;
        if !alreadyLogged {
          storage.LogHistory(task, Incomplete, username, now);
        }
      }
    }

    /** The inner loop of `log_incomplete_tasks`, over one user's tasks. */
    method LogUserTasks(username: string, tasks: seq<Task>, now: Timestamp) returns (r: Outcome)
      requires storage.Valid() && ValidTimestamp(now)
      modifies storage
      ensures storage.Valid() && storage.users == old(storage.users) && storage.names == old(storage.names)
      ensures Sweep(r, storage.history) == Run(Sweep(Pass, old(storage.history)), UserWork(username, tasks), now)
    {
      ghost var h0 := storage.history;
      ghost var sofar: seq<Work> := [];
      var j := 0;
      while j < |tasks|
        invariant 0 <= j <= |tasks|
        invariant storage.Valid() && storage.users == old(storage.users) && storage.names == old(storage.names)
        invariant sofar == UserWork(username, tasks[..j])
        invariant Run(Sweep(Pass, h0), sofar, now) == Sweep(Pass, storage.history)
      {
        UserWorkNext(username, tasks, j);
        RunSnoc(Sweep(Pass, h0), sofar, Work(username, tasks[j]), now);
        sofar := sofar + [Work(username, tasks[j])];
        r := LogIfDue(username, tasks[j], now);
        if r.Fail? {
          RunStoppedEarly(Sweep(Pass, h0), sofar, UserWork(username, tasks), now);
          return;
        }
        j := j + 1;
      }
      assert tasks[..j] == tasks;
      r := Pass;
    }

    /** `log_incomplete_tasks`, with today taken from `now`. */
    method LogIncompleteTasks(now: Timestamp) returns (r: Outcome)
      requires storage.Valid() && ValidTimestamp(now)
      modifies storage
      ensures storage.Valid() && storage.users == old(storage.users) && storage.names == old(storage.names)
      ensures Sweep(r, storage.history) == SweepAll(old(storage.history), old(storage.users), old(storage.names), now)
    {
      var names := storage.GetAllUsers();
      ghost var h0 := storage.history;
      var i := 0;
      while i < |names|
        invariant 0 <= i <= |names|
        invariant storage.Valid() && storage.users == old(storage.users) && storage.names == old(storage.names)
        invariant Run(Sweep(Pass, h0), AllWork(storage.users, names[..i]), now) == Sweep(Pass, storage.history)
      {
        var username := names[i];
        var tasks := storage.GetUserTasks(username);
        ghost var done := AllWork(storage.users, names[..i]);
        AllWorkNext(storage.users, names, i);
        RunConcat(Sweep(Pass, h0), done, UserWork(username, tasks), now);
        r := LogUserTasks(username, tasks, now);
        if r.Fail? {
          SweepStoppedAt(h0, storage.users, names, i, done + UserWork(username, tasks), now);
          return;
        }
        i := i + 1;
      }
      assert names[..i] == names;
      r := Pass;
    }

    /** `get_history`. */
    function GetHistory(): (r: seq<HistoryEntry>)
      reads storage
      ensures r == storage.history
    {
      storage.history
    }
  }

  /** Work already done is a prefix of all the work. */
  lemma {:induction false} AllWorkPrefix(users: map<string, User>, names: seq<string>, k: nat)
    requires k <= |names|
    ensures AllWork(users, names[..k]) <= AllWork(users, names)
    decreases |names| - k
  {
    if k < |names| {
      AllWorkPrefix(users, names, k + 1);
      assert names[..k + 1][..k] == names[..k];
    } else {
      assert names[..k] == names;
    }
  }

  lemma RunSnoc(s: Sweep, work: seq<Work>, w: Work, now: Timestamp)
    requires ValidDate(now.date)
    ensures Run(s, work + [w], now) == Step(Run(s, work, now), w, now)
  {
    assert (work + [w])[..|work|] == work;
  }

  lemma AllWorkNext(users: map<string, User>, names: seq<string>, i: nat)
    requires i < |names|
    ensures AllWork(users, names[..i + 1]) == AllWork(users, names[..i]) + UserWork(names[i], StoredUser(users, names[i]).tasks)
  {
    assert names[..i + 1][..i] == names[..i];
  }

  lemma UserWorkNext(username: string, ts: seq<Task>, j: nat)
    requires j < |ts|
    ensures UserWork(username, ts[..j + 1]) == UserWork(username, ts[..j]) + [Work(username, ts[j])]
    ensures UserWork(username, ts[..j + 1]) <= UserWork(username, ts)
  {
  }

  /** A sweep that stops on the work of user `i` stops the whole sweep there. */
  lemma SweepStoppedAt(h: seq<HistoryEntry>, users: map<string, User>, names: seq<string>, i: nat, done: seq<Work>, now: Timestamp)
    requires ValidDate(now.date) && i < |names|
    requires done <= AllWork(users, names[..i + 1])
    requires Run(Sweep(Pass, h), done, now).outcome.Fail?
    ensures SweepAll(h, users, names, now) == Run(Sweep(Pass, h), done, now)
  {
    AllWorkPrefix(users, names, i + 1);
    RunStoppedEarly(Sweep(Pass, h), done, AllWork(users, names), now);
  }

  /** A run that stops within a prefix of the work ends as that prefix's run ended. */
  lemma RunStoppedEarly(s: Sweep, done: seq<Work>, work: seq<Work>, now: Timestamp)
    requires ValidDate(now.date) && done <= work && Run(s, done, now).outcome.Fail?
    ensures Run(s, work, now) == Run(s, done, now)
  {
    var rest := work[|done|..];
    assert work == done + rest;
    RunConcat(s, done, rest, now);
    RunStopped(Run(s, done, now), rest, now);
  }

  /** Two entries stamped `now`, each appended and pruned, both survive behind the
      pruned old log. */
  lemma LoggedTwice(h: seq<HistoryEntry>, e: HistoryEntry, now: Timestamp)
    requires e.timestamp == now
    ensures Prune(Prune(h + [e], now) + [e], now) == Prune(h, now) + [e, e]
  {
    var p := Prune(h, now);
    LoggedEntryKept(h, e, now);
    LoggedEntryKept(p, e, now);
    PruneIdempotent(h, now);
    assert Prune(p + [e], now) == p + [e];
    LoggedEntryKept(p + [e], e, now);
    assert p + [e] + [e] == p + [e, e];
  }

  /** One more user in the listing of others: skipped when it is the caller, otherwise
      its due tasks are appended or its error ends the listing. */
  lemma OthersDueNext(users: map<string, User>, names: seq<string>, i: nat, username: string, today: string, weekday: string, acc: seq<Task>)
    requires i < |names| && OthersDue(users, names[..i], username, today, weekday) == Ok(acc)
    ensures names[i] == username ==> OthersDue(users, names[..i + 1], username, today, weekday) == Ok(acc)
    ensures names[i] != username ==>
      var due := DueTasks(StoredUser(users, names[i]).tasks, today, weekday);
      OthersDue(users, names[..i + 1], username, today, weekday) == if due.Err? then Err(due.error) else Ok(acc + due.value)
  {
    assert names[..i + 1][..i] == names[..i];
  }

  /** A listing of others that fails on user `k - 1` fails as a whole. */
  lemma {:induction false} OthersStopped(users: map<string, User>, names: seq<string>, k: nat, username: string, today: string, weekday: string)
    requires 0 < k <= |names|
    requires OthersDue(users, names[..k], username, today, weekday).Err?
    ensures OthersDue(users, names, username, today, weekday) == OthersDue(users, names[..k], username, today, weekday)
    decreases |names| - k
  {
    if k < |names| {
      assert names[..k + 1][..k] == names[..k];
      OthersStopped(users, names, k + 1, username, today, weekday);
    } else {
      assert names[..k] == names;
    }
  }
}
