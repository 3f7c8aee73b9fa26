/** The store of the ledger: the users file (username -> chat id and task list) and the
    history file, held in memory. Every operation reads the whole record, changes it and
    writes it back, so each is one step from the old pair of values to the new one. */
module Storage {
  import opened Errors
  import opened Calendar
  import opened Config

  const DEFAULT_TITLE := "Untitled"
  const DEFAULT_KIND := "one-time"
  const DEFAULT_TIME := "23:59"
  const NEEDS_ID_AND_TITLE := "Task must have an 'id' and 'title'."
  const TASK_NOT_FOUND := "Task not found."

  // ------------------------------------------------------------ records

  /** A task dict as the store writes it: the seven keys `save_task` keeps. `completed`
      is `None` for every task this store has written; the model also admits tasks that
      carry it, which is the shape `add_task` and `complete_task` hand to the store. */
  datatype Task = Task(
    id: string,
    title: string,
    kind: string,
    time: string,
    completions: seq<string>,
    date: Option<string>,
    days: Option<seq<string>>,
    completed: Option<bool>)

  /** A task dict as a caller hands it to `save_task`: every key may be missing. */
  datatype TaskFields = TaskFields(
    id: Option<string>,
    title: Option<string>,
    kind: Option<string>,
    time: Option<string>,
    completions: Option<seq<string>>,
    date: Option<string>,
    days: Option<seq<string>>,
    completed: Option<bool>)

  /** The dict a stored task is when a caller reads it back and passes it on. */
  function FieldsOf(t: Task): (f: TaskFields)
    ensures f.id == Some(t.id) && f.title == Some(t.title) && f.completed == t.completed
  {
    TaskFields(Some(t.id), Some(t.title), Some(t.kind), Some(t.time), Some(t.completions),
               t.date, t.days, t.completed)
  }

  datatype User = User(chatId: Option<int>, tasks: seq<Task>)

  datatype Status = Completed | Incomplete | Deleted

  datatype HistoryEntry = HistoryEntry(taskId: string, title: string, status: Status, timestamp: Timestamp, user: string)

  function NewEntry(t: Task, status: Status, username: string, now: Timestamp): (e: HistoryEntry)
    ensures e.taskId == t.id && e.title == t.title && e.status == status
    ensures e.timestamp == now && e.user == username
  {
    HistoryEntry(t.id, t.title, status, now, username)
  }

  // ------------------------------------------------------- normalisation

  function OrElse<T>(o: Option<T>, default: T): T {
    match o
    case Some(v) => v
    case None => default
  }

  /** `save_task` refuses a task whose id is missing or empty, or whose title is present
      but empty (a missing title is defaulted first, so it passes). */
  predicate Saveable(f: TaskFields) {
    f.id.Some? && f.id.value != "" && OrElse(f.title, DEFAULT_TITLE) != ""
  }

  /** The record `save_task` rebuilds: defaults for the four common keys, `date` and
      `days` kept when present, every other key dropped. */
  function Normalise(f: TaskFields): (t: Task)
    requires Saveable(f)
    ensures t.id == f.id.value && t.id != "" && t.title != ""
    ensures t.title == OrElse(f.title, DEFAULT_TITLE) && t.kind == OrElse(f.kind, DEFAULT_KIND)
    ensures t.time == OrElse(f.time, DEFAULT_TIME) && t.completions == OrElse(f.completions, [])
    ensures t.date == f.date && t.days == f.days
    ensures t.completed.None?
  {
    Task(f.id.value, OrElse(f.title, DEFAULT_TITLE), OrElse(f.kind, DEFAULT_KIND),
         OrElse(f.time, DEFAULT_TIME), OrElse(f.completions, []), f.date, f.days, None)
  }

  /** A task the store wrote survives a second pass through `save_task` unchanged. */
  lemma NormaliseIdempotent(f: TaskFields)
    requires Saveable(f)
    ensures Saveable(FieldsOf(Normalise(f))) && Normalise(FieldsOf(Normalise(f))) == Normalise(f)
  {
  }

  // ------------------------------------------------------------ task lists

  /** The position of the first task with this id, or the list's length. */
  function FindIndex(tasks: seq<Task>, id: string): (k: nat)
    ensures k <= |tasks|
    ensures forall j :: 0 <= j < k ==> tasks[j].id != id
    ensures k < |tasks| ==> tasks[k].id == id
  {
    if tasks == [] then 0
    else if tasks[0].id == id then 0
    else 1 + FindIndex(tasks[1..], id)
  }

  /** The first task with this id, or None. */
  function FindTask(tasks: seq<Task>, id: string): (r: Option<Task>)
    ensures r.Some? ==> r.value in tasks && r.value.id == id
    ensures r.None? <==> forall t :: t in tasks ==> t.id != id
    ensures r.Some? <==> FindIndex(tasks, id) < |tasks|
    ensures r.Some? ==> r.value == tasks[FindIndex(tasks, id)]
  {
    var k := FindIndex(tasks, id);
    if k < |tasks| then Some(tasks[k]) else None
  }

  predicate DistinctIds(tasks: seq<Task>) {
    forall i, j :: 0 <= i < j < |tasks| ==> tasks[i].id != tasks[j].id
  }

  /** The task list after `save_task`: the first task with the same id is replaced in
      place, otherwise the task is appended. */
  function Upsert(tasks: seq<Task>, t: Task): (r: seq<Task>)
    ensures FindIndex(tasks, t.id) < |tasks| ==> |r| == |tasks|
    ensures FindIndex(tasks, t.id) == |tasks| ==> |r| == |tasks| + 1 && r[|tasks|] == t
    ensures FindIndex(tasks, t.id) < |tasks| ==> r[FindIndex(tasks, t.id)] == t
    ensures forall j :: 0 <= j < |tasks| && j != FindIndex(tasks, t.id) ==> r[j] == tasks[j]
    ensures FindTask(r, t.id) == Some(t)
  {
    var k := FindIndex(tasks, t.id);
    var r := if k < |tasks| then tasks[k := t] else tasks + [t];
    assert FindIndex(r, t.id) == k by {
      var k' := FindIndex(r, t.id);
      assert r[k].id == t.id;
    }
    r
  }

  /** Saving the same task twice leaves the list as saving it once. */
  lemma UpsertIdempotent(tasks: seq<Task>, t: Task)
    ensures Upsert(Upsert(tasks, t), t) == Upsert(tasks, t)
  {
    var once := Upsert(tasks, t);
    var k := FindIndex(once, t.id);
    assert once[k] == t;
    assert once[k := t] == once;
  }

  /** The store never introduces a second task with an id already in the list. */
  lemma UpsertKeepsIdsDistinct(tasks: seq<Task>, t: Task)
    requires DistinctIds(tasks)
    ensures DistinctIds(Upsert(tasks, t))
  {
    var r := Upsert(tasks, t);
    var k := FindIndex(tasks, t.id);
    forall i, j | 0 <= i < j < |r| ensures r[i].id != r[j].id {
      if i == k || j == k {
        if k < |tasks| {
          assert tasks[k].id == t.id;
        }
      }
    }
  }

  /** Removing the first task with this id (an earlier equal dict would
      have the same id, so `remove` takes exactly that one). */
  function RemoveTask(tasks: seq<Task>, id: string): (r: seq<Task>)
    ensures FindTask(tasks, id).None? ==> r == tasks
    ensures FindTask(tasks, id).Some? ==> |r| == |tasks| - 1
    ensures FindIndex(tasks, id) < |tasks| ==>
      r == tasks[..FindIndex(tasks, id)] + tasks[FindIndex(tasks, id) + 1..]
    ensures forall t :: t in r ==> t in tasks
    ensures forall t :: t in tasks && t.id != id ==> t in r
    ensures DistinctIds(tasks) ==> FindTask(r, id).None? && DistinctIds(r)
  {
    var k := FindIndex(tasks, id);
    if k < |tasks| then
      RemoveAtKeepsOthers(tasks, k);
      tasks[..k] + tasks[k + 1..]
    else tasks
  }

  /** Cutting out the task at `k` keeps every other task, and no two of the survivors
      share an id when no two did before. */
  lemma RemoveAtKeepsOthers(tasks: seq<Task>, k: nat)
    requires k < |tasks|
    ensures var r := tasks[..k] + tasks[k + 1..];
      (forall t :: t in r ==> t in tasks) &&
      (forall t :: t in tasks && t.id != tasks[k].id ==> t in r) &&
      (DistinctIds(tasks) ==> DistinctIds(r) && forall t :: t in r ==> t.id != tasks[k].id)
  {
    var r := tasks[..k] + tasks[k + 1..];
    assert forall i :: 0 <= i < |r| ==> r[i] == tasks[if i < k then i else i + 1];
    forall t | t in tasks && t.id != tasks[k].id ensures t in r {
      var i :| 0 <= i < |tasks| && tasks[i] == t;
      assert r[if i < k then i else i - 1] == t;
    }
  }

  /** Deleting a task that was just saved under a fresh id gives back the original list. */
  lemma RemoveAfterUpsertFresh(tasks: seq<Task>, t: Task)
    requires FindTask(tasks, t.id).None?
    ensures RemoveTask(Upsert(tasks, t), t.id) == tasks
  {
    var r := Upsert(tasks, t);
    assert r == tasks + [t];
    assert FindIndex(r, t.id) == |tasks|;
    assert r[..|tasks|] == tasks;
  }

  // --------------------------------------------------------------- users

  predicate Distinct(s: seq<string>) {
    forall i, j :: 0 <= i < j < |s| ==> s[i] != s[j]
  }

  /** `names` lists the keys of `users` once each, in the order the JSON object keeps them. */
  ghost predicate Tabulates(users: map<string, User>, names: seq<string>) {
    Distinct(names) && forall u :: u in users <==> u in names
  }

  /** The record of a user as the lookups see it, falling back to an empty one; also the
      record `save_task` creates for an unknown user: no chat id, no tasks. */
  function StoredUser(users: map<string, User>, username: string): (u: User)
    ensures username in users ==> u == users[username]
    ensures username !in users ==> u == User(None, [])
  {
    if username in users then users[username] else User(None, [])
  }

  /** The key order after the user is deleted from the users object: every other key,
      each as often as before, in its old order. */
  function RemoveName(names: seq<string>, username: string): (r: seq<string>)
    ensures forall u :: u in r <==> u in names && u != username
    ensures IsSubsequence(r, names)
    ensures |r| == |names| - multiset(names)[username]
    ensures Distinct(names) ==> Distinct(r)
    ensures username !in names ==> r == names
  {
    if names == [] then []
    else
      var rest := RemoveName(names[1..], username);
      assert names == [names[0]] + names[1..];
      assert multiset(names) == multiset{names[0]} + multiset(names[1..]);
      assert Distinct(names) ==> Distinct(names[1..]) && names[0] !in names[1..] && names[0] !in rest;
      if names[0] == username then
        SubsequenceSkip(rest, names);
        rest
      else
        assert ([names[0]] + rest)[1..] == rest;
        [names[0]] + rest
  }

  // -------------------------------------------------------------- history

  /** The retention rule of `prune_history`: `timestamp >= now - 14 days`. */
  predicate Recent(e: HistoryEntry, now: Timestamp) {
    WithinDays(e.timestamp, now, HISTORY_RETENTION_DAYS)
  }

  /** `prune_history`: the entries within the retention window, in their order. */
  function Prune(h: seq<HistoryEntry>, now: Timestamp): (r: seq<HistoryEntry>)
    ensures |r| <= |h|
    ensures forall e :: e in r ==> e in h && Recent(e, now)
    ensures forall e :: e in h && Recent(e, now) ==> e in r
  {
    if h == [] then []
    else (if Recent(h[0], now) then [h[0]] else []) + Prune(h[1..], now)
  }

  /** Pruning a concatenation prunes each part in place: survivors keep their order. */
  lemma {:induction false} PruneConcat(a: seq<HistoryEntry>, b: seq<HistoryEntry>, now: Timestamp)
    ensures Prune(a + b, now) == Prune(a, now) + Prune(b, now)
  {
    if a != [] {
      assert (a + b)[0] == a[0] && (a + b)[1..] == a[1..] + b;
      PruneConcat(a[1..], b, now);
    } else {
      assert a + b == b;
    }
  }

  lemma {:induction false} PruneIdempotent(h: seq<HistoryEntry>, now: Timestamp)
    ensures Prune(Prune(h, now), now) == Prune(h, now)
  {
    if h != [] {
      var head := if Recent(h[0], now) then [h[0]] else [];
      PruneConcat(head, Prune(h[1..], now), now);
      PruneIdempotent(h[1..], now);
      assert Prune(head, now) == head;
    }
  }

  /** `a` is `b` with some elements left out. */
  predicate IsSubsequence<T(==)>(a: seq<T>, b: seq<T>) {
    a == [] || (b != [] && (if a[0] == b[0] then IsSubsequence(a[1..], b[1..]) else IsSubsequence(a, b[1..])))
  }

  lemma {:induction false} PruneIsSubsequence(h: seq<HistoryEntry>, now: Timestamp)
    ensures IsSubsequence(Prune(h, now), h)
  {
    if h != [] {
      PruneIsSubsequence(h[1..], now);
      var r := Prune(h, now);
      if Recent(h[0], now) {
        assert r[0] == h[0] && r[1..] == Prune(h[1..], now);
      } else {
        assert r == Prune(h[1..], now);
        SubsequenceSkip(r, h);
      }
    }
  }

  /** A subsequence of the tail is a subsequence of the whole. */
  lemma {:induction false} SubsequenceSkip<T>(a: seq<T>, b: seq<T>)
    requires b != [] && IsSubsequence(a, b[1..])
    ensures IsSubsequence(a, b)
    decreases |b|, 0
  {
    if a != [] && a[0] == b[0] {
      SubsequenceDrop(a, b[1..]);
    }
  }

  /** Dropping the first element of a subsequence keeps it a subsequence. */
  lemma {:induction false} SubsequenceDrop<T>(a: seq<T>, b: seq<T>)
    requires a != [] && IsSubsequence(a, b)
    ensures IsSubsequence(a[1..], b)
    decreases |b|, 1
  {
    if a[0] == b[0] {
      SubsequenceSkip(a[1..], b);
    } else {
      SubsequenceDrop(a, b[1..]);
      SubsequenceSkip(a[1..], b);
    }
  }

  /** `log_history` always keeps the entry it just wrote, as the last one. */
  lemma LoggedEntryKept(h: seq<HistoryEntry>, e: HistoryEntry, now: Timestamp)
    requires e.timestamp == now
    ensures Prune(h + [e], now) == Prune(h, now) + [e]
  {
    PruneConcat(h, [e], now);
    assert Prune([e], now) == [e] + Prune([], now);
  }

  // ---------------------------------------------------------------- store

  class Storage {
    var users: map<string, User>
    /** The keys of `users` in the order `get_all_users` lists them. */
    var names: seq<string>
    var history: seq<HistoryEntry>

    ghost predicate Valid()
      reads this
    {
      Tabulates(users, names)
    }

    /** Both files missing: an empty users object and an empty history. */
    constructor ()
      ensures Valid() && users == map[] && names == [] && history == []
    {
      users, names, history := map[], [], [];
    }

    /** `add_user_if_new`. */
    method AddUserIfNew(username: string, chatId: Option<int>)
      requires Valid()
      modifies this
      ensures Valid() && history == old(history)
      ensures username !in old(users) ==>
        users == old(users)[username := User(chatId, [])] && names == old(names) + [username]
      ensures username in old(users) && chatId.Some? && chatId != old(users)[username].chatId ==>
        users == old(users)[username := old(users)[username].(chatId := chatId)] && names == old(names)
      ensures username in old(users) && (chatId.None? || chatId == old(users)[username].chatId) ==>
        users == old(users) && names == old(names)
    {
      if username !in users {
        users := users[username := User(chatId, [])];
        names := names + [username];
      } else if users[username].chatId != chatId && chatId.Some? {
        users := users[username := users[username].(chatId := chatId)];
      }
    }

    /** `get_user_tasks`: the user's task list, or none for an unknown user. */
    function GetUserTasks(username: string): (r: seq<Task>)
      reads this
      ensures username in users ==> r == users[username].tasks
      ensures username !in users ==> r == []
    {
      StoredUser(users, username).tasks
    }

    /** `save_task`. */
    method SaveTask(username: string, fields: TaskFields) returns (r: Outcome)
      requires Valid()
      modifies this
      ensures Valid() && history == old(history)
      ensures r.Fail? <==> !Saveable(fields)
      ensures r.Fail? ==> r.error == ValueError(NEEDS_ID_AND_TITLE) && users == old(users) && names == old(names)
      ensures r.Pass? ==>
        var u := StoredUser(old(users), username);
        users == old(users)[username := u.(tasks := Upsert(u.tasks, Normalise(fields)))]
      ensures r.Pass? ==> names == if username in old(users) then old(names) else old(names) + [username]
    {
      if !Saveable(fields) {
        return Fail(ValueError(NEEDS_ID_AND_TITLE));
      }
      var task := Normalise(fields);
      if username !in users {
        users := users[username := User(None, [])];
        names := names + [username];
      }
      var tasks := users[username].tasks;
      ghost var before := tasks;
      var i := 0;
      while i < |tasks| && tasks[i].id != task.id
        invariant 0 <= i <= |tasks|
        invariant forall j :: 0 <= j < i ==> tasks[j].id != task.id
      {
        i := i + 1;
      }
      assert i == FindIndex(before, task.id);
      if i < |tasks| {
        tasks := tasks[i := task];
      } else {
        tasks := tasks + [task];
      }
      users := users[username := users[username].(tasks := tasks)];
      r := Pass;
    }

    /** `delete_task`: removes the task and logs one "deleted" entry. */
    method DeleteTask(username: string, taskId: string, now: Timestamp) returns (r: Outcome)
      requires Valid()
      modifies this
      ensures Valid() && names == old(names)
      ensures username !in old(users) ==>
        r == Pass && users == old(users) && history == old(history)
      ensures username in old(users) && FindTask(old(users)[username].tasks, taskId).None? ==>
        r == Fail(ValueError(TASK_NOT_FOUND)) && users == old(users) && history == old(history)
      ensures username in old(users) && FindTask(old(users)[username].tasks, taskId).Some? ==>
        var u := old(users)[username];
        r == Pass &&
        users == old(users)[username := u.(tasks := RemoveTask(u.tasks, taskId))] &&
        history == Prune(old(history) + [NewEntry(FindTask(u.tasks, taskId).value, Deleted, username, now)], now)
    {
      r := Pass;
      if username in users {
        var tasks := users[username].tasks;
        var found := FindTask(tasks, taskId);
        if found.Some? {
          users := users[username := users[username].(tasks := RemoveTask(tasks, taskId))];
          LogHistory(found.value, Deleted, username, now);
        } else {
          r := Fail(ValueError(TASK_NOT_FOUND));
        }
      }
    }

    /** `get_all_users`: every user once, in key order. */
    function GetAllUsers(): (r: seq<string>)
      reads this
      requires Valid()
      ensures Distinct(r) && forall u :: u in r <==> u in users
    {
      names
    }

    /** `delete_user`: the user and all their tasks go; history stays. */
    method DeleteUser(username: string)
      requires Valid()
      modifies this
      ensures Valid() && history == old(history)
      ensures users == old(users) - {username}
      ensures names == if username in old(users) then RemoveName(old(names), username) else old(names)
    {
      if username in users {
        users := users - {username};
        names := RemoveName(names, username);
      }
    }

    /** `log_history`: append the entry, then prune the whole log. */
    method LogHistory(task: Task, status: Status, username: string, now: Timestamp)
      requires Valid()
      modifies this
      ensures Valid() && users == old(users) && names == old(names)
      ensures history == Prune(old(history) + [NewEntry(task, status, username, now)], now)
    {
      history := Prune(history + [NewEntry(task, status, username, now)], now);
    }

    /** `get_history`. */
    function GetHistory(): (r: seq<HistoryEntry>)
      reads this
      ensures r == history
    {
      history
    }

    /** `get_user_chat_id`: `None` for an unknown user. */
    function GetUserChatId(username: string): (r: Option<int>)
      reads this
      ensures username in users ==> r == users[username].chatId
      ensures username !in users ==> r.None?
    {
      StoredUser(users, username).chatId
    }
  }
}
