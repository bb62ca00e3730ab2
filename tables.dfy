/** The three SQLite tables of the application (`users`, `sessions`, `tasks`), their
    rows, and the single-statement lookups and updates the request handlers run
    against them. A table is a sequence of rows in insertion (rowid) order. */
module Tables {

  datatype Option<T> = None | Some(value: T)

  /** The `role` column. The handlers only ever store the literals "admin" and "employee". */
  datatype Role = Admin | Employee

  /** A `users` row; `username` carries a UNIQUE constraint. */
  datatype User = User(id: nat, username: string, role: Role)

  /** A `sessions` row. Times are the `%Y-%m-%d %H:%M:%S` stamps, as numbers whose
      order is the stamps' lexical (and chronological) order; `None` is SQL NULL. */
  datatype SessionRow = SessionRow(id: nat, username: string, loginTime: nat, logoutTime: Option<nat>)

  /** A `tasks` row. `priority`, `deadline` and `status` are free TEXT columns. */
  datatype Task = Task(
    id: nat, employee: string, title: string, explanation: string,
    priority: string, deadline: string, status: string, assignedAt: nat)

  /** SQLite's INTEGER is a signed 64-bit value: Python's sqlite3 module refuses to bind
      an int at or above this bound, raising `OverflowError` before the statement runs. */
  const SQLITE_INTEGER_BOUND: nat := 0x8000_0000_0000_0000

  /** The column default of `tasks.status`, and the one value `complete_task` writes. */
  const PENDING: string := "Pending"
  const COMPLETED: string := "Completed"

  function UserId(u: User): nat { u.id }
  function SessionId(s: SessionRow): nat { s.id }
  function TaskId(t: Task): nat { t.id }

  /** `INTEGER PRIMARY KEY AUTOINCREMENT`: every id was issued by the table's counter,
      whose last value is `last`, and ids grow with insertion order. */
  ghost predicate IdsIssued<T>(s: seq<T>, id: T -> nat, last: nat) {
    (forall i :: 0 <= i < |s| ==> 1 <= id(s[i]) <= last)
    && (forall i, j :: 0 <= i < j < |s| ==> id(s[i]) < id(s[j]))
  }

  /** An insert takes the next id from the counter. */
  lemma IdsIssuedAppend<T>(s: seq<T>, x: T, id: T -> nat, last: nat)
    requires IdsIssued(s, id, last)
    requires id(x) == last + 1
    ensures IdsIssued(s + [x], id, last + 1)
  {
    var t := s + [x];
    forall i, j | 0 <= i < j < |t| ensures id(t[i]) < id(t[j]) {
      if j == |s| {
        assert t[i] == s[i];
      } else {
        assert t[i] == s[i] && t[j] == s[j];
      }
    }
  }

  /** The UNIQUE constraint on `users.username`. */
  ghost predicate UniqueUsernames(users: seq<User>) {
    forall i, j :: 0 <= i < j < |users| ==> users[i].username != users[j].username
  }

  // ---------------------------------------------------------------- users

  /** `SELECT role FROM users WHERE username=?`, and the probe behind the UNIQUE constraint. */
  function FindUser(users: seq<User>, name: string): (r: Option<User>)
    ensures r.Some? ==> r.value in users && r.value.username == name
    ensures r.None? <==> forall u :: u in users ==> u.username != name
  {
    if users == [] then None
    else if users[0].username == name then Some(users[0])
    else FindUser(users[1..], name)
  }

  /** Under the UNIQUE constraint the lookup returns the one row holding the name. */
  lemma {:induction false} FindUserExact(users: seq<User>, u: User)
    requires UniqueUsernames(users)
    requires u in users
    ensures FindUser(users, u.username) == Some(u)
  {
    if users[0] != u {
      assert u in users[1..];
      var k :| 0 <= k < |users[1..]| && users[1..][k] == u;
      assert users[0].username != users[k + 1].username;
      FindUserExact(users[1..], u);
    }
  }

  /** An insert that the UNIQUE constraint admits keeps usernames unique. */
  lemma AppendFreshUser(users: seq<User>, u: User)
    requires UniqueUsernames(users)
    requires FindUser(users, u.username).None?
    ensures UniqueUsernames(users + [u])
    ensures forall v :: v in users ==> FindUser(users + [u], v.username) == Some(v)
    ensures FindUser(users + [u], u.username) == Some(u)
  {
    var us := users + [u];
    forall i, j | 0 <= i < j < |us| ensures us[i].username != us[j].username {
      if j == |users| {
        assert us[i] in users;
      }
    }
    forall v | v in users ensures FindUser(us, v.username) == Some(v) {
      FindUserExact(us, v);
    }
    FindUserExact(us, u);
  }

  // ---------------------------------------------------------------- sessions

  /** A row of `name` whose `logout_time IS NULL`. */
  predicate IsOpenFor(row: SessionRow, name: string) {
    row.username == name && row.logoutTime.None?
  }

  /** Row `k` is one `SELECT id FROM sessions WHERE username=? AND logout_time IS NULL
      ORDER BY login_time DESC LIMIT 1` may return. */
  ghost predicate IsNewestOpen(s: seq<SessionRow>, name: string, k: nat) {
    k < |s| && IsOpenFor(s[k], name)
    && forall j :: 0 <= j < |s| && IsOpenFor(s[j], name) ==> s[j].loginTime <= s[k].loginTime
  }

  /** The position of the newest open row of `name`, if there is one. */
  function NewestOpen(s: seq<SessionRow>, name: string): (r: Option<nat>)
    ensures r.Some? ==> IsNewestOpen(s, name, r.value)
    ensures r.None? <==> forall j :: 0 <= j < |s| ==> !IsOpenFor(s[j], name)
  {
    if s == [] then None
    else
      var rest := NewestOpen(s[1..], name);
      assert forall j :: 1 <= j < |s| ==> s[j] == s[1..][j - 1];
      if rest.Some? && (!IsOpenFor(s[0], name) || s[0].loginTime <= s[rest.value + 1].loginTime) then
        Some(rest.value + 1)
      else if IsOpenFor(s[0], name) then Some(0)
      else None
  }

  /** `UPDATE sessions SET logout_time=? WHERE id=?`. */
  function SetLogoutTime(s: seq<SessionRow>, id: nat, t: nat): (r: seq<SessionRow>)
    ensures |r| == |s|
    ensures forall i :: 0 <= i < |s| ==>
      r[i] == if s[i].id == id then s[i].(logoutTime := Some(t)) else s[i]
  {
    if s == [] then []
    else [if s[0].id == id then s[0].(logoutTime := Some(t)) else s[0]] + SetLogoutTime(s[1..], id, t)
  }

  /** The table update of `logout`: close the newest open row of `name`, if any. */
  function CloseNewest(s: seq<SessionRow>, name: string, t: nat): seq<SessionRow> {
    match NewestOpen(s, name)
    case None => s
    case Some(k) => SetLogoutTime(s, s[k].id, t)
  }

  /** Because ids are a key, `logout` changes exactly the newest open row of `name`,
      and only its `logout_time`; with no open row it changes nothing. */
  lemma CloseNewestExact(s: seq<SessionRow>, name: string, t: nat, last: nat)
    requires IdsIssued(s, SessionId, last)
    ensures NewestOpen(s, name).None? ==> CloseNewest(s, name, t) == s
    ensures NewestOpen(s, name).Some? ==>
      var k := NewestOpen(s, name).value;
      CloseNewest(s, name, t) == s[k := s[k].(logoutTime := Some(t))]
  {
    if NewestOpen(s, name).Some? {
      var k := NewestOpen(s, name).value;
      var r := CloseNewest(s, name, t);
      forall i | 0 <= i < |s| && i != k ensures s[i].id != s[k].id {
        assert SessionId(s[i]) != SessionId(s[k]);
      }
      assert r == s[k := s[k].(logoutTime := Some(t))];
    }
  }

  /** What `logout` may do to `sessions`: with no open row of `name`, nothing; otherwise
      set `logout_time` on one row that `ORDER BY login_time DESC LIMIT 1` may return.
      Several open rows with the same `login_time` tie, and SQLite may return any of them. */
  ghost predicate LogoutUpdate(s: seq<SessionRow>, r: seq<SessionRow>, name: string, t: nat) {
    if forall j :: 0 <= j < |s| ==> !IsOpenFor(s[j], name) then r == s
    else exists k: nat :: IsNewestOpen(s, name, k) && r == s[k := s[k].(logoutTime := Some(t))]
  }

  /** The row `CloseNewest` picks is one the query may return. */
  lemma CloseNewestAdmissible(s: seq<SessionRow>, name: string, t: nat, last: nat)
    requires IdsIssued(s, SessionId, last)
    ensures LogoutUpdate(s, CloseNewest(s, name, t), name, t)
  {
    CloseNewestExact(s, name, t, last);
  }

  /** `logout` keeps the id column as it was. */
  lemma CloseNewestKeepsIds(s: seq<SessionRow>, name: string, t: nat, last: nat)
    requires IdsIssued(s, SessionId, last)
    ensures IdsIssued(CloseNewest(s, name, t), SessionId, last)
  {
    var r := CloseNewest(s, name, t);
    assert forall i :: 0 <= i < |s| ==> SessionId(r[i]) == SessionId(s[i]);
  }

  /** The number of open rows of `name`. */
  function OpenCount(s: seq<SessionRow>, name: string): (n: nat)
    ensures n <= |s|
    ensures n == 0 <==> forall j :: 0 <= j < |s| ==> !IsOpenFor(s[j], name)
  {
    if s == [] then 0
    else
      var init := s[..|s| - 1];
      assert forall j :: 0 <= j < |s| - 1 ==> s[j] == init[j];
      OpenCount(init, name) + if IsOpenFor(s[|s| - 1], name) then 1 else 0
  }

  /** Replacing one row changes each user's open count by what that row contributed. */
  lemma {:induction false} OpenCountUpdate(s: seq<SessionRow>, k: nat, v: SessionRow, name: string)
    requires k < |s|
    ensures OpenCount(s[k := v], name) + (if IsOpenFor(s[k], name) then 1 else 0)
         == OpenCount(s, name) + (if IsOpenFor(v, name) then 1 else 0)
  {
    var n := |s| - 1;
    if k < n {
      OpenCountUpdate(s[..n], k, v, name);
      assert s[k := v][..n] == s[..n][k := v];
    } else {
      assert s[k := v][..n] == s[..n];
    }
  }

  /** Each `login` adds an open row: logging in twice without logging out leaves two. */
  lemma LoginAddsOpenRow(s: seq<SessionRow>, row: SessionRow, name: string)
    requires row.logoutTime.None?
    ensures OpenCount(s + [row], name) == OpenCount(s, name) + (if row.username == name then 1 else 0)
  {
    assert (s + [row])[..|s|] == s;
  }

  /** Whichever of the tied rows `logout` closes, it closes exactly one open row of
      `name` when there is one, and leaves every other user's open rows alone. */
  lemma LogoutClosesOne(s: seq<SessionRow>, r: seq<SessionRow>, name: string, t: nat)
    requires LogoutUpdate(s, r, name, t)
    ensures OpenCount(r, name) == if OpenCount(s, name) > 0 then OpenCount(s, name) - 1 else 0
    ensures forall other :: other != name ==> OpenCount(r, other) == OpenCount(s, other)
  {
    if !forall j :: 0 <= j < |s| ==> !IsOpenFor(s[j], name) {
      var k: nat :| IsNewestOpen(s, name, k) && r == s[k := s[k].(logoutTime := Some(t))];
      var v := s[k].(logoutTime := Some(t));
      OpenCountUpdate(s, k, v, name);
      forall other | other != name
        ensures OpenCount(r, other) == OpenCount(s, other)
      {
        OpenCountUpdate(s, k, v, other);
      }
    }
  }

  /** Rows are never removed and a recorded `logout_time` is never changed again. */
  ghost predicate SessionsGrow(before: seq<SessionRow>, after: seq<SessionRow>) {
    |before| <= |after|
    && forall i :: 0 <= i < |before| ==>
      after[i].id == before[i].id && after[i].username == before[i].username
      && after[i].loginTime == before[i].loginTime
      && (before[i].logoutTime.Some? ==> after[i].logoutTime == before[i].logoutTime)
  }

  /** Every result `logout` may produce keeps the rows and only fills in a NULL `logout_time`. */
  lemma LogoutUpdateGrows(s: seq<SessionRow>, r: seq<SessionRow>, name: string, t: nat)
    requires LogoutUpdate(s, r, name, t)
    ensures SessionsGrow(s, r)
  {
    if !forall j :: 0 <= j < |s| ==> !IsOpenFor(s[j], name) {
      var k: nat :| IsNewestOpen(s, name, k) && r == s[k := s[k].(logoutTime := Some(t))];
      assert forall i :: 0 <= i < |s| && i != k ==> r[i] == s[i];
    }
  }

  // ---------------------------------------------------------------- tasks

  /** `UPDATE tasks SET status='Completed' WHERE id=?`. */
  function MarkCompleted(tasks: seq<Task>, id: nat): (r: seq<Task>)
    ensures |r| == |tasks|
    ensures forall i :: 0 <= i < |tasks| ==>
      r[i] == if tasks[i].id == id then tasks[i].(status := COMPLETED) else tasks[i]
  {
    if tasks == [] then []
    else
      [if tasks[0].id == id then tasks[0].(status := COMPLETED) else tasks[0]]
      + MarkCompleted(tasks[1..], id)
  }

  /** Completing the same task twice is completing it once. */
  lemma MarkCompletedIdempotent(tasks: seq<Task>, id: nat)
    ensures MarkCompleted(MarkCompleted(tasks, id), id) == MarkCompleted(tasks, id)
  {
    var once := MarkCompleted(tasks, id);
    assert forall i :: 0 <= i < |once| ==> MarkCompleted(once, id)[i] == once[i];
  }

  /** An id that no task has changes nothing. */
  lemma MarkCompletedUnknownId(tasks: seq<Task>, id: nat)
    requires forall t :: t in tasks ==> t.id != id
    ensures MarkCompleted(tasks, id) == tasks
  {
    assert forall i :: 0 <= i < |tasks| ==> MarkCompleted(tasks, id)[i] == tasks[i];
  }

  /** Tasks are never removed, only `status` ever changes, and no task leaves "Completed". */
  ghost predicate TasksProgress(before: seq<Task>, after: seq<Task>) {
    |before| <= |after|
    && forall i :: 0 <= i < |before| ==>
      after[i] == before[i].(status := after[i].status)
      && (before[i].status == COMPLETED ==> after[i].status == COMPLETED)
  }

  /** Completing a task keeps the id column. */
  lemma MarkCompletedKeepsIds(tasks: seq<Task>, id: nat, last: nat)
    requires IdsIssued(tasks, TaskId, last)
    ensures IdsIssued(MarkCompleted(tasks, id), TaskId, last)
  {
    var r := MarkCompleted(tasks, id);
    assert forall i :: 0 <= i < |tasks| ==> TaskId(r[i]) == TaskId(tasks[i]);
  }

  /** Completing a task keeps every status one of the two labels. */
  lemma MarkCompletedKeepsLabels(tasks: seq<Task>, id: nat)
    requires forall t :: t in tasks ==> t.status == PENDING || t.status == COMPLETED
    ensures forall t :: t in MarkCompleted(tasks, id) ==> t.status == PENDING || t.status == COMPLETED
  {
    var r := MarkCompleted(tasks, id);
    forall t | t in r ensures t.status == PENDING || t.status == COMPLETED {
      var i :| 0 <= i < |r| && r[i] == t;
      assert tasks[i] in tasks;
    }
  }

  lemma MarkCompletedProgress(tasks: seq<Task>, id: nat)
    ensures TasksProgress(tasks, MarkCompleted(tasks, id))
  {
  }

  /** Progress composes, so across any run of requests statuses only move to "Completed". */
  lemma TasksProgressTransitive(a: seq<Task>, b: seq<Task>, c: seq<Task>)
    requires TasksProgress(a, b) && TasksProgress(b, c)
    ensures TasksProgress(a, c)
  {
  }
}
