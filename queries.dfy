/** The read-only queries behind the dashboards (`admin`, `employee`) and the employee
    picker of `assign_task`: each is a `WHERE` filter followed by an `ORDER BY`, with the
    TEXT columns compared as SQLite compares them. */
module Queries {
  import opened Text
  import opened Sorting
  import opened Tables

  /** Three priority labels; `priority` is free TEXT, and these are the ones the
      ordering lemmas below are about. */
  const HIGH: string := "High"
  const MEDIUM: string := "Medium"
  const LOW: string := "Low"

  /** One line of an employee's own history: `SELECT login_time, logout_time`. */
  datatype LogEntry = LogEntry(loginTime: nat, logoutTime: Option<nat>)

  /** `ORDER BY status, deadline` (both ascending). */
  predicate AdminTaskOrder(a: Task, b: Task) {
    TextLt(a.status, b.status) || (a.status == b.status && TextLe(a.deadline, b.deadline))
  }

  /** `ORDER BY status DESC, priority DESC, deadline ASC`. */
  predicate EmployeeTaskOrder(a: Task, b: Task) {
    TextLt(b.status, a.status)
    || (a.status == b.status
        && (TextLt(b.priority, a.priority) || (a.priority == b.priority && TextLe(a.deadline, b.deadline))))
  }

  /** `ORDER BY login_time DESC` on whole rows. */
  predicate NewerRowFirst(a: SessionRow, b: SessionRow) {
    a.loginTime >= b.loginTime
  }

  /** `ORDER BY login_time DESC` on the two selected columns. */
  predicate NewerEntryFirst(a: LogEntry, b: LogEntry) {
    a.loginTime >= b.loginTime
  }

  lemma AdminTaskOrderIsPreorder()
    ensures TotalPreorder(AdminTaskOrder)
  {
    forall a: Task, b: Task ensures AdminTaskOrder(a, b) || AdminTaskOrder(b, a) {
      TextLtIsStrict(a.status, b.status);
      TextLtIsStrict(b.status, a.status);
      TextLeTotal(a.deadline, b.deadline);
    }
    forall a: Task, b: Task, c: Task | AdminTaskOrder(a, b) && AdminTaskOrder(b, c)
      ensures AdminTaskOrder(a, c)
    {
      if TextLt(a.status, b.status) && TextLt(b.status, c.status) {
        TextLtTransitive(a.status, b.status, c.status);
      } else if a.status == b.status && b.status == c.status {
        TextLeTransitive(a.deadline, b.deadline, c.deadline);
      }
    }
  }

  lemma EmployeeTaskOrderIsPreorder()
    ensures TotalPreorder(EmployeeTaskOrder)
  {
    forall a: Task, b: Task ensures EmployeeTaskOrder(a, b) || EmployeeTaskOrder(b, a) {
      TextLtIsStrict(a.status, b.status);
      TextLtIsStrict(b.status, a.status);
      TextLtIsStrict(a.priority, b.priority);
      TextLtIsStrict(b.priority, a.priority);
      TextLeTotal(a.deadline, b.deadline);
    }
    forall a: Task, b: Task, c: Task | EmployeeTaskOrder(a, b) && EmployeeTaskOrder(b, c)
      ensures EmployeeTaskOrder(a, c)
    {
      if TextLt(b.status, a.status) && TextLt(c.status, b.status) {
        TextLtTransitive(c.status, b.status, a.status);
      } else if a.status == b.status && b.status == c.status {
        if TextLt(b.priority, a.priority) && TextLt(c.priority, b.priority) {
          TextLtTransitive(c.priority, b.priority, a.priority);
        } else if a.priority == b.priority && b.priority == c.priority {
          TextLeTransitive(a.deadline, b.deadline, c.deadline);
        }
      }
    }
  }

  /** How the status labels compare as TEXT: "Completed" sorts before "Pending". */
  lemma StatusLabelsOrder()
    ensures TextLt(COMPLETED, PENDING)
  {
  }

  /** How the priority labels compare as TEXT: "High" < "Low" < "Medium". */
  lemma PriorityLabelsOrder()
    ensures TextLt(HIGH, LOW) && TextLt(LOW, MEDIUM) && TextLt(HIGH, MEDIUM)
    ensures TextLe(HIGH, LOW) && TextLe(LOW, MEDIUM) && TextLe(HIGH, MEDIUM)
  {
  }

  // ---------------------------------------------------------------- admin dashboard

  /** `SELECT * FROM tasks ORDER BY status, deadline`. */
  function AdminTasks(tasks: seq<Task>): (r: seq<Task>)
    ensures multiset(r) == multiset(tasks)
    ensures SortedBy(r, AdminTaskOrder)
  {
    AdminTaskOrderIsPreorder();
    SortBySorted(tasks, AdminTaskOrder);
    SortBy(tasks, AdminTaskOrder)
  }

  /** The admin list is ordered by status and, within one status, by deadline. */
  lemma AdminTasksOrdered(tasks: seq<Task>)
    ensures var r := AdminTasks(tasks);
      forall i, j :: 0 <= i < j < |r| ==>
        TextLe(r[i].status, r[j].status)
        && (r[i].status == r[j].status ==> TextLe(r[i].deadline, r[j].deadline))
  {
    var r := AdminTasks(tasks);
    forall i, j | 0 <= i < j < |r|
      ensures TextLe(r[i].status, r[j].status)
    {
      assert AdminTaskOrder(r[i], r[j]);
      TextLtIsStrict(r[i].status, r[j].status);
      TextLeReflexive(r[i].status);
    }
  }

  /** In the admin list no "Completed" task comes after a "Pending" one: completed work is listed first. */
  lemma AdminTasksCompletedFirst(tasks: seq<Task>)
    ensures var r := AdminTasks(tasks);
      forall i, j :: 0 <= i < j < |r| && r[i].status == PENDING ==> r[j].status != COMPLETED
  {
    var r := AdminTasks(tasks);
    StatusLabelsOrder();
    forall i, j | 0 <= i < j < |r| && r[i].status == PENDING
      ensures r[j].status != COMPLETED
    {
      assert AdminTaskOrder(r[i], r[j]);
    }
  }

  /** `SELECT username FROM users WHERE role='employee'`, in table order. */
  function EmployeeNames(users: seq<User>): (r: seq<string>)
    ensures |r| <= |users|
    ensures forall n :: n in r <==> exists u :: u in users && u.role == Employee && u.username == n
  {
    if users == [] then []
    else
      assert forall u :: u in users <==> u == users[0] || u in users[1..];
      (if users[0].role == Employee then [users[0].username] else []) + EmployeeNames(users[1..])
  }

  /** With unique usernames the employee list has no repetitions. */
  lemma {:induction false} EmployeeNamesDistinct(users: seq<User>)
    requires UniqueUsernames(users)
    ensures var r := EmployeeNames(users);
      forall i, j :: 0 <= i < j < |r| ==> r[i] != r[j]
  {
    if users != [] {
      var rest := users[1..];
      assert UniqueUsernames(rest) by {
        forall i, j | 0 <= i < j < |rest| ensures rest[i].username != rest[j].username {
          assert rest[i] == users[i + 1] && rest[j] == users[j + 1];
        }
      }
      EmployeeNamesDistinct(rest);
      forall u | u in rest ensures u.username != users[0].username {
        var k :| 0 <= k < |rest| && rest[k] == u;
        assert users[k + 1] == u;
      }
      var r := EmployeeNames(users);
      if users[0].role == Employee {
        assert users[0].username !in EmployeeNames(rest);
        assert r == [users[0].username] + EmployeeNames(rest);
        forall i, j | 0 <= i < j < |r| ensures r[i] != r[j] {
          assert r[j] == EmployeeNames(rest)[j - 1];
          if i > 0 {
            assert r[i] == EmployeeNames(rest)[i - 1];
          }
        }
      } else {
        assert r == EmployeeNames(rest);
      }
    }
  }

  /** `SELECT * FROM sessions ORDER BY login_time DESC`. */
  function AdminLogs(sessions: seq<SessionRow>): (r: seq<SessionRow>)
    ensures multiset(r) == multiset(sessions)
    ensures forall i, j :: 0 <= i < j < |r| ==> r[i].loginTime >= r[j].loginTime
  {
    SortBySorted(sessions, NewerRowFirst);
    SortBy(sessions, NewerRowFirst)
  }

  // ---------------------------------------------------------------- employee dashboard

  /** `WHERE employee=?` on `tasks`. */
  function AssignedTo(tasks: seq<Task>, user: string): (r: seq<Task>)
    ensures forall t :: multiset(r)[t] == if t.employee == user then multiset(tasks)[t] else 0
  {
    Filter(tasks, (t: Task) => t.employee == user)
  }

  /** `SELECT * FROM tasks WHERE employee=? ORDER BY status DESC, priority DESC, deadline ASC`. */
  function EmployeeTasks(tasks: seq<Task>, user: string): (r: seq<Task>)
    ensures forall t :: multiset(r)[t] == if t.employee == user then multiset(tasks)[t] else 0
    ensures SortedBy(r, EmployeeTaskOrder)
  {
    EmployeeTaskOrderIsPreorder();
    SortBySorted(AssignedTo(tasks, user), EmployeeTaskOrder);
    SortBy(AssignedTo(tasks, user), EmployeeTaskOrder)
  }

  /** In an employee's list no "Pending" task comes after a "Completed" one. */
  lemma EmployeeTasksPendingFirst(tasks: seq<Task>, user: string)
    ensures var r := EmployeeTasks(tasks, user);
      forall i, j :: 0 <= i < j < |r| && r[i].status == COMPLETED ==> r[j].status != PENDING
  {
    var r := EmployeeTasks(tasks, user);
    StatusLabelsOrder();
    forall i, j | 0 <= i < j < |r| && r[i].status == COMPLETED
      ensures r[j].status != PENDING
    {
      assert EmployeeTaskOrder(r[i], r[j]);
    }
  }

  /** Within one status, priorities descend as TEXT: "Medium", then "Low", then "High". */
  lemma EmployeeTasksPriorities(tasks: seq<Task>, user: string)
    ensures var r := EmployeeTasks(tasks, user);
      forall i, j :: 0 <= i < j < |r| && r[i].status == r[j].status ==>
        (r[i].priority == HIGH ==> r[j].priority != LOW && r[j].priority != MEDIUM)
        && (r[i].priority == LOW ==> r[j].priority != MEDIUM)
  {
    var r := EmployeeTasks(tasks, user);
    PriorityLabelsOrder();
    forall i, j | 0 <= i < j < |r| && r[i].status == r[j].status
      ensures r[i].priority == HIGH ==> r[j].priority != LOW && r[j].priority != MEDIUM
      ensures r[i].priority == LOW ==> r[j].priority != MEDIUM
    {
      assert EmployeeTaskOrder(r[i], r[j]);
      TextLeReflexive(r[i].status);
    }
  }

  /** A task assigned to `t.employee` shows up on that employee's dashboard. */
  lemma AssignedTaskVisible(tasks: seq<Task>, t: Task)
    ensures t in EmployeeTasks(tasks + [t], t.employee)
  {
    assert t in multiset(tasks + [t]);
    assert t in multiset(EmployeeTasks(tasks + [t], t.employee));
  }

  /** `WHERE username=?` on `sessions`. */
  function SessionsOf(sessions: seq<SessionRow>, user: string): (r: seq<SessionRow>)
    ensures forall s :: multiset(r)[s] == if s.username == user then multiset(sessions)[s] else 0
  {
    Filter(sessions, (s: SessionRow) => s.username == user)
  }

  /** The `login_time, logout_time` columns of each row. */
  function Entries(rows: seq<SessionRow>): (r: seq<LogEntry>)
    ensures |r| == |rows|
    ensures forall i :: 0 <= i < |rows| ==> r[i] == LogEntry(rows[i].loginTime, rows[i].logoutTime)
  {
    if rows == [] then [] else [LogEntry(rows[0].loginTime, rows[0].logoutTime)] + Entries(rows[1..])
  }

  /** `SELECT login_time, logout_time FROM sessions WHERE username=? ORDER BY login_time DESC`. */
  function EmployeeLogs(sessions: seq<SessionRow>, user: string): (r: seq<LogEntry>)
    ensures multiset(r) == multiset(Entries(SessionsOf(sessions, user)))
    ensures forall i, j :: 0 <= i < j < |r| ==> r[i].loginTime >= r[j].loginTime
  {
    SortBySorted(Entries(SessionsOf(sessions, user)), NewerEntryFirst);
    SortBy(Entries(SessionsOf(sessions, user)), NewerEntryFirst)
  }

  /** Every line of an employee's history comes from one of their own rows, and each of
      their rows contributes a line. */
  lemma EmployeeLogsOwnRows(sessions: seq<SessionRow>, user: string)
    ensures forall e :: e in EmployeeLogs(sessions, user) <==>
      exists s :: s in sessions && s.username == user && e == LogEntry(s.loginTime, s.logoutTime)
  {
    var own := SessionsOf(sessions, user);
    var es := Entries(own);
    var r := EmployeeLogs(sessions, user);
    SameElements(r, es);
    EntriesOfOwnRows(sessions, user);
  }

  /** Two sequences with the same multiset have the same elements. */
  lemma SameElements<T>(a: seq<T>, b: seq<T>)
    requires multiset(a) == multiset(b)
    ensures forall x :: x in a <==> x in b
  {
    forall x ensures x in a <==> x in b {
      assert x in a <==> x in multiset(a);
      assert x in b <==> x in multiset(b);
    }
  }

  lemma EntriesOfOwnRows(sessions: seq<SessionRow>, user: string)
    ensures forall e :: e in Entries(SessionsOf(sessions, user)) <==>
      exists s :: s in sessions && s.username == user && e == LogEntry(s.loginTime, s.logoutTime)
  {
    var own := SessionsOf(sessions, user);
    var es := Entries(own);
    forall e | e in es
      ensures exists s :: s in sessions && s.username == user && e == LogEntry(s.loginTime, s.logoutTime)
    {
      var k :| 0 <= k < |es| && es[k] == e;
      assert own[k] in multiset(own);
    }
    forall s | s in sessions && s.username == user
      ensures LogEntry(s.loginTime, s.logoutTime) in es
    {
      assert s in multiset(own);
      var k :| 0 <= k < |own| && own[k] == s;
      assert es[k] == LogEntry(s.loginTime, s.logoutTime);
    }
  }
}
