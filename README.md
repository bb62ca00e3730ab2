# Task tracker: tasks and session audit, modelled in Dafny

The application is a small Flask site backed by SQLite. Employees sign up and log in
by username alone. An administrator assigns them tasks, and employees mark tasks as
completed. Every login and logout is recorded in a session log, which both roles can
view. This project models that core in Dafny: the three tables, the Flask session of
the current caller, and the request handlers that read and change them.

- `text.dfy` (module `Text`): Python's `str.strip()` as applied to usernames, and the
  order SQLite uses for `ORDER BY` on TEXT columns. That order is the BINARY collation,
  i.e. byte order of UTF-8, which is code-point order.
- `sorting.dfy` (module `Sorting`): a `WHERE` filter and an `ORDER BY`. These are
  characterised by multiset equality (the result is a permutation of the selected rows)
  and by sortedness under a total preorder.
- `tables.dfy` (module `Tables`): the `users`, `sessions` and `tasks` rows, the
  AUTOINCREMENT ids, the UNIQUE username constraint, and the single-statement lookups
  and updates: user lookup, newest open session, `UPDATE ... SET logout_time`, and
  `UPDATE ... SET status='Completed'`.
- `access.dfy` (module `Access`): the Flask `session` contents and the `is_admin` /
  `is_employee` gates.
- `queries.dfy` (module `Queries`): the dashboard queries and the facts about the
  order in which they list rows.
- `app.dfy` (module `App`): class `Tracker`, which holds the three tables, their id
  counters and the caller's session. It has one method per route and request method it
  models, plus the shared `InsertUser` helper. Each returns a `Response` in place of
  HTML: `Redirect`, a `Rendered` view, a form `Error`, or `ServerError` for an exception
  the handler does not catch.

Times are natural numbers. Each one stands for a `%Y-%m-%d %H:%M:%S` stamp, whose
lexical order is its chronological order. The handlers take the current time as a
parameter `now`.

Where a tidier design would differ, the model keeps the behaviour of the code:

- **Admin-signup gate.** `admin_signup` turns callers away only when there are more
  than one user and the caller is not an admin. While the table holds 0 or 1 users,
  anyone may create an admin, so a second anonymous admin can be created.
- **Completing tasks.** `complete_task` checks only that the caller is an employee. It
  marks the task with the given id whatever its owner; an unknown id changes nothing.
- **Assigning tasks.** `assign_task` stores any employee name, registered or not.
- **Admin task order.** `ORDER BY status` compares text, and "Completed" < "Pending",
  so the admin list puts completed tasks first (`AdminTasksCompletedFirst`).
- **Employee task order.** The employee list uses `status DESC`, so pending tasks come
  first. Priorities are compared as text, so `DESC` lists "Medium", then "Low", then
  "High" (`EmployeeTasksPriorities`).
- **Open sessions.** Logging in again without logging out adds another open session
  row (`LoginAddsOpenRow`). A logout closes only one newest open row, whichever of
  several tied rows SQLite returns (`LogoutClosesOne`).
- **Roles.** The role column is modelled as the enumeration `Role = Admin | Employee`,
  because the handlers store only those two literals.

## Model

| member | source | states |
|---|---|---|
| `Text.IsSpace` | app.py:99 | the characters `str.strip()` removes: exactly those for which Python's `str.isspace()` holds, listed by code point |
| `Text.Strip` | app.py:99 | `str.strip()`: the result is the slice of the input that starts after the leading white space and ends before the trailing white space, and has no white space at either end |
| `Text.StripFixpoint` | app.py:99 | a username is unchanged by stripping exactly when it has no white space at either end |
| `Text.StripIdempotent` | app.py:133 | stripping an already stripped username changes nothing |
| `Text.StripKeepsText` | app.py:153 | stripping drops only white space: every other character of the form value is kept |
| `Text.TextLe` | app.py:211 | the BINARY collation of TEXT values: compare code point by code point, and a proper prefix sorts first |
| `Text.TextLt` | app.py:265 | "sorts strictly before" under the BINARY collation, the relation a `DESC` key reverses |
| `Text.TextLeTotal` | app.py:211 | any two TEXT values are comparable under the collation |
| `Text.TextLeTransitive` | app.py:211 | the TEXT order is transitive |
| `Text.TextLeAntisymmetric` | app.py:211 | two TEXT values that sort no later than each other are equal |
| `Text.TextLtIsStrict` | app.py:265 | "sorts strictly before" is the order without equality, which is what `DESC` keys reverse |
| `Text.TextLtTransitive` | app.py:265 | the strict TEXT order is transitive |
| `Sorting.Filter` | app.py:265 | a `WHERE` clause keeps every row that satisfies it, as many times as it occurs, and no other row |
| `Sorting.Insert` | app.py:211 | insertion adds exactly the one row to the multiset of rows |
| `Sorting.SortBy` | app.py:211 | an `ORDER BY` result is a permutation of its input |
| `Sorting.InsertSorted` | app.py:211 | under a total preorder, inserting into a sorted list keeps it sorted |
| `Sorting.SortBySorted` | app.py:211 | under a total preorder, the `ORDER BY` result is sorted |
| `Tables.UniqueUsernames` | app.py:46 | the UNIQUE constraint on `users.username`: no two rows share a username |
| `Tables.IdsIssuedAppend` | app.py:45 | an insert that takes the next AUTOINCREMENT id keeps ids increasing and bounded by the counter |
| `Tables.FindUser` | app.py:156-157 | `SELECT role FROM users WHERE username=?` finds a row with that username exactly when one exists |
| `Tables.FindUserExact` | app.py:46 | under the UNIQUE constraint, the lookup returns the one row holding the username |
| `Tables.AppendFreshUser` | app.py:104-108 | an insert that the UNIQUE constraint admits keeps usernames distinct, and afterwards every username is found as its own row |
| `Tables.NewestOpen` | app.py:187-192 | finds an open row of the user with the greatest login time, and finds none exactly when the user has no open row |
| `Tables.IsNewestOpen` | app.py:187-191 | the rows `SELECT id ... WHERE username=? AND logout_time IS NULL ORDER BY login_time DESC LIMIT 1` may return: an open row of the user whose login time no other open row of the user exceeds |
| `Tables.LogoutUpdate` | app.py:187-196 | the changes `logout` may make: none when the user has no open row; otherwise the logout time set on exactly one open row of the user whose login time is greatest, any of several tied rows |
| `Tables.CloseNewest` | app.py:186-196 | the `SELECT ... LIMIT 1` followed by the `UPDATE` of the row it returns, with `NewestOpen` choosing among tied rows |
| `Tables.CloseNewestAdmissible` | app.py:187-195 | the row `CloseNewest` closes is one the `ORDER BY login_time DESC LIMIT 1` query may return |
| `Tables.SetLogoutTime` | app.py:194-195 | `UPDATE sessions SET logout_time=? WHERE id=?` sets the time on the rows with that id and leaves every other row unchanged |
| `Tables.CloseNewestExact` | app.py:186-196 | a logout changes exactly the caller's newest open row, and only its logout time; with no open row it changes nothing |
| `Tables.CloseNewestKeepsIds` | app.py:194-195 | a logout keeps every row's id |
| `Tables.LogoutUpdateGrows` | app.py:193-196 | whichever row a logout closes, it removes no row and overwrites no recorded logout time |
| `Tables.OpenCount` | app.py:189 | a user's open-row count is zero exactly when the user has no row with a NULL logout time |
| `Tables.OpenCountUpdate` | app.py:194-195 | replacing one row changes each user's open count by what the old and new rows contribute |
| `Tables.LoginAddsOpenRow` | app.py:168-169 | each login adds one open row for its user, so repeated logins leave several open rows |
| `Tables.LogoutClosesOne` | app.py:182-197 | whichever tied row it closes, a logout lowers the caller's open count by one when it is positive, and leaves every other user's count alone |
| `Tables.MarkCompleted` | app.py:283 | `UPDATE tasks SET status='Completed' WHERE id=?` sets that status on the rows with that id and leaves every other row unchanged |
| `Tables.MarkCompletedIdempotent` | app.py:283 | completing the same task twice is the same as completing it once |
| `Tables.MarkCompletedUnknownId` | app.py:283 | completing an id that no task has changes nothing |
| `Tables.MarkCompletedKeepsIds` | app.py:283 | completing a task keeps every task's id |
| `Tables.MarkCompletedKeepsLabels` | app.py:57 | after completing a task, every status is still "Pending" or "Completed" |
| `Tables.MarkCompletedProgress` | app.py:283 | completing a task removes no task, changes no field but `status`, and never turns "Completed" back |
| `Tables.TasksProgressTransitive` | app.py:241-246 | that progress composes over any sequence of assign and complete requests, so a task's status never reverts |
| `Access.IsAdmin` | app.py:73-75 | `is_admin()`: someone is logged in and the session role is admin |
| `Access.IsEmployee` | app.py:77-79 | `is_employee()`: someone is logged in and the session role is employee |
| `Access.GatesPartitionLoggedIn` | app.py:73-79 | no session passes both `is_admin` and `is_employee`, and a session passes one of them exactly when a user is logged in |
| `Access.RegisteredAfterInsert` | app.py:160-163 | a session that names a registered user with that user's stored role stays so when users are added |
| `Queries.AdminTaskOrder` | app.py:211 | `ORDER BY status, deadline`: status ascending as TEXT, and deadline ascending among equal statuses |
| `Queries.EmployeeTaskOrder` | app.py:265 | `ORDER BY status DESC, priority DESC, deadline ASC` under the TEXT order |
| `Queries.NewerRowFirst` | app.py:217 | `ORDER BY login_time DESC` on whole session rows |
| `Queries.NewerEntryFirst` | app.py:269 | `ORDER BY login_time DESC` on the (login time, logout time) pairs |
| `Queries.AdminTaskOrderIsPreorder` | app.py:211 | `ORDER BY status, deadline` is a total preorder on tasks |
| `Queries.EmployeeTaskOrderIsPreorder` | app.py:265 | `ORDER BY status DESC, priority DESC, deadline ASC` is a total preorder on tasks |
| `Queries.StatusLabelsOrder` | app.py:211 | as TEXT, "Completed" sorts before "Pending" |
| `Queries.PriorityLabelsOrder` | app.py:265 | as TEXT, "High" < "Low" < "Medium" |
| `Queries.AdminTasks` | app.py:211-212 | the admin's task list is a permutation of the whole `tasks` table, sorted by status then deadline |
| `Queries.AdminTasksOrdered` | app.py:211 | in the admin list statuses ascend, and within one status deadlines ascend |
| `Queries.AdminTasksCompletedFirst` | app.py:211 | in the admin list no "Completed" task follows a "Pending" one |
| `Queries.EmployeeNames` | app.py:214-215 | the employee list holds exactly the usernames of users whose role is employee |
| `Queries.EmployeeNamesDistinct` | app.py:231-232 | with unique usernames, the employee list has no repetition |
| `Queries.AdminLogs` | app.py:217-218 | the admin's log is a permutation of the whole `sessions` table, newest login first |
| `Queries.AssignedTo` | app.py:265 | `WHERE employee=?` keeps exactly the tasks of that employee, with their multiplicities |
| `Queries.EmployeeTasks` | app.py:265-266 | an employee's list holds exactly their own tasks, sorted by status descending, priority descending, deadline ascending |
| `Queries.EmployeeTasksPendingFirst` | app.py:265 | in an employee's list no "Pending" task follows a "Completed" one |
| `Queries.EmployeeTasksPriorities` | app.py:265 | within one status, an employee's list shows "Medium" before "Low" before "High" |
| `Queries.AssignedTaskVisible` | app.py:245-246 | a task inserted for an employee appears in that employee's task list |
| `Queries.SessionsOf` | app.py:269 | `WHERE username=?` keeps exactly the session rows of that user |
| `Queries.Entries` | app.py:269 | `SELECT login_time, logout_time` keeps those two columns of every row, in order |
| `Queries.EmployeeLogs` | app.py:269-270 | an employee's history is a permutation of the two columns of their own rows, newest login first |
| `Queries.EmployeeLogsOwnRows` | app.py:269-270 | each line of an employee's history comes from one of their own rows, and each of their rows gives a line |
| `App.Tracker.Valid` | app.py:44-65 | the invariant every handler keeps: unique usernames, ids issued in order by each table's AUTOINCREMENT counter, every status "Pending" or "Completed", and a session that names a registered user with that user's stored role |
| `App.Tracker.constructor` | app.py:38-67 | `init_db` on a fresh database: three empty tables, counters at zero, nobody logged in |
| `App.Tracker.InsertUser` | app.py:104-108 | an insert into `users` succeeds exactly when the username is new; it then appends one row with the next id and the given role, and otherwise changes nothing |
| `App.Tracker.Home` | app.py:83-91 | `/` redirects an admin to the admin dashboard, an employee to theirs, and anyone else to login |
| `App.Tracker.Signup` | app.py:94-113 | a new stripped username is appended as one employee row; a taken one leaves `users` unchanged and reports the clash |
| `App.Tracker.AdminSignupAllowed` | app.py:121-126 | the `admin_signup` gate: the caller gets past it when there are at most one user, or when the caller is an admin |
| `App.Tracker.AdminSignupPage` | app.py:116-146 | with more than one user and no admin logged in, redirect to login; otherwise show the form, marked initial when there are no users |
| `App.Tracker.AdminSignup` | app.py:116-145 | past the gate (0 or 1 users, or an admin caller) a new stripped username is appended as one admin row, and a taken one changes nothing; at the gate nothing changes |
| `App.Tracker.Login` | app.py:149-175 | a known username sets the session to that user and their stored role and appends one open session row stamped `now`; an unknown one changes neither tables nor session |
| `App.Tracker.Logout` | app.py:179-199 | one of the caller's open session rows with the greatest login time gets logout time `now`, and nothing else changes; SQLite may pick any of several tied rows; with none open, `sessions` is unchanged; the session is cleared in every case |
| `App.Tracker.AdminDashboardPage` | app.py:202-221 | a non-admin is redirected to login; an admin sees the sorted task list, the newest-first log and the employee list |
| `App.Tracker.AssignTaskForm` | app.py:223-251 | a non-admin is redirected to login; an admin sees the form listing the employees |
| `App.Tracker.AssignTask` | app.py:223-249 | a non-admin is redirected and nothing changes; an admin's request appends exactly one task with the given fields, status "Pending", assigned at `now`, whether or not the employee exists |
| `App.Tracker.EmployeeDashboardPage` | app.py:254-273 | a non-employee is redirected to login; an employee sees their own tasks and their own history in the queries' orders |
| `App.Tracker.CompleteTask` | app.py:275-286 | a non-employee is redirected and nothing changes; an employee's request marks the task with that id "Completed", whoever owns it, and changes nothing else; an id of 2^63 or more, which sqlite3 cannot bind, ends in an uncaught error (status 500) with `tasks` unchanged |

## Left out

- The chat page and the chatbot proxy (app.py:289-313), and the Gemini and `.env`
  configuration (app.py:4-29): a pass-through to an external API, plus environment input.
- `app.secret_key`, the start-up messages and `app.run` (app.py:14, 315-318): process
  configuration.
- Connection handling: `get_db_connection`, cursors, commit and close (app.py:32-36).
  The tables are values held by the `Tracker` object.
- The generic `except Exception` branch of `signup` (app.py:109-110): it reports database
  input/output failures, which the in-memory tables do not have.
- GET on `/signup` and `/login` (app.py:114, 176): they only render an empty form, with
  no gate and no table access.
- Templates, `redirect`/`url_for` and the message strings: replaced by the `Response`
  and `View` datatypes.
- Reading `request.form`: the form values are method parameters. A missing field, which
  Flask answers with "400 Bad Request", is not modelled.
- The `SELECT` of employees at the start of a POST to `assign_task` (app.py:229-233): its
  result is not used on that path.
- The clock: `datetime.now().strftime(...)` (app.py:169, 195, 241) becomes the `now`
  parameter.
- Several clients at once: the Flask session is per browser, and the model holds the
  session of the one caller being served. Concurrency and SQLite transactions are out
  of scope.
- The order among rows with equal sort keys, which SQLite leaves unspecified.
  `SortBy` computes one admissible order. The query functions' own contracts state
  only sortedness and permutation, but the dashboard contracts (`AdminDashboardPage`,
  `EmployeeDashboardPage`) return that particular order. The employee list (app.py:214, 231) has no `ORDER BY`
  at all; `Queries.EmployeeNames` gives it in table order.
- The AUTOINCREMENT counters are unbounded `nat`s, where SQLite's stop at 2^63 - 1.
  A table that reaches that many inserts is out of scope.
- Tables.NewestOpen: among several open rows of the caller with the same login time
  (two logins in one second), it picks the last inserted, where SQLite may return any
  of them. `App.Tracker.Logout` therefore promises only `LogoutUpdate`: that some row
  with the greatest login time is closed. It does not say which of the tied rows.
- Tables that already held other data when `init_db` ran: the model starts from empty
  tables.
