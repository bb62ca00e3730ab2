/** The request handlers of the task tracker. One `Tracker` object is the whole
    application state: the three database tables with their AUTOINCREMENT counters,
    and the Flask `session` of the caller whose request is being served. Every
    handler runs to completion before the next one starts. */
module App {
  import opened Text
  import opened Tables
  import opened Access
  import opened Queries

  /** Where a handler redirects to. */
  datatype Page = LoginPage | AdminPage | EmployeePage

  /** The forms that can be shown again with an error message. */
  datatype Form = SignupForm | AdminSignupForm | LoginForm

  datatype Reason = UsernameTaken | UserNotFound

  /** A rendered template and the data the handler passes to it. */
  datatype View =
    | SignupDone(username: string)
    | AdminSignupPrompt(initial: bool)
    | AdminCreated(username: string)
    | AssignTaskPage(employees: seq<string>)
    | AdminDashboard(tasks: seq<Task>, logs: seq<SessionRow>, employees: seq<string>)
    | EmployeeDashboard(user: string, ownTasks: seq<Task>, history: seq<LogEntry>)

  /** What a handler answers in place of HTML. `ServerError` is an exception the handler
      does not catch, which Flask answers with status 500. */
  datatype Response = Redirect(to: Page) | Rendered(view: View) | Error(form: Form, reason: Reason) | ServerError

  class Tracker {
    var users: seq<User>
    var sessions: seq<SessionRow>
    var tasks: seq<Task>
    var lastUserId: nat
    var lastSessionId: nat
    var lastTaskId: nat
    /** The Flask `session`: `None` when no "user" key is present. */
    var current: Option<Caller>

    /** What the schema and the handlers together guarantee of the state. */
    ghost predicate Valid()
      reads this
    {
      UsersValid() && SessionsValid() && TasksValid() && LoginKnown()
    }

    /** `users`: ids from the counter and the UNIQUE constraint on `username`. */
    ghost predicate UsersValid()
      reads this`users, this`lastUserId
    {
      UniqueUsernames(users) && IdsIssued(users, UserId, lastUserId)
    }

    ghost predicate SessionsValid()
      reads this`sessions, this`lastSessionId
    {
      IdsIssued(sessions, SessionId, lastSessionId)
    }

    /** `tasks`: ids from the counter, and only the two status values the handlers write. */
    ghost predicate TasksValid()
      reads this`tasks, this`lastTaskId
    {
      IdsIssued(tasks, TaskId, lastTaskId)
      && forall t :: t in tasks ==> t.status == PENDING || t.status == COMPLETED
    }

    /** The session only ever holds a registered user with their stored role. */
    ghost predicate LoginKnown()
      reads this`users, this`current
    {
      Registered(current, users)
    }

    /** `init_db` on a fresh database, and a caller with an empty session. */
    constructor ()
      ensures Valid()
      ensures users == [] && sessions == [] && tasks == [] && current == None
      ensures lastUserId == 0 && lastSessionId == 0 && lastTaskId == 0
    {
      users, sessions, tasks := [], [], [];
      lastUserId, lastSessionId, lastTaskId := 0, 0, 0;
      current := None;
    }

    /** `INSERT INTO users (username, role)`; fails, changing nothing, when the
        UNIQUE constraint on `username` is violated. */
    method InsertUser(name: string, role: Role) returns (ok: bool)
      requires Valid()
      modifies this`users, this`lastUserId
      ensures Valid()
      ensures ok <==> FindUser(old(users), name).None?
      ensures ok ==> users == old(users) + [User(old(lastUserId) + 1, name, role)] && lastUserId == old(lastUserId) + 1
      ensures !ok ==> users == old(users) && lastUserId == old(lastUserId)
    {
      ok := FindUser(users, name).None?;
      if ok {
        var u := User(lastUserId + 1, name, role);
        AppendFreshUser(users, u);
        IdsIssuedAppend(users, u, UserId, lastUserId);
        RegisteredAfterInsert(current, users, u);
        users := users + [u];
        lastUserId := lastUserId + 1;
      }
    }

    /** `/` : send a logged-in caller to their dashboard, anyone else to the login page. */
    method Home() returns (r: Response)
      requires Valid()
      ensures r == if IsAdmin(current) then Redirect(AdminPage)
                   else if IsEmployee(current) then Redirect(EmployeePage)
                   else Redirect(LoginPage)
    {
      if current.Some? {
        r := if current.value.role == Admin then Redirect(AdminPage) else Redirect(EmployeePage);
      } else {
        r := Redirect(LoginPage);
      }
    }

    /** POST `/signup`: register the stripped username as an employee, unless taken. */
    method Signup(form: string) returns (r: Response)
      requires Valid()
      modifies this`users, this`lastUserId
      ensures Valid()
      ensures var name := Strip(form);
        if FindUser(old(users), name).None? then
          && r == Rendered(SignupDone(name))
          && users == old(users) + [User(old(lastUserId) + 1, name, Employee)]
          && lastUserId == old(lastUserId) + 1
        else
          && r == Error(SignupForm, UsernameTaken)
          && users == old(users) && lastUserId == old(lastUserId)
    {
      var name := Strip(form);
      var ok := InsertUser(name, Employee);
      r := if ok then Rendered(SignupDone(name)) else Error(SignupForm, UsernameTaken);
    }

    /** The gate of `/admin_signup`: with more than one user, only an admin gets through. */
    predicate AdminSignupAllowed()
      reads this
    {
      |users| <= 1 || IsAdmin(current)
    }

    /** GET `/admin_signup`: the form, headed "initial" while the table is empty. */
    method AdminSignupPage() returns (r: Response)
      requires Valid()
      ensures !AdminSignupAllowed() ==> r == Redirect(LoginPage)
      ensures AdminSignupAllowed() ==> r == Rendered(AdminSignupPrompt(users == []))
    {
      var count := |users|;
      if count > 1 && !IsAdmin(current) {
        return Redirect(LoginPage);
      }
      r := Rendered(AdminSignupPrompt(count == 0));
    }

    /** POST `/admin_signup`: past the gate, register the stripped username as an admin, unless taken. */
    method AdminSignup(form: string) returns (r: Response)
      requires Valid()
      modifies this`users, this`lastUserId
      ensures Valid()
      ensures !old(AdminSignupAllowed()) ==>
        r == Redirect(LoginPage) && users == old(users) && lastUserId == old(lastUserId)
      ensures old(AdminSignupAllowed()) ==>
        var name := Strip(form);
        if FindUser(old(users), name).None? then
          && r == Rendered(AdminCreated(name))
          && users == old(users) + [User(old(lastUserId) + 1, name, Admin)]
          && lastUserId == old(lastUserId) + 1
        else
          && r == Error(AdminSignupForm, UsernameTaken)
          && users == old(users) && lastUserId == old(lastUserId)
    {
      var count := |users|;
      if count > 1 && !IsAdmin(current) {
        return Redirect(LoginPage);
      }
      var name := Strip(form);
      var ok := InsertUser(name, Admin);
      r := if ok then Rendered(AdminCreated(name)) else Error(AdminSignupForm, UsernameTaken);
    }

    /** POST `/login`: a known username becomes the session user with its stored role,
        and a new open `sessions` row is recorded at `now`. */
    method Login(form: string, now: nat) returns (r: Response)
      requires Valid()
      modifies this`sessions, this`lastSessionId, this`current
      ensures Valid()
      ensures var name := Strip(form);
        match FindUser(old(users), name)
        case None =>
          && r == Error(LoginForm, UserNotFound)
          && sessions == old(sessions) && lastSessionId == old(lastSessionId) && current == old(current)
        case Some(u) =>
          && r == Redirect(if u.role == Admin then AdminPage else EmployeePage)
          && current == Some(Caller(name, u.role))
          && sessions == old(sessions) + [SessionRow(old(lastSessionId) + 1, name, now, None)]
          && lastSessionId == old(lastSessionId) + 1
    {
      var name := Strip(form);
      var found := FindUser(users, name);
      match found
      case None =>
        r := Error(LoginForm, UserNotFound);
      case Some(u) =>
        var row := SessionRow(lastSessionId + 1, name, now, None);
        IdsIssuedAppend(sessions, row, SessionId, lastSessionId);
        assert Registered(Some(Caller(name, u.role)), users) by {
          assert u in users && u.username == name;
        }
        current := Some(Caller(name, u.role));
        sessions := sessions + [row];
        lastSessionId := lastSessionId + 1;
        assert SessionsValid() && LoginKnown();
        r := Redirect(if u.role == Admin then AdminPage else EmployeePage);
    }

    /** `/logout`: close the caller's newest open `sessions` row at `now`, if there is
        one, then clear the session. */
    method Logout(now: nat) returns (r: Response)
      requires Valid()
      modifies this`sessions, this`current
      ensures Valid()
      ensures r == Redirect(LoginPage) && current == None
      ensures old(current).None? ==> sessions == old(sessions)
      ensures old(current).Some? ==> LogoutUpdate(old(sessions), sessions, old(current).value.user, now)
      ensures SessionsGrow(old(sessions), sessions)
    {
      if current.Some? {
        CloseNewestAdmissible(sessions, current.value.user, now, lastSessionId);
        LogoutUpdateGrows(sessions, CloseNewest(sessions, current.value.user, now), current.value.user, now);
        CloseNewestKeepsIds(sessions, current.value.user, now, lastSessionId);
        sessions := CloseNewest(sessions, current.value.user, now);
      }
      current := None;
      r := Redirect(LoginPage);
    }

    /** `/admin`: every task by status then deadline, every session row newest first,
        and the employees. */
    method AdminDashboardPage() returns (r: Response)
      requires Valid()
      ensures !IsAdmin(current) ==> r == Redirect(LoginPage)
      ensures IsAdmin(current) ==>
        r == Rendered(AdminDashboard(AdminTasks(tasks), AdminLogs(sessions), EmployeeNames(users)))
    {
      if !IsAdmin(current) {
        return Redirect(LoginPage);
      }
      r := Rendered(AdminDashboard(AdminTasks(tasks), AdminLogs(sessions), EmployeeNames(users)));
    }

    /** GET `/assign_task`: the form, offering the registered employees. */
    method AssignTaskForm() returns (r: Response)
      requires Valid()
      ensures !IsAdmin(current) ==> r == Redirect(LoginPage)
      ensures IsAdmin(current) ==> r == Rendered(AssignTaskPage(EmployeeNames(users)))
    {
      if !IsAdmin(current) {
        return Redirect(LoginPage);
      }
      r := Rendered(AssignTaskPage(EmployeeNames(users)));
    }

    /** POST `/assign_task`: record a new "Pending" task stamped `now`. Whether
        `employee` names a registered employee is not checked. */
    method AssignTask(employee: string, title: string, explanation: string,
                      priority: string, deadline: string, now: nat) returns (r: Response)
      requires Valid()
      modifies this`tasks, this`lastTaskId
      ensures Valid()
      ensures !IsAdmin(current) ==>
        r == Redirect(LoginPage) && tasks == old(tasks) && lastTaskId == old(lastTaskId)
      ensures IsAdmin(current) ==>
        && r == Redirect(AdminPage)
        && tasks == old(tasks) + [Task(old(lastTaskId) + 1, employee, title, explanation, priority, deadline, PENDING, now)]
        && lastTaskId == old(lastTaskId) + 1
      ensures TasksProgress(old(tasks), tasks)
    {
      if !IsAdmin(current) {
        return Redirect(LoginPage);
      }
      tasks := tasks + [Task(lastTaskId + 1, employee, title, explanation, priority, deadline, PENDING, now)];
      lastTaskId := lastTaskId + 1;
      r := Redirect(AdminPage);
    }

    /** `/employee`: the caller's tasks (status and priority descending, deadline
        ascending) and the caller's own login history, newest first. */
    method EmployeeDashboardPage() returns (r: Response)
      requires Valid()
      ensures !IsEmployee(current) ==> r == Redirect(LoginPage)
      ensures IsEmployee(current) ==>
        var user := current.value.user;
        r == Rendered(EmployeeDashboard(user, EmployeeTasks(tasks, user), EmployeeLogs(sessions, user)))
    {
      if !IsEmployee(current) {
        return Redirect(LoginPage);
      }
      var user := current.value.user;
      r := Rendered(EmployeeDashboard(user, EmployeeTasks(tasks, user), EmployeeLogs(sessions, user)));
    }

    /** `/complete_task/<id>`: any logged-in employee may mark any task "Completed";
        an id that no task has changes nothing, and an id too large for an SQLite
        INTEGER fails before the `UPDATE` runs. */
    method CompleteTask(taskId: nat) returns (r: Response)
      requires Valid()
      modifies this`tasks
      ensures Valid()
      ensures !IsEmployee(current) ==> r == Redirect(LoginPage) && tasks == old(tasks)
      ensures IsEmployee(current) && taskId < SQLITE_INTEGER_BOUND ==>
        r == Redirect(EmployeePage) && tasks == MarkCompleted(old(tasks), taskId)
      ensures IsEmployee(current) && taskId >= SQLITE_INTEGER_BOUND ==> r == ServerError && tasks == old(tasks)
      ensures TasksProgress(old(tasks), tasks)
    {
      if !IsEmployee(current) {
        return Redirect(LoginPage);
      }
      if taskId >= SQLITE_INTEGER_BOUND {
        return ServerError;
      }
      MarkCompletedProgress(tasks, taskId);
      MarkCompletedKeepsIds(tasks, taskId, lastTaskId);
      MarkCompletedKeepsLabels(tasks, taskId);
      tasks := MarkCompleted(tasks, taskId);
      r := Redirect(EmployeePage);
    }
  }
}
