/** The Flask `session` cookie and the two role checks every protected handler starts with. */
module Access {
  import opened Tables

  /** The contents of the Flask `session` after a successful login: `user` and `role`. */
  datatype Caller = Caller(user: string, role: Role)

  /** `is_admin()`: someone is logged in and their role is "admin". */
  predicate IsAdmin(current: Option<Caller>) {
    current.Some? && current.value.role == Admin
  }

  /** `is_employee()`: someone is logged in and their role is "employee". */
  predicate IsEmployee(current: Option<Caller>) {
    current.Some? && current.value.role == Employee
  }

  /** No caller passes both gates, and a logged-in caller passes exactly one. */
  lemma GatesPartitionLoggedIn(current: Option<Caller>)
    ensures !(IsAdmin(current) && IsEmployee(current))
    ensures current.Some? <==> IsAdmin(current) || IsEmployee(current)
  {
  }

  /** The session names a registered user and carries that user's stored role. */
  ghost predicate Registered(current: Option<Caller>, users: seq<User>) {
    current.Some? ==>
      exists u :: u in users && u.username == current.value.user && u.role == current.value.role
  }

  /** Inserting a user keeps a registered session registered. */
  lemma RegisteredAfterInsert(current: Option<Caller>, users: seq<User>, u: User)
    requires Registered(current, users)
    ensures Registered(current, users + [u])
  {
    if current.Some? {
      var v :| v in users && v.username == current.value.user && v.role == current.value.role;
      assert v in users + [u];
    }
  }
}
