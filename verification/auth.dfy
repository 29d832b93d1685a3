/**
 * Authentication: the two route guards, login, logout and registration.
 */
module Auth {
  import opened Wrappers
  import opened Records
  import opened UserStore
  import opened Http

  /** A handler that the guards wrap. */
  type Handler = (Session, Db) -> Reply

  /** `"user_id" in session`. */
  predicate LoggedIn(sess: Session)
  {
    sess.userId.Some?
  }

  /** `"user_id" in session and session.get("role") == "admin"`. */
  predicate AdminSession(sess: Session)
  {
    sess.userId.Some? && sess.role == Some(Admin)
  }

  /** `login_required`: runs the handler when the session has a user id,
      and otherwise redirects to the login page with nothing changed. */
  function LoginRequired(sess: Session, db: Db, handler: Handler): (r: Reply)
    ensures LoggedIn(sess) ==> r == handler(sess, db)
    ensures !LoggedIn(sess) ==> r == Reply(Redirect(LoginRoute), sess, db)
  {
    if sess.userId.None? then Reply(Redirect(LoginRoute), sess, db)
    else handler(sess, db)
  }

  /** `admin_required`: runs the handler only for an administrator's
      session, and otherwise redirects to the student dashboard with
      nothing changed. */
  function AdminRequired(sess: Session, db: Db, handler: Handler): (r: Reply)
    ensures AdminSession(sess) ==> r == handler(sess, db)
    ensures !AdminSession(sess) ==> r == Reply(Redirect(DashboardRoute), sess, db)
  {
    if sess.userId.None? || sess.role != Some(Admin) then Reply(Redirect(DashboardRoute), sess, db)
    else handler(sess, db)
  }

  /** Where a freshly logged-in user is sent. */
  function HomeOf(role: Role): Route
  {
    if role == Admin then AdminDashboardRoute else DashboardRoute
  }

  /** The session a successful login establishes for user `id`. */
  function SessionFor(users: seq<User>, id: UserId): Session
    requires id < |users|
  {
    Session(Some(id), Some(users[id].username), Some(users[id].role))
  }

  /** The POST branch of `login`. `check` is the password-hash verifier,
      left uninterpreted: `check(hash, password)` holds when the password
      matches the stored hash. On success the session takes the matched
      user's id, name and role and the user is sent home by role; on
      failure the login page is shown again and the session is kept. */
  function Login(sess: Session, db: Db, email: string, password: string,
                 check: (string, string) -> bool): (r: Reply)
    ensures r.db == db
    ensures var found := FindByEmail(db.users, email);
            if found.Some? && check(db.users[found.value].passwordHash, password) then
              r.session.userId == found && r.session.username == Some(db.users[found.value].username)
              && r.session.role == Some(db.users[found.value].role)
              && r.response == Redirect(HomeOf(db.users[found.value].role))
            else
              r.session == sess && r.response == Render(LoginPage)
  {
    match FindByEmail(db.users, email)
    case Some(id) =>
      if check(db.users[id].passwordHash, password) then
        Reply(Redirect(HomeOf(db.users[id].role)), SessionFor(db.users, id), db)
      else Reply(Render(LoginPage), sess, db)
    case None => Reply(Render(LoginPage), sess, db)
  }

  /** `logout`: empties the session and goes to the landing page. */
  function Logout(sess: Session, db: Db): (r: Reply)
    ensures !LoggedIn(r.session) && r.session.role.None? && r.session.username.None?
    ensures r.db == db
    ensures r.response == Redirect(IndexRoute)
  {
    Reply(Redirect(IndexRoute), Anonymous, db)
  }

  /** The POST branch of `register`. `passwordHash` is the hash computed
      from the submitted password. A taken email sends the visitor back to
      the form with the store unchanged; otherwise exactly one student
      account is appended and the visitor is sent to the login page. */
  function Register(sess: Session, db: Db, username: string, email: string, passwordHash: string): (r: Reply)
    ensures r.session == sess
    ensures r.db.exams == db.exams && r.db.results == db.results
    ensures EmailTaken(db.users, email) ==> r.db == db && r.response == Redirect(RegisterRoute)
    ensures !EmailTaken(db.users, email) ==>
              r.db.users == db.users + [User(username, email, passwordHash, Student)]
              && r.response == Redirect(LoginRoute)
  {
    if FindByEmail(db.users, email).Some? then Reply(Redirect(RegisterRoute), sess, db)
    else
      var users := db.users + [User(username, email, passwordHash, Student)];
      Reply(Redirect(LoginRoute), sess, db.(users := users))
  }

  /** A session agrees with the store: it is empty, or it names an existing
      user and carries that user's name and role. Login and logout are the
      only writers of the session, and the store never loses users, so every
      session the application produces satisfies this. */
  predicate Consistent(sess: Session, db: Db)
  {
    || sess == Anonymous
    || (sess.userId.Some? && sess.userId.value < |db.users|
        && sess == SessionFor(db.users, sess.userId.value))
  }
}
