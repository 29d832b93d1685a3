/**
 * Properties that relate several handlers: the session state machine
 * (anonymous, then logged in as a student or an administrator, then
 * anonymous again), the agreement between sessions and the user store,
 * and end-to-end consequences for authoring, delivery and scoring.
 */
module Properties {
  import opened Wrappers
  import opened Records
  import opened UserStore
  import opened Http
  import opened Auth
  import opened Authoring
  import opened Scoring
  import opened Exams

  // ---------------- registration and login ----------------

  /** A visitor who registers with a free email and then logs in with the
      same password (which the verifier accepts against the stored hash)
      ends up logged in as the new student and is sent to the student
      dashboard. */
  lemma RegisterThenLogin(sess: Session, db: Db, username: string, email: string,
                          password: string, passwordHash: string, check: (string, string) -> bool)
    requires !EmailTaken(db.users, email)
    requires check(passwordHash, password)
    ensures var r1 := Register(sess, db, username, email, passwordHash);
            var r2 := Login(r1.session, r1.db, email, password, check);
            r2.session == Session(Some(|db.users|), Some(username), Some(Student))
            && r2.response == Redirect(DashboardRoute)
            && !AdminSession(r2.session)
  {
    var r1 := Register(sess, db, username, email, passwordHash);
    assert forall j :: 0 <= j < |db.users| ==> r1.db.users[j] == db.users[j];
    assert r1.db.users[|db.users|].email == email;
    assert FindByEmail(r1.db.users, email) == Some(|db.users|);
  }

  /** Registering the same email a second time is refused and creates no
      user. */
  lemma RegisterTwiceRefused(sess: Session, db: Db, name1: string, name2: string, email: string,
                             hash1: string, hash2: string)
    ensures var r1 := Register(sess, db, name1, email, hash1);
            var r2 := Register(r1.session, r1.db, name2, email, hash2);
            r2.db == r1.db && r2.response == Redirect(RegisterRoute)
            && CountEmail(r2.db.users, email) == (if EmailTaken(db.users, email) then CountEmail(db.users, email) else 1)
  {
    var r1 := Register(sess, db, name1, email, hash1);
    if !EmailTaken(db.users, email) {
      CountEmailAppend(db.users, User(name1, email, hash1, Student), email);
      assert r1.db.users[|db.users|].email == email;
    }
  }

  /** Registration keeps emails unique. */
  lemma RegisterKeepsUnique(sess: Session, db: Db, username: string, email: string, passwordHash: string)
    requires UniqueEmails(db.users)
    ensures UniqueEmails(Register(sess, db, username, email, passwordHash).db.users)
  {
  }

  /** A failed login keeps whatever session was there: it neither logs a
      logged-in user out nor logs anyone in. */
  lemma FailedLoginKeepsSession(sess: Session, db: Db, email: string, password: string,
                                check: (string, string) -> bool)
    requires forall i :: 0 <= i < |db.users| ==> !check(db.users[i].passwordHash, password)
    ensures Login(sess, db, email, password, check) == Reply(Render(LoginPage), sess, db)
  {
  }

  // ---------------- the session state machine ----------------

  /** The authentication state a session is in. */
  datatype AuthState = LoggedOut | LoggedInAs(role: Role)

  function StateOf(sess: Session): AuthState
  {
    if sess.userId.None? then LoggedOut
    else if sess.role == Some(Admin) then LoggedInAs(Admin)
    else LoggedInAs(Student)
  }

  /** Login moves to the matched user's role or stays put; logout always
      returns to the logged-out state. */
  lemma LoginLogoutTransitions(sess: Session, db: Db, email: string, password: string,
                               check: (string, string) -> bool)
    ensures var r := Login(sess, db, email, password, check);
            r.session == sess
            || exists i :: 0 <= i < |db.users| && db.users[i].email == email
                           && StateOf(r.session) == LoggedInAs(db.users[i].role)
    ensures StateOf(Logout(sess, db).session) == LoggedOut
  {
  }

  /** In a session that agrees with the store, the admin guard admits
      exactly the sessions of users the store records as administrators. */
  lemma AdminGateMatchesStore(sess: Session, db: Db)
    requires Consistent(sess, db)
    ensures AdminSession(sess)
        <==> sess.userId.Some? && sess.userId.value < |db.users| && db.users[sess.userId.value].role == Admin
  {
  }

  /** Logging in as a user the store records as an administrator opens the
      admin guard; as a student, it stays shut and nothing the guarded
      handler would do happens. */
  lemma LoginOpensGateByRole(sess: Session, db: Db, email: string, password: string,
                             check: (string, string) -> bool, handler: Handler)
    requires FindByEmail(db.users, email).Some?
    requires check(db.users[FindByEmail(db.users, email).value].passwordHash, password)
    ensures var r := Login(sess, db, email, password, check);
            var u := db.users[FindByEmail(db.users, email).value];
            (u.role == Admin ==> AdminRequired(r.session, r.db, handler) == handler(r.session, r.db))
            && (u.role == Student ==> AdminRequired(r.session, r.db, handler) == Reply(Redirect(DashboardRoute), r.session, db))
  {
  }

  /** After logout every guarded route redirects to the login page and
      changes nothing. */
  lemma LogoutLocksGuardedRoutes(sess: Session, db: Db, handler: Handler)
    ensures var out := Logout(sess, db);
            LoginRequired(out.session, out.db, handler) == Reply(Redirect(LoginRoute), Anonymous, db)
            && AdminRequired(out.session, out.db, handler) == Reply(Redirect(DashboardRoute), Anonymous, db)
  {
  }

  // ---------------- sessions stay consistent with the store ----------------

  /** Appending users keeps every session consistent. */
  lemma ConsistentUnderUserAppend(sess: Session, db: Db, extra: seq<User>)
    requires Consistent(sess, db)
    ensures Consistent(sess, db.(users := db.users + extra))
  {
  }

  /** Login and logout leave consistent sessions. */
  lemma LoginLogoutKeepConsistent(sess: Session, db: Db, email: string, password: string,
                                  check: (string, string) -> bool)
    requires Consistent(sess, db)
    ensures var r := Login(sess, db, email, password, check); Consistent(r.session, r.db)
    ensures var r := Logout(sess, db); Consistent(r.session, r.db)
  {
  }

  /** Registration and seeding leave consistent sessions. */
  lemma StoreUpdatesKeepConsistent(sess: Session, db: Db, username: string, email: string,
                                   passwordHash: string, adminHash: string, studentHash: string)
    requires Consistent(sess, db)
    ensures var r := Register(sess, db, username, email, passwordHash); Consistent(r.session, r.db)
    ensures Consistent(sess, db.(users := InitSampleData(db.users, adminHash, studentHash)))
  {
  }

  /** The exam handlers leave consistent sessions. */
  lemma ExamHandlersKeepConsistent(sess: Session, db: Db, form: ExamForm, id: ExamId, sub: Submission)
    requires Consistent(sess, db)
    ensures var r := CreateExam(sess, db, form); Consistent(r.session, r.db)
    ensures var r := TakeExam(sess, db, id); Consistent(r.session, r.db)
    ensures var r := SubmitExam(sess, db, id, sub); Consistent(r.session, r.db)
  {
  }

  /** A student, or a visitor who is not logged in, cannot create an exam:
      the request is turned away and the store is unchanged. */
  lemma NonAdminCannotCreateExam(sess: Session, db: Db, form: ExamForm)
    requires Consistent(sess, db)
    requires sess.userId.None? || db.users[sess.userId.value].role == Student
    ensures CreateExam(sess, db, form) == Reply(Redirect(DashboardRoute), sess, db)
  {
  }

  // ---------------- authoring, delivery and scoring together ----------------

  /** An exam an administrator has just created can be taken by any
      logged-in user. */
  lemma CreatedExamIsAvailable(admin: Session, db: Db, form: ExamForm, visitor: Session)
    requires AdminSession(admin) && BuildQuestions(form).Success?
    requires LoggedIn(visitor)
    ensures var r := CreateExam(admin, db, form);
            TakeExam(visitor, r.db, |db.exams|).response == Render(TakeExamPage(|db.exams|))
  {
  }

  /** An exam created with a question count of zero or less has no
      questions, so every submission of it by a logged-in user fails and
      records nothing. */
  lemma EmptyExamCannotBeSubmitted(admin: Session, db: Db, form: ExamForm, student: Session, sub: Submission)
    requires AdminSession(admin) && form.questionCount <= 0
    requires LoggedIn(student)
    ensures var r := CreateExam(admin, db, form);
            var s := SubmitExam(student, r.db, |db.exams|, sub);
            s.response == ServerError && s.db == r.db
  {
  }

  /** A logged-in student who answers every question of a non-empty exam
      correctly gets full marks and a percentage of 100. */
  lemma PerfectSubmission(sess: Session, db: Db, id: ExamId)
    requires LoggedIn(sess) && id < |db.exams| && |db.exams[id].questions| > 0
    ensures var qs := db.exams[id].questions;
            var sub := map i | 0 <= i < |qs| :: qs[i].correct;
            var r := SubmitExam(sess, db, id, sub);
            var res := r.db.results[|db.results|];
            |r.db.results| == |db.results| + 1
            && res.score == res.total == |qs| && res.percentage == 100.0
  {
  }

  /** A logged-in student who submits a blank form for a non-empty exam
      scores zero, with every answer recorded as unanswered. */
  lemma BlankSubmission(sess: Session, db: Db, id: ExamId)
    requires LoggedIn(sess) && id < |db.exams| && |db.exams[id].questions| > 0
    ensures var r := SubmitExam(sess, db, id, map[]);
            var res := r.db.results[|db.results|];
            |r.db.results| == |db.results| + 1
            && res.score == 0 && res.percentage == 0.0
            && forall i :: 0 <= i < |res.answers| ==> res.answers[i] == -1
  {
  }

  /** Submission does not look at the active flag: a logged-in student can
      still submit an exam that `take_exam` refuses to show. */
  lemma InactiveExamStillAcceptsSubmissions(sess: Session, db: Db, id: ExamId, sub: Submission)
    requires LoggedIn(sess) && id < |db.exams| && !db.exams[id].active
    requires |db.exams[id].questions| > 0
    ensures TakeExam(sess, db, id).response == Redirect(DashboardRoute)
    ensures SubmitExam(sess, db, id, sub).response == Redirect(DashboardRoute)
    ensures |SubmitExam(sess, db, id, sub).db.results| == |db.results| + 1
  {
  }
}
