/**
 * The exam handlers: authoring (`create_exam`), delivery (`take_exam`) and
 * submission (`submit_exam`). Each body is wrapped in the guard its route
 * declares.
 */
module Exams {
  import opened Wrappers
  import opened Records
  import opened Http
  import opened Auth
  import opened Authoring
  import opened Scoring

  /** The POST body of `create_exam`: stores the exam built from the form,
      marked active and credited to the session's user. A missing
      correct-answer field, or a session without a user id, fails before
      anything is written. */
  function CreateExamBody(sess: Session, db: Db, form: ExamForm): (r: Reply)
    ensures r.session == sess
    ensures r.db.users == db.users && r.db.results == db.results
    ensures r.response == ServerError <==> BuildQuestions(form).Failure? || sess.userId.None?
    ensures r.response == ServerError ==> r.db == db
    ensures r.response != ServerError ==>
              r.response == Redirect(AdminDashboardRoute)
              && |r.db.exams| == |db.exams| + 1 && r.db.exams[..|db.exams|] == db.exams
              && var e := r.db.exams[|db.exams|];
                 e.active && e.createdBy == sess.userId.value
                 && e.title == form.title && e.description == form.description
                 && e.duration == form.duration
                 && e.questions == BuildQuestions(form).value
                 && |e.questions| == RequestedCount(form)
  {
    match BuildQuestions(form)
    case Failure(_) => Reply(ServerError, sess, db)
    case Success(qs) =>
      match sess.userId
      case None => Reply(ServerError, sess, db)
      case Some(uid) =>
        var exam := Exam(form.title, form.description, form.duration, qs, uid, true);
        Reply(Redirect(AdminDashboardRoute), sess, db.(exams := db.exams + [exam]))
  }

  /** `create_exam`, behind `admin_required`. */
  function CreateExam(sess: Session, db: Db, form: ExamForm): (r: Reply)
    ensures r.session == sess && r.db.users == db.users && r.db.results == db.results
    ensures r.db != db ==> AdminSession(sess)
    ensures !AdminSession(sess) ==> r == Reply(Redirect(DashboardRoute), sess, db)
    ensures AdminSession(sess) ==> r == CreateExamBody(sess, db, form)
    ensures AdminSession(sess) && BuildQuestions(form).Failure? ==> r == Reply(ServerError, sess, db)
    ensures AdminSession(sess) && BuildQuestions(form).Success? ==>
              r.response == Redirect(AdminDashboardRoute) && |r.db.exams| == |db.exams| + 1
  {
    AdminRequired(sess, db, (s: Session, d: Db) => CreateExamBody(s, d, form))
  }

  /** Whether `take_exam` shows the exam: it exists and is active. A missing
      and an inactive exam are answered alike. */
  predicate Available(db: Db, id: ExamId)
  {
    id < |db.exams| && db.exams[id].active
  }

  /** `take_exam`, behind `login_required`: never changes anything, and
      renders the exam exactly when the visitor is logged in and the exam
      is available. */
  function TakeExam(sess: Session, db: Db, id: ExamId): (r: Reply)
    ensures r.session == sess && r.db == db
    ensures r.response == Render(TakeExamPage(id)) <==> LoggedIn(sess) && Available(db, id)
    ensures r.response.Render? || r.response == Redirect(LoginRoute) || r.response == Redirect(DashboardRoute)
    ensures !LoggedIn(sess) ==> r.response == Redirect(LoginRoute)
    ensures LoggedIn(sess) && !Available(db, id) ==> r.response == Redirect(DashboardRoute)
  {
    LoginRequired(sess, db, (s: Session, d: Db) =>
      if Available(d, id) then Reply(Render(TakeExamPage(id)), s, d)
      else Reply(Redirect(DashboardRoute), s, d))
  }

  /** The result document a submission produces, or None when the source
      would raise: the exam does not exist, the session has no user id, or
      the exam has no questions (the percentage divides by zero). */
  function ResultOf(sess: Session, db: Db, id: ExamId, sub: Submission): (r: Option<ExamResult>)
    ensures r.Some? <==> id < |db.exams| && sess.userId.Some? && |db.exams[id].questions| > 0
    ensures r.Some? ==>
              var qs := db.exams[id].questions;
              var g := Grade(qs, sub);
              r.value.student == sess.userId.value && r.value.exam == id
              && r.value.answers == g.answers && r.value.score == g.score
              && r.value.total == |qs| && r.value.percentage == Percentage(g.score, |qs|)
  {
    if id >= |db.exams| || sess.userId.None? then None
    else
      var qs := db.exams[id].questions;
      if |qs| == 0 then None
      else
        var g := Grade(qs, sub);
        Some(ExamResult(sess.userId.value, id, g.answers, g.score, g.total, Percentage(g.score, g.total)))
  }

  /** `submit_exam`, behind `login_required`: appends one result and
      returns to the dashboard; a failing submission writes nothing.
      Whether the exam is active is not checked. */
  function SubmitExam(sess: Session, db: Db, id: ExamId, sub: Submission): (r: Reply)
    ensures r.session == sess
    ensures r.db.users == db.users && r.db.exams == db.exams
    ensures !LoggedIn(sess) ==> r == Reply(Redirect(LoginRoute), sess, db)
    ensures LoggedIn(sess) && ResultOf(sess, db, id, sub).None? ==> r == Reply(ServerError, sess, db)
    ensures LoggedIn(sess) && ResultOf(sess, db, id, sub).Some? ==>
              r.response == Redirect(DashboardRoute)
              && r.db.results == db.results + [ResultOf(sess, db, id, sub).value]
  {
    LoginRequired(sess, db, (s: Session, d: Db) =>
      match ResultOf(s, d, id, sub)
      case None => Reply(ServerError, s, d)
      case Some(res) => Reply(Redirect(DashboardRoute), s, d.(results := d.results + [res])))
  }
}
