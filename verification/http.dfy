/**
 * What a request handler sees and produces: the signed-cookie session and
 * the response, with the document store threaded through. Rendering,
 * routing and flashed messages are abstracted to a page or a redirect
 * target; an uncaught exception becomes a server error.
 */
module Http {
  import opened Wrappers
  import opened Records

  /** Redirect targets (`url_for` names). */
  datatype Route = IndexRoute | LoginRoute | RegisterRoute | DashboardRoute | AdminDashboardRoute

  /** Rendered templates. */
  datatype Page = LoginPage | TakeExamPage(exam: ExamId)

  datatype Response = Redirect(target: Route) | Render(page: Page) | ServerError

  /** The session's three keys; each is absent or holds a value. */
  datatype Session = Session(userId: Option<UserId>, username: Option<string>, role: Option<Role>)

  /** The empty session, as after `session.clear()`. */
  const Anonymous: Session := Session(None, None, None)

  /** What a handler returns: the response, the session it leaves, the
      store it leaves. */
  datatype Reply = Reply(response: Response, session: Session, db: Db)
}
