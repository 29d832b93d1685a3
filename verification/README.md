# Online examination system: verified model of the request-handling core

The application lets visitors register and log in; students take
multiple-choice exams and administrators author them. Its logic lives in one
Flask handler file, `app.py`, over three MongoDB collections (`users`,
`exams`, `results`). This project models that logic as pure Dafny functions
over an in-memory store and proves properties of it:

- `wrappers.dfy` (`Wrappers`): `Option` and `Result`.
- `records.dfy` (`Records`): the `User`, `Question`, `Exam` and `ExamResult`
  documents and the store `Db`. A document's identifier (`ObjectId`) is its
  position in its collection. The application never updates or deletes a
  document, so a position keeps naming the same document.
- `user_store.dfy` (`UserStore`): the email lookup (`find_one({"email": …})`,
  taken as the first match in insertion order), check-then-insert, and the
  start-up seeding `init_sample_data`.
- `scoring.dfy` (`Scoring`): the scoring loop of `submit_exam`, its reference
  definition (the set of indices whose submitted answer equals the key), and
  the percentage as an exact rational.
- `authoring.dfy` (`Authoring`): rebuilding the question list from the
  index-named fields of the create-exam form.
- `http.dfy` (`Http`): sessions, responses and the `Reply` a handler returns
  (response, session, store).
- `auth.dfy` (`Auth`): the `login_required` and `admin_required` guards,
  `login`, `logout` and `register`.
- `exams.dfy` (`Exams`): `create_exam`, `take_exam` and `submit_exam`, each
  behind its guard.
- `properties.dfy` (`Properties`): lemmas that connect several handlers. They
  cover the session state machine (anonymous, student or admin, anonymous
  again), the agreement between sessions and the user store, and end-to-end
  scoring facts.

Modelling choices:
- An uncaught Python exception becomes `ServerError`, and the store is left
  unchanged, because every insert comes after the expression that raises.
  The exceptions are a missing session key, a lookup of a missing exam,
  `int(None)` on a missing correct-answer field, and division by zero for an
  exam without questions.
- Password hashing is not interpreted. `Register` receives the hash that was
  computed. `Login` receives the verifier `check(hash, password)` as a
  parameter. `InitSampleData` receives the two hashes of the default
  password, because hashing is salted.
- Form fields come in already parsed. In the create-exam form an absent
  text field is `None`. In a submission an absent answer is a key missing
  from the submission map. The login and registration fields are always
  present strings.

Behaviour of the code that is easy to misread, and that the model keeps:
- A question stores four option fields, and each one may be absent.
- A submitted answer of `-1` that equals a key of `-1` does score. Only an
  absent answer is guaranteed not to score.
- Seeding leaves exactly one account per sample email only when that email
  was free before. Existing duplicates are kept.
- Submission does not check whether the exam is active.

## Model

| member | source | states |
|---|---|---|
| UserStore.FindByEmail | app.py:60 | the lookup returns an index holding the email with no earlier match, and returns nothing exactly when no user has the email |
| UserStore.CountEmail | app.py:85 | the number of users with an email is at most the store size, and is zero exactly when the email is free |
| UserStore.CountEmailAppend | app.py:91-97 | appending a user raises the count of its own email by one and leaves every other email's count unchanged |
| UserStore.AppendFreshKeepsUnique | app.py:85-97 | inserting only after the existence check finds nothing keeps emails unique |
| UserStore.InsertIfAbsent | app.py:85-97 | a taken email leaves the store unchanged; otherwise the user is appended after the untouched old users; afterwards the email is always found |
| UserStore.InitSampleData | app.py:219-236 | seeding keeps the old users as a prefix, appends the Admin account when its email was free and then the Student account when its email was free (exactly one user per free sample email, with the given hashes), and leaves both sample emails present |
| UserStore.InitSampleDataIdempotent | app.py:219-236 | seeding a seeded store changes nothing, even with different hashes |
| UserStore.InitSampleDataCounts | app.py:219-236 | after seeding, a sample email that was free is held by exactly one user; every other count is unchanged |
| UserStore.InitSampleDataOnEmptyOfSamples | app.py:219-236 | a store without either sample email ends with exactly one account of each |
| UserStore.InitSampleDataRoles | app.py:219-236 | a sample email that was free is found, after seeding, on the account seeded for it (the admin right after the old users, the student last), with the admin or student role |
| UserStore.InitSampleDataKeepsUnique | app.py:219-236 | seeding keeps emails unique |
| Scoring.HitCount | app.py:196-202 | the counted score over a prefix is at most the prefix length, is zero iff no question there scores, and is full iff every one scores |
| Scoring.HitCountIsCardinality | app.py:196-202 | the counted score equals the size of the set of scoring indices |
| Scoring.Grade | app.py:193-211 | one recorded answer per question in order (the submitted value, or -1 when absent); the score is the number of indices with a present answer equal to the key; 0 <= score <= total = question count |
| Scoring.ScoreSubmission | app.py:193-204 | the imperative loop produces exactly the graded answers and score |
| Scoring.Percentage | app.py:212 | the percentage lies in [0, 100], and is 100 iff the score is full and 0 iff the score is 0 |
| Scoring.FullMarksIffAllCorrect | app.py:196-202 | full marks iff every question has an answer equal to its key |
| Scoring.NothingAnsweredScoresZero | app.py:197-204 | an empty submission scores 0 and records -1 for every question |
| Scoring.UnansweredNeverScores | app.py:197-204 | an unanswered question is recorded as -1 and never counts toward the score |
| Scoring.BlankMatchingKeyScoresZero | app.py:197-204 | a blank answer to a question whose key is -1 is recorded as that key, yet scores 0 |
| Scoring.ScoreMatchesRecordedAnswers | app.py:196-204 | when no key is -1, the score is the number of recorded answers equal to their key |
| Scoring.ExtraAnswersIgnored | app.py:196-197 | form entries for indices outside the exam do not change the grading |
| Scoring.CorrectingOneAnswerAddsOne | app.py:201-202 | turning one wrong or missing answer into the key raises the score by exactly one and changes no other recorded answer |
| Authoring.Get | app.py:149-156 | a field lookup yields a value exactly when the field is present, and that value is the field's |
| Authoring.RequestedCount | app.py:145-147 | a negative question count builds no questions; otherwise the count is used |
| Authoring.BuildPrefix | app.py:147-157 | the prefix succeeds iff every correct-answer field in it is present; on failure it reports the first missing index |
| Authoring.BuildQuestions | app.py:144-157 | on success there are as many questions as requested, each with its prompt, four option fields and key taken from the form; it fails exactly when some correct-answer field is missing |
| Authoring.EncodeQuestions | app.py:147-157 | builds the form the create-exam page posts for a question list (one entry per present field, index-named as the handler reads them), with the question count set to the list's length; it is the partner of the round trip below, not code of the handler |
| Authoring.EncodedOption | app.py:150-155 | the posted form carries each present option under its (question, option) key and nothing for an absent one |
| Authoring.BuildEncodedQuestions | app.py:144-157 | rebuilding four-option questions from the form that posts them gives them back |
| Auth.LoginRequired | app.py:29-35 | the handler runs iff the session has a user id; otherwise it redirects to login and changes nothing |
| Auth.AdminRequired | app.py:37-44 | the handler runs iff the session has a user id and the admin role; otherwise it redirects to the dashboard and changes nothing |
| Auth.Login | app.py:55-75 | when the first user with the email passes the password check, the session takes that user's id, name and role and is redirected by role; otherwise the login page is shown and the session is kept; the store never changes |
| Auth.Logout | app.py:105-109 | the session is emptied, the store is unchanged, and the visitor is redirected to the landing page |
| Auth.Register | app.py:79-100 | a taken email changes nothing and redirects to the form; otherwise exactly one student is appended, the existing users are untouched, and the visitor is sent to login |
| Exams.CreateExamBody | app.py:139-170 | on success exactly one active exam is appended, credited to the session's user, with the form's title, description and duration and exactly the question list built from the form; a missing key field fails and writes nothing |
| Exams.CreateExam | app.py:136-172 | an admin session gets exactly the create-exam body's reply, so a missing key field is a server error with nothing written; any other session is redirected to the dashboard with nothing changed |
| Exams.TakeExam | app.py:175-184 | the exam page is rendered iff the visitor is logged in and the exam exists and is active; a visitor who is not logged in is redirected to login, and a missing or inactive exam redirects to the dashboard; nothing changes |
| Exams.ResultOf | app.py:189-214 | a result exists iff the exam exists, the session has a user id and the exam has questions; it carries the graded answers, score, total and percentage |
| Exams.SubmitExam | app.py:187-216 | a logged-in submission appends exactly that result and returns to the dashboard; a failing one writes nothing; users and exams are untouched |
| Properties.RegisterThenLogin | app.py:79-100 | registering with a free email and then logging in with the same password yields a student session for the new user and the student dashboard |
| Properties.RegisterTwiceRefused | app.py:85-87 | a second registration with the same email is refused and leaves exactly one user with that email |
| Properties.RegisterKeepsUnique | app.py:85-97 | registration keeps emails unique |
| Properties.FailedLoginKeepsSession | app.py:72-75 | a password that no stored hash accepts leaves session and store unchanged and shows the login page |
| Properties.LoginLogoutTransitions | app.py:60-71 | login either keeps the session or moves to the role of a user with that email; logout always moves to logged out |
| Properties.AdminGateMatchesStore | app.py:37-44 | for a session that agrees with the store, the admin guard admits exactly users stored as administrators |
| Properties.LoginOpensGateByRole | app.py:62-71 | after an admin logs in the admin guard runs its handler; after a student logs in it redirects and changes nothing |
| Properties.LogoutLocksGuardedRoutes | app.py:105-109 | after logout both guards redirect and change nothing |
| Properties.ConsistentUnderUserAppend | app.py:91-97 | appending users keeps every session in agreement with the store |
| Properties.LoginLogoutKeepConsistent | app.py:60-73 | login and logout keep the session in agreement with the store |
| Properties.StoreUpdatesKeepConsistent | app.py:219-236 | registration and seeding keep the session in agreement with the store |
| Properties.ExamHandlersKeepConsistent | app.py:136-216 | creating, taking and submitting exams keep the session in agreement with the store |
| Properties.NonAdminCannotCreateExam | app.py:37-44 | a student or anonymous visitor cannot create an exam; the store is unchanged |
| Properties.CreatedExamIsAvailable | app.py:159-184 | an exam just created can be taken by any logged-in user |
| Properties.EmptyExamCannotBeSubmitted | app.py:145-212 | an exam created with a question count of 0 or less makes every submission fail without writing |
| Properties.PerfectSubmission | app.py:196-212 | answering every question correctly records score = total and percentage 100 |
| Properties.BlankSubmission | app.py:197-212 | a blank submission records score 0, percentage 0 and -1 for every answer |
| Properties.InactiveExamStillAcceptsSubmissions | app.py:180-216 | an inactive exam is refused by the exam page but its submissions are still recorded |

## Left out

- Routing, templates, `url_for` and the GET branches of `login`, `register` and `create_exam`: they only render a form. Responses are abstracted to a redirect target or a page.
- Flashed messages: they are presentation only. The error categories appear as the redirect target or page.
- `index`, `dashboard` and `admin_dashboard` (app.py:47-133): they only read the store, and the statistics are counting queries to the database.
- Configuration and the database connection (app.py:9-26), including the abort when the connection string is missing: these are start-up I/O.
- Password hashing and checking: salted hashing cannot be written as a function, so hashes are inputs and the checker is a parameter.
- Parsing of integers and `ObjectId`s and the exceptions they raise: inputs arrive already parsed. In particular, `duration` and `question_count` are given as plain integers. The model therefore does not cover `int(None)` raising when either field is absent (app.py:142, app.py:145). A missing correct-answer field is still modelled as an error, because it is a per-question field whose absence the question loop has to handle.
- Absent login and registration fields: the model takes the email, username and password as present strings. So it does not cover a null username or email being stored (app.py:81-83, 91-97), `None` being passed to the hasher (app.py:89), or a lookup of `{"email": None}` (app.py:57-62). Covering them would make every stored email optional for the sake of malformed requests that the forms never send.
- Timestamps (`created_at`, `completed_at`): they come from the clock.
- Scoring.Percentage: computed as an exact `real`, not as a floating-point `float`, so rounding is not modelled.
- The registration race between the existence check and the insert: it needs concurrency. Duplicate emails can still appear in an input store, and lookups then take the first match.
- The call of `init_sample_data` at import time and its failure message (app.py:238-247): these are process start-up.
