/**
 * The documents the application keeps in its three collections
 * (`users`, `exams`, `results`), as immutable records.
 *
 * A document's identifier is its position in its collection: the
 * application only ever inserts documents, never updates or deletes them,
 * so a position names one document for the life of the store.
 * Creation timestamps are not modelled.
 */
module Records {
  import opened Wrappers

  type UserId = nat
  type ExamId = nat

  /** The two roles the application ever writes. */
  datatype Role = Student | Admin

  /** A `users` document; `passwordHash` is whatever the hasher produced. */
  datatype User = User(username: string, email: string, passwordHash: string, role: Role)

  /** One multiple-choice question: a prompt, the four option fields as
      submitted (each may be absent), and the index of the correct option.
      Nothing checks that the index names one of the four options. */
  datatype Question = Question(prompt: Option<string>, options: seq<Option<string>>, correct: int)

  /** An `exams` document. */
  datatype Exam = Exam(
    title: Option<string>,
    description: Option<string>,
    duration: int,
    questions: seq<Question>,
    createdBy: UserId,
    active: bool)

  /** A `results` document: one per submission, never updated. */
  datatype ExamResult = ExamResult(
    student: UserId,
    exam: ExamId,
    answers: seq<int>,
    score: nat,
    total: nat,
    percentage: real)

  /** The whole document store. */
  datatype Db = Db(users: seq<User>, exams: seq<Exam>, results: seq<ExamResult>)
}
