/**
 * Rebuilding an exam's question list from the create-exam form. The form
 * names its fields after question indices (`question_i`, `option_i_j`,
 * `correct_answer_i`); here each family of fields is a map keyed by the
 * index, with integers already parsed. A missing text field is stored as
 * absent; a missing correct-answer field makes the request fail, as
 * converting an absent field to an integer raises.
 */
module Authoring {
  import opened Wrappers
  import opened Records

  /** Number of option fields read per question. */
  const OptionCount: nat := 4

  datatype ExamForm = ExamForm(
    title: Option<string>,
    description: Option<string>,
    duration: int,
    questionCount: int,
    prompts: map<int, string>,
    options: map<(int, int), string>,
    corrects: map<int, int>)

  /** `request.form.get(key)`: the field's value, or absent. */
  function Get<K, V>(m: map<K, V>, k: K): (r: Option<V>)
    ensures r.Some? <==> k in m
    ensures r.Some? ==> r.value == m[k]
  {
    if k in m then Some(m[k]) else None
  }

  /** How many questions the form asks for: iterating over a negative
      count yields none. */
  function RequestedCount(form: ExamForm): (n: nat)
    ensures form.questionCount >= 0 ==> n == form.questionCount
    ensures form.questionCount < 0 ==> n == 0
  {
    if form.questionCount < 0 then 0 else form.questionCount
  }

  /** Question `i` as read from the form; its key must be present. */
  function QuestionAt(form: ExamForm, i: int): Question
    requires i in form.corrects
  {
    Question(
      Get(form.prompts, i),
      seq(OptionCount, j => Get(form.options, (i, j))),
      form.corrects[i])
  }

  /** The first `n` questions of the form, or the first index whose
      correct-answer field is missing. */
  function BuildPrefix(form: ExamForm, n: nat): (r: Result<seq<Question>, int>)
    ensures r.Success? <==> forall i :: 0 <= i < n ==> i in form.corrects
    ensures r.Success? ==> |r.value| == n
    ensures r.Success? ==> forall i :: 0 <= i < n ==> r.value[i] == QuestionAt(form, i)
    ensures r.Failure? ==> 0 <= r.error < n && r.error !in form.corrects
    ensures r.Failure? ==> forall i :: 0 <= i < r.error ==> i in form.corrects
  {
    if n == 0 then Success([])
    else match BuildPrefix(form, n - 1)
      case Failure(k) => Failure(k)
      case Success(qs) =>
        if n - 1 in form.corrects then Success(qs + [QuestionAt(form, n - 1)])
        else Failure(n - 1)
  }

  /** The question list `create_exam` builds from a form. */
  function BuildQuestions(form: ExamForm): (r: Result<seq<Question>, int>)
    ensures r.Success? <==> forall i :: 0 <= i < form.questionCount ==> i in form.corrects
    ensures r.Success? ==> |r.value| == RequestedCount(form)
    ensures r.Success? ==> forall i :: 0 <= i < |r.value| ==>
              r.value[i].prompt == Get(form.prompts, i)
              && |r.value[i].options| == OptionCount
              && (forall j :: 0 <= j < OptionCount ==> r.value[i].options[j] == Get(form.options, (i, j)))
              && r.value[i].correct == form.corrects[i]
    ensures r.Failure? ==> 0 <= r.error < form.questionCount && r.error !in form.corrects
  {
    BuildPrefix(form, RequestedCount(form))
  }

  /** The form the create-exam page posts for a list of four-option
      questions. */
  function EncodeQuestions(qs: seq<Question>): (form: ExamForm)
    ensures form.questionCount == |qs|
  {
    ExamForm(None, None, 0, |qs|,
      map i | 0 <= i < |qs| && qs[i].prompt.Some? :: qs[i].prompt.value,
      map i, j | 0 <= i < |qs| && 0 <= j < |qs[i].options| && qs[i].options[j].Some?
        :: (i, j) := qs[i].options[j].value,
      map i | 0 <= i < |qs| :: qs[i].correct)
  }

  /** The form carries each present option of each question under its
      `(question, option)` key, and nothing for an absent one. */
  lemma EncodedOption(qs: seq<Question>, i: int, j: int)
    requires 0 <= i < |qs| && 0 <= j < |qs[i].options|
    ensures Get(EncodeQuestions(qs).options, (i, j)) == qs[i].options[j]
  {
  }

  /** The form carries each question's prompt when it has one. */
  lemma EncodedPrompt(qs: seq<Question>, i: int)
    requires 0 <= i < |qs|
    ensures Get(EncodeQuestions(qs).prompts, i) == qs[i].prompt
  {
  }

  /** Every question of the encoded form has its correct-answer field. */
  lemma EncodedCorrects(qs: seq<Question>)
    ensures var form := EncodeQuestions(qs);
            forall i :: 0 <= i < |qs| ==> i in form.corrects && form.corrects[i] == qs[i].correct
  {
  }

  /** Rebuilding the questions from the form they were posted with gives
      them back, provided each has exactly four options. */
  lemma BuildEncodedQuestions(qs: seq<Question>)
    requires forall i :: 0 <= i < |qs| ==> |qs[i].options| == OptionCount
    ensures BuildQuestions(EncodeQuestions(qs)) == Success(qs)
  {
    var form := EncodeQuestions(qs);
    EncodedCorrects(qs);
    var r := BuildQuestions(form);
    assert r.Success?;
    assert |r.value| == |qs|;
    forall i | 0 <= i < |qs|
      ensures r.value[i] == qs[i]
    {
      forall j | 0 <= j < OptionCount
        ensures r.value[i].options[j] == qs[i].options[j]
      {
        EncodedOption(qs, i, j);
      }
      EncodedPrompt(qs, i);
    }
    assert r.value == qs;
  }
}
