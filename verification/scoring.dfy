/**
 * Scoring one exam submission: the loop in `submit_exam` that records one
 * answer per question and counts the correct ones, and the percentage
 * stored beside the score.
 *
 * The submitted form is a partial map from question index to the integer
 * the student chose; an index with no entry is a question left unanswered.
 */
module Scoring {
  import opened Wrappers
  import opened Records

  type Submission = map<int, int>

  /** Marker recorded for a question the form left unanswered. */
  const Unanswered: int := -1

  /** Question `i` scores: an answer was submitted and equals the stored
      correct index. A missing answer never scores, whatever the key is. */
  predicate Hit(qs: seq<Question>, sub: Submission, i: int)
    requires 0 <= i < |qs|
  {
    i in sub && sub[i] == qs[i].correct
  }

  /** The indices below `n` that score. */
  function HitSet(qs: seq<Question>, sub: Submission, n: nat): set<int>
    requires n <= |qs|
  {
    set i | 0 <= i < n && Hit(qs, sub, i)
  }

  /** The number of scoring questions among the first `n`, counted one
      question at a time as the source's loop does. */
  function HitCount(qs: seq<Question>, sub: Submission, n: nat): (c: nat)
    requires n <= |qs|
    ensures c <= n
    ensures c == 0 <==> forall i :: 0 <= i < n ==> !Hit(qs, sub, i)
    ensures c == n <==> forall i :: 0 <= i < n ==> Hit(qs, sub, i)
  {
    if n == 0 then 0
    else HitCount(qs, sub, n - 1) + (if Hit(qs, sub, n - 1) then 1 else 0)
  }

  /** The counted score is the number of scoring indices. */
  lemma {:induction false} HitCountIsCardinality(qs: seq<Question>, sub: Submission, n: nat)
    requires n <= |qs|
    ensures HitCount(qs, sub, n) == |HitSet(qs, sub, n)|
  {
    if n > 0 {
      HitCountIsCardinality(qs, sub, n - 1);
      var prev := HitSet(qs, sub, n - 1);
      assert n - 1 !in prev;
      if Hit(qs, sub, n - 1) {
        assert HitSet(qs, sub, n) == prev + {n - 1};
      } else {
        assert HitSet(qs, sub, n) == prev;
      }
    }
  }

  /** The answer recorded for question `i`. */
  function Recorded(sub: Submission, i: int): int
  {
    if i in sub then sub[i] else Unanswered
  }

  /** What a submission against a question list is graded to. */
  datatype Grading = Grading(answers: seq<int>, score: nat, total: nat)

  /** The grading of a submission: one recorded answer per question in
      question order, the number of scoring questions, and the question
      count. */
  function Grade(qs: seq<Question>, sub: Submission): (g: Grading)
    ensures g.total == |qs| == |g.answers|
    ensures forall i :: 0 <= i < |qs| ==> g.answers[i] == (if i in sub then sub[i] else Unanswered)
    ensures 0 <= g.score <= g.total
    ensures g.score == |set i | 0 <= i < |qs| && i in sub && sub[i] == qs[i].correct|
  {
    HitCountIsCardinality(qs, sub, |qs|);
    assert HitSet(qs, sub, |qs|) == set i | 0 <= i < |qs| && i in sub && sub[i] == qs[i].correct;
    Grading(seq(|qs|, i => Recorded(sub, i)), HitCount(qs, sub, |qs|), |qs|)
  }

  /** The scoring loop of `submit_exam`, walking the questions in order. */
  method ScoreSubmission(qs: seq<Question>, sub: Submission) returns (answers: seq<int>, score: nat)
    ensures answers == Grade(qs, sub).answers
    ensures score == Grade(qs, sub).score
  {
    answers := [];
    score := 0;
    var i := 0;
    while i < |qs|
      invariant 0 <= i <= |qs|
      invariant |answers| == i
      invariant forall k :: 0 <= k < i ==> answers[k] == Recorded(sub, k)
      invariant score == HitCount(qs, sub, i)
    {
      if i in sub {
        var ans := sub[i];
        answers := answers + [ans];
        if ans == qs[i].correct {
          score := score + 1;
        }
      } else {
        answers := answers + [Unanswered];
      }
      i := i + 1;
    }
  }

  /** The stored percentage, as an exact rational in place of the source's
      floating-point division; undefined for an exam without questions. */
  function Percentage(score: nat, total: nat): (p: real)
    requires 0 < total
    requires score <= total
    ensures 0.0 <= p <= 100.0
    ensures p == 100.0 <==> score == total
    ensures p == 0.0 <==> score == 0
  {
    (score as real / total as real) * 100.0
  }

  // ---------------- properties of grading ----------------

  /** Every question answered correctly gives full marks, and only then. */
  lemma FullMarksIffAllCorrect(qs: seq<Question>, sub: Submission)
    ensures Grade(qs, sub).score == |qs|
        <==> forall i :: 0 <= i < |qs| ==> i in sub && sub[i] == qs[i].correct
  {
    assert Grade(qs, sub).score == HitCount(qs, sub, |qs|);
    assert forall i :: 0 <= i < |qs| ==> (Hit(qs, sub, i) <==> i in sub && sub[i] == qs[i].correct);
  }

  /** An empty submission scores nothing and records every answer as
      unanswered, even for questions whose stored key is -1. */
  lemma NothingAnsweredScoresZero(qs: seq<Question>)
    ensures Grade(qs, map[]).score == 0
    ensures Grade(qs, map[]).answers == seq(|qs|, _ => -1)
  {
  }

  /** A question left unanswered is recorded as -1 and is not counted, even
      when its stored correct index is -1 too. */
  lemma UnansweredNeverScores(qs: seq<Question>, sub: Submission, i: int)
    requires 0 <= i < |qs| && i !in sub
    ensures Grade(qs, sub).answers[i] == -1
    ensures Grade(qs, sub).score == |HitSet(qs, sub, |qs|) - {i}|
  {
    var g := Grade(qs, sub);
    assert HitSet(qs, sub, |qs|) - {i} == HitSet(qs, sub, |qs|);
    HitCountIsCardinality(qs, sub, |qs|);
  }

  /** A concrete case of the above: a one-question exam whose key is -1,
      submitted blank, records exactly the key yet scores zero. */
  lemma BlankMatchingKeyScoresZero()
    ensures var qs := [Question(None, [], -1)];
            Grade(qs, map[]).answers == [qs[0].correct] && Grade(qs, map[]).score == 0
  {
  }

  /** When no key is -1, the score is exactly the number of recorded answers
      that equal their key. */
  lemma ScoreMatchesRecordedAnswers(qs: seq<Question>, sub: Submission)
    requires forall i :: 0 <= i < |qs| ==> qs[i].correct != -1
    ensures var g := Grade(qs, sub);
            g.score == |set i | 0 <= i < |qs| && g.answers[i] == qs[i].correct|
  {
    var g := Grade(qs, sub);
    assert (set i | 0 <= i < |qs| && g.answers[i] == qs[i].correct)
        == (set i | 0 <= i < |qs| && i in sub && sub[i] == qs[i].correct);
  }

  /** Form entries for indices outside the exam have no effect. */
  lemma ExtraAnswersIgnored(qs: seq<Question>, sub: Submission, k: int, v: int)
    requires !(0 <= k < |qs|)
    ensures Grade(qs, sub[k := v]) == Grade(qs, sub)
  {
    var g1 := Grade(qs, sub[k := v]);
    var g2 := Grade(qs, sub);
    assert g1.answers == g2.answers;
    assert (set i | 0 <= i < |qs| && i in sub[k := v] && sub[k := v][i] == qs[i].correct)
        == (set i | 0 <= i < |qs| && i in sub && sub[i] == qs[i].correct);
  }

  /** Changing the answer to one question from wrong (or missing) to right
      raises the score by exactly one and changes no other recorded answer. */
  lemma CorrectingOneAnswerAddsOne(qs: seq<Question>, sub: Submission, i: int)
    requires 0 <= i < |qs| && !Hit(qs, sub, i)
    ensures var fixed := sub[i := qs[i].correct];
            Grade(qs, fixed).score == Grade(qs, sub).score + 1
            && forall k :: 0 <= k < |qs| && k != i ==> Grade(qs, fixed).answers[k] == Grade(qs, sub).answers[k]
  {
    var fixed := sub[i := qs[i].correct];
    HitCountIsCardinality(qs, sub, |qs|);
    HitCountIsCardinality(qs, fixed, |qs|);
    assert HitSet(qs, fixed, |qs|) == HitSet(qs, sub, |qs|) + {i};
  }
}
