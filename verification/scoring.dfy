/**
 What App computes from a finished quiz's answers: the score, and the missed
 questions that feed the practice pool.
 */
module Scoring {
  import opened Types
  import opened Seqs

  /** The first answer recorded for question `id`, if any. */
  function FirstAnswerFor(answers: seq<UserAnswer>, id: string): (r: Option<UserAnswer>)
    ensures r.None? <==> forall i :: 0 <= i < |answers| ==> answers[i].questionId != id
    ensures r.Some? ==> exists i :: FirstAt(answers, id, i) && answers[i] == r.value
    decreases |answers|
  {
    if |answers| == 0 then None
    else if answers[0].questionId == id then
      assert FirstAt(answers, id, 0);
      Some(answers[0])
    else
      var r := FirstAnswerFor(answers[1..], id);
      FirstAtShift(answers, id);
      r
  }

  /** Index `i` holds the first answer for `id`. */
  predicate FirstAt(answers: seq<UserAnswer>, id: string, i: int) {
    && 0 <= i < |answers|
    && answers[i].questionId == id
    && forall j :: 0 <= j < i ==> answers[j].questionId != id
  }

  lemma FirstAtShift(answers: seq<UserAnswer>, id: string)
    requires |answers| > 0 && answers[0].questionId != id
    ensures forall i :: FirstAt(answers[1..], id, i) ==> FirstAt(answers, id, i + 1)
  {
    forall i | FirstAt(answers[1..], id, i)
      ensures FirstAt(answers, id, i + 1)
    {
      forall j | 0 <= j < i + 1
        ensures answers[j].questionId != id
      {
        if j > 0 {
          assert answers[j] == answers[1..][j - 1];
        }
      }
    }
  }

  /** The first answer recorded for question `id` exists and is correct. */
  predicate AnsweredCorrectly(answers: seq<UserAnswer>, id: string) {
    match FirstAnswerFor(answers, id)
    case Some(a) => a.isCorrect
    case None => false
  }

  /**
   When no question is answered twice, "the first answer for `id` is
   correct" is "some answer for `id` is correct".
   */
  lemma AnsweredCorrectlyIff(answers: seq<UserAnswer>, id: string)
    requires DistinctAnswerIds(answers)
    ensures AnsweredCorrectly(answers, id) <==>
            exists i :: 0 <= i < |answers| && answers[i].questionId == id && answers[i].isCorrect
  {
    var r := FirstAnswerFor(answers, id);
    if r.Some? {
      var i :| FirstAt(answers, id, i) && answers[i] == r.value;
    }
  }

  /** The filter predicate of the missed set: no correct (first) answer. */
  function IsMissed(answers: seq<UserAnswer>): Question -> bool {
    (q: Question) => !AnsweredCorrectly(answers, q.id)
  }

  /**
   The missed questions: the questions, in order, whose first answer is missing or incorrect.
   */
  function Missed(questions: seq<Question>, answers: seq<UserAnswer>): (r: seq<Question>)
    ensures |r| <= |questions|
    ensures forall i :: 0 <= i < |r| ==> r[i] in questions && !AnsweredCorrectly(answers, r[i].id)
    ensures forall i :: 0 <= i < |questions| && !AnsweredCorrectly(answers, questions[i].id) ==> questions[i] in r
  {
    Filter(questions, IsMissed(answers))
  }

  /** The missed set keeps the questions' order. */
  lemma MissedConcat(a: seq<Question>, b: seq<Question>, answers: seq<UserAnswer>)
    ensures Missed(a + b, answers) == Missed(a, answers) + Missed(b, answers)
  {
    FilterConcat(a, b, IsMissed(answers));
  }

  /**
   With at most one answer per question, a question of the quiz is missed
   exactly when no answer for it is correct; unanswered questions are missed.
   */
  lemma MissedExactly(questions: seq<Question>, answers: seq<UserAnswer>, q: Question)
    requires DistinctAnswerIds(answers)
    ensures q in Missed(questions, answers) <==>
            q in questions && !exists i :: 0 <= i < |answers| && answers[i].questionId == q.id && answers[i].isCorrect
  {
    AnsweredCorrectlyIff(answers, q.id);
    if q in questions {
      var k :| 0 <= k < |questions| && questions[k] == q;
    }
  }

  /** An unanswered question of the quiz is always missed. */
  lemma UnansweredIsMissed(questions: seq<Question>, answers: seq<UserAnswer>, k: int)
    requires 0 <= k < |questions|
    requires forall i :: 0 <= i < |answers| ==> answers[i].questionId != questions[k].id
    ensures questions[k] in Missed(questions, answers)
  {
  }

  /** When every question has a correct first answer, nothing is missed. */
  lemma AllCorrectMissesNothing(questions: seq<Question>, answers: seq<UserAnswer>)
    requires forall k :: 0 <= k < |questions| ==> AnsweredCorrectly(answers, questions[k].id)
    ensures Missed(questions, answers) == []
  {
    FilterDropsAll(questions, IsMissed(answers));
  }

  /** The filter predicate of the correct count: the answer is marked correct. */
  function IsCorrect(): UserAnswer -> bool {
    (a: UserAnswer) => a.isCorrect
  }

  /** The number of answers marked correct. */
  function CountCorrect(answers: seq<UserAnswer>): (n: nat)
    ensures n == |Filter(answers, IsCorrect())|
    ensures n <= |answers|
    ensures n == 0 <==> forall i :: 0 <= i < |answers| ==> !answers[i].isCorrect
    ensures n == |answers| <==> forall i :: 0 <= i < |answers| ==> answers[i].isCorrect
    decreases |answers|
  {
    if |answers| == 0 then 0
    else
      var rest := CountCorrect(answers[1..]);
      assert forall i :: 1 <= i < |answers| ==> answers[i] == answers[1..][i - 1];
      if answers[0].isCorrect then 1 + rest else rest
  }

  /**
   The score: correct answers over questions, times 100. With at least one question the
   score is the exact percentage of correct answers; with none, JavaScript's
   division by zero gives NaN when nothing is correct and Infinity otherwise.
   */
  function ComputeScore(questions: seq<Question>, answers: seq<UserAnswer>): (s: Score)
    ensures s.Percent? <==> |questions| > 0
    ensures |questions| == 0 ==> (s == NaN <==> CountCorrect(answers) == 0) && (s == Infinity <==> CountCorrect(answers) > 0)
  {
    var c := CountCorrect(answers);
    if |questions| == 0 then (if c == 0 then NaN else Infinity)
    else Percent(Percentage(c, |questions|))
  }

  /**
   With at least one question the score is the exact percentage of correct
   answers: scaled back by the number of questions it is 100 times the
   number of correct answers.
   */
  lemma ScoreIsPercentage(questions: seq<Question>, answers: seq<UserAnswer>)
    requires |questions| > 0
    ensures ScalesBackTo(ComputeScore(questions, answers).value, |questions|, CountCorrect(answers))
  {
    ScoreValue(questions, answers);
    ScaledBack(ComputeScore(questions, answers).value, CountCorrect(answers), |questions|);
  }

  /** `v` times `n` is 100 times `c`: `v` is `c` out of `n` as a percentage. */
  predicate ScalesBackTo(v: real, n: nat, c: nat) {
    v * (n as real) == 100.0 * (c as real)
  }

  /** Any value equal to a percentage scales back like the percentage itself. */
  lemma ScaledBack(v: real, c: nat, n: nat)
    requires n > 0 && v == Percentage(c, n)
    ensures ScalesBackTo(v, n, c)
  {
    PercentageScales(c, n);
  }

  /** With questions, the score's value is the percentage of correct answers. */
  lemma ScoreValue(questions: seq<Question>, answers: seq<UserAnswer>)
    requires |questions| > 0
    ensures ComputeScore(questions, answers).value == Percentage(CountCorrect(answers), |questions|)
  {
  }

  /** A percentage scaled back by its denominator gives 100 times the numerator. */
  lemma PercentageScales(c: nat, n: nat)
    requires n > 0
    ensures Percentage(c, n) * (n as real) == 100.0 * (c as real)
  {
    RatioScales(c as real, n as real);
  }

  /** `c` out of `n` as a percentage, as JavaScript computes it but exactly. */
  function Percentage(c: nat, n: nat): real
    requires n > 0
  {
    (c as real / n as real) * 100.0
  }

  /** A percentage scaled back by its denominator gives 100 times the numerator. */
  lemma RatioScales(c: real, n: real)
    requires n > 0.0
    ensures ((c / n) * 100.0) * n == 100.0 * c
  {
    calc {
      ((c / n) * 100.0) * n;
      ((c / n) * n) * 100.0;
      { assert (c / n) * n == c; }
      c * 100.0;
    }
  }

  /** The set of ids of a question list. */
  function QuestionIds(questions: seq<Question>): (ids: set<string>)
    ensures |ids| <= |questions|
    ensures forall id :: id in ids <==> HasId(questions, id)
    decreases |questions|
  {
    if |questions| == 0 then {}
    else
      var rest := QuestionIds(questions[1..]);
      HasIdCons(questions);
      {questions[0].id} + rest
  }

  lemma HasIdCons(questions: seq<Question>)
    requires |questions| > 0
    ensures forall id :: HasId(questions, id) <==> questions[0].id == id || HasId(questions[1..], id)
  {
  }

  /** The set of question ids a list of answers is for. */
  function AnswerIds(answers: seq<UserAnswer>): (ids: set<string>)
    ensures forall id :: id in ids <==> exists i :: 0 <= i < |answers| && answers[i].questionId == id
    ensures DistinctAnswerIds(answers) ==> |ids| == |answers|
    decreases |answers|
  {
    if |answers| == 0 then {}
    else
      var rest := AnswerIds(answers[1..]);
      AnswerIdsCons(answers, rest);
      {answers[0].questionId} + rest
  }

  lemma AnswerIdsCons(answers: seq<UserAnswer>, rest: set<string>)
    requires |answers| > 0
    requires forall id :: id in rest <==> exists i :: 0 <= i < |answers[1..]| && answers[1..][i].questionId == id
    requires DistinctAnswerIds(answers[1..]) ==> |rest| == |answers[1..]|
    ensures forall id :: id in {answers[0].questionId} + rest <==> exists i :: 0 <= i < |answers| && answers[i].questionId == id
    ensures DistinctAnswerIds(answers) ==> |{answers[0].questionId} + rest| == |answers|
  {
    forall id | id in {answers[0].questionId} + rest
      ensures exists i :: 0 <= i < |answers| && answers[i].questionId == id
    {
      if id != answers[0].questionId {
        var i :| 0 <= i < |answers[1..]| && answers[1..][i].questionId == id;
        assert answers[i + 1].questionId == id;
      }
    }
    forall i | 0 <= i < |answers|
      ensures answers[i].questionId in {answers[0].questionId} + rest
    {
      if i > 0 {
        assert answers[1..][i - 1] == answers[i];
      }
    }
    if DistinctAnswerIds(answers) {
      assert DistinctAnswerIds(answers[1..]) by {
        forall i, j | 0 <= i < j < |answers[1..]|
          ensures answers[1..][i].questionId != answers[1..][j].questionId
        {
          assert answers[1..][i] == answers[i + 1] && answers[1..][j] == answers[j + 1];
        }
      }
    }
  }

  /**
   Answers that are for questions of the quiz, at most one per question, are
   no more numerous than the questions.
   */
  lemma AnswerCountBound(questions: seq<Question>, answers: seq<UserAnswer>)
    requires DistinctAnswerIds(answers)
    requires forall i :: 0 <= i < |answers| ==> HasId(questions, answers[i].questionId)
    ensures |answers| <= |questions|
  {
    var a := AnswerIds(answers);
    var q := QuestionIds(questions);
    assert a <= q;
    assert q == a + (q - a);
  }

  /**
   With at least one question and at most one answer per question, every
   answer being for a question of the quiz, the score lies in [0, 100].
   */
  lemma ScoreWithinBounds(questions: seq<Question>, answers: seq<UserAnswer>)
    requires |questions| > 0
    requires DistinctAnswerIds(answers)
    requires forall i :: 0 <= i < |answers| ==> HasId(questions, answers[i].questionId)
    ensures ComputeScore(questions, answers).Percent?
    ensures 0.0 <= ComputeScore(questions, answers).value <= 100.0
  {
    AnswerCountBound(questions, answers);
    PercentBounds(CountCorrect(answers) as real, |questions| as real);
  }

  lemma PercentBounds(c: real, n: real)
    requires 0.0 <= c <= n && 0.0 < n
    ensures 0.0 <= (c / n) * 100.0 <= 100.0
  {
    assert c / n <= 1.0;
  }

  /** Answering every question, each correctly, scores 100. */
  lemma PerfectScore(questions: seq<Question>, answers: seq<UserAnswer>)
    requires |questions| > 0
    requires |answers| == |questions|
    requires forall i :: 0 <= i < |answers| ==> answers[i].isCorrect
    ensures ComputeScore(questions, answers) == Percent(100.0)
  {
    assert CountCorrect(answers) == |questions|;
    ScoreValue(questions, answers);
    WholeIsHundred(|questions|);
  }

  /** All of `n` as a percentage is 100. */
  lemma WholeIsHundred(n: nat)
    requires n > 0
    ensures Percentage(n, n) == 100.0
  {
    assert (n as real) / (n as real) == 1.0;
  }

  /** Seven correct answers out of ten questions score 70. */
  lemma SevenOfTenScoresSeventy(questions: seq<Question>, answers: seq<UserAnswer>)
    requires |questions| == 10
    requires CountCorrect(answers) == 7
    ensures ComputeScore(questions, answers) == Percent(70.0)
  {
  }
}
