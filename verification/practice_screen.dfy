/**
 The practice screen: walks a fixed list of questions once, reporting for
 each answer the question's id and whether it was correct, and shows the
 finished view at the end or straight away when the list is empty.
 */
module PracticeScreen {
  import opened Types

  /** The screen's state: current index and whether the walk is over. */
  datatype Session = Session(index: nat, finished: bool)

  /** The report an answer makes to the parent: the question's id and whether it was answered correctly. */
  datatype Report = Report(questionId: string, isCorrect: bool)

  /** The state after an answer, with the report it made. */
  datatype AnswerOutcome = AnswerOutcome(session: Session, report: Report)

  /** The screen as mounted: at the first question, finished only if there is none. */
  function Init(questions: seq<Question>): (s: Session)
    ensures s.index == 0
    ensures s.finished <==> |questions| == 0
  {
    Session(0, |questions| == 0)
  }

  /** The finished view is shown when finished or when no question is current. */
  predicate ShowsFinished(questions: seq<Question>, s: Session) {
    s.finished || s.index >= |questions|
  }

  /** The screen's invariant: the index never goes past the last question. */
  predicate Valid(questions: seq<Question>, s: Session) {
    if |questions| == 0 then s.finished else s.index <= |questions| - 1
  }

  /**
   An answer to the current question: reports its id and whether the
   selection is its correct answer, then advances while below the last index
   and otherwise finishes.
   */
  function Answer(questions: seq<Question>, s: Session, selected: string): (r: AnswerOutcome)
    requires s.index < |questions|
    ensures r.report.questionId == questions[s.index].id
    ensures r.report.isCorrect <==> questions[s.index].correctAnswer == selected
    ensures s.index < |questions| - 1 ==> r.session == Session(s.index + 1, s.finished)
    ensures s.index == |questions| - 1 ==> r.session == Session(s.index, true)
    ensures r.session.index <= |questions| - 1
  {
    var q := questions[s.index];
    var report := Report(q.id, q.correctAnswer == selected);
    if s.index < |questions| - 1 then AnswerOutcome(Session(s.index + 1, s.finished), report)
    else AnswerOutcome(s.(finished := true), report)
  }

  /** The screen starts valid and every answer keeps it valid. */
  lemma InitAndAnswerValid(questions: seq<Question>, s: Session, selected: string)
    ensures Valid(questions, Init(questions))
    ensures s.index < |questions| && Valid(questions, s) ==> Valid(questions, Answer(questions, s, selected).session)
  {
  }

  /** The empty list starts in the finished view. */
  lemma EmptyStartsFinished(questions: seq<Question>)
    ensures ShowsFinished(questions, Init(questions)) <==> |questions| == 0
  {
  }

  /** The state after a run of selections, with the reports made; a shown finished view takes no answers. */
  function Run(questions: seq<Question>, s: Session, selections: seq<string>): (Session, seq<Report>)
    decreases |selections|
  {
    if |selections| == 0 || ShowsFinished(questions, s) then (s, [])
    else
      var a := Answer(questions, s, selections[0]);
      var rest := Run(questions, a.session, selections[1..]);
      (rest.0, [a.report] + rest.1)
  }

  /** The report an answer `selected` to question `q` makes. */
  function ReportFor(q: Question, selected: string): Report {
    Report(q.id, q.correctAnswer == selected)
  }

  /**
   The walk from question `k` on: with enough selections it reports each
   remaining question exactly once, in order, and ends in the finished view.
   */
  lemma {:induction false} RunFrom(questions: seq<Question>, k: nat, selections: seq<string>)
    requires k < |questions|
    requires |selections| >= |questions| - k
    ensures var (s, reports) := Run(questions, Session(k, false), selections);
            && ShowsFinished(questions, s)
            && |reports| == |questions| - k
            && forall i :: 0 <= i < |reports| ==> reports[i] == ReportFor(questions[k + i], selections[i])
    decreases |questions| - k
  {
    var s := Session(k, false);
    var a := Answer(questions, s, selections[0]);
    if k < |questions| - 1 {
      RunFrom(questions, k + 1, selections[1..]);
      var rest := Run(questions, a.session, selections[1..]);
      forall i | 1 <= i < |questions| - k
        ensures rest.1[i - 1] == ReportFor(questions[k + i], selections[i])
      {
        assert selections[1..][i - 1] == selections[i];
      }
    } else {
      assert Run(questions, a.session, selections[1..]) == (a.session, []);
    }
  }

  /**
   A practice session over the whole list: every question is reported once,
   in list order, with the selection made for it, and the session ends in
   the finished view; an empty list makes no report at all.
   */
  lemma WalkReportsEachOnce(questions: seq<Question>, selections: seq<string>)
    requires |selections| >= |questions|
    ensures var (s, reports) := Run(questions, Init(questions), selections);
            && ShowsFinished(questions, s)
            && |reports| == |questions|
            && forall i :: 0 <= i < |questions| ==> reports[i] == ReportFor(questions[i], selections[i])
  {
    if |questions| > 0 {
      RunFrom(questions, 0, selections);
    }
  }
}
