/**
 The timed quiz screen: one question at a time, first answer per question
 recorded, Next advancing or finishing, a one-second countdown that forces
 the finish, and the `mm:ss` clock display.
 */
module QuizScreen {
  import opened Types
  import opened Text
  import Scoring
  import QuestionCard
  import Constants

  /** The screen's state: current index, answers so far, seconds left. */
  datatype Session = Session(index: nat, answers: seq<UserAnswer>, timeLeft: int)

  /** What the Next button does: move to another question, or finish with the answers. */
  datatype NextOutcome = Moved(session: Session) | Finished(answers: seq<UserAnswer>)

  /** One tick of the countdown: the new time left and whether it finished the quiz. */
  datatype TickOutcome = TickOutcome(timeLeft: int, finish: bool)

  /** The screen as mounted for a quiz of the given duration. */
  function Start(duration: int): (s: Session)
    ensures s.index == 0 && s.answers == [] && s.timeLeft == duration
  {
    Session(0, [], duration)
  }

  /**
   The screen's invariant: the index names a question, and the answers are
   for questions of the quiz, at most one per question.
   */
  predicate Valid(questions: seq<Question>, s: Session) {
    && s.index < |questions|
    && DistinctAnswerIds(s.answers)
    && forall i :: 0 <= i < |s.answers| ==> HasId(questions, s.answers[i].questionId)
  }

  /** The answers already hold one for question `id`. */
  predicate HasAnswerFor(answers: seq<UserAnswer>, id: string) {
    exists i :: 0 <= i < |answers| && answers[i].questionId == id
  }

  /**
   Recording an answer for the current question: appended only when none is
   recorded yet for that question, so the first answer wins. The recorded
   answer is correct exactly when the selection equals the correct answer.
   */
  function RecordAnswer(questions: seq<Question>, s: Session, selected: string): (r: Session)
    requires s.index < |questions|
    ensures r.index == s.index && r.timeLeft == s.timeLeft
    ensures HasAnswerFor(s.answers, questions[s.index].id) ==> r.answers == s.answers
    ensures !HasAnswerFor(s.answers, questions[s.index].id) ==>
              && |r.answers| == |s.answers| + 1
              && r.answers[..|s.answers|] == s.answers
              && var a := r.answers[|s.answers|];
                 && a.questionId == questions[s.index].id
                 && a.selectedAnswer == selected
                 && (a.isCorrect <==> selected == questions[s.index].correctAnswer)
    ensures Valid(questions, s) ==> Valid(questions, r)
  {
    var q := questions[s.index];
    var answer := UserAnswer(q.id, selected, q.correctAnswer == selected);
    if HasAnswerFor(s.answers, q.id) then s
    else
      assert HasId(questions, q.id);
      s.(answers := s.answers + [answer])
  }

  /** A repeated submission for a question already answered changes nothing. */
  lemma RecordAnswerIdempotent(questions: seq<Question>, s: Session, first: string, second: string)
    requires s.index < |questions|
    ensures var once := RecordAnswer(questions, s, first);
            RecordAnswer(questions, once, second) == once
  {
    var q := questions[s.index];
    var once := RecordAnswer(questions, s, first);
    if !HasAnswerFor(s.answers, q.id) {
      assert once.answers[|s.answers|].questionId == q.id;
    }
  }

  /**
   After recording, the answer App finds for the current question is the
   first one ever recorded for it, and whether it counts as correct is
   whether that selection was the correct answer.
   */
  lemma RecordedAnswerIsFound(questions: seq<Question>, s: Session, selected: string)
    requires s.index < |questions|
    requires !HasAnswerFor(s.answers, questions[s.index].id)
    ensures var q := questions[s.index];
            var r := RecordAnswer(questions, s, selected);
            Scoring.FirstAnswerFor(r.answers, q.id) == Some(UserAnswer(q.id, selected, selected == q.correctAnswer))
  {
    var q := questions[s.index];
    var r := RecordAnswer(questions, s, selected);
    var found := Scoring.FirstAnswerFor(r.answers, q.id);
    assert r.answers[|s.answers|].questionId == q.id;
    var i :| Scoring.FirstAt(r.answers, q.id, i) && r.answers[i] == found.value;
  }

  /**
   Next: below the last question the index moves up by one; on the last
   question the quiz finishes with the answers recorded so far.
   */
  function Next(questions: seq<Question>, s: Session): (r: NextOutcome)
    requires s.index < |questions|
    ensures r.Moved? <==> s.index < |questions| - 1
    ensures r.Moved? ==> r.session == s.(index := s.index + 1)
    ensures r.Finished? ==> r.answers == s.answers
    ensures r.Moved? && Valid(questions, s) ==> Valid(questions, r.session)
  {
    if s.index < |questions| - 1 then Moved(s.(index := s.index + 1)) else Finished(s.answers)
  }

  /** Next finishes the quiz exactly when the card's button reads "finish". */
  lemma NextFinishesIffLabelFinish(questions: seq<Question>, s: Session, card: QuestionCard.Card)
    requires s.index < |questions|
    requires card.answered
    ensures var isLast := s.index == |questions| - 1;
            QuestionCard.NextControl(card, true, isLast) == Some(QuestionCard.FinishQuiz) <==> Next(questions, s).Finished?
  {
  }

  /** Pressing Next repeatedly from index `i` moves `|questions| - 1 - i` times, then finishes. */
  function PressNext(questions: seq<Question>, s: Session, presses: nat): NextOutcome
    requires s.index < |questions|
    decreases presses
  {
    match Next(questions, s)
    case Finished(a) => Finished(a)
    case Moved(s') => if presses <= 1 then Moved(s') else PressNext(questions, s', presses - 1)
  }

  /**
   Walking the quiz: from index `i`, the last question is reached after
   `|questions| - 1 - i` presses of Next, and the next press finishes with
   the same answers.
   */
  lemma {:induction false} WalkFinishes(questions: seq<Question>, s: Session)
    requires s.index < |questions|
    ensures PressNext(questions, s, |questions| - s.index) == Finished(s.answers)
    decreases |questions| - s.index
  {
    if s.index < |questions| - 1 {
      WalkFinishes(questions, s.(index := s.index + 1));
    }
  }

  /**
   One countdown tick: from one second or less the clock goes to zero and
   the quiz finishes; otherwise one second is taken off and nothing fires.
   */
  function Tick(t: int): (r: TickOutcome)
    ensures r.timeLeft >= 0
    ensures r.finish <==> t <= 1
    ensures r.finish ==> r.timeLeft == 0
    ensures !r.finish ==> r.timeLeft == t - 1
    ensures t >= 0 ==> r.timeLeft <= t
  {
    if t <= 1 then TickOutcome(0, true) else TickOutcome(t - 1, false)
  }

  /** The number of ticks until the countdown fires, from `t` seconds left. */
  function TicksUntilFinish(t: int): (n: nat)
    ensures n >= 1
    decreases t
  {
    var r := Tick(t);
    if r.finish then 1 else 1 + TicksUntilFinish(r.timeLeft)
  }

  /** A countdown started at `d >= 1` seconds fires after exactly `d` ticks. */
  lemma {:induction false} CountdownLastsDuration(d: int)
    requires d >= 1
    ensures TicksUntilFinish(d) == d
    decreases d
  {
    if d > 1 {
      CountdownLastsDuration(d - 1);
    }
  }

  /** Every quiz duration is a positive number of ticks, so the finish fires after it. */
  lemma QuizCountdown(d: Difficulty)
    ensures TicksUntilFinish(Constants.QuizDuration(d)) == Constants.QuizDuration(d)
  {
    CountdownLastsDuration(Constants.QuizDuration(d));
  }

  /** Whole minutes left, rounded down. */
  function Minutes(t: int): int {
    t / 60
  }

  /** `timeLeft % 60` with JavaScript's sign-of-dividend remainder. */
  function Seconds(t: int): int {
    if t >= 0 then t % 60 else -((-t) % 60)
  }

  /** The clock: minutes and seconds, each left-padded with '0' to two characters. */
  function Clock(t: int): string {
    PadStart(IntToString(Minutes(t)), 2, '0') + ":" + PadStart(IntToString(Seconds(t)), 2, '0')
  }

  /** For a non-negative time, minutes and seconds decompose it with seconds below 60. */
  lemma ClockParts(t: int)
    requires t >= 0
    ensures Minutes(t) >= 0
    ensures Minutes(t) * 60 + Seconds(t) == t
    ensures 0 <= Seconds(t) < 60
  {
  }

  /** Reads a clock display back into seconds; the partner of `Clock`. */
  function ParseClock(s: string): Option<int> {
    if |s| >= 5 && s[|s| - 3] == ':' && AllDigits(s[..|s| - 3]) && AllDigits(s[|s| - 2..])
    then Some(DigitsValue(s[..|s| - 3]) * 60 + DigitsValue(s[|s| - 2..]))
    else None
  }

  /** The padded decimal rendering of `n` reads back as `n`. */
  lemma PaddedRoundTrip(n: nat)
    ensures |Pad2(n)| >= 2 && AllDigits(Pad2(n)) && DigitsValue(Pad2(n)) == n
  {
    var s := NatToString(n);
    var p := PadStart(s, 2, '0');
    NatToStringRoundTrip(n);
    var z := p[..|p| - |s|];
    assert p == z + s;
    LeadingZerosNeutral(z, s);
  }

  /**
   For a non-negative time the display shows exactly two second digits after
   the colon, and reading the display back gives the time.
   */
  lemma ClockRoundTrip(t: int)
    requires t >= 0
    ensures |Clock(t)| >= 5 && Clock(t)[|Clock(t)| - 3] == ':'
    ensures ParseClock(Clock(t)) == Some(t)
  {
    ClockParts(t);
    var mn: nat := Minutes(t);
    var sc: nat := Seconds(t);
    ClockOfNonNegative(t, mn, sc);
    DisplayRoundTrip(mn, sc);
    var c := Pad2(mn) + ":" + Pad2(sc);
    calc {
      ParseClock(Clock(t));
      { assert Clock(t) == c; }
      ParseClock(c);
      Some(mn * 60 + sc);
      { assert mn * 60 + sc == t; }
      Some(t);
    }
  }

  /** `n` rendered and left-padded with '0' to two characters. */
  function Pad2(n: nat): string {
    PadStart(NatToString(n), 2, '0')
  }

  /** The display of `mn` minutes and `sc < 60` seconds parses back to `mn * 60 + sc`. */
  lemma DisplayRoundTrip(mn: nat, sc: nat)
    requires sc < 60
    ensures |Pad2(sc)| == 2
    ensures |Pad2(mn) + ":" + Pad2(sc)| >= 5
    ensures (Pad2(mn) + ":" + Pad2(sc))[|Pad2(mn) + ":" + Pad2(sc)| - 3] == ':'
    ensures ParseClock(Pad2(mn) + ":" + Pad2(sc)) == Some(mn * 60 + sc)
  {
    PaddedRoundTrip(mn);
    PaddedRoundTrip(sc);
    SmallNatHasAtMostTwoDigits(sc);
    ParseJoined(Pad2(mn), Pad2(sc), mn, sc);
  }

  /** For non-negative parts, the clock is the two padded renderings around the colon. */
  lemma ClockOfNonNegative(t: int, mn: nat, sc: nat)
    requires mn == Minutes(t) && sc == Seconds(t)
    ensures Clock(t) == Pad2(mn) + ":" + Pad2(sc)
  {
  }

  /** Two digit strings joined by a colon, the second of two digits, parse back. */
  lemma ParseJoined(ms: string, ss: string, a: nat, b: nat)
    requires |ms| >= 2 && |ss| == 2 && AllDigits(ms) && AllDigits(ss)
    requires DigitsValue(ms) == a && DigitsValue(ss) == b
    ensures |ms + ":" + ss| >= 5
    ensures (ms + ":" + ss)[|ms + ":" + ss| - 3] == ':'
    ensures ParseClock(ms + ":" + ss) == Some(a * 60 + b)
  {
    var c := ms + ":" + ss;
    assert c[..|c| - 3] == ms;
    assert c[|c| - 2..] == ss;
  }

  /** A number below 100 renders in at most two digits, so padding to two adds nothing after it. */
  lemma SmallNatHasAtMostTwoDigits(n: nat)
    requires n < 100
    ensures |NatToString(n)| <= 2
  {
  }

  /** Whether the current question's id is among the bookmarks. */
  function IsBookmarked(questions: seq<Question>, bookmarks: seq<Question>, s: Session): (r: bool)
    requires s.index < |questions|
    ensures r <==> exists i :: 0 <= i < |bookmarks| && bookmarks[i].id == questions[s.index].id
  {
    HasId(bookmarks, questions[s.index].id)
  }

  /** The quiz screen's possible next states under its own events. */
  datatype Event = Answer(selected: string) | PressNextButton | TimerTick

  /**
   The screen as a state machine over the questions of one quiz: an event
   either keeps it running or finishes it with the answers recorded so far.
   A running screen stays valid.
   */
  function Step(questions: seq<Question>, s: Session, e: Event): (r: NextOutcome)
    requires Valid(questions, s)
    ensures r.Moved? ==> Valid(questions, r.session)
    ensures r.Finished? ==> r.answers == s.answers
    ensures r.Finished? ==> DistinctAnswerIds(r.answers) && forall i :: 0 <= i < |r.answers| ==> HasId(questions, r.answers[i].questionId)
  {
    match e
    case Answer(selected) => Moved(RecordAnswer(questions, s, selected))
    case PressNextButton => Next(questions, s)
    case TimerTick =>
      var t := Tick(s.timeLeft);
      if t.finish then Finished(s.answers) else Moved(s.(timeLeft := t.timeLeft))
  }
}
