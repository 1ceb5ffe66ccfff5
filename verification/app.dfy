/**
 The application shell: the current screen, the quiz being set up or taken,
 the practice and bookmark pools and the quiz history, and the handlers that
 move between screens. Each handler is a pure step on the whole state; the
 asynchronous ones take the outcome of the remote call as a parameter.
 */
module App {
  import opened Types
  import opened Constants
  import opened Text
  import Pools
  import Scoring
  import ApiKeyScreen
  import QuizScreen

  /** Raised when the generator returns fewer questions than asked for. */
  const TooFewQuestionsMessage: string := "Could not generate enough questions. Please try again."

  /** Used when the generator throws something that is not an `Error`. */
  const UnknownErrorMessage: string := "An unknown error occurred while fetching questions."

  /** Shown on the key screen when generation failed because of the key. */
  const ApiKeyInvalidMessage: string := "کلید API شما نامعتبر است یا یافت نشد. لطفاً آن را در تنظیمات بررسی کنید."

  /** The analysis text used when the analysis request fails. */
  const AnalysisFallback: string := "متاسفانه تحلیل عملکرد شما با خطا مواجه شد. لطفا دوباره تلاش کنید."

  /** The marker whose presence in an error message routes to the key screen. */
  const ApiKeyMarker: string := "API Key"

  /**
   The outcome of asking the generator for a quiz: a list of questions, or a
   thrown value, with its message when it is an `Error`.
   */
  datatype GenerationOutcome = Generated(questions: seq<Question>) | Threw(message: Option<string>)

  /** The outcome of asking for a performance analysis. */
  datatype AnalysisOutcome = Analysed(text: string) | AnalysisFailed

  /** The application state; `history` is the persisted quiz history list. */
  datatype Model = Model(
    state: AppState,
    apiKey: Option<string>,
    chapter: Option<Chapter>,
    difficulty: Option<Difficulty>,
    duration: int,
    questions: seq<Question>,
    result: Option<QuizResult>,
    practice: seq<Question>,
    bookmarks: seq<Question>,
    error: Option<string>,
    history: seq<QuizHistoryItem>)

  /** The state on mount, with the key, pools and history read from storage. */
  function Initial(storedKey: Option<string>, practice: seq<Question>, bookmarks: seq<Question>, history: seq<QuizHistoryItem>): (m: Model)
    ensures m.state == Startup && m.duration == QuizDuration(Medium)
    ensures m.apiKey == storedKey && m.practice == practice && m.bookmarks == bookmarks && m.history == history
    ensures m.chapter.None? && m.difficulty.None? && m.questions == [] && m.result.None? && m.error.None?
  {
    Model(Startup, storedKey, None, None, QuizDuration(Medium), [], None, practice, bookmarks, None, history)
  }

  /** A key is present when it is a non-empty string (JavaScript truthiness). */
  predicate KeyPresent(key: Option<string>) {
    key.Some? && key.value != []
  }

  /** After the splash: home when a key is present, the key screen otherwise. */
  function StartupFinish(m: Model): (r: Model)
    ensures r.state == Home <==> KeyPresent(m.apiKey)
    ensures r.state == ApiKeySetup <==> !KeyPresent(m.apiKey)
    ensures r.(state := m.state) == m
  {
    m.(state := if KeyPresent(m.apiKey) then Home else ApiKeySetup)
  }

  /** Saving a key: it becomes the current key and home is shown. */
  function SaveApiKey(m: Model, key: string): (r: Model)
    ensures r.state == Home && r.apiKey == Some(key)
    ensures r.(state := m.state, apiKey := m.apiKey) == m
  {
    m.(apiKey := Some(key), state := Home)
  }

  /**
   Where a failed start goes: an error message mentioning the key sends the
   user to the key screen with the fixed key message; any other message is
   shown on the home screen.
   */
  function RouteError(m: Model, message: string): (r: Model)
    ensures Contains(message, ApiKeyMarker) ==> r.state == ApiKeySetup && r.error == Some(ApiKeyInvalidMessage)
    ensures !Contains(message, ApiKeyMarker) ==> r.state == Home && r.error == Some(message)
    ensures r.(state := m.state, error := m.error) == m
  {
    if Contains(message, ApiKeyMarker) then m.(error := Some(ApiKeyInvalidMessage), state := ApiKeySetup)
    else m.(error := Some(message), state := Home)
  }

  /** A message without a capital K cannot mention the key. */
  lemma NoKMeansNoKeyError(message: string)
    requires 'K' !in message
    ensures !Contains(message, ApiKeyMarker)
  {
    assert ApiKeyMarker[4] == 'K';
    if Contains(message, ApiKeyMarker) {
      ContainsCharacters(message, ApiKeyMarker, 'K');
    }
  }

  /** The short-batch message has no capital K. */
  lemma TooFewHasNoK()
    ensures 'K' !in TooFewQuestionsMessage
  {
    assert TooFewQuestionsMessage == "Could not generate " + "enough questions. " + "Please try again.";
  }

  /** The short-batch message does not mention the key. */
  lemma TooFewIsNotKeyError()
    ensures !Contains(TooFewQuestionsMessage, ApiKeyMarker)
  {
    TooFewHasNoK();
    NoKMeansNoKeyError(TooFewQuestionsMessage);
  }

  /**
   Starting a quiz on `chapter` at `difficulty`: the selection and its
   duration are recorded and the error cleared; a batch of at least
   `QuizQuestionCount` questions starts the quiz, a shorter batch or a thrown
   error is routed by its message. The pools and the history are untouched.
   */
  function StartQuiz(m: Model, chapter: Chapter, difficulty: Difficulty, outcome: GenerationOutcome): (r: Model)
    ensures r.chapter == Some(chapter) && r.difficulty == Some(difficulty)
    ensures r.duration == QuizDuration(difficulty)
    ensures r.state == Quiz <==> outcome.Generated? && |outcome.questions| >= QuizQuestionCount
    ensures r.state == Quiz ==> r.questions == outcome.questions && r.error.None?
    ensures r.state != Quiz ==> r.questions == m.questions && r.error.Some?
    ensures r.state == Quiz || r.state == Home || r.state == ApiKeySetup
    ensures outcome.Generated? && |outcome.questions| < QuizQuestionCount ==>
              r.state == Home && r.error == Some(TooFewQuestionsMessage)
    ensures outcome.Threw? && Contains(outcome.message.GetOr(UnknownErrorMessage), ApiKeyMarker) ==>
              r.state == ApiKeySetup && r.error == Some(ApiKeyInvalidMessage)
    ensures outcome.Threw? && !Contains(outcome.message.GetOr(UnknownErrorMessage), ApiKeyMarker) ==>
              r.state == Home && r.error == Some(outcome.message.GetOr(UnknownErrorMessage))
    ensures r.practice == m.practice && r.bookmarks == m.bookmarks && r.history == m.history
    ensures r.apiKey == m.apiKey && r.result == m.result
  {
    TooFewIsNotKeyError();
    var loading := m.(chapter := Some(chapter), difficulty := Some(difficulty),
                      duration := QuizDuration(difficulty), state := LoadingQuiz, error := None);
    match outcome
    case Generated(qs) =>
      if |qs| < QuizQuestionCount then RouteError(loading, TooFewQuestionsMessage)
      else loading.(questions := qs, state := Quiz)
    case Threw(message) =>
      RouteError(loading, message.GetOr(UnknownErrorMessage))
  }

  /** The result record of a finished quiz. */
  function ResultOf(m: Model, answers: seq<UserAnswer>, analysis: AnalysisOutcome): QuizResult {
    var text := match analysis
      case Analysed(t) => t
      case AnalysisFailed => AnalysisFallback;
    QuizResult(Scoring.ComputeScore(m.questions, answers), answers, m.questions, text)
  }

  /**
   Finishing a quiz with `answers`: the missed questions are merged into the
   practice pool, one history entry is appended, and the results screen is
   shown with the score, answers, questions and the analysis, which is the
   fixed fallback text when the analysis request failed.
   */
  function FinishQuiz(m: Model, answers: seq<UserAnswer>, date: string, analysis: AnalysisOutcome): (r: Model)
    requires m.chapter.Some? && m.difficulty.Some?
    ensures r.state == Results && r.error.None? && r.result.Some?
    ensures r.result.value.score == Scoring.ComputeScore(m.questions, answers)
    ensures r.result.value.answers == answers && r.result.value.questions == m.questions
    ensures analysis.AnalysisFailed? ==> r.result.value.analysis == AnalysisFallback
    ensures analysis.Analysed? ==> r.result.value.analysis == analysis.text
    ensures r.practice == Pools.MergeMissed(m.practice, Scoring.Missed(m.questions, answers))
    ensures |r.history| == |m.history| + 1 && r.history[..|m.history|] == m.history
    ensures r.history[|m.history|] ==
              QuizHistoryItem(m.chapter.value.title, Scoring.ComputeScore(m.questions, answers), date, m.difficulty.value)
    ensures r.bookmarks == m.bookmarks && r.questions == m.questions && r.apiKey == m.apiKey
    ensures r.chapter == m.chapter && r.difficulty == m.difficulty && r.duration == m.duration
  {
    var score := Scoring.ComputeScore(m.questions, answers);
    var missed := Scoring.Missed(m.questions, answers);
    var practice := Pools.MergeMissed(m.practice, missed);
    var item := QuizHistoryItem(m.chapter.value.title, score, date, m.difficulty.value);
    m.(state := Results, error := None, practice := practice,
       history := m.history + [item], result := Some(ResultOf(m, answers, analysis)))
  }

  /**
   The practice pool after a quiz: the old pool is kept as a prefix, every
   appended question is a question of the quiz without a correct answer and
   with an id new to the pool, and every such question's id is now present.
   */
  lemma FinishQuizAdmitsMissed(m: Model, answers: seq<UserAnswer>, date: string, analysis: AnalysisOutcome)
    requires m.chapter.Some? && m.difficulty.Some?
    ensures var p := FinishQuiz(m, answers, date, analysis).practice;
            && |m.practice| <= |p| && p[..|m.practice|] == m.practice
            && (forall i :: |m.practice| <= i < |p| ==>
                  p[i] in m.questions && !Scoring.AnsweredCorrectly(answers, p[i].id) && !HasId(m.practice, p[i].id))
            && (forall k :: 0 <= k < |m.questions| && !Scoring.AnsweredCorrectly(answers, m.questions[k].id) ==>
                  HasId(p, m.questions[k].id))
  {
    var missed := Scoring.Missed(m.questions, answers);
    var p := FinishQuiz(m, answers, date, analysis).practice;
    forall k | 0 <= k < |m.questions| && !Scoring.AnsweredCorrectly(answers, m.questions[k].id)
      ensures HasId(p, m.questions[k].id)
    {
      var j :| 0 <= j < |missed| && missed[j] == m.questions[k];
    }
  }

  /**
   A failed analysis is never fatal: the state reached is the one a
   successful analysis would give, with only the analysis text replaced by
   the fallback.
   */
  lemma AnalysisFailureOnlyChangesText(m: Model, answers: seq<UserAnswer>, date: string, text: string)
    requires m.chapter.Some? && m.difficulty.Some?
    ensures var ok := FinishQuiz(m, answers, date, Analysed(text));
            FinishQuiz(m, answers, date, AnalysisFailed) == ok.(result := Some(ok.result.value.(analysis := AnalysisFallback)))
  {
  }

  /** Retrying repeats the start with the remembered chapter and difficulty, if any. */
  function RetryQuiz(m: Model, outcome: GenerationOutcome): (r: Model)
    ensures m.chapter.Some? && m.difficulty.Some? ==> r == StartQuiz(m, m.chapter.value, m.difficulty.value, outcome)
    ensures m.chapter.None? || m.difficulty.None? ==> r == m
  {
    if m.chapter.Some? && m.difficulty.Some? then StartQuiz(m, m.chapter.value, m.difficulty.value, outcome) else m
  }

  /** Home: the quiz selection, questions, result and error are cleared. */
  function GoHome(m: Model): (r: Model)
    ensures r.state == Home
    ensures r.result.None? && r.chapter.None? && r.difficulty.None? && r.questions == [] && r.error.None?
    ensures r.practice == m.practice && r.bookmarks == m.bookmarks && r.history == m.history && r.apiKey == m.apiKey
    ensures r.duration == m.duration
  {
    m.(state := Home, result := None, chapter := None, difficulty := None, questions := [], error := None)
  }

  /** The practice screen opens only on a non-empty practice pool. */
  function StartPractice(m: Model): (r: Model)
    ensures r.state == Practice <==> |m.practice| > 0 || m.state == Practice
    ensures |m.practice| == 0 ==> r == m
    ensures r.(state := m.state) == m
  {
    if |m.practice| > 0 then m.(state := Practice) else m
  }

  /** The bookmark screen opens only on a non-empty bookmark pool. */
  function ShowBookmarks(m: Model): (r: Model)
    ensures r.state == Bookmarks <==> |m.bookmarks| > 0 || m.state == Bookmarks
    ensures |m.bookmarks| == 0 ==> r == m
    ensures r.(state := m.state) == m
  {
    if |m.bookmarks| > 0 then m.(state := Bookmarks) else m
  }

  /** The bookmark button on the quiz screen. */
  function ToggleBookmark(m: Model, q: Question): (r: Model)
    ensures HasId(r.bookmarks, q.id) <==> !HasId(m.bookmarks, q.id)
    ensures r.bookmarks == Pools.ToggleBookmark(m.bookmarks, q)
    ensures r.(bookmarks := m.bookmarks) == m
  {
    m.(bookmarks := Pools.ToggleBookmark(m.bookmarks, q))
  }

  /** Removing a question from the practice pool by id. */
  function RemoveFromPractice(m: Model, id: string): (r: Model)
    ensures !HasId(r.practice, id)
    ensures forall i :: 0 <= i < |m.practice| && m.practice[i].id != id ==> m.practice[i] in r.practice
    ensures r.practice == Pools.RemoveById(m.practice, id)
    ensures r.(practice := m.practice) == m
  {
    m.(practice := Pools.RemoveById(m.practice, id))
  }

  /** Removing a question from the bookmark pool by id. */
  function RemoveFromBookmarks(m: Model, id: string): (r: Model)
    ensures !HasId(r.bookmarks, id)
    ensures forall i :: 0 <= i < |m.bookmarks| && m.bookmarks[i].id != id ==> m.bookmarks[i] in r.bookmarks
    ensures r.bookmarks == Pools.RemoveById(m.bookmarks, id)
    ensures r.(bookmarks := m.bookmarks) == m
  {
    m.(bookmarks := Pools.RemoveById(m.bookmarks, id))
  }

  /**
   Resetting progress after the user confirms: history and both pools are
   emptied and home is shown; without confirmation nothing changes.
   */
  function ResetProgress(m: Model, confirmed: bool): (r: Model)
    ensures confirmed ==> r.state == Home && r.history == [] && r.practice == [] && r.bookmarks == []
    ensures confirmed ==> r.apiKey == m.apiKey && r.duration == m.duration
    ensures confirmed ==> r.result.None? && r.chapter.None? && r.difficulty.None? && r.questions == [] && r.error.None?
    ensures !confirmed ==> r == m
  {
    if confirmed then GoHome(m.(history := [], practice := [], bookmarks := [])) else m
  }

  /** The events the rendered screens can raise. */
  datatype Event =
    | AnimationEnded
    | ApiKeySubmitted(input: string)
    | QuizRequested(chapter: Chapter, difficulty: Difficulty, outcome: GenerationOutcome)
    | QuizFinished(answers: seq<UserAnswer>, date: string, analysis: AnalysisOutcome)
    | RetryRequested(retryOutcome: GenerationOutcome)
    | HomeRequested
    | PracticeRequested
    | BookmarksRequested
    | StatsRequested
    | ApiKeyEditRequested
    | BookmarkToggled(question: Question)
    | PracticeQuestionCorrect(practiceId: string)
    | BookmarkQuestionCorrect(bookmarkId: string)
    | ResetRequested(confirmed: bool)

  /**
   Which events the screen on show can raise: each handler is passed only to
   the screens listed in the render switch. A finished quiz's answers are
   the quiz screen's: at most one per question, each for a question of the
   quiz.
   */
  predicate Enabled(m: Model, e: Event) {
    match e
    case AnimationEnded => m.state == Startup
    case ApiKeySubmitted(_) => m.state == ApiKeySetup
    case QuizRequested(_, _, _) => m.state == Home
    case QuizFinished(answers, _, _) =>
      && m.state == Quiz
      && DistinctAnswerIds(answers)
      && forall i :: 0 <= i < |answers| ==> HasId(m.questions, answers[i].questionId)
    case RetryRequested(_) => m.state == Results
    case HomeRequested => m.state == Results || m.state == Practice || m.state == Bookmarks || m.state == Stats
    case PracticeRequested => m.state == Home || m.state == Results
    case BookmarksRequested => m.state == Home
    case StatsRequested => m.state == Home
    case ApiKeyEditRequested => m.state == Home
    case BookmarkToggled(_) => m.state == Quiz
    case PracticeQuestionCorrect(_) => m.state == Practice
    case BookmarkQuestionCorrect(_) => m.state == Bookmarks
    case ResetRequested(_) => m.state == Stats
  }

  /**
   The application invariant: never resting on a loading screen; a running
   quiz has its chapter, difficulty, duration and at least
   `QuizQuestionCount` questions; a results screen has its result, with a
   score in [0, 100]; both pools keep their ids unique.
   */
  predicate Inv(m: Model) {
    && m.state != LoadingQuiz && m.state != LoadingAnalysis
    && (m.state == Quiz ==>
          && m.chapter.Some? && m.difficulty.Some?
          && m.duration == QuizDuration(m.difficulty.value)
          && |m.questions| >= QuizQuestionCount)
    && (m.state == Results ==>
          && m.chapter.Some? && m.difficulty.Some? && m.result.Some?
          && m.result.value.score.Percent?
          && 0.0 <= m.result.value.score.value <= 100.0)
    && UniqueIds(m.practice)
    && UniqueIds(m.bookmarks)
  }

  /** The state after one event. */
  function Step(m: Model, e: Event): (r: Model)
    requires Inv(m) && Enabled(m, e)
    ensures Inv(r)
    ensures r.state == Quiz && m.state != Quiz ==> |r.questions| >= QuizQuestionCount
    ensures r.state == Practice && m.state != Practice ==> |r.practice| > 0
    ensures r.state == Bookmarks && m.state != Bookmarks ==> |r.bookmarks| > 0
  {
    match e
    case AnimationEnded => StartupFinish(m)
    case ApiKeySubmitted(input) =>
      (match ApiKeyScreen.Submit(input)
       case Some(key) => SaveApiKey(m, key)
       case None => m)
    case QuizRequested(chapter, difficulty, outcome) => StartQuiz(m, chapter, difficulty, outcome)
    case QuizFinished(answers, date, analysis) =>
      Scoring.ScoreWithinBounds(m.questions, answers);
      FinishQuiz(m, answers, date, analysis)
    case RetryRequested(outcome) => RetryQuiz(m, outcome)
    case HomeRequested => GoHome(m)
    case PracticeRequested => StartPractice(m)
    case BookmarksRequested => ShowBookmarks(m)
    case StatsRequested => m.(state := Stats)
    case ApiKeyEditRequested => m.(error := None, state := ApiKeySetup)
    case BookmarkToggled(q) =>
      Pools.ToggleKeepsUniqueIds(m.bookmarks, q);
      ToggleBookmark(m, q)
    case PracticeQuestionCorrect(id) =>
      Pools.RemoveByIdKeepsUniqueIds(m.practice, id);
      RemoveFromPractice(m, id)
    case BookmarkQuestionCorrect(id) =>
      Pools.RemoveByIdKeepsUniqueIds(m.bookmarks, id);
      RemoveFromBookmarks(m, id)
    case ResetRequested(confirmed) => ResetProgress(m, confirmed)
  }

  /** The state after a run of events; an event the screen on show cannot raise is ignored. */
  function Run(m: Model, events: seq<Event>): (r: Model)
    requires Inv(m)
    ensures Inv(r)
    decreases |events|
  {
    if |events| == 0 then m
    else
      var next := if Enabled(m, events[0]) then Step(m, events[0]) else m;
      Run(next, events[1..])
  }

  /**
   The hand-over from the quiz screen: whatever finishes a valid quiz
   screen over the application's questions is a finish the application
   accepts.
   */
  lemma QuizScreenFinishIsAccepted(m: Model, s: QuizScreen.Session, e: QuizScreen.Event, date: string, analysis: AnalysisOutcome)
    requires m.state == Quiz
    requires QuizScreen.Valid(m.questions, s)
    requires QuizScreen.Step(m.questions, s, e).Finished?
    ensures Enabled(m, QuizFinished(QuizScreen.Step(m.questions, s, e).answers, date, analysis))
  {
  }

  /** The mounted application satisfies the invariant when the stored pools have unique ids. */
  lemma InitialInv(storedKey: Option<string>, practice: seq<Question>, bookmarks: seq<Question>, history: seq<QuizHistoryItem>)
    requires UniqueIds(practice) && UniqueIds(bookmarks)
    ensures Inv(Initial(storedKey, practice, bookmarks, history))
  {
  }

  /**
   Every state reachable from the mounted application satisfies the
   invariant: in particular no quiz ever runs on fewer than
   `QuizQuestionCount` questions and every shown score lies in [0, 100].
   */
  lemma ReachableInv(storedKey: Option<string>, practice: seq<Question>, bookmarks: seq<Question>,
                     history: seq<QuizHistoryItem>, events: seq<Event>)
    requires UniqueIds(practice) && UniqueIds(bookmarks)
    ensures var r := Run(Initial(storedKey, practice, bookmarks, history), events);
            && (r.state == Quiz ==> |r.questions| >= QuizQuestionCount)
            && (r.state == Results ==>
                  r.result.Some? && r.result.value.score.Percent? && 0.0 <= r.result.value.score.value <= 100.0)
  {
    InitialInv(storedKey, practice, bookmarks, history);
  }
}
