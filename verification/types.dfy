/**
 The value types shared by every screen of the quiz application: questions,
 answers, results, history entries, the screen enumeration and difficulty
 levels, plus the two id-based views of a question list (membership and
 uniqueness) that every pool operation is stated in.
 */
module Types {

  /** An optional value; stands for the application's `T | null` and `T | undefined`. */
  datatype Option<+T> = None | Some(value: T) {
    function GetOr(default: T): T {
      match this
      case Some(v) => v
      case None => default
    }
  }

  /** A generated multiple-choice question; identity is the `id` string. */
  datatype Question = Question(
    id: string,
    questionText: string,
    options: seq<string>,
    correctAnswer: string,
    explanation: string,
    topic: string)

  /** One recorded answer to the question with id `questionId`. */
  datatype UserAnswer = UserAnswer(questionId: string, selectedAnswer: string, isCorrect: bool)

  /**
   The score of a finished quiz. The application divides the number of correct
   answers by the number of questions as a JavaScript number; the quotient is
   kept here as an exact real, and the two non-finite outcomes of a division
   by zero are kept as their own cases.
   */
  datatype Score = Percent(value: real) | NaN | Infinity

  datatype QuizResult = QuizResult(
    score: Score,
    answers: seq<UserAnswer>,
    questions: seq<Question>,
    analysis: string)

  /** The screens of the application. */
  datatype AppState =
    | Startup
    | ApiKeySetup
    | Home
    | LoadingQuiz
    | Quiz
    | LoadingAnalysis
    | Results
    | Practice
    | Stats
    | Bookmarks

  datatype Difficulty = Easy | Medium | Hard

  /** One entry of the persisted quiz history. */
  datatype QuizHistoryItem = QuizHistoryItem(chapter: string, score: Score, date: string, difficulty: Difficulty)

  /** A textbook chapter a quiz is generated for (its icon is presentation only). */
  datatype Chapter = Chapter(id: int, title: string, description: string)

  /** Some question of the list carries `id`. */
  function HasId(pool: seq<Question>, id: string): (r: bool)
    ensures r <==> exists i :: 0 <= i < |pool| && pool[i].id == id
  {
    if |pool| == 0 then false
    else pool[0].id == id || HasId(pool[1..], id)
  }

  /** No two entries of the list share an id. */
  predicate UniqueIds(pool: seq<Question>) {
    forall i, j :: 0 <= i < j < |pool| ==> pool[i].id != pool[j].id
  }

  /** No two answers of the list are for the same question. */
  predicate DistinctAnswerIds(answers: seq<UserAnswer>) {
    forall i, j :: 0 <= i < j < |answers| ==> answers[i].questionId != answers[j].questionId
  }

  /** If `p` is a prefix of `s`, every id present in `p` is present in `s`. */
  lemma HasIdPrefix(p: seq<Question>, s: seq<Question>, id: string)
    requires |p| <= |s| && s[..|p|] == p
    requires HasId(p, id)
    ensures HasId(s, id)
  {
    var i :| 0 <= i < |p| && p[i].id == id;
    assert s[i] == p[i];
  }
}
