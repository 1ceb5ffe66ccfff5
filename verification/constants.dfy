/** Configuration constants of the application. */
module Constants {
  import opened Types

  /** The number of questions a quiz is generated with and must have to start. */
  const QuizQuestionCount: nat := 10

  /** Quiz length in seconds per difficulty: seven, five and four minutes. */
  function QuizDuration(d: Difficulty): (seconds: nat)
    ensures seconds > 0
    ensures seconds % 60 == 0
  {
    match d
    case Easy => 420
    case Medium => 300
    case Hard => 240
  }
}
