/**
 The answer card of one question: options are locked after the first click,
 the callbacks fire once with the clicked option, and each option is
 classified for display.
 */
module QuestionCard {
  import opened Types

  /** The card's own state: the selected option and whether it is answered. */
  datatype Card = Card(selected: Option<string>, answered: bool)

  /** A call the card makes to its parent. */
  datatype Callback = OnAnswer(option: string) | OnAnswerSelect(option: string)

  /** The card after a click, and the callbacks the click made, in order. */
  datatype ClickOutcome = ClickOutcome(card: Card, fired: seq<Callback>)

  /** How an option button is shown: the application's CSS classes, as tags. */
  datatype OptionLook = Neutral | MarkedCorrect | MarkedWrong | Dimmed

  /** The label of the Next button. */
  datatype NextLabel = NextQuestion | FinishQuiz

  /** The card in a consistent state: answered exactly when something is selected. */
  predicate Consistent(card: Card) {
    card.answered <==> card.selected.Some?
  }

  /** The effect run on every new question: nothing selected, not answered. */
  function Reset(): (card: Card)
    ensures Consistent(card) && !card.answered
  {
    Card(None, false)
  }

  /**
   A click on `option`. On an answered card nothing happens. Otherwise the
   option becomes the selection, the card locks, `onAnswer` fires with the
   option and then, when the parent supplied it, `onAnswerSelect`.
   */
  function Click(card: Card, option: string, hasAnswerSelect: bool): (r: ClickOutcome)
    ensures card.answered ==> r.card == card && r.fired == []
    ensures !card.answered ==> r.card.answered && r.card.selected == Some(option)
    ensures !card.answered ==> r.fired == Fired(option, hasAnswerSelect)
    ensures Consistent(card) ==> Consistent(r.card)
  {
    if card.answered then ClickOutcome(card, [])
    else ClickOutcome(Card(Some(option), true), Fired(option, hasAnswerSelect))
  }

  /** The callbacks an accepted click on `option` makes. */
  function Fired(option: string, hasAnswerSelect: bool): seq<Callback> {
    [OnAnswer(option)] + (if hasAnswerSelect then [OnAnswerSelect(option)] else [])
  }

  /** A sequence of clicks on the same card, collecting the callbacks fired. */
  function ClickAll(card: Card, options: seq<string>, hasAnswerSelect: bool): ClickOutcome
    decreases |options|
  {
    if |options| == 0 then ClickOutcome(card, [])
    else
      var first := Click(card, options[0], hasAnswerSelect);
      var rest := ClickAll(first.card, options[1..], hasAnswerSelect);
      ClickOutcome(rest.card, first.fired + rest.fired)
  }

  /** Clicks on an answered card change nothing and fire nothing. */
  lemma {:induction false} ClicksAfterAnswerIgnored(card: Card, options: seq<string>, hasAnswerSelect: bool)
    requires card.answered
    ensures ClickAll(card, options, hasAnswerSelect) == ClickOutcome(card, [])
    decreases |options|
  {
    if |options| > 0 {
      ClicksAfterAnswerIgnored(card, options[1..], hasAnswerSelect);
    }
  }

  /**
   The first click wins: after any non-empty run of clicks on a fresh card,
   the selection is the first clicked option and the callbacks fired are
   exactly those of that first click, so `onAnswer` fires once.
   */
  lemma FirstClickWins(options: seq<string>, hasAnswerSelect: bool)
    requires |options| > 0
    ensures ClickAll(Reset(), options, hasAnswerSelect).card == Card(Some(options[0]), true)
    ensures ClickAll(Reset(), options, hasAnswerSelect).fired == Fired(options[0], hasAnswerSelect)
  {
    ClicksAfterAnswerIgnored(Card(Some(options[0]), true), options[1..], hasAnswerSelect);
  }

  /**
   The look of an option: all neutral before answering; afterwards the
   correct option is marked correct whatever was selected, a selected wrong
   option is marked wrong and every other option is dimmed.
   */
  function Look(card: Card, q: Question, option: string): (look: OptionLook)
    ensures !card.answered ==> look == Neutral
    ensures look == MarkedCorrect <==> card.answered && option == q.correctAnswer
    ensures look == MarkedWrong <==> card.answered && option != q.correctAnswer && card.selected == Some(option)
    ensures look == Dimmed <==> card.answered && option != q.correctAnswer && card.selected != Some(option)
  {
    if !card.answered then Neutral
    else if option == q.correctAnswer then MarkedCorrect
    else if card.selected == Some(option) then MarkedWrong
    else Dimmed
  }

  /**
   After a click on `clicked`, at most one option is marked wrong, and one
   is marked wrong exactly when the clicked option was not the correct one.
   */
  lemma WrongMarkIffWrongClick(q: Question, clicked: string, option: string)
    ensures var card := Click(Reset(), clicked, false).card;
            Look(card, q, option) == MarkedWrong <==> option == clicked && clicked != q.correctAnswer
  {
  }

  /**
   The Next control: hidden until the card is answered or when the parent
   gave no `onNext`; its label says finish exactly on the last question.
   */
  function NextControl(card: Card, hasOnNext: bool, isLast: bool): (r: Option<NextLabel>)
    ensures r.Some? <==> card.answered && hasOnNext
    ensures r.Some? ==> (r.value == FinishQuiz <==> isLast)
  {
    if card.answered && hasOnNext then Some(if isLast then FinishQuiz else NextQuestion) else None
  }
}
