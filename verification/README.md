# Cognitive-psychology quiz app: a verified model of its state logic

The application is a React study tool for a cognitive-psychology course. It
asks a generative-AI service for a batch of multiple-choice questions on a
chapter, runs a timed quiz, and scores the answers. Questions answered wrongly
or left unanswered go into a practice pool. Questions can be bookmarked. A
short performance analysis comes back from the same service. This project
models, in Dafny, the rules inside the React handlers and components:

- **App shell** (`App`): the screen state and its transitions. These cover
  startup routing, saving the key, and routing the outcome of starting a
  quiz (a short batch, an error mentioning the key, any other error). They
  also cover the bookkeeping when a quiz ends: the score, the missed
  questions merged into the practice pool, one new history entry, and the
  fallback analysis. Finally they cover the pool edits, the reset, and the
  guards on the practice and bookmark screens. An invariant is preserved by
  every step the rendered screens can take.
- **Pools** (`Pools`): removal by id, bookmark toggling and the de-duplicating
  merge of missed questions.
- **Scoring** (`Scoring`): the first answer per question, the missed set and
  the score. The score is an exact real. An empty question list gives
  JavaScript's `NaN` or `Infinity`.
- **Quiz screen** (`QuizScreen`): first-answer-wins recording, Next, the
  one-second countdown tick and the `mm:ss` clock.
- **Answer card** (`QuestionCard`): the click lock, the callbacks an accepted
  click fires, the look of each option and the Next control.
- **Practice screen** (`PracticeScreen`): the walk over a fixed list, with one
  report per answer.
- **Key form** (`ApiKeyScreen`): trimming and the non-empty guard.
- **Practice wiring** (`PracticeFlow`): how the practice screen is connected
  to the pool it shows. See "Findings".
- **Supporting definitions**: the data types (`Types`), the two constants
  (`Constants`), an order-preserving filter (`Seqs`) and the JavaScript string
  operations the code relies on (`Text`): `trim`, `includes`, integer
  `toString` and `padStart`.

The practice pool is a plain list of questions (App.tsx:24), and the
practice screen's comments say it uses no scheduling data
(components/PracticeScreen.tsx:2, 8). No review scheduling is modelled.

Each asynchronous handler is one atomic step. The remote call's outcome is a
parameter: `GenerationOutcome` for the question batch and `AnalysisOutcome`
for the analysis. The loading screens are therefore never a resting state,
and `App.Inv` says so. The confirmation dialog of the reset and the
timestamp of a history entry are parameters too. Persisted data (the key,
both pools and the history) are fields of `App.Model`, read once by
`App.Initial`.

## Model

| member | source | states |
|---|---|---|
| Constants.QuizDuration | constants.ts:14-18 | Every difficulty's quiz length is a positive whole number of minutes. |
| Types.HasId | components/QuizScreen.tsx:66 | A pool "has" an id exactly when some entry carries it. |
| Seqs.Filter | App.tsx:176 | The kept elements all satisfy the predicate and come from the input. Every input element that satisfies it is kept. |
| Seqs.FilterConcat | App.tsx:168 | Filtering distributes over concatenation, so the kept elements stay in their relative order. |
| Pools.RemoveById | App.tsx:175-185 | No entry with the id remains. Every other entry is kept. Removing an absent id changes nothing. |
| Pools.RemoveByIdConcat | App.tsx:176 | Removal distributes over concatenation, so the entries it keeps stay in their relative order. |
| Pools.RemoveByIdKeepsUniqueIds | App.tsx:175-185 | Removal keeps a pool's ids unique. |
| Pools.ToggleBookmark | App.tsx:165-173 | After a toggle the id is present exactly when it was absent before. A present id is removed with every entry carrying it. An absent question is appended at the end, with the old list as prefix. |
| Pools.ToggleTwiceRestores | App.tsx:165-169 | Toggling an absent question twice gives back the original list. |
| Pools.ToggleKeepsUniqueIds | App.tsx:165-169 | Toggling keeps the bookmark ids unique. |
| Pools.MergeMissed | App.tsx:111-116 | The old pool is an unchanged prefix. Each appended entry is a missed question whose id was new to the pool. Every missed id ends up present. Unique ids stay unique. |
| Pools.MergeFreshAppendsAll | App.tsx:111-116 | Missed questions with unique ids, none already in the pool, are appended all of them, in order. |
| Scoring.FirstAnswerFor | App.tsx:108 | Nothing is found exactly when no answer is for the id. A found answer is the first one for the id. |
| Scoring.AnsweredCorrectlyIff | App.tsx:107-109 | With at most one answer per question, "the first answer is correct" is the same as "some answer for it is correct". |
| Scoring.Missed | App.tsx:107-109 | The missed set holds quiz questions without a correct first answer, and it holds every such question. |
| Scoring.MissedExactly | App.tsx:107-109 | With distinct answer ids, a question is missed exactly when it is a quiz question and no answer for it is correct. |
| Scoring.MissedConcat | App.tsx:107 | The missed set keeps the questions' order. |
| Scoring.UnansweredIsMissed | App.tsx:107-109 | An unanswered quiz question is always missed. |
| Scoring.AllCorrectMissesNothing | App.tsx:107-109 | When every question's first answer is correct, nothing is missed. |
| Scoring.CountCorrect | App.tsx:104 | The count is the length of the list of answers marked correct. It is at most the number of answers. It is zero exactly when none is correct, and it is full exactly when all are correct. |
| Scoring.ComputeScore | App.tsx:104-105 | The score is a percentage exactly when there are questions. With none, the result is NaN for no correct answer and Infinity otherwise. |
| Scoring.ScoreIsPercentage | App.tsx:104-105 | With questions, the score times the question count equals 100 times the correct count. |
| Scoring.AnswerCountBound | App.tsx:104-105 | Answers for quiz questions, at most one per question, are no more numerous than the questions. |
| Scoring.ScoreWithinBounds | App.tsx:104-105 | Given such answers, the score is a percentage in [0, 100]. |
| Scoring.PerfectScore | App.tsx:104-105 | Answering every question correctly scores 100. |
| Scoring.SevenOfTenScoresSeventy | App.tsx:104-105 | 7 correct out of 10 questions scores 70. |
| QuizScreen.Start | components/QuizScreen.tsx:17-19 | The screen mounts on the first question, with no answers and the whole duration left. |
| QuizScreen.RecordAnswer | components/QuizScreen.tsx:40-52 | The answer is appended only when the question has none yet. It carries the question's id and the selection, and it is correct exactly when the selection is the correct answer. The screen stays valid. |
| QuizScreen.RecordAnswerIdempotent | components/QuizScreen.tsx:49-51 | A second submission for the same question changes nothing, so the first answer wins. |
| QuizScreen.RecordedAnswerIsFound | components/QuizScreen.tsx:40-52 | The answer scoring later finds for the question is the one just recorded. |
| QuizScreen.Next | components/QuizScreen.tsx:54-60 | Next moves on exactly when below the last index. On the last question it finishes with the current answers. The index stays within the list. |
| QuizScreen.NextFinishesIffLabelFinish | components/QuizScreen.tsx:54-60 | Next finishes exactly when the card's button reads "finish". |
| QuizScreen.WalkFinishes | components/QuizScreen.tsx:54-60 | From any question, enough presses of Next finish the quiz with the same answers. |
| QuizScreen.Tick | components/QuizScreen.tsx:27-34 | From one second or less the clock goes to 0 and the finish fires. Otherwise one second is taken off and nothing fires. Time never goes negative or up. |
| QuizScreen.CountdownLastsDuration | components/QuizScreen.tsx:25-35 | A countdown from d seconds fires after exactly d ticks. |
| QuizScreen.QuizCountdown | components/QuizScreen.tsx:19 | Every configured quiz duration elapses in exactly that many ticks. |
| QuizScreen.ClockParts | components/QuizScreen.tsx:62-63 | For a non-negative time, minutes times 60 plus seconds is the time, with seconds in [0, 60). |
| QuizScreen.ClockRoundTrip | components/QuizScreen.tsx:76 | The clock shows a colon with two second digits after it, and reading it back gives the time. |
| QuizScreen.PaddedRoundTrip | components/QuizScreen.tsx:76 | A padded part has at least two digits and reads back as the number. |
| QuizScreen.IsBookmarked | components/QuizScreen.tsx:66 | The bookmark mark shows exactly when some bookmark carries the current question's id. |
| QuizScreen.Step | components/QuizScreen.tsx:16-60 | A running screen stays valid. A finish hands over exactly the recorded answers, at most one per question, each for a quiz question. |
| QuestionCard.Reset | components/QuestionCard.tsx:30-36 | A new question leaves the card unanswered, with no selection. |
| QuestionCard.Click | components/QuestionCard.tsx:38-51 | A click on an answered card does nothing. Otherwise it selects and locks, and fires the answer callbacks with the clicked option. |
| QuestionCard.ClicksAfterAnswerIgnored | components/QuestionCard.tsx:39 | Any clicks on an answered card change nothing and fire nothing. |
| QuestionCard.FirstClickWins | components/QuestionCard.tsx:38-51 | After any clicks on a fresh card, the selection is the first click, and only its callbacks fired, once. |
| QuestionCard.Look | components/QuestionCard.tsx:53-64 | All options are neutral before answering. Afterwards the correct one is marked correct whatever was selected, a selected wrong one is marked wrong, and the rest are dimmed. |
| QuestionCard.WrongMarkIffWrongClick | components/QuestionCard.tsx:53-64 | After one click, an option is marked wrong exactly when it is the clicked option and that option is incorrect. |
| QuestionCard.NextControl | components/QuestionCard.tsx:92-103 | The Next control shows exactly when the card is answered and the parent gave a Next handler. It reads "finish" exactly on the last question. |
| PracticeScreen.Init | components/PracticeScreen.tsx:16-17 | The session starts at the first question, finished exactly when the list is empty. |
| PracticeScreen.Answer | components/PracticeScreen.tsx:19-33 | An answer reports the current id and whether the selection is correct. It then advances below the last index and otherwise finishes, never passing the last index. |
| PracticeScreen.InitAndAnswerValid | components/PracticeScreen.tsx:16-33 | The session starts valid and every answer keeps it valid. |
| PracticeScreen.EmptyStartsFinished | components/PracticeScreen.tsx:17-37 | The finished view shows from the start exactly when the list is empty. |
| PracticeScreen.RunFrom | components/PracticeScreen.tsx:19-37 | From any question on, the walk reports each remaining question once, in order, and ends finished. |
| PracticeScreen.WalkReportsEachOnce | components/PracticeScreen.tsx:19-37 | A whole session reports every question exactly once, in list order, with its selection, and ends in the finished view. |
| ApiKeyScreen.Submit | components/ApiKeyScreen.tsx:12-17 | The form saves nothing exactly when the input is all whitespace. Otherwise it saves the trimmed input, which is non-empty and starts and ends with non-whitespace. |
| ApiKeyScreen.SubmitDisabled | components/ApiKeyScreen.tsx:58 | The button is disabled exactly when the input is all whitespace. |
| ApiKeyScreen.DisabledMatchesGuard | components/ApiKeyScreen.tsx:14-58 | The button is disabled exactly when submitting would save nothing. |
| ApiKeyScreen.SavedKeyIsStable | components/ApiKeyScreen.tsx:14-15 | Submitting a saved key again saves it unchanged. |
| Text.Trim | components/ApiKeyScreen.tsx:14-15 | The trimmed string is the input with whitespace removed only from its ends, and it neither starts nor ends with whitespace. |
| Text.TrimEmptyIffAllWhitespace | components/ApiKeyScreen.tsx:14 | Trimming gives the empty string exactly when the input is all whitespace. |
| Text.TrimIdempotent | components/ApiKeyScreen.tsx:15 | Trimming twice is trimming once. |
| Text.NatToStringRoundTrip | components/QuizScreen.tsx:76 | A non-negative number's decimal rendering reads back as the number. |
| Text.PadStart | components/QuizScreen.tsx:76 | Left padding reaches the width, keeps the string as a suffix and fills only with the fill character. |
| App.Initial | App.tsx:17-27 | The application mounts on the startup screen with the stored key, pools and history and the medium duration. No chapter, difficulty, questions, result or error is set. |
| App.InitialInv | App.tsx:49-58 | The mounted application satisfies the invariant when the stored pools have unique ids. |
| App.StartupFinish | App.tsx:60-66 | After the splash, home shows exactly when a non-empty key is stored, and the key screen shows otherwise. |
| App.SaveApiKey | App.tsx:68-72 | Saving makes the key current and shows home, leaving everything else alone. |
| App.RouteError | App.tsx:87-97 | A failure mentioning "API Key" shows the key screen with the fixed key message. Any other failure shows home with its own message. |
| App.TooFewIsNotKeyError | App.tsx:82-90 | The short-batch message does not mention "API Key", so it always lands on home. |
| App.StartQuiz | App.tsx:74-98 | The chapter, difficulty and duration are recorded. The quiz starts exactly when the batch holds at least 10 questions. A short batch lands on home with its message. A thrown error routes by its message, and a non-Error throw uses the unknown-error text. On failure the questions, pools and history are untouched. |
| App.FinishQuiz | App.tsx:100-136 | The results screen shows the score, answers, questions and analysis, or the fallback text when analysis failed. The pool becomes the merge of the missed questions. The history gains exactly one entry at the end with the chapter title, score, date and difficulty. The bookmarks, chapter, difficulty and duration are untouched. |
| App.FinishQuizAdmitsMissed | App.tsx:107-117 | After a quiz the old pool is a prefix. Every appended question is a quiz question without a correct answer and with a new id. Every such question's id is present. |
| App.AnalysisFailureOnlyChangesText | App.tsx:125-135 | A failed analysis yields the state a successful one would, except for the analysis text. |
| App.RetryQuiz | App.tsx:138-142 | Retrying repeats the start with the remembered chapter and difficulty, and does nothing when either is missing. |
| App.GoHome | App.tsx:144-151 | Home clears the result, selection, questions and error, and keeps the pools, history, key and duration. |
| App.StartPractice | App.tsx:153-157 | The practice screen opens exactly when the practice pool is non-empty. Otherwise nothing changes. |
| App.ShowBookmarks | App.tsx:159-163 | The bookmark screen opens exactly when the bookmark pool is non-empty. Otherwise nothing changes. |
| App.ToggleBookmark | App.tsx:165-173 | The current question becomes bookmarked exactly when it was not. The bookmarks are toggled as `Pools.ToggleBookmark` states: a present id is removed with the rest kept in order, and an absent question is appended at the end. Nothing else changes. |
| App.RemoveFromPractice | App.tsx:175-179 | The practice pool loses every entry with the id and keeps the others. It is the pool's `Pools.RemoveById`, so nothing is added and the order is kept. Nothing else changes. |
| App.RemoveFromBookmarks | App.tsx:181-185 | The bookmark pool loses every entry with the id and keeps the others. It is the pool's `Pools.RemoveById`, so nothing is added and the order is kept. Nothing else changes. |
| App.ResetProgress | App.tsx:187-196 | After confirmation the history and both pools are emptied and home shows, with the result, selection, questions and error cleared as going home does. Key and duration are kept. Without confirmation nothing changes. |
| App.Step | App.tsx:198-249 | Every event the screens can raise, plus the intended practice removals, preserves the invariant. A quiz is entered only with at least 10 questions, and the practice and bookmark screens only from non-empty pools. |
| App.Run | App.tsx:198-249 | Any sequence of events keeps the invariant. |
| App.ReachableInv | App.tsx:74-136 | In every reachable state, a running quiz has at least 10 questions and a results screen has a score in [0, 100]. |
| App.QuizScreenFinishIsAccepted | App.tsx:208-215 | Whatever ends a valid quiz screen is a finish the application accepts. |
| PracticeFlow.AnswerOn | components/PracticeScreen.tsx:19-33 | As written an answer throws. With the intended wiring the screen advances, and the pool drops the question exactly when it was answered correctly. |
| PracticeFlow.AsWrittenWalkChangesNothing | App.tsx:219-231 | As written, no run of answers changes the pool or the screen. |
| PracticeFlow.CorrectAnswerKeptAsWritten | App.tsx:219-224 | A one-question pool answered correctly keeps its question as written and empties with the intended wiring. |
| PracticeFlow.IntendedWalkFrom | components/PracticeScreen.tsx:19-33 | From question k on, the intended walk keeps exactly the earlier kept questions followed by the wrongly answered rest. |
| PracticeFlow.LivePoolSkipsNext | App.tsx:219-221 | If the screen walked the live pool, a correct answer to the first of three questions would shrink the pool to the other two. Once the feedback delay ends the index is 1, which shows the third question. The second is on screen only during the delay and is skipped unless it is answered then. |
| PracticeFlow.IntendedWalkKeepsWrongOnes | components/PracticeScreen.tsx:19-33 | A whole intended walk leaves exactly the wrongly answered questions, in their order. |
| PracticeFlow.SurvivorsIffWrong | components/PracticeScreen.tsx:21-22 | In a pool with unique ids, a question survives the walk exactly when it was answered wrongly. |
| PracticeFlow.IntendedWalkRemovesExactlyCorrect | App.tsx:175-185 | With the intended wiring, a question leaves the pool exactly when it was answered correctly. |

## Left out

- Spaced-repetition scheduling is absent from the code, so there is nothing to model.
- Saving to and loading from `localStorage`, and JSON encoding, are not modelled. The stored values are fields of the model, and malformed stored JSON is not modelled.
- The question generator and the performance analysis run over the network in services/geminiService.ts. Their results are parameters, and prompt construction is not part of this model.
- The `setInterval` and `setTimeout` scheduling is not modelled. This includes the countdown timer, the practice screen's 1.5-second delay and the splash animation. Only the per-tick and per-step functions are modelled.
- The intermediate renders of the asynchronous handlers are not modelled. Each handler is one step, so the loading screens are never observed.
- The theme toggle and its persistence are left out as pure presentation.
- The home, results, statistics, startup and loader screens are left out as pure presentation. So are CSS classes, which become `QuestionCard.OptionLook` tags, and the Persian UI text, which is kept as opaque constants.
- The score is an exact real, not an IEEE double. `App.Inv` states the range only for the results screen.
- The statistics screen's averages, rounding and locale dates are not modelled. They feed charts only.
- QuizScreen.Step: it requires a valid session, and so a non-empty question list. The component dereferences the current question while rendering and would fail on an empty list. `App.Inv` guarantees at least 10 questions.
- QuizScreen.Seconds: JavaScript's remainder is modelled for negative times too. Only non-negative times occur, because `Tick` never goes below 0.
- App.Step: a results screen with no result renders nothing in the code. The invariant rules that state out.

## Findings

| source | as written | input that shows it | evidently intended | confidence | as-written member | corrected member |
|---|---|---|---|---|---|---|
| App.tsx:219-231 | The application passes its removal handler to the practice screen as `onQuestionCorrect`. The screen reads `onQuestionAnswered` (components/PracticeScreen.tsx:11, 15, 22), which is therefore undefined. Every answer on the practice or bookmark screen throws before the screen advances or the pool changes. | A practice pool of one question, answered correctly: it stays in the pool and the finished view never appears. | A correctly answered question leaves the pool it was practised from, and a wrong one stays. The removal handler takes only an id, so the repair calls it through a wrapper that passes the id on only for a correct answer. The screen's comment says the session's list is fixed (components/PracticeScreen.tsx:25), but the application passes the live pool. So the repair also snapshots the pool when the screen opens; without that, a removal shifts the list under the index and the next question is skipped. | high (not executed) | PracticeFlow.AsWrittenWalkChangesNothing | PracticeFlow.IntendedWalkRemovesExactlyCorrect |

The rest of the model uses the intended wiring. `App.Step` accepts the
`PracticeQuestionCorrect` and `BookmarkQuestionCorrect` events on the practice
and bookmark screens. `PracticeFlow.CorrectAnswerKeptAsWritten` exhibits the
difference on the input above. `PracticeFlow.LivePoolSkipsNext` shows why the
repair walks a snapshot rather than the live pool.
