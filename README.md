# Survey progression, modelled in Dafny

The SurveyExample app is a one-screen, chat-style survey written in SwiftUI.
Questions appear one at a time in a bubble with a segmented picker and a
Submit button. Answered questions collapse into a transcript above the live
one. Apart from view code, the screen holds one small state machine. This
project models that state machine and proves what it promises:

- `Questions` — the `Question` value: prompt, ordered choices, optional
  selected index, and the derived `isAnswered` / `answerResult`.
- `Decimal` — `String(Int)` and `Int(String)` in radix 10 for a 64-bit `Int`.
  The bubble hands the picked index to the screen as text, and
  `submitAnswer` reads it back with `Int(answer)`.
- `Progression` — the screen's state (`questions`, `currentQuestionIndex`,
  `userAnswer`) as a value. It holds the effect of `submitAnswer`, the
  transcript and live-question selection, and the bubble's submit guard. It
  also holds the invariant kept by submissions that come through the bubble.
- `SurveyScreen.ContentView` — the same state as a class whose fields
  `SubmitAnswer` updates in place. It is specified by `Progression.Submitted`.

`submitAnswer` reports no error. It ignores the empty string. Otherwise it
stores `Int(answer)` without a range check, storing nil for text that is not
a number, and advances the cursor. It has no bounds check of its own: it is
only reachable from the bubble, which is shown only while
`currentQuestionIndex < questions.count`, and that guard is its
precondition here. The invariant "answered below the cursor, unanswered from
it on" holds because the bubble only ever sends the decimal text of a picked
index (`SurveyFromStart`). `NonNumericAnswerAdvances` and
`OutOfRangeAnswerStored` show that the handler alone does not keep it.

## Model

| member | source | states |
|---|---|---|
| Questions.Question.AnswerResult | SurveyExample/ContentView.swift:18-23 | the answer text is "" for an unanswered question and one of its choices otherwise; the stored index must index `choices`, since the source indexes without a check |
| Questions.Question.Picked | SurveyExample/ContentView.swift:98-101 | the picker's setter records choice `k`: the selection becomes exactly `k`, prompt and choices unchanged |
| Questions.AnswerResultOfPicked | SurveyExample/ContentView.swift:14-22 | after choice `k` (in range) is recorded, the answer text is exactly `choices[k]` |
| Questions.AnswerResultEmptyIffUnanswered | SurveyExample/ContentView.swift:15-21 | `Question.IsAnswered` (`isAnswered`, lines 15-17) holds exactly when `selectedChoiceIndex` is non-nil; when no choice is empty text, the answer text is "" if and only if the question is unanswered |
| Questions.DemoQuestions | SurveyExample/ContentView.swift:27-31 | the screen's three questions, each with four choices, none answered |
| Decimal.ShowNat | SurveyExample/ContentView.swift:112 | `String(n)` for `n >= 0` is a non-empty digit string without a leading zero, starting with '0' only for 0 |
| Decimal.ShowInt | SurveyExample/ContentView.swift:112 | `String(i)` is in canonical form and starts with '-' exactly when `i < 0` |
| Decimal.ParseInt | SurveyExample/ContentView.swift:82 | `Int(s)` is nil for "", fits in 64 bits, is negative only after a leading '-', starts with a digit or with a sign followed by more text, and accepts only digits after the first character |
| Decimal.DigitsValueOfShowNat | SurveyExample/ContentView.swift:112 | the digits `String(n)` writes denote `n` |
| Decimal.ParseShowInt | SurveyExample/ContentView.swift:111-112 | `Int(String(i))` gives back `i` whenever `i` fits in 64 bits, and nil otherwise |
| Decimal.ShowNatOfDigitsValue | SurveyExample/ContentView.swift:82 | a canonical digit string is exactly `String` of the number it denotes |
| Decimal.ShowParseInt | SurveyExample/ContentView.swift:82 | a string in `String(Int)` form that parses is exactly `String` of its value (the converse round trip) |
| Progression.Submitted | SurveyExample/ContentView.swift:80-86 | "" changes nothing; otherwise the cursor rises by exactly 1, `userAnswer` becomes "", the current question's selection becomes `Int(answer)`, and its prompt, its choices, every other question and the number of questions stay the same |
| Progression.Transcript | SurveyExample/ContentView.swift:44-49 | one row per index `0 ..< currentQuestionIndex`, in order, with the question's prompt, and its answer text exactly when it is answered |
| Progression.LiveQuestion | SurveyExample/ContentView.swift:51-55 | a question is offered if and only if the cursor is below `questions.count`, and it is the one under the cursor |
| Progression.BubbleSubmit | SurveyExample/ContentView.swift:110-113 | the handler fires if and only if the bubble's question has a selection, with non-empty text that `Int` reads back as that selection |
| Progression.GuardedStep | SurveyExample/ContentView.swift:52-54 | a submission of picked choice `k` through the bubble advances the cursor by 1, stores exactly `k` in the live question and changes no other question |
| Progression.Replay | SurveyExample/ContentView.swift:52-54 | a run of guarded submissions advances the cursor by its length, stores each pick in its own question in order, and leaves every other question alone |
| Progression.InitialProgress | SurveyExample/ContentView.swift:27-32 | the opening state keeps the invariant, offers the first question and has an empty transcript |
| Progression.GuardedStepKeepsProgress | SurveyExample/ContentView.swift:110-113 | a guarded submission keeps the invariant: questions below the cursor answered with in-range indices, the rest unanswered |
| Progression.ReplayKeepsProgress | SurveyExample/ContentView.swift:80-86 | any run of guarded submissions keeps that invariant |
| Progression.SurveyFromStart | SurveyExample/ContentView.swift:27-32 | from the opening state, after `n` guarded picks the cursor is `n`, question `i < n` holds exactly pick `i`, the rest are untouched, and no question is offered exactly when all are answered |
| Progression.TranscriptFromStart | SurveyExample/ContentView.swift:44-49 | after those picks the transcript shows each question's prompt with the text of the choice picked for it |
| Progression.TranscriptDependsOnPrefix | SurveyExample/ContentView.swift:44-49 | the transcript depends only on the questions below the cursor |
| Progression.TranscriptAfterSubmit | SurveyExample/ContentView.swift:80-86 | a submission storing a displayable answer adds exactly one row, for the question just answered, after the unchanged earlier rows |
| Progression.NonNumericAnswerAdvances | SurveyExample/ContentView.swift:82-83 | non-empty text that is not a number stores nil yet still advances the cursor, breaking the invariant |
| Progression.OutOfRangeAnswerStored | SurveyExample/ContentView.swift:82-83 | a number past the last choice is stored and the cursor advances, after which the transcript cannot show that answer |
| Progression.DemoRun | SurveyExample/ContentView.swift:27-31 | picking the second choice three times completes the survey and shows "Choice 1-2", "Choice 2-2", "Choice 3-2" |
| SurveyScreen.ContentView.constructor | SurveyExample/ContentView.swift:27-34 | the screen opens on the demo questions with cursor 0 and empty text, satisfying the invariant |
| SurveyScreen.ContentView.SubmitAnswer | SurveyExample/ContentView.swift:80-86 | the fields afterwards are `Submitted` of the fields before; "" leaves them unchanged |
| SurveyScreen.ContentView.BubbleSubmitTapped | SurveyExample/ContentView.swift:110-113 | no selection changes nothing; otherwise the handler runs with `String(selection)` and the current question stores the selection itself |

## Left out

- All SwiftUI presentation: `body`, stacks, scroll views, `MessageBubble`, `AnswerBubble`, styling and previews. It draws the state and holds no logic.
- `ArrowShape.path(in:)`: floating-point geometry for drawing.
- The `id` of each question: it is a fresh `UUID()` from a foreign call, and nothing in the logic reads it.
- SwiftUI's `@State` re-rendering, and the bubble's own copy of the question. The bubble's picker shows index 0 while nothing is picked; that is display only. The model takes the bubble's question as the live question with the picked index recorded (`Question.Picked`, `GuardedStep`).
- The commented-out text-field input: it is dead code. The `userAnswer` field it would have fed is kept and is only ever cleared.
- Swift `Int` overflow elsewhere: indices and the cursor are unbounded integers, since they never approach 2^63. Picks are required to fit in 64 bits (`ValidPick`), as every Swift `Int` does.
- A completion query: the code has none. The survey is over when `LiveQuestion` is `None`.
