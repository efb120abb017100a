# Trivia quiz engine, modelled in Dafny

A model of the quiz engine inside `script.js`, a browser trivia quiz. The
quiz fetches multiple-choice questions from a trivia provider and shows them
one at a time under a countdown of 30 seconds per question. It scores each
committed answer and keeps a top-10 leaderboard in local storage.

The page's global variables (`quizData`, `currentQuestion`, `userScore`,
`selectedAnswer`, `answered`, `timeLeft`, `leaderboard`) become fields of
one immutable `Session.Quiz` record. The interval handle `timerInterval`
becomes the flag `timerRunning`, which says whether the one-second interval
is installed. Two fields are added:

- `pendingAdvances` counts the two-second reveal callbacks that have been
  scheduled but have not fired yet.
- `finished` says whether the results screen has been shown.

Each event the page reacts to is a pure transition:

- `Start` is the Start button together with the provider's reply.
- `Select` is a click on an option.
- `Confirm` is the Next button.
- `Advance` is a reveal callback firing.
- `Tick` is the interval firing.
- `Finish` is `endQuiz`.

`Run` applies a sequence of events. Scheduled callbacks are events that the
caller applies. Applying one that was never scheduled does nothing.

Modules:

- `Questions` (questions.dfy) turns provider records into questions. Each
  question keeps its options in the order a caller-supplied shuffle chooses.
- `Countdown` (countdown.dfy) is the clock display: minutes, seconds and the
  warning flag.
- `Scoring` (scoring.dfy) holds the feedback tier and the rounded
  percentage. Exact integer cross-multiplication replaces the source's
  floating-point ratio.
- `Leaderboard` (leaderboard.dfy) is the stable descending sort by
  percentage and the cut to ten entries. It also proves that the sort is the
  only stable descending order, and that on a sorted board recording an
  entry inserts it at its place.
- `Session` (session.dfy) holds the record and the transitions. It also
  holds an invariant that every run keeps if each answer is committed only
  once.

Behaviour of the source that the model keeps on purpose:

- The Next handler checks only that there is a selection. It does not check
  `answered`. Clicking twice before the reveal ends scores the answer twice
  and schedules two advances (`Session.ConfirmTwiceScoresTwice`). The bound
  `score <= number of questions` therefore needs the assumption that each
  answer is committed once (`Session.AnswersOnce`).
- When the timer runs out it does not cancel a pending reveal. A reveal that
  fires after the last question runs `endQuiz` again and records a second
  leaderboard entry (`Session.ExpiryDuringRevealRecordsTwice`).
- Starting a new quiz does not cancel a reveal left over from the previous
  quiz either (`Session.StaleRevealSkipsFirstQuestion`).
- The tier is judged on the unrounded ratio. The leaderboard stores the
  rounded percentage. So 26 out of 29 is tier good but is stored as 90
  (`Scoring.TierUsesTheUnroundedRatio`).
- The selection guard uses JavaScript truthiness. An empty-string answer
  counts as no selection (`Session.HasSelection`).
- If the provider reports success with an empty result list, the session is
  reset and the quiz screen replaces the loading panel. Showing the first
  question then fails half-way: the screen reads "Question 1 of 0", the
  options of an earlier quiz stay in place, and the error text is written
  into the hidden loading panel, so no error is visible. The timer never
  starts (`Session.Status.NoQuestion`).

Further properties of the code that the model keeps:

- A reply with fewer results than requested is accepted.
- A record with an empty list of incorrect answers is accepted and gives a
  question with a single option.

## Model

| member | source | states |
|---|---|---|
| Session.Start | script.js:21-81 | An amount that is missing or outside 1..50 is rejected and changes nothing. A missing reply or a non-zero `response_code` shows the error panel and changes nothing. Otherwise the questions are built from the results in order and the session is reset: index 0, score 0, no selection, not answered, `30 * |results|` seconds. The leaderboard and pending reveals are untouched. The timer starts only if there is at least one question. With none the quiz screen is shown without a question and without an error (`NoQuestion`) |
| Session.ValidAmount | script.js:26-29 | The amount is rejected exactly when it is missing, below 1 or above 50 |
| Questions.BuildQuestions | script.js:52-57 | One question per provider record, in the provider's order, each built from its record and its own shuffle |
| Session.StartEstablishesInv | script.js:61-68 | Starting from an idle page (no timer, no pending reveal) gives a session that satisfies the run invariant |
| Session.StaleRevealSkipsFirstQuestion | script.js:61-65 | A reveal left pending from an earlier quiz moves a newly started quiz of two or more questions straight to its second question |
| Questions.BuildQuestion | script.js:52-57 | The prompt and every answer go through the decoder. The shown options have exactly `1 + |incorrect|` entries and hold the correct answer and each incorrect answer exactly as often as they occur (multiset equality), so the correct answer is always offered |
| Questions.Shuffle | script.js:56 | The shuffled options are a rearrangement of the unshuffled ones: same length, same multiset |
| Questions.PickRespectsRearrangement | script.js:56 | Reading the options along two rearrangements of the same positions gives the same multiset of options |
| Questions.BuiltQuestionsOfferEveryAnswer | script.js:52-57 | Every built question offers its decoded correct answer and decoded incorrect answers, each exactly as often as it occurs in the record (multiset equality), and nothing else |
| Session.HasSelection | script.js:130 | `!selectedAnswer`: there is no selection exactly when nothing was chosen or the empty string was chosen |
| Session.Select | script.js:111-126 | Once the current question is answered a click changes nothing. Otherwise the clicked answer becomes the selection and every other field (score, index, answered, time) is unchanged |
| Session.Confirm | script.js:129-150 | Without a selection, or with the empty string selected, nothing changes. Otherwise the question becomes answered and one reveal is scheduled. The score rises by exactly 1 if the selection is the correct answer and stays the same otherwise. The index does not change. The guard does not test `answered` |
| Session.ConfirmTwiceScoresTwice | script.js:129-152 | Two Next clicks on a correctly answered question add 2 to the score and schedule two reveals |
| Session.OnlyConfirmScores | script.js:145-147 | During a quiz (option click, Next, reveal, tick) only the Next button changes the score, and then it raises it by exactly 1 |
| Session.Advance | script.js:152-160 | With no reveal pending nothing changes. Otherwise the index rises by exactly 1 and the score and time are unchanged. If the new index is a question, the selection is cleared and the question is unanswered (as `displayQuestion` resets them). Past the last question the results are shown |
| Session.Tick | script.js:164-175 | With the timer stopped nothing changes. Otherwise the time drops by exactly 1. While time is left nothing else changes. At zero or below the timer stops and the results are shown, whatever the question |
| Session.ExpiryDuringRevealRecordsTwice | script.js:152-172 | If time runs out during the last question's reveal, the quiz is recorded once by the timer and once more by the pending reveal |
| Countdown.Display | script.js:178-188 | For a non-negative time, minutes times 60 plus seconds equals the time and the seconds lie in 0..59. A negative time gets non-positive seconds, as with JavaScript's `%`. The warning flag is on exactly when at most 30 seconds remain |
| Countdown.DisplayIsTheUniqueSplit | script.js:179-180 | For a non-negative time the displayed minutes and seconds are the only split with seconds below 60 |
| Countdown.FullBudgetOfThirtyQuestions | script.js:179-182 | Thirty questions show 15:00 with no warning |
| Countdown.WarningStartsAtThirtySeconds | script.js:184-188 | 31 seconds shows no warning; 30 seconds shows 0:30 with the warning |
| Session.Finish | script.js:192-219 | The timer stops and the results are shown. With at least one question the leaderboard grows by one, up to ten entries, stays highest-first, and holds only old entries and the new one. Nothing else changes |
| Session.FinishingStopsTheTimer | script.js:170-193 | Every event that brings up the results screen also leaves the timer stopped |
| Session.Feedback | script.js:197-212 | The session's tier is excellent exactly when `100 * score >= 90 * N`, and poor when there are no questions |
| Scoring.TierOf | script.js:197-212 | Excellent iff `100*score >= 90*N`; good iff `70*N <= 100*score < 90*N`; average iff `50*N <= 100*score < 70*N`; poor otherwise, and poor for `N = 0` (NaN comparisons fail) |
| Scoring.TierIsMonotone | script.js:203-212 | With the same number of questions, a higher score never gives a worse tier |
| Scoring.RoundedPercent | script.js:226 | `Math.round(100*score/N)`: the result `p` satisfies `p - 1/2 <= 100*score/N < p + 1/2`, with halves rounded up |
| Scoring.RoundedPercentIsUnique | script.js:226 | Any whole number within half a point of `100*score/N`, halves going up, is the rounded percentage |
| Scoring.RoundedPercentInRange | script.js:226 | A score no higher than the total rounds to at most 100 |
| Scoring.TwoOfThree | script.js:197-226 | 2 of 3 is stored as 67 percent and gets tier average |
| Scoring.TwentyThreeOfForty | script.js:226 | The exact rounding of 23 of 40 is 58. The program's binary64 arithmetic stores 57 here |
| Scoring.FortyOneOfForty | script.js:226 | The exact rounding of 41 of 40, a score reachable through a double Next click, is 103. The program's binary64 arithmetic stores 102 here |
| Scoring.TierUsesTheUnroundedRatio | script.js:197-226 | 26 of 29 gets tier good although it is stored as 90 percent |
| Session.EntryFor | script.js:223-228 | The entry keeps score, total and date, and its percentage is the rounded `100*score/N`. It lies in 0..100 when the score is at most the total |
| Leaderboard.InsertDesc | script.js:230-231 | Inserting an entry adds exactly that entry: the length grows by one and the multiset gains the entry |
| Leaderboard.InsertDescKeepsDescending | script.js:231 | Inserting into a highest-first list keeps it highest-first |
| Leaderboard.InsertDescTies | script.js:231 | Inserting into a highest-first list places the entry after every earlier entry with the same percentage |
| Leaderboard.InsertDescAtPlace | script.js:230-231 | The entry is placed right after the leading run of entries whose percentage is at least its own |
| Leaderboard.SortDesc | script.js:231 | The sort keeps the length and the multiset, gives a highest-first list, and keeps insertion order among equal percentages (stability) |
| Leaderboard.StableOrderIsUnique | script.js:231 | Two highest-first lists with the same entries per percentage in the same relative order are equal |
| Leaderboard.SortDescIsTheStableSort | script.js:231 | Any highest-first rearrangement that keeps tie order is exactly the model's sort, so the sort is the stable sort |
| Leaderboard.SortDescKeepsSortedList | script.js:231 | Sorting a list that is already highest-first returns it unchanged |
| Leaderboard.Truncate | script.js:232 | `slice(0, 10)`: the first `min(|s|, 10)` entries of the list, in order |
| Leaderboard.Record | script.js:230-232 | The new board has `min(|old|+1, 10)` entries. It is highest-first, holds only old entries and the new one, and is the first entries of the stable sort of `old ++ [entry]` |
| Leaderboard.RecordInsertsAtPlace | script.js:230-232 | On a highest-first board, recording inserts the entry after the last entry with a percentage at least its own, then cuts to ten |
| Leaderboard.RecordKeepsEntryIff | script.js:230-232 | On a highest-first board the new entry survives exactly when fewer than ten entries have a percentage at least its own. Otherwise the board is just cut to its first ten entries |
| Leaderboard.RecordKeepsPercentagesInRange | script.js:223-232 | If every stored percentage and the new one lie in 0..100, every percentage on the new board does too |
| Session.ScoreWithinTotal | script.js:129-160 | Under the run invariant the score never exceeds the number of questions |
| Session.Initial | script.js:1-9 | The loaded page: no questions, index and score 0, no selection, not answered, no time, no timer, no pending reveal, no results shown, and the stored leaderboard |
| Session.InitialSatisfiesInv | script.js:1-9 | The freshly loaded page satisfies the run invariant when the stored percentages lie in 0..100 |
| Session.FinishKeepsInv | script.js:192-232 | Showing the results keeps the run invariant, including percentages in 0..100 on the leaderboard |
| Session.SelectKeepsInv | script.js:111-126 | Clicking an option keeps the run invariant |
| Session.ConfirmKeepsInv | script.js:129-152 | A Next click on a question not yet answered keeps the run invariant: the one reveal it schedules belongs to an answered, existing question |
| Session.AdvanceKeepsInv | script.js:152-160 | A reveal that fires keeps the run invariant, including when it shows the results |
| Session.TickKeepsInv | script.js:166-173 | A second of the countdown keeps the run invariant, including when time runs out and the results are shown |
| Session.StepKeepsInv | script.js:111-175 | Every event keeps the run invariant, provided a Next click lands on a question that is not yet answered |
| Session.RunKeepsInv | script.js:111-175 | A whole run in which each answer is committed once keeps the invariant. Its score stays within the number of questions |
| Session.RunningClockIsWellFormed | script.js:166-180 | While the timer runs under the invariant, the displayed minutes and seconds add up to the remaining time, with seconds in 0..59 |
| Session.SampleStart | script.js:26-68 | A valid start with three records resets the session, grants 90 seconds and starts the timer |
| Session.AnswerAndWaitStep | script.js:111-160 | Picking an answer, clicking Next and letting the reveal end moves to the next question. The score rises by one exactly when the answer was correct |
| Session.AnswerCorrectWrongCorrect | script.js:111-226 | From any fresh three-question session whose correct answers are all "a", answering "a", "b", "a" and letting each reveal end gives score 2, a 67 percent entry on an empty board, and tier average |
| Session.ThreeQuestionScenario | script.js:129-226 | Three questions answered correct, incorrect, correct end with score 2, one leaderboard entry of 67 percent, and tier average |

## Left out

- Rendering is not modelled: DOM updates, CSS classes, the progress bar,
  button labels, feedback texts and the leaderboard HTML (script.js:89-101,
  115-125, 133-143, 150, 181-187, 194-216, 236-247, 262-265). They are view
  code. Only the tier is kept, as an enumeration.
- `decodeHTML` (script.js:14-18) hands the text to the browser's HTML
  parser. It is a caller-supplied deterministic `decode` function here.
- The `Math.random` comparator shuffle (script.js:56) is replaced by a
  caller-supplied rearrangement of positions. Under ECMA-262 any sort result
  is a rearrangement of its input, even with an inconsistent comparator.
- The network request is not modelled: `fetch`, URL building with amount,
  category and difficulty, and JSON decoding (script.js:35-45). The reply
  is an input (`Session.Reply`). A failed request and a reply that cannot
  be decoded are both `NoReply`.
- Local storage is not modelled (script.js:9, 234). The leaderboard is
  passed in at page load and kept in the record. Corrupt stored JSON, which
  makes the script fail at load, is not modelled.
- `toLocaleDateString` (script.js:227) depends on the locale. The date is
  an opaque string parameter of `Finish`, `Advance` and `Tick`.
- `setInterval` and `setTimeout` (script.js:152, 166) are not real timers
  here. Their callbacks are the events `Tick` and `Advance`. Time itself
  and the interleaving of callbacks are chosen by the caller.
- `restartQuiz`, `goHome` and `location.reload` (script.js:79, 251-259)
  only switch sections or reload the page.
- Session.Start: the amount is an integer or missing. The source's guard
  also lets non-integer amounts such as 2.5 through. The model does not
  represent them.
- Scoring.TierOf: the source compares the floating-point value
  `(score / N) * 100`. The model compares exact rationals. At the
  thresholds, `0.9 * 100`, `0.7 * 100` and `0.5 * 100` are exactly 90, 70
  and 50 in binary64. With at most 50 questions every other ratio is at
  least 0.2 percentage points from a threshold, far more than the rounding
  error, so the tiers agree for every quiz size the form accepts.
- Scoring.RoundedPercent: this is the exact `Math.round` of the rational
  `100*score/N`. The program rounds the binary64 value of
  `(score / N) * 100`, and the two differ. For 23 of 40 the program computes
  57.49999999999999 and stores 57, while the model gives 58
  (`Scoring.TwentyThreeOfForty`). In the model that entry ties with a 58
  percent entry such as 7 of 12 and ranks above a 57 percent entry. In the
  program it ranks below the 58 percent entry and ties with the 57 percent
  one. With at most 50 questions and a score no higher than the total this
  is the only case where the two differ. A score above the total, which a
  double Next click can produce, differs in further cases: 41, 51, 87 and
  97 of 40, for example (41 of 40 is stored as 102, the model gives 103,
  `Scoring.FortyOneOfForty`).
- Session.EntryFor: its percentage is `Scoring.RoundedPercent`, so it
  stores 58 for 23 of 40 where the program stores 57, and 103 for 41 of 40
  where the program stores 102 (see the line above).
- Provider records with a missing field are not represented: a `RawQuestion`
  always has a correct answer and a list of incorrect answers. In the
  program a missing `correct_answer` becomes the text `decodeHTML` makes of
  `undefined`, which a caller can pass as an ordinary answer. A missing
  `incorrect_answers` makes the question building throw before the quiz
  screen appears (script.js:55), so the error panel is shown: that is the
  model's `NoReply`.
- Session.Finish: with no questions the source stores the percentage NaN
  (0/0). The comparator's order is then implementation-defined. The model
  leaves the leaderboard unchanged in that case. This case is reachable only
  when a stale reveal fires into a quiz whose reply was empty.
