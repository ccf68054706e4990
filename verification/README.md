# Quiz state machine and session countdown

A model of the core of a small browser quiz: a reducer that walks a player
through a list of questions (`ready` → `active` → `finished`, and back to
`ready` on restart), scores answers, and a countdown that gives the whole
session 30 seconds per question and ends it with `game_over` when it runs out.

- `Wrappers` — `Option` (JavaScript's `null`) and `Result` (a reducer that throws).
- `Quiz` — the `Question` record, the `State` aggregate, the `Action` sum type,
  the raw dispatched objects (`Message`) and their tag decoding, the reducer
  `Step`, and the views the page derives (`UserHasAnswered`, `MaxScore`,
  `ProgressValue`, `Percentage`).
- `Discipline` — the reducer guards nothing; the page only renders the
  controls that make sense. `Enabled(s, a)` states which actions the page can
  dispatch in a state, `Inv` what every reachable state satisfies, and the
  lemmas over `Run`/`AllowedRun` what holds along every such run.
- `Countdown` — the timer's budget, the effect that runs whenever its count
  changes, a simulation of a timer left alone, and the `mm:ss` text it shows,
  with a parser that reads it back.
- `Session` — the page as a whole: reducer state plus the timer mounted while
  the question screen shows, with one-second steps of wall-clock time.

Points of the program the model keeps as they are:

- The reducer checks no status or answer: a start outside `ready`, a second
  click, an advance before answering and a `game_over` outside `active` are
  all applied. `Step` does the same, and the page's restrictions live in
  `Discipline.Enabled`, taken from which controls the page renders.
- Clicking an option reads the current question without a bounds check; when
  there is none, JavaScript throws. `Step` returns `Failure(NoCurrentQuestion)` there.
- The timer's own test for a finished quiz reads a field (`status`) the state
  does not have and never fires. Ticking stops because the timer is
  unmounted when the question screen disappears; `Session.Remount` models that.
- `Percentage` is `None` when the maximum score is 0, where JavaScript
  produces NaN or an infinity.

## Model

| member | source | states |
|---|---|---|
| Quiz.Step | src/app.jsx:3-41 | the reducer is total except for clicking an option with no current question, which throws |
| Quiz.Decode | src/app.jsx:4-40 | a message decodes to a recognised action exactly when its tag is one of the six the reducer tests, and keeps its tag |
| Quiz.DecodeEncode | src/app.jsx:86-94 | every action dispatched by the page decodes back to itself |
| Quiz.Encode | src/app.jsx:86-94 | every recognised action is sent with one of the six known tags, carrying its option index or its questions |
| Quiz.UnknownTagIsIgnored | src/app.jsx:40 | a message with any other tag leaves the state unchanged |
| Quiz.SetApiDataReplacesOnlyData | src/app.jsx:4-6 | `set_api_data` replaces the questions; question, answer, score and status are unchanged |
| Quiz.ClickScoresExactlyWhenCorrect | src/app.jsx:8-16 | a click records the option and adds the question's points if and only if it is the correct option; nothing else changes |
| Quiz.ClickWithoutQuestionThrows | src/app.jsx:12-13 | with the current question beyond the list, a click throws |
| Quiz.ClickNeverLowersScore | src/app.jsx:12-14 | with non-negative points a click never lowers the score |
| Quiz.NextOnLastQuestionFinishes | src/app.jsx:18-26 | advancing from the last question finishes, rewinds to question 0 and clears the answer |
| Quiz.NextOtherwiseAdvances | src/app.jsx:18-26 | advancing from another question moves to the next one, clears the answer and keeps the status |
| Quiz.NextKeepsQuestionInRange | src/app.jsx:19-22 | advancing keeps the current question inside the list |
| Quiz.RestartResets | src/app.jsx:28-30 | restart from any state zeroes the score, rewinds, clears the answer, sets `ready` and keeps the questions |
| Quiz.RestartIdempotent | src/app.jsx:28-30 | restarting twice equals restarting once |
| Quiz.StartSetsOnlyStatus | src/app.jsx:32-34 | `clicked_start` sets the status to active and changes nothing else |
| Quiz.GameOverSetsOnlyStatus | src/app.jsx:36-38 | `game_over` sets the status to finished and changes nothing else |
| Quiz.MaxScoreAppend | src/app.jsx:96 | the left-to-right points sum is additive over concatenation |
| Quiz.MaxScoreIsTotalPoints | src/app.jsx:96 | the left-to-right accumulation equals the plain head-first sum of all points |
| Quiz.MaxScore | src/app.jsx:96 | with non-negative points the maximum score is not negative and at least the points of every single question |
| Quiz.MaxScorePrefix | src/app.jsx:96 | with non-negative points, the points of any prefix lie between zero and the maximum score |
| Quiz.ProgressInRange | src/app.jsx:95-98 | progress is the current question plus one exactly when answered, and at most the number of questions |
| Quiz.ProgressValue | src/app.jsx:98 | while the current question is inside the list, progress never exceeds the number of questions |
| Quiz.Percentage | src/app.jsx:97 | no finite percentage when the maximum is 0; otherwise percentage times maximum is score times 100 |
| Quiz.PercentageBounds | src/app.jsx:97 | a score between 0 and a positive maximum is a percentage between 0 and 100 |
| Discipline.InitialStateInv | src/app.jsx:78 | the initial state (no questions, score 0, `ready`) satisfies the invariant |
| Discipline.Enabled | src/app.jsx:104-159 | the welcome screen offers only start, the result screen only restart, the question screen neither; every other control needs the question screen; no other tag is ever sent |
| Discipline.QuestionScreenControls | src/app.jsx:141-159 | on the question screen options are clickable exactly while unanswered, next exactly once answered, and the timer can always expire |
| Discipline.InvBoundsScore | src/app.jsx:95-98 | in every reachable state the score is between 0 and the maximum and progress is within the list |
| Discipline.ClickPreservesInv | src/app.jsx:141-147 | an enabled click never throws and the score stays within the points of the questions answered so far |
| Discipline.NextPreservesInv | src/app.jsx:155-159 | an enabled advance keeps the invariant, finishing with the score within the maximum |
| Discipline.GameOverPreservesInv | src/app.jsx:36-38 | expiry on the question screen keeps the invariant |
| Discipline.SetApiDataPreservesInv | src/app.jsx:83-88 | loading well-formed questions into the empty list keeps the invariant |
| Discipline.StepPreservesInv | src/app.jsx:3-41 | every enabled action succeeds and keeps the invariant |
| Discipline.RunPreservesInv | src/app.jsx:81-94 | along any enabled run the reducer never throws and the score stays within 0 and the maximum score |
| Discipline.StepScoreMonotone | src/app.jsx:8-16 | every enabled action other than restart keeps or raises the score |
| Discipline.ScoreNeverDecreases | src/app.jsx:3-41 | along an enabled run without restart the final score is at least the initial one |
| Discipline.AnswerHeldUntilAdvance | src/app.jsx:144 | once answered, no click is enabled and the answer, question and score stay until advance or restart |
| Discipline.ClicksBoundedByClears | src/app.jsx:141-159 | along an enabled run there is at most one click per advance or restart, plus one if the run starts unanswered |
| Discipline.UnguardedClickScoresTwice | src/app.jsx:8-16 | without the page's guard a second correct click adds the points again, and the guard forbids it |
| Discipline.TwoQuestionScenario | src/app.jsx:3-41 | points 10 and 20, correct options 1 and 0, one right and one wrong answer: finished with 10 of 30, 100/3 percent |
| Countdown.RunTimer | src/app.jsx:43-60 | a timer left alone for t seconds shows max(30n - t, 0) and has emitted `game_over` once iff t >= 30n |
| Countdown.Budget | src/app.jsx:43-46 | the starting count is a whole number of 30-second allowances, one per question |
| Countdown.ValueDecimal | src/app.jsx:67 | the decimal text of a number reads back as that number |
| Countdown.Decimal | src/app.jsx:67 | a number is written as decimal digits with no leading zero, a single digit exactly below 10 |
| Countdown.Pad | src/app.jsx:67 | each clock part has at least two digits, a leading zero exactly when below 10, and reads back as the number |
| Countdown.ClockParts | src/app.jsx:62-63 | minutes times 60 plus seconds is the count, and the seconds part is below 60 |
| Countdown.Clock | src/app.jsx:62-67 | the clock text parses back to the count it shows |
| Session.AdvanceKeepsTimer | src/app.jsx:45-46 | the budget covers the whole session: advancing to a question that is not the last keeps the mounted timer and its count and emits nothing |
| Session.ClickKeepsTimer | src/app.jsx:119 | answering keeps the mounted timer and its count and emits nothing |
| Session.Render | src/app.jsx:49-51 | the timer emits `game_over` only when it is enabled, with the reducer's `game_over` state as the result |
| Session.Apply | src/app.jsx:119 | after any dispatch the timer is mounted exactly on the question screen with time left, and never outside `active` |
| Session.Elapse | src/app.jsx:58 | a second with no timer changes nothing; ticks keep the timer and the screen in step |
| Session.WaitIdle | src/app.jsx:154 | with no timer mounted, waiting emits nothing and changes nothing |
| Session.WaitCountsDown | src/app.jsx:45-60 | a timer with m seconds left counts down for k < m seconds and at m emits `game_over` exactly once and unmounts |
| Session.StartedQuizExpires | src/app.jsx:43-60 | after start, a quiz of n questions left alone finishes at exactly 30n seconds with one `game_over` |
| Session.FinishingStopsTimer | src/app.jsx:18-26 | finishing by advancing unmounts the timer without `game_over`, and waiting afterwards emits nothing |
| Session.RestartStopsTimer | src/app.jsx:28-30 | restart unmounts the timer, and waiting afterwards emits nothing |

## Left out

- The network fetch and its `alert` on failure (src/app.jsx:84-87): I/O against an external URL. Only its effect, one `set_api_data`, is modelled.
- Discipline.Enabled allows `set_api_data` whenever the list is empty, not only once: the fetch runs once at mount, so this admits more runs than the page produces, and every invariant proved over it still holds.
- Discipline.Allowed assumes the loaded records are well formed (points not negative, correct option a valid index): the page does not check the fetched JSON.
- React scheduling: `useReducer`, effect dependencies and cleanup, `setTimeout`/`clearTimeout` and wall-clock time (src/app.jsx:48-60, 81-94). Time is a sequence of one-second steps; that every render of the page re-arms the pending one-second timeout is not modelled.
- The timer's check of `appState.status` (src/app.jsx:54): the field does not exist, so the check never fires.
- JSX markup, CSS classes, the header and its image (src/app.jsx:65-66, 68-76, 100-165): presentation only. The `mm:ss` text of line 67 is modelled (`Countdown.Clock`), and so is which controls lines 100-165 render (`Discipline.Enabled`).
- JavaScript numbers are doubles; the model uses unbounded integers, which agree for any realistic number of questions, points and seconds.
- Quiz.Percentage: gives the exact rational value rather than the floating-point one, and folds NaN and the infinities into `None`.
