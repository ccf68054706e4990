/**
 * The quiz state machine: the reducer of the quiz application, its action
 * messages and the views the page derives from the state.
 */
module Quiz {
  import opened Wrappers

  /** One record of the question list delivered by the data source. */
  datatype Question = Question(question: string, options: seq<string>, correctOption: int, points: int)

  /** The lifecycle of one quiz session. */
  datatype Status = Ready | Active | Finished

  /** The whole reducer state; `clickedOption` is `None` where the source holds `null`. */
  datatype State = State(
    currentQuestion: nat,
    apiData: seq<Question>,
    clickedOption: Option<int>,
    userScore: int,
    appStatus: Status)

  /** The actions the reducer recognises, plus every other tag, which it ignores. */
  datatype Action =
    | SetApiData(apiData: seq<Question>)
    | ClickedSomeOption(index: int)
    | ClickedNextQuestion
    | ClickedRestart
    | ClickedStart
    | GameOver
    | Unrecognised(tag: string)

  /** Why the reducer can throw: it reads a field of a question that does not exist. */
  datatype Fault = NoCurrentQuestion(currentQuestion: nat)

  /** The state the application starts from, before any data has arrived. */
  const InitialState: State := State(0, [], None, 0, Ready)

  /** No question is worth negative points. */
  predicate PointsNonNegative(questions: seq<Question>)
  {
    forall i :: 0 <= i < |questions| ==> questions[i].points >= 0
  }

  /**
   * What the data source promises of every record: points are not negative
   * and the correct option is one of the options.
   */
  predicate WellFormed(questions: seq<Question>)
  {
    && PointsNonNegative(questions)
    && forall i :: 0 <= i < |questions| ==> 0 <= questions[i].correctOption < |questions[i].options|
  }

  // ---------------------------------------------------------------------------
  // Dispatched messages
  // ---------------------------------------------------------------------------

  /**
   * A dispatched object `{ type, index, apiData }`. Every dispatch site sets
   * the fields its tag reads; the others are never read, so they hold
   * placeholder values here.
   */
  datatype Message = Message(tag: string, index: int, apiData: seq<Question>)

  /** The six tags the reducer tests for. */
  const KnownTags: set<string> :=
    {"set_api_data", "clicked_some_option", "clicked_next_question", "clicked_restart", "clicked_start", "game_over"}

  /** The object a dispatch site builds for an action. */
  function Encode(a: Action): (m: Message)
    ensures !a.Unrecognised? ==> m.tag in KnownTags
    ensures a.ClickedSomeOption? ==> m.index == a.index
    ensures a.SetApiData? ==> m.apiData == a.apiData
  {
    match a
    case SetApiData(questions) => Message("set_api_data", 0, questions)
    case ClickedSomeOption(i) => Message("clicked_some_option", i, [])
    case ClickedNextQuestion => Message("clicked_next_question", 0, [])
    case ClickedRestart => Message("clicked_restart", 0, [])
    case ClickedStart => Message("clicked_start", 0, [])
    case GameOver => Message("game_over", 0, [])
    case Unrecognised(t) => Message(t, 0, [])
  }

  /** The reducer's chain of tag tests: which branch a message takes. */
  function Decode(m: Message): (a: Action)
    ensures a.Unrecognised? <==> m.tag !in KnownTags
    ensures Encode(a).tag == m.tag
  {
    if m.tag == "set_api_data" then SetApiData(m.apiData)
    else if m.tag == "clicked_some_option" then ClickedSomeOption(m.index)
    else if m.tag == "clicked_next_question" then ClickedNextQuestion
    else if m.tag == "clicked_restart" then ClickedRestart
    else if m.tag == "clicked_start" then ClickedStart
    else if m.tag == "game_over" then GameOver
    else Unrecognised(m.tag)
  }

  /** An action some message decodes to: an unrecognised tag is never one of the known ones. */
  predicate Canonical(a: Action)
  {
    a.Unrecognised? ==> a.tag !in KnownTags
  }

  /** Every action survives the trip through its dispatched object. */
  lemma DecodeEncode(a: Action)
    requires Canonical(a)
    ensures Decode(Encode(a)) == a
  {
  }

  // ---------------------------------------------------------------------------
  // The reducer
  // ---------------------------------------------------------------------------

  /** The state `game_over` leads to. */
  function Expire(s: State): State
  {
    s.(appStatus := Finished)
  }

  /** The reducer: one total transition per action; it checks no status. */
  function Step(s: State, a: Action): (r: Result<State, Fault>)
    ensures r.Failure? <==> a.ClickedSomeOption? && s.currentQuestion >= |s.apiData|
  {
    match a
    case SetApiData(questions) =>
      Success(s.(apiData := questions))
    case ClickedSomeOption(i) =>
      if s.currentQuestion < |s.apiData| then
        var q := s.apiData[s.currentQuestion];
        Success(s.(clickedOption := Some(i),
                   userScore := if i == q.correctOption then s.userScore + q.points else s.userScore))
      else
        Failure(NoCurrentQuestion(s.currentQuestion))
    case ClickedNextQuestion =>
      var wasLastQuestion := s.currentQuestion + 1 == |s.apiData|;
      Success(s.(currentQuestion := if wasLastQuestion then 0 else s.currentQuestion + 1,
                 clickedOption := None,
                 appStatus := if wasLastQuestion then Finished else s.appStatus))
    case ClickedRestart =>
      Success(s.(userScore := 0, appStatus := Ready, currentQuestion := 0, clickedOption := None))
    case ClickedStart =>
      Success(s.(appStatus := Active))
    case GameOver =>
      Success(Expire(s))
    case Unrecognised(_) =>
      Success(s)
  }

  /** The reducer applied to a raw dispatched object. */
  function Reduce(s: State, m: Message): Result<State, Fault>
  {
    Step(s, Decode(m))
  }

  // ---------------------------------------------------------------------------
  // Derived views
  // ---------------------------------------------------------------------------

  /** Whether the current question has been answered. */
  predicate UserHasAnswered(s: State)
  {
    s.clickedOption.Some?
  }

  /** The sum of all points, accumulated left to right as the page's `reduce` does. */
  function MaxScore(questions: seq<Question>): (total: int)
    ensures PointsNonNegative(questions) ==> 0 <= total
    ensures PointsNonNegative(questions) ==> forall i :: 0 <= i < |questions| ==> questions[i].points <= total
  {
    if |questions| == 0 then 0
    else
      var front := questions[..|questions| - 1];
      assert forall i :: 0 <= i < |front| ==> front[i] == questions[i];
      MaxScore(front) + questions[|questions| - 1].points
  }

  /** An independent reference sum of all points, head first. */
  function TotalPoints(questions: seq<Question>): int
  {
    if |questions| == 0 then 0 else questions[0].points + TotalPoints(questions[1..])
  }

  /** The value of the progress bar: answered questions count as done. */
  function ProgressValue(s: State): (progress: nat)
    ensures s.currentQuestion < |s.apiData| ==> progress <= |s.apiData|
  {
    if UserHasAnswered(s) then s.currentQuestion + 1 else s.currentQuestion
  }

  /**
   * The result percentage. JavaScript yields NaN or an infinity when the
   * maximum is zero; the model reports that as `None`.
   */
  function Percentage(score: int, maxScore: int): (p: Option<real>)
    ensures p.None? <==> maxScore == 0
    ensures p.Some? ==> p.value * (maxScore as real) == (score as real) * 100.0
  {
    if maxScore == 0 then None else Some((score as real) / (maxScore as real) * 100.0)
  }

  // ---------------------------------------------------------------------------
  // One action at a time
  // ---------------------------------------------------------------------------

  /** `set_api_data` replaces the questions and leaves every other field alone. */
  lemma SetApiDataReplacesOnlyData(s: State, questions: seq<Question>)
    ensures Step(s, SetApiData(questions)).Success?
    ensures var t := Step(s, SetApiData(questions)).value;
      && t.apiData == questions
      && t.currentQuestion == s.currentQuestion
      && t.clickedOption == s.clickedOption
      && t.userScore == s.userScore
      && t.appStatus == s.appStatus
  {
  }

  /**
   * Clicking option `i` records it and adds the current question's points
   * exactly when `i` is the correct option.
   */
  lemma ClickScoresExactlyWhenCorrect(s: State, i: int)
    requires s.currentQuestion < |s.apiData|
    ensures Step(s, ClickedSomeOption(i)).Success?
    ensures var t := Step(s, ClickedSomeOption(i)).value;
      var q := s.apiData[s.currentQuestion];
      && t.clickedOption == Some(i)
      && (i == q.correctOption ==> t.userScore == s.userScore + q.points)
      && (i != q.correctOption ==> t.userScore == s.userScore)
      && t.currentQuestion == s.currentQuestion
      && t.apiData == s.apiData
      && t.appStatus == s.appStatus
  {
  }

  /** Clicking an option when there is no current question throws. */
  lemma ClickWithoutQuestionThrows(s: State, i: int)
    requires s.currentQuestion >= |s.apiData|
    ensures Step(s, ClickedSomeOption(i)) == Failure(NoCurrentQuestion(s.currentQuestion))
  {
  }

  /** With non-negative points a click never lowers the score. */
  lemma ClickNeverLowersScore(s: State, i: int)
    requires s.currentQuestion < |s.apiData|
    requires s.apiData[s.currentQuestion].points >= 0
    ensures Step(s, ClickedSomeOption(i)).Success?
    ensures Step(s, ClickedSomeOption(i)).value.userScore >= s.userScore
  {
  }

  /** Advancing from the last question finishes the quiz and rewinds to question 0. */
  lemma NextOnLastQuestionFinishes(s: State)
    requires s.currentQuestion + 1 == |s.apiData|
    ensures var t := Step(s, ClickedNextQuestion).value;
      && t.currentQuestion == 0
      && t.clickedOption == None
      && t.appStatus == Finished
      && t.userScore == s.userScore
      && t.apiData == s.apiData
  {
  }

  /** Advancing from any other question moves to the next one without touching the status. */
  lemma NextOtherwiseAdvances(s: State)
    requires s.currentQuestion + 1 != |s.apiData|
    ensures var t := Step(s, ClickedNextQuestion).value;
      && t.currentQuestion == s.currentQuestion + 1
      && t.clickedOption == None
      && t.appStatus == s.appStatus
      && t.userScore == s.userScore
      && t.apiData == s.apiData
  {
  }

  /** Advancing keeps the current question inside the question list. */
  lemma NextKeepsQuestionInRange(s: State)
    requires s.currentQuestion < |s.apiData|
    ensures Step(s, ClickedNextQuestion).value.currentQuestion < |s.apiData|
  {
  }

  /** Restart rewinds everything but the questions. */
  lemma RestartResets(s: State)
    ensures var t := Step(s, ClickedRestart).value;
      && t.userScore == 0
      && t.appStatus == Ready
      && t.currentQuestion == 0
      && t.clickedOption == None
      && t.apiData == s.apiData
  {
  }

  /** Restarting twice is restarting once. */
  lemma RestartIdempotent(s: State)
    ensures Step(Step(s, ClickedRestart).value, ClickedRestart) == Step(s, ClickedRestart)
  {
  }

  /** `clicked_start` changes the status to active and nothing else. */
  lemma StartSetsOnlyStatus(s: State)
    ensures Step(s, ClickedStart) == Success(s.(appStatus := Active))
  {
  }

  /** `game_over` changes the status to finished and nothing else. */
  lemma GameOverSetsOnlyStatus(s: State)
    ensures Step(s, GameOver) == Success(s.(appStatus := Finished))
  {
  }

  /** A message whose tag the reducer does not test for leaves the state as it was. */
  lemma UnknownTagIsIgnored(s: State, m: Message)
    requires m.tag !in KnownTags
    ensures Reduce(s, m) == Success(s)
  {
  }

  // ---------------------------------------------------------------------------
  // The maximum score
  // ---------------------------------------------------------------------------

  /** The maximum score of two lists played one after the other is the sum of theirs. */
  lemma {:induction false} MaxScoreAppend(a: seq<Question>, b: seq<Question>)
    ensures MaxScore(a + b) == MaxScore(a) + MaxScore(b)
    decreases |b|
  {
    if |b| == 0 {
      assert a + b == a;
    } else {
      var b' := b[..|b| - 1];
      assert (a + b)[..|a + b| - 1] == a + b';
      MaxScoreAppend(a, b');
    }
  }

  /** The left-to-right accumulation computes the plain sum of the points. */
  lemma {:induction false} MaxScoreIsTotalPoints(questions: seq<Question>)
    ensures MaxScore(questions) == TotalPoints(questions)
    decreases |questions|
  {
    if |questions| > 0 {
      assert questions == [questions[0]] + questions[1..];
      MaxScoreAppend([questions[0]], questions[1..]);
      assert [questions[0]][..0] == [];
      MaxScoreIsTotalPoints(questions[1..]);
    }
  }

  /** Extending a prefix by one question adds that question's points. */
  lemma MaxScoreExtend(questions: seq<Question>, k: nat)
    requires k < |questions|
    ensures MaxScore(questions[..k + 1]) == MaxScore(questions[..k]) + questions[k].points
  {
    assert questions[..k + 1][..k] == questions[..k];
  }

  /** With non-negative points every prefix scores between zero and the full maximum. */
  lemma {:induction false} MaxScorePrefix(questions: seq<Question>, k: nat)
    requires PointsNonNegative(questions)
    requires k <= |questions|
    ensures 0 <= MaxScore(questions[..k]) <= MaxScore(questions)
    decreases |questions|
  {
    if k == |questions| {
      assert questions[..k] == questions;
    } else {
      var front := questions[..|questions| - 1];
      assert forall i :: 0 <= i < |front| ==> front[i] == questions[i];
      assert front[..k] == questions[..k];
      MaxScorePrefix(front, k);
    }
  }

  // ---------------------------------------------------------------------------
  // Progress and percentage
  // ---------------------------------------------------------------------------

  /**
   * The progress bar shows the current question plus one exactly when it is
   * answered, and so stays within the length of the list.
   */
  lemma ProgressInRange(s: State)
    requires s.currentQuestion < |s.apiData|
    ensures ProgressValue(s) <= |s.apiData|
    ensures ProgressValue(s) == s.currentQuestion + 1 <==> UserHasAnswered(s)
    ensures ProgressValue(s) == s.currentQuestion <==> !UserHasAnswered(s)
  {
  }

  /** A score between zero and the maximum is a percentage between 0 and 100. */
  lemma PercentageBounds(score: int, maxScore: int)
    requires 0 <= score <= maxScore
    requires maxScore > 0
    ensures Percentage(score, maxScore).Some?
    ensures 0.0 <= Percentage(score, maxScore).value <= 100.0
  {
    var p := Percentage(score, maxScore).value;
    assert p * (maxScore as real) <= (maxScore as real) * 100.0;
  }
}
