/**
 * The discipline the page imposes on the reducer. The reducer checks
 * nothing; the page only renders the controls that make sense, so only some
 * actions can reach it in a given state. This module states which, and
 * proves what holds along every run that respects it.
 */
module Discipline {
  import opened Wrappers
  import opened Quiz

  /** The question screen is shown: the quiz is active and has questions. */
  predicate Playing(s: State)
  {
    s.appStatus == Active && |s.apiData| > 0
  }

  /**
   * The actions the page can dispatch in state `s`. Seen screen by screen:
   * the welcome screen offers only start, the result screen only restart,
   * and the question screen never offers either; no other tag is sent.
   */
  predicate Enabled(s: State, a: Action)
    ensures Enabled(s, a) ==> !a.Unrecognised?
    ensures Enabled(s, a) && s.appStatus == Ready ==> a == ClickedStart || a.SetApiData?
    ensures Enabled(s, a) && s.appStatus == Finished ==> a == ClickedRestart || a.SetApiData?
    ensures Enabled(s, a) && s.appStatus == Active ==> a != ClickedStart && a != ClickedRestart
    ensures Enabled(s, a) && s.appStatus == Active && !a.SetApiData? ==> Playing(s)
  {
    match a
    // The fetch runs once, at mount, into the initially empty list.
    case SetApiData(_) => |s.apiData| == 0
    // The start button exists only on the welcome screen.
    case ClickedStart => s.appStatus == Ready
    // Option buttons are rendered for the current question and disabled once it is answered.
    case ClickedSomeOption(i) =>
      && Playing(s)
      && s.clickedOption.None?
      && s.currentQuestion < |s.apiData|
      && 0 <= i < |s.apiData[s.currentQuestion].options|
    // The next button exists only once the current question is answered.
    case ClickedNextQuestion => Playing(s) && s.clickedOption.Some?
    // The restart button exists only on the result screen.
    case ClickedRestart => s.appStatus == Finished
    // The timer, the only source of `game_over`, is mounted only on the question screen.
    case GameOver => Playing(s)
    // Nothing dispatches any other tag.
    case Unrecognised(_) => false
  }

  /**
   * On the question screen, the options are clickable exactly while the
   * question is unanswered, the next button is there exactly once it is
   * answered, and the timer can always expire.
   */
  lemma QuestionScreenControls(s: State)
    requires Playing(s)
    requires s.currentQuestion < |s.apiData|
    ensures Enabled(s, GameOver)
    ensures Enabled(s, ClickedNextQuestion) <==> UserHasAnswered(s)
    ensures (exists i :: Enabled(s, ClickedSomeOption(i))) <==>
              !UserHasAnswered(s) && |s.apiData[s.currentQuestion].options| > 0
  {
    if !UserHasAnswered(s) && |s.apiData[s.currentQuestion].options| > 0 {
      assert Enabled(s, ClickedSomeOption(0));
    }
  }

  /** An enabled action whose data, if it carries any, is what the data source promises. */
  predicate Allowed(s: State, a: Action)
  {
    Enabled(s, a) && (a.SetApiData? ==> WellFormed(a.apiData))
  }

  /** The answer held for the current question is one of its options. */
  predicate AnswerInRange(s: State)
  {
    s.clickedOption.Some? ==>
      s.currentQuestion < |s.apiData| && 0 <= s.clickedOption.value < |s.apiData[s.currentQuestion].options|
  }

  /** What holds of every state the page can reach. */
  predicate Inv(s: State)
  {
    && WellFormed(s.apiData)
    && s.userScore >= 0
    && (|s.apiData| == 0 ==> s.currentQuestion == 0 && s.clickedOption.None?)
    && (|s.apiData| > 0 ==> s.currentQuestion < |s.apiData|)
    && AnswerInRange(s)
    && (s.appStatus == Ready ==> s.userScore == 0 && s.currentQuestion == 0 && s.clickedOption.None?)
    && (s.appStatus == Active ==> s.userScore <= MaxScore(s.apiData[..ProgressValue(s)]))
    && (s.appStatus == Finished ==> s.userScore <= MaxScore(s.apiData))
  }

  /** The application starts in a state that satisfies the invariant. */
  lemma InitialStateInv()
    ensures Inv(InitialState)
    ensures InitialState.userScore == 0 && InitialState.appStatus == Ready
  {
  }

  /** The invariant bounds the score by the maximum and keeps the question in range. */
  lemma InvBoundsScore(s: State)
    requires Inv(s)
    ensures 0 <= s.userScore <= MaxScore(s.apiData)
    ensures s.currentQuestion < |s.apiData| || (|s.apiData| == 0 && s.currentQuestion == 0)
    ensures ProgressValue(s) <= |s.apiData|
  {
    if s.appStatus == Active {
      MaxScorePrefix(s.apiData, ProgressValue(s));
    }
  }

  /** An answer is scored in the state `Step` produces from an unanswered active question. */
  lemma ClickPreservesInv(s: State, i: int)
    requires Inv(s)
    requires Allowed(s, ClickedSomeOption(i))
    ensures Step(s, ClickedSomeOption(i)).Success?
    ensures Inv(Step(s, ClickedSomeOption(i)).value)
  {
    var t := Step(s, ClickedSomeOption(i)).value;
    var k := s.currentQuestion;
    MaxScoreExtend(s.apiData, k);
    assert ProgressValue(s) == k && ProgressValue(t) == k + 1;
    assert t.userScore <= MaxScore(t.apiData[..ProgressValue(t)]);
  }

  /** Advancing closes the answered question into the finished prefix, or finishes. */
  lemma NextPreservesInv(s: State)
    requires Inv(s)
    requires Allowed(s, ClickedNextQuestion)
    ensures Inv(Step(s, ClickedNextQuestion).value)
  {
    var t := Step(s, ClickedNextQuestion).value;
    if s.currentQuestion + 1 == |s.apiData| {
      assert ProgressValue(s) == |s.apiData|;
      assert s.apiData[..ProgressValue(s)] == s.apiData;
    } else {
      assert ProgressValue(t) == ProgressValue(s);
    }
  }

  /** Expiry finishes the quiz with whatever has been scored so far. */
  lemma GameOverPreservesInv(s: State)
    requires Inv(s)
    requires Allowed(s, GameOver)
    ensures Inv(Step(s, GameOver).value)
  {
    InvBoundsScore(s);
  }

  /** Loading questions into the empty list keeps the invariant. */
  lemma SetApiDataPreservesInv(s: State, questions: seq<Question>)
    requires Inv(s)
    requires Allowed(s, SetApiData(questions))
    ensures Inv(Step(s, SetApiData(questions)).value)
  {
    var t := Step(s, SetApiData(questions)).value;
    assert ProgressValue(t) == 0;
    assert t.apiData[..0] == [];
  }

  /** Every allowed action succeeds and keeps the invariant. */
  lemma StepPreservesInv(s: State, a: Action)
    requires Inv(s)
    requires Allowed(s, a)
    ensures Step(s, a).Success?
    ensures Inv(Step(s, a).value)
  {
    match a
    case SetApiData(questions) => SetApiDataPreservesInv(s, questions);
    case ClickedSomeOption(i) => ClickPreservesInv(s, i);
    case ClickedNextQuestion => NextPreservesInv(s);
    case GameOver => GameOverPreservesInv(s);
    case ClickedStart =>
      var t := Step(s, a).value;
      assert t.apiData[..ProgressValue(t)] == [];
    case ClickedRestart =>
    case Unrecognised(_) =>
  }

  // ---------------------------------------------------------------------------
  // Runs
  // ---------------------------------------------------------------------------

  /** The reducer folded over a sequence of actions; a throw ends the run. */
  function Run(s: State, actions: seq<Action>): Result<State, Fault>
    decreases |actions|
  {
    if |actions| == 0 then Success(s)
    else match Step(s, actions[0])
      case Failure(f) => Failure(f)
      case Success(t) => Run(t, actions[1..])
  }

  /** Every action of the run is allowed in the state it is applied to, as far as the run gets. */
  predicate AllowedRun(s: State, actions: seq<Action>)
    decreases |actions|
  {
    |actions| == 0 ||
    (Allowed(s, actions[0]) &&
     match Step(s, actions[0])
     case Failure(_) => true
     case Success(t) => AllowedRun(t, actions[1..]))
  }

  /**
   * Along an allowed run the reducer never throws, the invariant holds
   * throughout, and the score stays between zero and the maximum score.
   */
  lemma {:induction false} RunPreservesInv(s: State, actions: seq<Action>)
    requires Inv(s)
    requires AllowedRun(s, actions)
    ensures Run(s, actions).Success?
    ensures Inv(Run(s, actions).value)
    ensures 0 <= Run(s, actions).value.userScore <= MaxScore(Run(s, actions).value.apiData)
    decreases |actions|
  {
    if |actions| == 0 {
      InvBoundsScore(s);
    } else {
      StepPreservesInv(s, actions[0]);
      RunPreservesInv(Step(s, actions[0]).value, actions[1..]);
    }
  }

  /** Every allowed action except restart leaves the score where it was or raises it. */
  lemma StepScoreMonotone(s: State, a: Action)
    requires Inv(s)
    requires Allowed(s, a)
    requires a != ClickedRestart
    ensures Step(s, a).Success?
    ensures Step(s, a).value.userScore >= s.userScore
  {
    StepPreservesInv(s, a);
  }

  /** Between restarts the score never decreases. */
  lemma {:induction false} ScoreNeverDecreases(s: State, actions: seq<Action>)
    requires Inv(s)
    requires AllowedRun(s, actions)
    requires forall j :: 0 <= j < |actions| ==> actions[j] != ClickedRestart
    ensures Run(s, actions).Success?
    ensures Run(s, actions).value.userScore >= s.userScore
    decreases |actions|
  {
    RunPreservesInv(s, actions);
    if |actions| > 0 {
      StepScoreMonotone(s, actions[0]);
      StepPreservesInv(s, actions[0]);
      ScoreNeverDecreases(Step(s, actions[0]).value, actions[1..]);
    }
  }

  /**
   * Once the current question is answered, every allowed action other than
   * advancing and restarting keeps the answer, the question and the score.
   */
  lemma AnswerHeldUntilAdvance(s: State, a: Action)
    requires Inv(s)
    requires s.clickedOption.Some?
    requires Allowed(s, a)
    requires a != ClickedNextQuestion && a != ClickedRestart
    ensures !a.ClickedSomeOption?
    ensures Step(s, a).Success?
    ensures var t := Step(s, a).value;
      t.clickedOption == s.clickedOption && t.currentQuestion == s.currentQuestion && t.userScore == s.userScore
  {
  }

  /** How many option clicks a sequence of actions holds. */
  function Clicks(actions: seq<Action>): nat
    decreases |actions|
  {
    if |actions| == 0 then 0
    else (if actions[0].ClickedSomeOption? then 1 else 0) + Clicks(actions[1..])
  }

  /** How many actions of a sequence clear the answer: advances and restarts. */
  function Clears(actions: seq<Action>): nat
    decreases |actions|
  {
    if |actions| == 0 then 0
    else (if actions[0] == ClickedNextQuestion || actions[0] == ClickedRestart then 1 else 0) + Clears(actions[1..])
  }

  /**
   * Each question is scored at most once: along an allowed run there is at
   * most one option click per cleared answer, plus one if the run starts
   * unanswered.
   */
  lemma {:induction false} ClicksBoundedByClears(s: State, actions: seq<Action>)
    requires Inv(s)
    requires AllowedRun(s, actions)
    ensures Run(s, actions).Success?
    ensures Clicks(actions) + (if Run(s, actions).value.clickedOption.None? then 1 else 0)
         <= Clears(actions) + (if s.clickedOption.None? then 1 else 0)
    decreases |actions|
  {
    RunPreservesInv(s, actions);
    if |actions| > 0 {
      StepPreservesInv(s, actions[0]);
      ClicksBoundedByClears(Step(s, actions[0]).value, actions[1..]);
    }
  }

  /**
   * Without the page's guard the reducer would score one question twice:
   * clicking the correct option again adds its points again.
   */
  lemma UnguardedClickScoresTwice(s: State)
    requires s.currentQuestion < |s.apiData|
    ensures var q := s.apiData[s.currentQuestion];
      var once := Step(s, ClickedSomeOption(q.correctOption)).value;
      var twice := Step(once, ClickedSomeOption(q.correctOption)).value;
      twice.userScore == s.userScore + 2 * q.points && !Enabled(once, ClickedSomeOption(q.correctOption))
  {
  }

  /**
   * Two questions worth 10 and 20 with correct options 1 and 0: answering
   * the first right and the second wrong finishes with 10 of 30 points.
   */
  lemma TwoQuestionScenario()
    ensures var questions := [Question("q0", ["a", "b"], 1, 10), Question("q1", ["a", "b"], 0, 20)];
      var actions := [SetApiData(questions), ClickedStart, ClickedSomeOption(1), ClickedNextQuestion,
                      ClickedSomeOption(1), ClickedNextQuestion];
      && AllowedRun(InitialState, actions)
      && Run(InitialState, actions) == Success(State(0, questions, None, 10, Finished))
      && MaxScore(questions) == 30
      && Percentage(10, MaxScore(questions)) == Some(100.0 / 3.0)
  {
    var questions := [Question("q0", ["a", "b"], 1, 10), Question("q1", ["a", "b"], 0, 20)];
    var actions := [SetApiData(questions), ClickedStart, ClickedSomeOption(1), ClickedNextQuestion,
                    ClickedSomeOption(1), ClickedNextQuestion];
    var states := [
      InitialState,
      State(0, questions, None, 0, Ready),
      State(0, questions, None, 0, Active),
      State(0, questions, Some(1), 10, Active),
      State(1, questions, None, 10, Active),
      State(1, questions, Some(1), 10, Active),
      State(0, questions, None, 10, Finished)];
    var k := 6;
    while k > 0
      invariant 0 <= k <= 6
      invariant Run(states[k], actions[k..]) == Success(states[6])
      invariant AllowedRun(states[k], actions[k..])
    {
      k := k - 1;
      assert Step(states[k], actions[k]) == Success(states[k + 1]);
      assert actions[k..][1..] == actions[k + 1..];
    }
    assert MaxScore(questions[..1]) == 10;
  }
}
