/**
 * The page as a whole: the reducer state together with the countdown that
 * is mounted while the question screen shows. Leaving that screen unmounts
 * the timer, which is what stops its ticking.
 */
module Session {
  import opened Wrappers
  import opened Quiz
  import Countdown
  import Discipline

  /** The reducer state and, while mounted, the timer's remaining seconds. */
  datatype Page = Page(quiz: State, timer: Option<nat>)

  /** What an event did: the new page and whether the timer emitted `game_over`. */
  datatype Reaction = Reaction(page: Page, gameOver: bool)

  /**
   * The timer after a render: it keeps its count while it stays mounted,
   * starts from a fresh budget when it mounts, and is gone otherwise.
   */
  function Remount(q: State, timer: Option<nat>): Option<nat>
  {
    if !Discipline.Playing(q) then None
    else if timer.Some? then timer
    else Some(Countdown.Budget(|q.apiData|))
  }

  /**
   * Renders the page for a new state. A mounted timer showing zero emits
   * `game_over`, whose state no longer shows the timer.
   */
  function Render(q: State, timer: Option<nat>): (r: Reaction)
    ensures r.page.timer.Some? <==> Discipline.Playing(r.page.quiz)
    ensures r.page.timer.Some? ==> r.page.timer.value > 0
    ensures r.gameOver ==> r.page.quiz == Step(q, GameOver).value && Discipline.Enabled(q, GameOver)
    ensures !r.gameOver ==> r.page.quiz == q
  {
    var t := Remount(q, timer);
    if t.Some? && Countdown.OnRender(t.value) == Countdown.EmitGameOver then
      Reaction(Page(Expire(q), None), true)
    else
      Reaction(Page(q, t), false)
  }

  /** The timer and the question screen are in step, and a mounted timer has time left. */
  predicate PageInv(p: Page)
  {
    && (p.timer.Some? <==> Discipline.Playing(p.quiz))
    && (p.timer.Some? ==> p.timer.value > 0)
  }

  /** A dispatched action: the reducer runs, then the page renders. */
  function Apply(p: Page, a: Action): (r: Result<Reaction, Fault>)
    ensures r.Failure? <==> Step(p.quiz, a).Failure?
    ensures r.Success? ==> PageInv(r.value.page)
    ensures r.Success? && r.value.page.quiz.appStatus != Active ==> r.value.page.timer.None?
  {
    match Step(p.quiz, a)
    case Failure(f) => Failure(f)
    case Success(q) => Success(Render(q, p.timer))
  }

  /** One second of wall-clock time: the pending tick, if any, fires. */
  function Elapse(p: Page): (r: Reaction)
    ensures p.timer.None? ==> r == Reaction(p, false)
    ensures PageInv(p) ==> PageInv(r.page)
  {
    match p.timer
    case None => Reaction(p, false)
    case Some(k) =>
      // At zero no tick was scheduled.
      if k == 0 then Reaction(p, false) else Render(p.quiz, Some(k - 1))
  }

  /** `k` seconds with no user action: the final page and how many `game_over`s were emitted. */
  function Wait(p: Page, k: nat): (Page, nat)
    decreases k
  {
    if k == 0 then (p, 0)
    else
      var r := Elapse(p);
      var (end, fired) := Wait(r.page, k - 1);
      (end, fired + if r.gameOver then 1 else 0)
  }

  /** Without a mounted timer, time passing changes nothing and emits nothing. */
  lemma {:induction false} WaitIdle(p: Page, k: nat)
    requires p.timer.None?
    ensures Wait(p, k) == (p, 0)
    decreases k
  {
    if k > 0 {
      WaitIdle(p, k - 1);
    }
  }

  /**
   * A mounted timer with `m` seconds left counts down undisturbed for
   * fewer than `m` seconds; from `m` seconds on, it has emitted `game_over`
   * exactly once, the quiz is finished and the timer is gone.
   */
  lemma {:induction false} WaitCountsDown(p: Page, k: nat)
    requires PageInv(p)
    requires p.timer.Some?
    ensures var (end, fired) := Wait(p, k);
      if k < p.timer.value then end == Page(p.quiz, Some(p.timer.value - k)) && fired == 0
      else end == Page(Expire(p.quiz), None) && fired == 1
    decreases k
  {
    var m := p.timer.value;
    if k > 0 {
      var r := Elapse(p);
      if m == 1 {
        assert r == Reaction(Page(Expire(p.quiz), None), true);
        WaitIdle(r.page, k - 1);
      } else {
        assert r == Reaction(Page(p.quiz, Some(m - 1)), false);
        WaitCountsDown(r.page, k - 1);
      }
    }
  }

  /**
   * Starting a quiz of `n > 0` questions mounts a timer of `30 * n`
   * seconds; left alone, the quiz runs until exactly then, when one
   * `game_over` finishes it.
   */
  lemma StartedQuizExpires(q: State, k: nat)
    requires q.appStatus == Ready
    requires |q.apiData| > 0
    ensures Apply(Page(q, None), ClickedStart).Success?
    ensures var started := Apply(Page(q, None), ClickedStart).value;
      && started == Reaction(Page(q.(appStatus := Active), Some(Countdown.SecondsPerQuestion * |q.apiData|)), false)
      && (k < Countdown.SecondsPerQuestion * |q.apiData| ==>
            Wait(started.page, k) == (Page(q.(appStatus := Active), Some(Countdown.SecondsPerQuestion * |q.apiData| - k)), 0))
      && (k >= Countdown.SecondsPerQuestion * |q.apiData| ==>
            Wait(started.page, k) == (Page(q.(appStatus := Finished), None), 1))
  {
    var started := Apply(Page(q, None), ClickedStart).value;
    WaitCountsDown(started.page, k);
  }

  /**
   * Advancing past the last answered question finishes the quiz and
   * unmounts the timer without a `game_over`; afterwards time passing
   * emits nothing.
   */
  lemma FinishingStopsTimer(p: Page, k: nat)
    requires PageInv(p)
    requires Discipline.Enabled(p.quiz, ClickedNextQuestion)
    requires p.quiz.currentQuestion + 1 == |p.quiz.apiData|
    ensures Apply(p, ClickedNextQuestion).Success?
    ensures var r := Apply(p, ClickedNextQuestion).value;
      && r.page.quiz.appStatus == Finished
      && r.page.timer.None?
      && !r.gameOver
      && Wait(r.page, k) == (r.page, 0)
  {
    WaitIdle(Apply(p, ClickedNextQuestion).value.page, k);
  }

  /**
   * The budget covers the whole session: advancing to another question
   * keeps the mounted timer and its count, and emits nothing.
   */
  lemma AdvanceKeepsTimer(p: Page)
    requires PageInv(p)
    requires Discipline.Enabled(p.quiz, ClickedNextQuestion)
    requires p.quiz.currentQuestion + 1 != |p.quiz.apiData|
    ensures Apply(p, ClickedNextQuestion).Success?
    ensures var r := Apply(p, ClickedNextQuestion).value;
      r.page.timer == p.timer && r.page.timer.Some? && !r.gameOver
  {
  }

  /** Answering a question keeps the mounted timer and its count, and emits nothing. */
  lemma ClickKeepsTimer(p: Page, i: int)
    requires PageInv(p)
    requires Discipline.Enabled(p.quiz, ClickedSomeOption(i))
    ensures Apply(p, ClickedSomeOption(i)).Success?
    ensures var r := Apply(p, ClickedSomeOption(i)).value;
      r.page.timer == p.timer && r.page.timer.Some? && !r.gameOver
  {
  }

  /** Restarting unmounts the timer, and with it any pending tick. */
  lemma RestartStopsTimer(p: Page, k: nat)
    ensures Apply(p, ClickedRestart).Success?
    ensures var r := Apply(p, ClickedRestart).value;
      r.page.timer.None? && !r.gameOver && Wait(r.page, k) == (r.page, 0)
  {
    WaitIdle(Apply(p, ClickedRestart).value.page, k);
  }
}
