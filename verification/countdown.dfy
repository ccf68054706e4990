/**
 * The session countdown: its budget, the effect that runs each time the
 * remaining seconds change, and the `mm:ss` text it shows.
 */
module Countdown {
  import opened Wrappers

  /** The allowance per question; the budget covers the whole session. */
  const SecondsPerQuestion: nat := 30

  /**
   * The remaining seconds a freshly mounted timer starts from: one
   * allowance for every question, spent over the whole session.
   */
  function Budget(questionCount: nat): (seconds: nat)
    ensures seconds % SecondsPerQuestion == 0
    ensures seconds / SecondsPerQuestion == questionCount
  {
    SecondsPerQuestion * questionCount
  }

  /** What one run of the timer's effect does. */
  datatype Effect = EmitGameOver | ScheduleTick

  /**
   * The timer's effect for the count it renders with. The early return for a
   * finished quiz tests a `status` field the state never has, so it never
   * fires and is not part of the model.
   */
  function OnRender(seconds: nat): Effect
  {
    if seconds == 0 then EmitGameOver else ScheduleTick
  }

  /**
   * A mounted timer left alone for `elapsed` seconds: each scheduled tick
   * takes one second off, and at zero the effect emits `game_over` and
   * schedules nothing more. This is the timer component on its own, step by
   * step; `Session.WaitCountsDown` states the same countdown for the timer
   * inside the page, where `game_over` also finishes the quiz and unmounts it.
   */
  method RunTimer(questionCount: nat, elapsed: nat) returns (seconds: nat, gameOvers: nat)
    ensures seconds == if elapsed <= Budget(questionCount) then Budget(questionCount) - elapsed else 0
    ensures gameOvers == if elapsed >= Budget(questionCount) then 1 else 0
  {
    var budget := Budget(questionCount);
    seconds := budget;
    gameOvers := 0;
    var scheduled := false;
    // The effect runs once when the timer mounts.
    if OnRender(seconds) == EmitGameOver {
      gameOvers := gameOvers + 1;
    } else {
      scheduled := true;
    }
    var t := 0;
    while t < elapsed
      invariant t <= elapsed
      invariant seconds == if t <= budget then budget - t else 0
      invariant scheduled <==> seconds > 0
      invariant gameOvers == if t >= budget then 1 else 0
    {
      if scheduled {
        seconds := seconds - 1;
        scheduled := false;
        // The changed count re-runs the effect.
        if OnRender(seconds) == EmitGameOver {
          gameOvers := gameOvers + 1;
        } else {
          scheduled := true;
        }
      }
      t := t + 1;
    }
  }

  // ---------------------------------------------------------------------------
  // The clock text
  // ---------------------------------------------------------------------------

  predicate IsDigit(c: char)
  {
    '0' <= c <= '9'
  }

  predicate AllDigits(text: string)
  {
    forall i :: 0 <= i < |text| ==> IsDigit(text[i])
  }

  function DigitChar(d: nat): char
    requires d < 10
  {
    "0123456789"[d]
  }

  function DigitValue(c: char): nat
    requires IsDigit(c)
  {
    c as int - '0' as int
  }

  /** A number as JavaScript writes it in a template string: decimal, no leading zero. */
  function Decimal(n: nat): (r: string)
    ensures 1 <= |r|
    ensures AllDigits(r)
    ensures r[0] == '0' ==> n == 0
    ensures n < 10 <==> |r| == 1
    decreases n
  {
    if n < 10 then [DigitChar(n)] else Decimal(n / 10) + [DigitChar(n % 10)]
  }

  /** The number a string of decimal digits denotes. */
  function Value(text: string): nat
    requires AllDigits(text)
  {
    if |text| == 0 then 0
    else Value(text[..|text| - 1]) * 10 + DigitValue(text[|text| - 1])
  }

  /** Reading back what `Decimal` writes gives the number. */
  lemma {:induction false} ValueDecimal(n: nat)
    ensures Value(Decimal(n)) == n
    decreases n
  {
    var r := Decimal(n);
    if n >= 10 {
      assert r[..|r| - 1] == Decimal(n / 10);
      ValueDecimal(n / 10);
    } else {
      assert r[..0] == [];
    }
  }

  /** One part of the clock: numbers below 10 get a leading zero. */
  function Pad(n: nat): (r: string)
    ensures 2 <= |r|
    ensures AllDigits(r)
    ensures Value(r) == n
    ensures r[0] == '0' <==> n < 10
    ensures n < 60 ==> |r| == 2
  {
    ValueDecimal(n);
    if n < 10 then
      var r := "0" + Decimal(n);
      assert r[..1] == "0";
      r
    else
      Decimal(n)
  }

  /** Whole minutes and leftover seconds. */
  function ClockParts(seconds: nat): (parts: (nat, nat))
    ensures 60 * parts.0 + parts.1 == seconds
    ensures parts.1 < 60
  {
    (seconds / 60, seconds % 60)
  }

  /** The text the timer shows. */
  function Clock(seconds: nat): (text: string)
    ensures ParseClock(text) == Some(seconds)
  {
    var (mins, secs) := ClockParts(seconds);
    var text := Pad(mins) + ":" + Pad(secs);
    assert text[..|text| - 3] == Pad(mins);
    assert text[|text| - 2..] == Pad(secs);
    text
  }

  /** Reads an `mm:ss` clock text back into seconds; `None` when it is not one. */
  function ParseClock(text: string): (r: Option<nat>)
    ensures r.Some? ==> 5 <= |text| && text[|text| - 3] == ':'
  {
    if |text| >= 5 && text[|text| - 3] == ':'
      && AllDigits(text[..|text| - 3]) && AllDigits(text[|text| - 2..])
      && Value(text[|text| - 2..]) < 60
    then Some(60 * Value(text[..|text| - 3]) + Value(text[|text| - 2..]))
    else None
  }
}
