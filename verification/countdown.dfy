/**
 The countdown shown above each question: the remaining seconds split into
 minutes and seconds, and the flag that turns the clock into its warning
 style.
 */
module Countdown {

  /** Seconds granted per question when a quiz starts. */
  const SecondsPerQuestion: nat := 30

  /** At or below this many remaining seconds the clock is shown as a warning. */
  const WarningThreshold: int := 30

  datatype Clock = Clock(mins: int, secs: int, warning: bool)

  /**
   The clock for `timeLeft` remaining seconds: `Math.floor(timeLeft / 60)`
   minutes, `timeLeft % 60` seconds, and the warning flag. JavaScript's `%`
   gives the remainder the sign of the dividend, unlike Dafny's Euclidean
   `%`, so a negative time is split differently.
   */
  function Display(timeLeft: int): (c: Clock)
    ensures timeLeft >= 0 ==> c.mins * 60 + c.secs == timeLeft && 0 <= c.secs < 60 && c.mins >= 0
    ensures timeLeft < 0 ==> -60 < c.secs <= 0 && c.mins < 0
    ensures c.mins * 60 <= timeLeft < c.mins * 60 + 60
    ensures timeLeft < 0 ==> c.mins * 60 + c.secs == timeLeft - (if c.secs == 0 then 0 else 60)
    ensures c.warning <==> timeLeft <= WarningThreshold
  {
    var secs := if timeLeft >= 0 then timeLeft % 60 else -((-timeLeft) % 60);
    Clock(timeLeft / 60, secs, timeLeft <= WarningThreshold)
  }

  /** For a non-negative time the minutes and seconds are the only split with seconds below 60. */
  lemma DisplayIsTheUniqueSplit(timeLeft: nat, m: int, s: int)
    requires m * 60 + s == timeLeft && 0 <= s < 60
    ensures Display(timeLeft) == Clock(m, s, timeLeft <= WarningThreshold)
  {
  }

  /** The fifteen-minute budget of a 30-question quiz shows as 15:00 without warning. */
  lemma FullBudgetOfThirtyQuestions()
    ensures Display(30 * SecondsPerQuestion) == Clock(15, 0, false)
  {
  }

  /** One minute left is still normal; the warning starts at thirty seconds. */
  lemma WarningStartsAtThirtySeconds()
    ensures !Display(31).warning && Display(30).warning && Display(30) == Clock(0, 30, true)
  {
  }
}
