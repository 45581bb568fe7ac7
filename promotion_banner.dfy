/**
 * The promotion banner's countdown: a clock of hours, minutes and seconds
 * that starts at 23:59:59, loses one second per tick and starts over once
 * it reaches 0:00:00.
 */
module PromotionBanner {

  datatype TimeLeft = TimeLeft(hours: int, minutes: int, seconds: int)

  /** The countdown's first value. */
  const START: TimeLeft := TimeLeft(23, 59, 59)

  /** Hours up to 23, minutes and seconds up to 59, none negative. */
  predicate InRange(t: TimeLeft) {
    0 <= t.hours <= 23 && 0 <= t.minutes <= 59 && 0 <= t.seconds <= 59
  }

  /** The time the clock shows, in seconds. */
  function TotalSeconds(t: TimeLeft): int {
    t.hours * 3600 + t.minutes * 60 + t.seconds
  }

  /**
   * One tick: take a second away, borrowing from the minutes and then the
   * hours when the lower field is zero; at 0:00:00 start over.
   */
  function Tick(prev: TimeLeft): (next: TimeLeft)
    ensures prev.seconds > 0 ==> next == prev.(seconds := prev.seconds - 1)
    ensures prev.seconds <= 0 && prev.minutes > 0 ==>
      next == TimeLeft(prev.hours, prev.minutes - 1, 59)
    ensures prev.seconds <= 0 && prev.minutes <= 0 && prev.hours > 0 ==>
      next == TimeLeft(prev.hours - 1, 59, 59)
    ensures prev.seconds <= 0 && prev.minutes <= 0 && prev.hours <= 0 ==> next == START
  {
    if prev.seconds > 0 then prev.(seconds := prev.seconds - 1)
    else if prev.minutes > 0 then prev.(minutes := prev.minutes - 1, seconds := 59)
    else if prev.hours > 0 then TimeLeft(prev.hours - 1, 59, 59)
    else START
  }

  /**
   * A clock that shows a valid time keeps showing one, and every tick but
   * the one at 0:00:00 takes exactly one second off the total.
   */
  lemma TickKeepsRange(t: TimeLeft)
    requires InRange(t)
    ensures InRange(Tick(t))
    ensures TotalSeconds(t) > 0 ==> TotalSeconds(Tick(t)) == TotalSeconds(t) - 1
    ensures TotalSeconds(t) == 0 <==> Tick(t) == START
  {
  }

  /** The clock after `n` ticks. */
  function Ticks(t: TimeLeft, n: nat): TimeLeft
    decreases n
  {
    if n == 0 then t else Ticks(Tick(t), n - 1)
  }

  /**
   * From a valid time, `n` ticks that do not pass 0:00:00 count the total
   * down by exactly `n`.
   */
  lemma {:induction false} TicksCountDown(t: TimeLeft, n: nat)
    requires InRange(t) && n <= TotalSeconds(t)
    ensures InRange(Ticks(t, n))
    ensures TotalSeconds(Ticks(t, n)) == TotalSeconds(t) - n
    decreases n
  {
    if n > 0 {
      TickKeepsRange(t);
      TicksCountDown(Tick(t), n - 1);
    }
  }

  /** The countdown repeats every day: 86400 ticks bring 23:59:59 back. */
  lemma DailyCycle()
    ensures TotalSeconds(START) == 86399
    ensures Ticks(START, 86400) == START
  {
    TicksCountDown(START, 86399);
    var z := Ticks(START, 86399);
    TicksAdd(START, 86399, 1);
    TickKeepsRange(z);
  }

  lemma {:induction false} TicksAdd(t: TimeLeft, m: nat, n: nat)
    ensures Ticks(t, m + n) == Ticks(Ticks(t, m), n)
    decreases m
  {
    if m > 0 {
      TicksAdd(Tick(t), m - 1, n);
    }
  }
}
