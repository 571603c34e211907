/** Timestamps are whole seconds since the epoch; the clock itself is a parameter of every operation. */
module Dates {
  /** Seconds in one day: the divisor of every day count. */
  const SecondsPerDay: int := 86400

  function Abs(x: int): (r: nat)
    ensures r == x || r == -x
  {
    if x < 0 then -x else x
  }

  /** Whole days between two timestamps regardless of their order: the absolute
      distance in seconds, divided by a day and truncated. */
  function DaysBetween(t1: int, t2: int): (d: nat)
    ensures d * SecondsPerDay <= Abs(t1 - t2) < (d + 1) * SecondsPerDay
  {
    Abs(t1 - t2) / SecondsPerDay
  }
}
