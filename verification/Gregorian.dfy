/** The proleptic Gregorian calendar, as a reference for the day-number formulas:
    the leap-year rule, the month lengths, and counting one day at a time. */
module Gregorian {

  datatype Date = Date(y: int, m: int, d: int)

  /** Day number, at noon, of 0000-01-01. */
  const EPOCH := 1721060

  predicate Leap(y: int) {
    y % 4 == 0 && (y % 100 != 0 || y % 400 == 0)
  }

  function MonthLength(y: int, m: int): (n: int)
    requires 1 <= m <= 12
  {
    if m == 2 then (if Leap(y) then 29 else 28)
    else if m == 4 || m == 6 || m == 9 || m == 11 then 30
    else 31
  }

  predicate Valid(t: Date) {
    t.y >= 0 && 1 <= t.m <= 12 && 1 <= t.d <= MonthLength(t.y, t.m)
  }

  function NextDay(t: Date): (r: Date)
    requires Valid(t)
    ensures Valid(r)
  {
    if t.d < MonthLength(t.y, t.m) then Date(t.y, t.m, t.d + 1)
    else if t.m < 12 then Date(t.y, t.m + 1, 1)
    else Date(t.y + 1, 1, 1)
  }

  /** The date reached from 0000-01-01 by `n` steps of one day. */
  function DateAfter(n: nat): (t: Date)
    ensures Valid(t)
  {
    if n == 0 then Date(0, 1, 1) else NextDay(DateAfter(n - 1))
  }
}
