/** What the lazy conversions of a DateTime mean: days, times of day, and round trips. */
module TimeOfDay {
  import opened CInt
  import opened Gregorian
  import opened JulianDay
  import opened DateTime

  /** A structure that holds nothing but an instant, on or after 0000-01-01 00:00. */
  predicate Instant(p: Stamp) {
    p.validJD && !p.validYMD && !p.validHMS && !p.validTZ && p.rJD >= EPOCH as real - 0.5
  }

  /** The broken-down time of day is one that a clock shows, on the millisecond grid. */
  predicate ClockTime(p: Stamp) {
    0 <= p.h < 24 && 0 <= p.m < 60 && 0.0 <= p.s < 60.0 && Trunc(p.s * 1000.0) as real == p.s * 1000.0
  }

  /** The number of the millisecond of day that a broken-down time names. */
  function ClockMillis(p: Stamp): int {
    p.h * 3600000 + p.m * 60000 + Trunc(p.s * 1000.0)
  }

  /** The day is the calendar's day, counted one by one from 0000-01-01. */
  function DayOf(p: Stamp): (t: Date)
    requires p.rJD >= EPOCH as real - 0.5
  {
    DateAfter(p.Day() - EPOCH)
  }

  lemma WholeDayAndMillis(p: Stamp)
    requires p.rJD >= -0.5
    ensures p.Day() >= 0 && 0.0 <= p.Millis() < 86400000.0
    ensures p.rJD == p.Day() as real - 0.5 + p.Millis() / 86400000.0
    ensures 0 <= RoundedMillis(p.rJD) <= DAY_MS
    ensures -0.5 < RoundedMillis(p.rJD) as real - p.Millis() <= 0.5
  {
  }

  lemma SplitMillis(n: int)
    requires 0 <= n <= DAY_MS
    ensures var t := Div(n, 1000); var h := Div(t, 3600); var m := Div(t - h * 3600, 60);
            && 0 <= h <= 24 && 0 <= m < 60 && (h == 24 <==> n == DAY_MS)
            && 0 <= n - (h * 3600 + m * 60) * 1000 < 60000
  {
  }

  lemma TruncInt(k: int)
    ensures Trunc(k as real) == k
  {
  }

  lemma RoundsToMidnight(p: Stamp)
    requires p.rJD >= -0.5
    ensures RoundedMillis(p.rJD) == DAY_MS <==> p.Millis() >= 86399999.5
  {
    WholeDayAndMillis(p);
  }

  /** The time of day that computeHMS finds is the instant's, to the nearest millisecond;
      it is a clock time exactly when rounding does not reach the next midnight. */
  lemma HMSOfInstant(p: Stamp)
    requires p.rJD >= -0.5 && !p.validHMS
    ensures var q := AfterHMS(p);
            && q == p.(h := q.h, m := q.m, s := q.s, validHMS := true)
            && 0 <= q.h <= 24 && 0 <= q.m < 60 && 0.0 <= q.s < 60.0
            && q.Seconds() == 0.001 * RoundedMillis(p.rJD) as real
            && -0.5 < q.Seconds() * 1000.0 - p.Millis() <= 0.5
            && (ClockTime(q) <==> p.Millis() < 86399999.5)
  {
    hide Div, Trunc, RoundedMillis;
    WholeDayAndMillis(p);
    var n := RoundedMillis(p.rJD);
    SplitMillis(n);
    var q := AfterHMS(p);
    TruncInt(n - (q.h * 3600 + q.m * 60) * 1000);
    RoundsToMidnight(p);
    assert q.s * 1000.0 == (n - (q.h * 3600 + q.m * 60) * 1000) as real;
  }

  /** A calendar date and a clock time, broken down and nothing else valid. */
  predicate BrokenDown(p: Stamp) {
    p.validYMD && p.validHMS && !p.validJD && !p.validTZ && p.Y >= 0 && 1 <= p.M <= 12 && 1 <= p.D && ClockTime(p)
  }

  lemma DayNumberFromEpoch(Y: int, M: int, D: int)
    requires Y >= 0 && 1 <= M <= 12 && D >= 1
    ensures DayNumber(Y, M, D) >= EPOCH
  {
    hide MonthDays, YearDays;
    DayNumberOfValid(Gregorian.Date(Y, M, 1));
  }

  /** The instant n milliseconds past midnight of day z. */
  function Moment(z: int, n: int): (rJD: real) {
    z as real - 0.5 + n as real / 86400000.0
  }

  lemma AtMillis(z: int, n: int)
    requires z >= 0 && 0 <= n < DAY_MS
    ensures DayIn(Moment(z, n)) == z && MillisIn(Moment(z, n)) == n as real && RoundedMillis(Moment(z, n)) == n
  {
    assert Moment(z, n) + 0.5 == z as real + n as real / 86400000.0;
    TruncInt(n);
  }

  lemma ClockSplits(p: Stamp)
    requires ClockTime(p)
    ensures var t := Div(ClockMillis(p), 1000);
            && Div(t, 3600) == p.h && Div(t - p.h * 3600, 60) == p.m
            && 0.001 * ClockMillis(p) as real == p.Seconds() && 0 <= ClockMillis(p) < DAY_MS
  {
    var k := Trunc(p.s * 1000.0);
    assert 0 <= k < 60000;
    FloorIs(ClockMillis(p), p.h * 3600 + p.m * 60 + k / 1000, 1000);
    FloorIs(p.h * 3600 + p.m * 60 + k / 1000, p.h, 3600);
    FloorIs(p.m * 60 + k / 1000, p.m, 60);
  }

  /** computeJD sends a date and time to the instant at that millisecond of that day. */
  lemma JDOfClock(p: Stamp)
    requires BrokenDown(p)
    ensures var i := Cleared(AfterJD(p));
            && Instant(i) && i.Day() == DayNumber(p.Y, p.M, p.D)
            && i.Millis() == ClockMillis(p) as real && RoundedMillis(i.rJD) == ClockMillis(p) < DAY_MS
            && 0 <= ClockMillis(p)
  {
    hide DayNumber, Trunc, RoundedMillis;
    DayNumberFromEpoch(p.Y, p.M, p.D);
    ClockSplits(p);
    AtMillis(DayNumber(p.Y, p.M, p.D), ClockMillis(p));
  }

  /** Times of day survive the way through the Julian day number exactly, and so does every
      date of the calendar but 0300-03-01. */
  lemma ClockRoundTrip(p: Stamp)
    requires BrokenDown(p) && Valid(p.Date())
    ensures var q := AfterYMD_HMS(Cleared(AfterJD(p)));
            && q.h == p.h && q.m == p.m && q.s == p.s
            && q.Date() == (if p.Date() != Gregorian.Date(300, 3, 1) then p.Date() else Gregorian.Date(300, 2, 29))
  {
    hide DayNumber, DateOf, Trunc, RoundedMillis;
    BadDate();
    JDOfClock(p);
    DateOfDayNumber(p.Date());
    ClockSplits(p);
  }

  lemma DayAtLeastEpoch(p: Stamp)
    requires Instant(p)
    ensures p.Day() >= EPOCH
  {
  }

  lemma GridRounds(p: Stamp)
    requires p.rJD >= -0.5
    ensures p.OnGrid() <==> RoundedMillis(p.rJD) as real == p.Millis()
  {
    WholeDayAndMillis(p);
    if RoundedMillis(p.rJD) as real == p.Millis() { TruncInt(RoundedMillis(p.rJD)); }
    if p.OnGrid() { assert Trunc(p.Millis() + 0.5) == Trunc(p.Millis()); }
  }

  /** Breaking an instant down and computing the day number again moves it to the nearest
      millisecond: it stays where it was exactly when it lies on the millisecond grid. */
  lemma BreakAndRebuild(p: Stamp)
    requires Instant(p)
    ensures var r := AfterJD(AfterYMD_HMS(p).(validJD := false));
            && r.rJD == Moment(p.Day(), RoundedMillis(p.rJD))
            && -0.5 < (r.rJD - p.rJD) * 86400000.0 <= 0.5
            && (r.rJD == p.rJD <==> p.OnGrid())
  {
    hide DayNumber, DateOf, Trunc, RoundedMillis;
    WholeDayAndMillis(p);
    DayAtLeastEpoch(p);
    DayNumberOfDate(p.Day());
    HMSOfInstant(p.(Y := DateOf(p.Day()).y, M := DateOf(p.Day()).m, D := DateOf(p.Day()).d, validYMD := true));
    GridRounds(p);
  }

  lemma DateOfIsPositive(p: Stamp)
    requires Instant(p)
    ensures p.Day() >= EPOCH && Gregorian.Valid(DateAfter(p.Day() - EPOCH))
    ensures var d := DateOf(p.Day()); d.y >= 0 && 1 <= d.m <= 12 && 1 <= d.d <= 31
    ensures p.Day() != BAD_DAY ==> DateOf(p.Day()) == DateAfter(p.Day() - EPOCH)
    ensures DayNumber(DateOf(p.Day()).y, DateOf(p.Day()).m, DateOf(p.Day()).d) == p.Day()
  {
    hide DayNumber, DateOf;
    DayAtLeastEpoch(p);
    DateOfCountsDays(p.Day() - EPOCH);
    DayNumberOfDate(p.Day());
    BadDate();
  }

  /** An instant a whole number of milliseconds past midnight breaks down to that clock time. */
  lemma MomentBrokenDown(i: Stamp, z: int, c: Stamp)
    requires Instant(i) && ClockTime(c) && z >= EPOCH && i.rJD == Moment(z, ClockMillis(c))
    ensures var q := AfterYMD_HMS(i); q.Date() == DateOf(z) && q.h == c.h && q.m == c.m && q.s == c.s
  {
    hide DateOf, Trunc, RoundedMillis;
    ClockSplits(c);
    AtMillis(z, ClockMillis(c));
  }
}
