/** Days of the week, and what the modifier `weekday` does. */
module WeekdayLaws {
  import opened CInt
  import opened Gregorian
  import opened JulianDay
  import opened DateTime
  import opened TimeOfDay
  import opened DateModifiers
  import opened DateStamps

  /** Day of the week, counted one day at a time; 0 is Sunday, and 0000-01-01 a Saturday. */
  function WeekdayAfter(n: nat): (w: int)
    ensures 0 <= w <= 6
  {
    if n == 0 then 6 else (WeekdayAfter(n - 1) + 1) % 7
  }

  function WeekdayOf(p: Stamp): (w: int)
    requires p.rJD >= EPOCH as real - 0.5
  {
    WeekdayAfter(p.Day() - EPOCH)
  }

  lemma DaysAhead(z: int, days: int)
    requires z >= 0 && 0 <= days < 7
    ensures (z + days) % 7 == (if z % 7 + days < 7 then z % 7 + days else z % 7 + days - 7)
  {
    FloorIs(z + days, z / 7 + (if z % 7 + days < 7 then 0 else 1), 7);
  }

  lemma {:induction false} WeekdayFormula(n: nat)
    ensures WeekdayAfter(n) == (EPOCH + n + 1) % 7
  {
    if n > 0 {
      WeekdayFormula(n - 1);
      DaysAhead(EPOCH + n, 1);
    }
  }

  /** 2000-01-01 was a Saturday. */
  lemma WeekdayAnchor()
    ensures DayNumber(2000, 1, 1) == 2451545 && DateAfter(2451545 - EPOCH) == Gregorian.Date(2000, 1, 1)
    ensures WeekdayAfter(2451545 - EPOCH) == 6
  {
    assert YearDays(1999) == 2452640 && MonthDays(13) == 428;
    DayNumberOfValid(Gregorian.Date(2000, 1, 1));
    WeekdayFormula(2451545 - EPOCH);
  }

  /** Days from day z to the next day that is weekday n. */
  function DaysToWeekday(z: int, n: int): (days: int) {
    var w := (z + 1) % 7;
    if w > n then n - w + 7 else n - w
  }

  lemma WeekdayReached(z: int, n: int)
    requires z >= EPOCH && 0 <= n < 7
    ensures var days := DaysToWeekday(z, n);
            && 0 <= days < 7 && WeekdayAfter(z + days - EPOCH) == n
            && (days == 0 <==> WeekdayAfter(z - EPOCH) == n)
  {
    WeekdayFormula(z - EPOCH);
    WeekdayFormula(z + DaysToWeekday(z, n) - EPOCH);
    DaysAhead(z + 1, DaysToWeekday(z, n));
  }

  /** The instant from which `weekday` counts: the nearest millisecond of an instant; the
      clock time of its date, without its time zone; noon of a date without a time, because
      computeHMS reads rJD, which nothing has set. */
  function WeekdayStart(p: Stamp): (rJD: real) {
    if p.validJD then Moment(p.Day(), RoundedMillis(p.rJD))
    else if p.validHMS then MomentAt(NamedDay(p), p.Seconds() * 1000.0)
    else Moment(NamedDay(p), 43200000)
  }

  /** The same time of day, as documented, is kept exactly by instants on the millisecond grid
      and by clock times without a time zone. */
  lemma WeekdayStarts(p: Stamp)
    requires Usable(p) && (p.validJD ==> AfterEpoch(p.rJD))
    ensures WeekdayStart(p) == AfterJD(p).rJD <==> if p.validJD then p.OnGrid() else Clocked(p)
    ensures p.validJD ==> -0.5 < (WeekdayStart(p) - p.rJD) * 86400000.0 <= 0.5
    ensures p.validTZ ==> WeekdayStart(p) == AfterJD(p).rJD - (p.tz * 60) as real / 86400.0
    ensures !p.validJD && !p.validHMS ==> WeekdayStart(p) == AfterJD(p).rJD + 0.5
  {
    hide DayNumber, RoundedMillis, Trunc, MillisIn;
    if p.validJD {
      WholeDayAndMillis(p);
      GridRounds(p);
    }
  }

  lemma NoonOfZeroJD()
    ensures RoundedMillis(0.0) == 43200000 && Div(43200000, 1000) == 43200 && Div(43200, 3600) == 12
  {
  }

  lemma BrokenDownJD(p: Stamp)
    requires Instant(p)
    ensures var a := AfterYMD_HMS(p); !a.validTZ && a.(validTZ := false, validJD := false) == a.(validJD := false)
  {
  }

  lemma WeekdayBase(p: Stamp)
    requires Usable(p) && AfterEpoch(if p.validJD then p.rJD else WeekdayStart(p))
    ensures var q := AfterJD(AfterYMD_HMS(p).(validTZ := false, validJD := false));
            q.validJD && q.rJD == WeekdayStart(p)
  {
    hide DayNumber, DateOf, Trunc, MillisIn;
    if p.validJD {
      hide RoundedMillis, AfterYMD_HMS;
      BreakAndRebuild(p);
      BrokenDownJD(p);
    } else if !p.validHMS {
      NoonOfZeroJD();
    }
  }

  lemma NoonWeekday(rJD: real)
    requires AfterEpoch(rJD)
    ensures DayIn(rJD) >= EPOCH && Mod(Trunc(rJD + 1.5), 7) == (DayIn(rJD) + 1) % 7
  {
  }

  lemma DaysLater(rJD: real, days: int)
    requires AfterEpoch(rJD) && days >= 0
    ensures DayIn(rJD + days as real) == DayIn(rJD) + days && AfterEpoch(rJD + days as real)
  {
  }

  lemma StartAfterEpoch(p: Stamp)
    requires AfterEpoch(if p.validJD then p.rJD else WeekdayStart(p))
    ensures AfterEpoch(WeekdayStart(p))
  {
    hide DayNumber, RoundedMillis;
    if p.validJD { WholeDayAndMillis(p); }
  }

  /** `weekday n` moves that start forward by the least number of whole days that leads to
      weekday n: none if it is that weekday already. */
  lemma WeekdayShift(p: Stamp, n: int)
    requires Usable(p) && AfterEpoch(if p.validJD then p.rJD else WeekdayStart(p)) && 0 <= n < 7
    ensures var o := Modified(p, Weekday(n as real)); var r := o.p;
            var z := DayIn(WeekdayStart(p)); var days := r.Day() - z;
            && !o.failed && Instant(r) && z >= EPOCH
            && 0 <= days < 7 && r.rJD == WeekdayStart(p) + days as real
            && WeekdayOf(r) == n && (days == 0 <==> WeekdayAfter(z - EPOCH) == n)
  {
    hide DayNumber, DateOf, AfterYMD_HMS, AfterJD, DayIn, Trunc, WeekdayStart, WeekdayAfter;
    TruncInt(n);
    WeekdayBase(p);
    var rJD := WeekdayStart(p);
    StartAfterEpoch(p);
    NoonWeekday(rJD);
    WeekdayReached(DayIn(rJD), n);
    DaysLater(rJD, DaysToWeekday(DayIn(rJD), n));
  }
}
