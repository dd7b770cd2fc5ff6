/** What the modifiers `start of` do, to instants and to dates and times read from a text. */
module StartOfLaws {
  import opened CText
  import opened Gregorian
  import opened JulianDay
  import opened DateTime
  import opened TimeOfDay
  import opened DateText
  import opened DateModifiers
  import opened DateTextRoundTrip
  import opened DateStamps
  import opened MonthLaws

  lemma {:induction false} MonthsGrow(y: int, m: int, m': int)
    requires y >= 0 && 1 <= m <= m' <= 12
    ensures DayNumber(y, m, 1) <= DayNumber(y, m', 1)
    decreases m' - m
  {
    hide YearDays, MonthDays;
    if m < m' {
      MonthsGrow(y, m + 1, m');
      NextMonthIsLater(Gregorian.Date(y, m, 1), y, m + 1, 1);
    }
  }

  /** The first day of the unit that contains the date. */
  function FirstOf(unit: string, t: Date): (f: Date) {
    Gregorian.Date(t.y, if unit == "year" then 1 else t.m, if unit == "day" then t.d else 1)
  }

  lemma FirstOfIsEarlier(unit: string, t: Date)
    requires Gregorian.Valid(t)
    ensures var f := FirstOf(unit, t);
            Gregorian.Valid(f) && EPOCH <= DayNumber(f.y, f.m, f.d) <= DayNumber(t.y, t.m, t.d)
  {
    hide DayNumber;
    var f := FirstOf(unit, t);
    DayNumberOfValid(f);
    MonthsGrow(t.y, 1, t.m);
    DayNumberLinear(t.y, t.m, f.d, t.d);
    DayNumberLinear(t.y, 1, f.d, 1);
    DayNumberLinear(t.y, t.m, f.d, 1);
  }

  /** The structure after `start of` counts from the date that DateOf gives. */
  lemma StartOfUnitDay(p: Stamp, unit: string)
    requires Instant(p) && unit in {"day", "month", "year"}
    ensures var o, f := Modified(p, StartOf(unit)), FirstOf(unit, DateOf(p.Day()));
            !o.failed && AfterJD(o.p).rJD == Moment(DayNumber(f.y, f.m, f.d), 0)
  {
    hide DayNumber, DateOf;
  }

  lemma StartOnBadDay(p: Stamp, unit: string)
    requires Instant(p) && p.Day() == BAD_DAY && unit in {"day", "month", "year"}
    ensures var f, g := FirstOf(unit, DayOf(p)), FirstOf(unit, DateOf(p.Day()));
            && (DayNumber(f.y, f.m, f.d) == DayNumber(g.y, g.m, g.d) <==> unit != "month")
            && DayNumber(g.y, g.m, g.d) <= DayNumber(f.y, f.m, f.d)
            && (unit == "month" ==> g == Gregorian.Date(300, 2, 1))
  {
    hide DayNumber, DateOf;
    BadDate();
    DayNumberOfValid(Gregorian.Date(300, 3, 1));
    MonthGap(300, 2, 300, 3, 1);
    DayNumberLinear(300, 2, 29, 1);
  }

  /** `start of` gives midnight of the first day of the unit that contains the instant, for
      every instant and unit but the month of 0300-03-01: that one starts on 0300-02-01. */
  lemma StartOfUnitOfInstant(p: Stamp, unit: string)
    requires Instant(p) && unit in {"day", "month", "year"}
    ensures var o, f := Modified(p, StartOf(unit)), FirstOf(unit, DayOf(p));
            var bad := unit == "month" && p.Day() == BAD_DAY;
            && !o.failed && Gregorian.Valid(f) && AfterJD(o.p).rJD <= p.rJD
            && (AfterJD(o.p).rJD == Moment(DayNumber(f.y, f.m, f.d), 0) <==> !bad)
            && (bad ==> AfterJD(o.p).rJD == Moment(DayNumber(300, 2, 1), 0))
  {
    hide DayNumber, DateOf, Modified, AfterJD, FirstOf;
    DateOfIsPositive(p);
    DayNumberCountsDays(p.Day() - EPOCH);
    WholeDayAndMillis(p);
    StartOfUnitDay(p, unit);
    FirstOfIsEarlier(unit, DayOf(p));
    if p.Day() == BAD_DAY { StartOnBadDay(p, unit); }
  }

  /** Without an instant `start of` counts from the date as it is written. */
  lemma StartOfUnitOfDate(p: Stamp, unit: string)
    requires Usable(p) && !p.validJD && unit in {"day", "month", "year"}
    ensures var o, f := Modified(p, StartOf(unit)), FirstOf(unit, NamedDate(p));
            !o.failed && AfterJD(o.p).rJD == Moment(DayNumber(f.y, f.m, f.d), 0)
  {
    hide DayNumber, DateOf;
  }

  /** The days between the date as it is written and the day of the instant that it names with
      its time and time zone. */
  function DaysOver(p: Stamp): (days: int) { AfterJD(p).Day() - NamedDay(p) }

  lemma DaysOverIs(p: Stamp)
    requires Usable(p) && !p.validJD && AfterEpoch(AfterJD(p).rJD)
    ensures -1 <= DaysOver(p) <= 1
    ensures !p.validTZ ==> DaysOver(p) == if Overflows(p) then 1 else 0
  {
    hide DayNumber;
    if Clocked(p) {
      ClockInstant(p);
    } else if p.validTZ {
      SecondsRange(p);
      assert AfterJD(p).rJD == NamedDay(p) as real - 0.5 + p.Seconds() / 86400.0 + (p.tz * 60) as real / 86400.0;
    } else {
      assert AfterJD(p).rJD == NamedDay(p) as real - 0.5;
    }
  }

  /** The day that lies `over` days behind the written date c is in the same unit as c. */
  predicate SameUnit(unit: string, c: Date, over: int)
    requires 1 <= c.m <= 12
  {
    if unit == "day" then over == 0
    else if unit == "month" then 1 <= c.d + over <= MonthLength(c.y, c.m)
    else (c.m == 1 ==> c.d + over >= 1) && (c.m == 12 ==> c.d + over <= 31)
  }

  /** The day before the first of a month is in the month before. */
  lemma DayBefore(c: Date, z: int)
    requires c.y >= 0 && 1 <= c.m <= 12 && z == DayNumber(c.y, c.m, 1) - 1 && z >= EPOCH
    ensures MonthsLater(DateAfter(z - EPOCH), 1, c.y, c.m)
  {
    hide DayNumber;
    DayNumberOfValid(Gregorian.Date(c.y, c.m, 1));
    assert DateAfter(z + 1 - EPOCH) == NextDay(DateAfter(z - EPOCH));
  }

  /** The written date c, moved by at most a day, as a date of the calendar. */
  lemma MovedDate(c: Date, over: int, z: int)
    requires c.y >= 0 && 1 <= c.m <= 12 && 1 <= c.d <= 31 && -1 <= over <= 1
    requires z == DayNumber(c.y, c.m, c.d) + over && z >= EPOCH
    ensures var t, e := DateAfter(z - EPOCH), c.d + over;
            && Gregorian.Valid(t) && DayNumber(t.y, t.m, t.d) == z
            && (1 <= e <= MonthLength(c.y, c.m) ==> t == Gregorian.Date(c.y, c.m, e))
            && (e > MonthLength(c.y, c.m) ==> MonthsLater(c, 1, t.y, t.m))
            && (e < 1 ==> MonthsLater(t, 1, c.y, c.m))
  {
    hide DayNumber, DateOf;
    var t, e, len := DateAfter(z - EPOCH), c.d + over, MonthLength(c.y, c.m);
    DayNumberCountsDays(z - EPOCH);
    DayNumberLinear(c.y, c.m, e, c.d);
    if e > len {
      DayPastMonthEnd(c.y, c.m, e);
      DayNumberOfValid(NextDay(Gregorian.Date(c.y, c.m, len)).(d := e - len));
    } else if e >= 1 {
      DayNumberOfValid(Gregorian.Date(c.y, c.m, e));
    } else {
      DayBefore(c, z);
    }
  }

  lemma SameFirstDay(unit: string, t: Date, c: Date)
    requires Gregorian.Valid(t) && c.y >= 0 && 1 <= c.m <= 12 && unit in {"month", "year"}
    ensures var f, g := FirstOf(unit, t), FirstOf(unit, c);
            DayNumber(f.y, f.m, f.d) == DayNumber(g.y, g.m, g.d) <==> t.y == c.y && (unit == "month" ==> t.m == c.m)
  {
    hide DayNumber;
    DayNumberOfValid(FirstOf(unit, t));
    DayNumberOfValid(FirstOf(unit, c));
  }

  lemma FirstOfDay(t: Date)
    ensures FirstOf("day", t) == t
  {
  }

  lemma SameMidnight(c: Date, t: Date, unit: string)
    ensures var f, g := FirstOf(unit, t), FirstOf(unit, c);
            Moment(DayNumber(g.y, g.m, g.d), 0) == Moment(DayNumber(f.y, f.m, f.d), 0)
            <==> DayNumber(g.y, g.m, g.d) == DayNumber(f.y, f.m, f.d)
  {
    hide DayNumber;
  }

  /** For a date and time read from a text, `start of` gives the first day of the unit that
      contains the named instant exactly when neither a day past the month's end nor a time
      of 24:00 has carried that instant into another unit. */
  lemma StartOfUnitOfText(p: Stamp, unit: string)
    requires Usable(p) && !p.validJD && unit in {"day", "month", "year"} && AfterEpoch(AfterJD(p).rJD)
    requires var c := NamedDate(p); c.y >= 0 && 1 <= c.m <= 12 && 1 <= c.d <= 31
    ensures var z := AfterJD(p).Day();
            && z >= EPOCH
            && var f := FirstOf(unit, DateAfter(z - EPOCH));
               AfterJD(Modified(p, StartOf(unit)).p).rJD == Moment(DayNumber(f.y, f.m, f.d), 0)
               <==> SameUnit(unit, NamedDate(p), DaysOver(p))
  {
    hide DayNumber, DateOf, Modified, AfterJD, FirstOf, Usable, DayIn;
    var z, c := AfterJD(p).Day(), NamedDate(p);
    EpochDay(AfterJD(p).rJD);
    var t := DateAfter(z - EPOCH);
    StartOfUnitOfDate(p, unit);
    DaysOverIs(p);
    MovedDate(c, DaysOver(p), z);
    if unit == "day" {
      FirstOfDay(t); FirstOfDay(c);
    } else {
      SameFirstDay(unit, t, c);
    }
    SameMidnight(c, t, unit);
  }

  /** 30 February is 2 March, but its month starts on 1 February. */
  lemma StartOfMonthFails(host: Host)
    ensures var r := DateOrTime(DatetimeText(2001, 2, 30, 0, 0, 0), host);
            && !r.failed && AfterJD(r.p).rJD == Moment(DayNumber(2001, 3, 2), 0)
            && AfterJD(Modified(r.p, StartOf("month")).p).rJD == Moment(DayNumber(2001, 2, 1), 0)
  {
    hide DatetimeText, YyyyMmDd, HhMmSs, DateOf;
    ParsePrinted(2001, 2, 30, 0, 0, 0, ZERO);
    StartOfUnitOfDate(Held(ZERO, 2001, 2, 30, 0, 0, 0), "month");
    MonthGap(2001, 2, 2001, 3, 2);
    DayNumberLinear(2001, 2, 30, 2);
  }

  /** `start of week` is documented, but is an error. */
  lemma StartOfWeekFails(p: Stamp, host: Host)
    ensures ModifiedBy(p, "start of week", host).failed
  {
    hide AfterYMD;
    var text: CString := "start of week";
    assert Lowered(text) == text;
    FirstLetters(text);
    assert "start of " <= text && From(text, 9) == "week";
    assert text[0] == 's';
  }
}
