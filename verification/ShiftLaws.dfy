/** What shifts by a number of units do: the units of a fixed length, the names that are units,
    and fractions of months and years. */
module ShiftLaws {
  import opened CInt
  import opened Gregorian
  import opened JulianDay
  import opened DateTime
  import opened DateModifiers
  import opened DateStamps

  lemma SingularUnits()
    ensures Singular("second") == "second" && Singular("minute") == "minute" && Singular("hour") == "hour"
    ensures Singular("day") == "day" && Singular("month") == "month" && Singular("year") == "year"
  {
  }

  /** r seconds, minutes, hours or days move every stamp by exactly r times as many seconds. */
  lemma UnitShift(p: Stamp, r: real, unit: string, seconds: real)
    requires (unit, seconds) in {("second", 1.0), ("minute", 60.0), ("hour", 3600.0), ("day", 86400.0)}
    ensures var o := Modified(p, Shift(r, unit)); var q := o.p;
            && !o.failed && q.validJD && !q.validYMD && !q.validHMS && !q.validTZ
            && SecondsSince1970(q) == SecondsSince1970(p) + r * seconds
  {
  }

  /** The date n days later, one day at a time. */
  function LaterDate(t: Date, n: nat): (r: Date)
    requires Gregorian.Valid(t)
    ensures Gregorian.Valid(r)
  {
    if n == 0 then t else NextDay(LaterDate(t, n - 1))
  }

  lemma {:induction false} LaterInCount(a: nat, n: nat)
    ensures LaterDate(DateAfter(a), n) == DateAfter(a + n)
  {
    if n > 0 { LaterInCount(a, n - 1); }
  }

  lemma WholeDays(rJD: real, n: int)
    requires AfterEpoch(rJD) && AfterEpoch(rJD + n as real)
    ensures DayIn(rJD) >= EPOCH && DayIn(rJD + n as real) == DayIn(rJD) + n >= EPOCH
    ensures MillisIn(rJD + n as real) == MillisIn(rJD)
  {
  }

  /** A whole number of days, forwards or backwards, moves the date by that many steps of one
      day in the calendar and keeps the time of day. */
  lemma DaysShift(p: Stamp, n: int)
    requires AfterEpoch(AfterJD(p).rJD) && AfterEpoch(AfterJD(p).rJD + n as real)
    ensures var q := Modified(p, Shift(n as real, "day")).p;
            && AfterEpoch(AfterJD(q).rJD) && AfterJD(q).Millis() == AfterJD(p).Millis()
            && if n >= 0 then CalendarDate(q) == LaterDate(CalendarDate(p), n)
               else CalendarDate(p) == LaterDate(CalendarDate(q), -n)
  {
    hide Modified, AfterJD, DayIn, MillisIn;
    var q := Modified(p, Shift(n as real, "day")).p;
    UnitShift(p, n as real, "day", 86400.0);
    assert AfterJD(q).rJD == AfterJD(p).rJD + n as real;
    WholeDays(AfterJD(p).rJD, n);
    if n >= 0 { LaterInCount(AfterJD(p).Day() - EPOCH, n); } else { LaterInCount(AfterJD(q).Day() - EPOCH, -n); }
  }

  const UNITS := {"second", "minute", "hour", "day", "month", "year"}

  lemma PluralIsSingular(u: string)
    requires u in UNITS
    ensures Singular(u + "s") == u == Singular(u) && 3 <= |u| <= 6
  {
    SingularUnits();
    assert (u + "s")[..|u|] == u;
  }

  /** A unit and its plural shift alike. */
  lemma PluralShift(p: Stamp, r: real, u: string)
    requires u in UNITS
    ensures Modified(p, Shift(r, u + "s")) == Modified(p, Shift(r, u))
  {
    hide ShiftedBy, Singular;
    PluralIsSingular(u);
  }

  /** The six units and their plurals are the only names that shift; any other is an error. */
  lemma OnlyUnitsShift(p: Stamp, r: real, unit: string)
    ensures !Modified(p, Shift(r, unit)).failed <==> unit in UNITS || exists u :: u in UNITS && unit == u + "s"
  {
    hide AfterJD, MonthsShifted, YearsShifted;
    var u := Singular(unit);
    if u in UNITS {
      PluralIsSingular(u);
      assert unit == u || unit == u + "s";
    }
    if unit in UNITS { PluralIsSingular(unit); }
    forall v | v in UNITS && unit == v + "s" ensures u in UNITS && 3 <= |unit| <= 10 { PluralIsSingular(v); }
  }

  lemma CutToward0(r: real, k: int)
    requires if r >= 0.0 then k as real <= r < k as real + 1.0 else k as real - 1.0 < r <= k as real
    ensures Trunc(r) == k
  {
  }

  /** Of a fractional number the whole months are shifted by the calendar, and each rest adds
      thirty days; of a fractional number of years the rest is dropped. */
  lemma FractionalShift(p: Stamp, r: real, k: int)
    requires if r >= 0.0 then k as real <= r < k as real + 1.0 else k as real - 1.0 < r <= k as real
    ensures var o, whole := Modified(p, Shift(r, "month")), Modified(p, Shift(k as real, "month"));
            o.failed == whole.failed && o.p == whole.p.(rJD := whole.p.rJD + 30.0 * (r - k as real))
    ensures Modified(p, Shift(r, "year")) == Modified(p, Shift(k as real, "year"))
  {
    hide AfterJD, AfterYMD_HMS, Trunc, Div, Singular;
    CutToward0(r, k);
    CutToward0(k as real, k);
    SingularUnits();
    assert "year"[0] == 'y';
  }
}
