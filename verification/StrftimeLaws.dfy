/** What the conversions of strftime mean in the calendar. */
module StrftimeLaws {
  import opened CInt
  import opened CText
  import opened Gregorian
  import opened JulianDay
  import opened DateTime
  import opened TimeOfDay
  import opened DateModifiers
  import opened DateStamps
  import opened ParsedStamps
  import opened WeekdayLaws
  import opened Strftime
  import opened DateText
  import opened DateTextRoundTrip

  function DaysBeforeMonth(y: int, m: int): (n: nat)
    requires 1 <= m <= 12
  {
    if m == 1 then 0 else DaysBeforeMonth(y, m - 1) + MonthLength(y, m - 1)
  }

  /** 1 for 1 January. */
  function DayOfYear(t: Date): (n: int)
    requires Valid(t)
  {
    DaysBeforeMonth(t.y, t.m) + t.d
  }

  lemma {:induction false} DayOfYearIsDifference(y: int, m: int)
    requires y >= 0 && 1 <= m <= 12
    ensures DayNumber(y, m, 1) == DayNumber(y, 1, 1) + DaysBeforeMonth(y, m)
  {
    hide YearDays, MonthDays;
    if m > 1 {
      DayOfYearIsDifference(y, m - 1);
      NextDayIsNextNumber(Gregorian.Date(y, m - 1, MonthLength(y, m - 1)));
    }
  }

  lemma {:induction false} DaysBeforeMonthBound(y: int, m: int)
    requires 1 <= m <= 12
    ensures DaysBeforeMonth(y, m) <= [0, 31, 60, 91, 121, 152, 182, 213, 244, 274, 305, 335][m - 1]
  {
    if m > 1 { DaysBeforeMonthBound(y, m - 1); }
  }

  lemma DayOfYearRange(t: Date)
    requires Valid(t)
    ensures 1 <= DayOfYear(t) <= 366
    ensures DayNumber(t.y, t.m, t.d) == DayNumber(t.y, 1, 1) + DayOfYear(t) - 1
  {
    hide DayNumber;
    DaysBeforeMonthBound(t.y, t.m);
    DayOfYearIsDifference(t.y, t.m);
    DayNumberLinear(t.y, t.m, t.d, 1);
  }

  /** The date that the conversions use has the right year, even on 0300-03-01. */
  lemma YearOfInstant(p: Stamp)
    requires Instant(p)
    ensures var t := DayOf(p);
            && Valid(t) && DateOf(p.Day()).y == t.y
            && p.Day() == DayNumber(t.y, 1, 1) + DayOfYear(t) - 1
  {
    hide DayNumber, DateOf;
    DateOfIsPositive(p);
    DayNumberCountsDays(p.Day() - EPOCH);
    DayOfYearRange(DayOf(p));
    DateOfCountsDays(p.Day() - EPOCH);
    DateOfDayNumber(DayOf(p));
    BadDate();
  }

  /** The distance to the start of the year, up to the rounding of the time of day. */
  lemma NewYearGap(p: Stamp) returns (w: real)
    requires Instant(p)
    ensures -1.0 < w < 1.0 && (w < 0.0 <==> p.Millis() < RoundedMillis(p.rJD) as real)
    ensures DaysIntoYear(Converted(p)) == Trunc((p.Day() - DayNumber(DateOf(p.Day()).y, 1, 1)) as real + w)
  {
    hide DayNumber, DateOf, RoundedMillis, Trunc, MillisIn, DayIn;
    w := (p.Millis() - RoundedMillis(p.rJD) as real) / 86400000.0;
    var x := Converted(p);
    WholeDayAndMillis(p);
    HMSOfInstant(AfterYMD(p));
    var y := AfterJD(x.(validJD := false, M := 1, D := 1));
    assert y.rJD == Moment(DayNumber(DateOf(p.Day()).y, 1, 1), RoundedMillis(p.rJD));
    assert x.rJD == Moment(p.Day(), 0) + p.Millis() / 86400000.0;
    assert x.rJD - y.rJD == (p.Day() - DayNumber(DateOf(p.Day()).y, 1, 1)) as real + w;
  }

  lemma TruncNear(n: int, w: real)
    requires n >= 0 && -1.0 < w < 1.0
    ensures Trunc(n as real + w) == if w >= 0.0 || n == 0 then n else n - 1
  {
  }

  lemma DayOfYearOfInstant(p: Stamp)
    requires Instant(p)
    ensures var n := DaysIntoYear(Converted(p)) + 1;
            var t := DayOf(p);
            && 1 <= DayOfYear(t) <= 366
            && (n == DayOfYear(t) <==> RoundedMillis(p.rJD) as real <= p.Millis() || DayOfYear(t) == 1)
            && (n == DayOfYear(t) || n == DayOfYear(t) - 1)
  {
    hide DayNumber, DateOf, RoundedMillis, Trunc, MillisIn, DayIn, DayOfYear;
    var w := NewYearGap(p);
    YearOfInstant(p);
    DayOfYearRange(DayOf(p));
    TruncNear(DayOfYear(DayOf(p)) - 1, w);
  }

  lemma NewYearOfClock(x: Stamp)
    requires x.validHMS && !x.validTZ
    ensures AfterJD(x.(validJD := false, validYMD := true, M := 1, D := 1)).rJD
            == MomentAt(DayNumber(x.Y, 1, 1), x.Seconds() * 1000.0)
  {
    hide DayNumber;
  }

  /** The day in the year of a clock time: both instants are at that time of their days. */
  lemma DayOfYearOfClock(p: Stamp)
    requires Usable(p) && Clocked(p) && AfterEpoch(AfterJD(p).rJD)
    ensures var t := DayOf(Cleared(AfterJD(p)));
            && 1 <= DayOfYear(t) <= 366
            && DaysIntoYear(Converted(p)) + 1 == DayOfYear(t) - (if Overflows(p) then 1 else 0)
  {
    hide DayNumber, DateOf, Usable, DayOfYear, DayIn, MillisIn, Trunc, Converted;
    ClockInstant(p);
    ConvertedInstant(p);
    ConvertedClock(p);
    var x, i := Converted(p), Cleared(AfterJD(p));
    NewYearOfClock(x);
    YearOfInstant(i);
    DayOfYearRange(DayOf(i));
    assert x.rJD - AfterJD(x.(validJD := false, M := 1, D := 1)).rJD == (NamedDay(p) - DayNumber(x.Y, 1, 1)) as real;
    TruncInt(NamedDay(p) - DayNumber(x.Y, 1, 1));
  }

  /** The whole days since 1 January come out one too few: for a clock time from 24:00 on, and
      for an instant that rounding to milliseconds moves forward, except on 1 January. */
  predicate OneShort(p: Stamp)
    requires AfterEpoch(AfterJD(p).rJD)
  {
    var q := AfterJD(p);
    if Clocked(p) then Overflows(p)
    else RoundedMillis(q.rJD) as real > q.Millis() && DayOfYear(CalendarDate(p)) != 1
  }

  /** %j is the day of the year, exactly unless the days are one too few: it can be 000. */
  lemma DayOfYearPrinted(p: Stamp)
    requires Usable(p) && AfterEpoch(AfterJD(p).rJD)
    ensures 1 <= DayOfYear(CalendarDate(p)) <= 366
    ensures DaysIntoYear(Converted(p)) + 1 == DayOfYear(CalendarDate(p)) - (if OneShort(p) then 1 else 0)
  {
    hide Usable, DaysIntoYear, DayOfYear, Converted, AfterJD, RoundedMillis, MillisIn, DayIn;
    EpochDay(AfterJD(p).rJD);
    if Clocked(p) {
      DayOfYearOfClock(p);
    } else {
      InstantInside(p);
      DayOfYearOfInstant(AfterJD(p));
    }
  }

  /** Mondays among the n days from day a of the count on. */
  function Mondays(a: nat, n: nat): (k: nat) {
    if n == 0 then 0 else Mondays(a, n - 1) + if WeekdayAfter(a + n - 1) == 1 then 1 else 0
  }

  lemma {:induction false} MondaysFormula(a: nat, n: nat)
    requires n >= 1
    ensures Mondays(a, n) == (n + 6 - (EPOCH + a + n - 1) % 7) / 7
  {
    var z := EPOCH + a + n - 1;
    WeekdayFormula(a + n - 1);
    DaysAhead(z, 1);
    if n > 1 {
      MondaysFormula(a, n - 1);
      DaysAhead(z - 1, 1);
      var k := n + 6 - z % 7;
      if z % 7 == 0 { FloorIs(k, (k - 7) / 7 + 1, 7); }
    } else {
      assert Mondays(a, 0) == 0;
    }
  }

  lemma NegatedRemainder(q: int, c: int)
    ensures (7 * q - c) % 7 == 0 <==> c % 7 == 0
  {
    if c % 7 == 0 { assert 7 * q - c == 7 * (q - c / 7); }
    if (7 * q - c) % 7 == 0 { assert c == 7 * (q - (7 * q - c) / 7); }
  }

  /** Of the days from a Monday on, only Mondays raise the count of weeks. */
  lemma OneDayShort(z: int, k: int)
    requires 1 <= k <= z && k <= 366
    ensures var w := z % 7;
            Div(k - 2 + 7 - w, 7) == Div(k - 1 + 7 - w, 7) - (if (z - (k - 1)) % 7 == 0 then 1 else 0)
  {
    var q, w := z / 7, z % 7;
    var c := k - 1 + 7 - w;
    assert z - (k - 1) == 7 * (q + 1) - c;
    assert (z - (k - 1)) % 7 == 0 <==> c % 7 == 0 by { NegatedRemainder(q + 1, c); }
    if c % 7 == 0 { FloorIs(c - 1, c / 7 - 1, 7); } else { FloorIs(c - 1, c / 7, 7); }
  }

  lemma WeeksOf(z: int, k: int, n: int)
    requires z >= EPOCH && 1 <= k <= 366 && (n == k - 1 || n == k - 2)
    ensures var right := (k + 6 - z % 7) / 7; var w := Div(n + 7 - Mod(z, 7), 7);
            && 0 <= w <= 53 && (w == right || w == right - 1)
            && (w == right <==> n == k - 1 || (z - (k - 1)) % 7 != 0)
  {
    OneDayShort(z, k);
  }

  lemma FirstIsMonday(z: int)
    requires z >= EPOCH
    ensures WeekdayAfter(z - EPOCH) == 1 <==> z % 7 == 0
  {
    WeekdayFormula(z - EPOCH);
    DaysAhead(z, 1);
  }

  /** %W is the number of Mondays from 1 January through the date, exactly unless the days are
      one too few in a year that starts with a Monday: then it is one less. */
  lemma WeekOfYearPrinted(p: Stamp)
    requires Usable(p) && AfterEpoch(AfterJD(p).rJD)
    ensures var t := CalendarDate(p); var first, w := DayNumber(t.y, 1, 1), WeekOfYear(Converted(p));
            && first >= EPOCH && 0 <= w <= 53
            && w == Mondays(first - EPOCH, DayOfYear(t))
                    - (if OneShort(p) && WeekdayAfter(first - EPOCH) == 1 then 1 else 0)
  {
    hide DayNumber, DateOf, RoundedMillis, MillisIn, DayOfYear, DaysIntoYear, AfterJD, Converted, Div, WeekdayAfter,
         Usable, OneShort, Mod, Trunc, Mondays;
    EpochDay(AfterJD(p).rJD);
    var z, t := AfterJD(p).Day(), CalendarDate(p);
    DayOfYearPrinted(p);
    DayNumberCountsDays(z - EPOCH);
    DayOfYearRange(t);
    DayNumberFromEpoch(t.y, 1, 1);
    MondaysFormula(DayNumber(t.y, 1, 1) - EPOCH, DayOfYear(t));
    ConvertedInstant(p);
    WeeksOf(z, DayOfYear(t), DaysIntoYear(Converted(p)));
    FirstIsMonday(DayNumber(t.y, 1, 1));
  }

  /** %w is the calendar's day of the week, for every stamp and at any time of day. */
  lemma WeekdayPrinted(p: Stamp)
    requires AfterEpoch(AfterJD(p).rJD)
    ensures AfterJD(p).Day() >= EPOCH
    ensures Mod(Trunc(Converted(p).rJD + 1.5), 7) == WeekdayAfter(AfterJD(p).Day() - EPOCH)
  {
    hide AfterJD, Converted, Mod, Trunc, DayIn;
    ConvertedInstant(p);
    EpochDay(AfterJD(p).rJD);
    NoonWeekday(AfterJD(p).rJD);
    WeekdayFormula(AfterJD(p).Day() - EPOCH);
  }

  /** %s is the nearest second counted from 1970-01-01, from half a second before it on. Rounding
      by truncation gives one second more before that, except exactly between two seconds. */
  lemma UnixSecondsPrinted(p: Stamp)
    ensures var v, n := SecondsSince1970(p), UnixSeconds(Converted(p));
            var late := v < -0.5 && (v + 0.5).Floor as real != v + 0.5;
            -0.5 < (n - (if late then 1 else 0)) as real - v <= 0.5
  {
    hide AfterJD, Converted;
    ConvertedInstant(p);
  }

  /** `unixepoch` takes a number as those seconds, so %s prints whole ones from 1970 on as they
      are, and the ones before as one more. */
  lemma UnixSecondsBack(p: Stamp, n: int)
    requires p.validJD && p.rJD == n as real
    ensures UnixSeconds(Converted(Modified(p, UnixEpoch).p)) == (if n >= 0 then n else n + 1)
  {
    hide AfterYMD_HMS, DateOf;
    var q := Modified(p, UnixEpoch).p;
    ConvertedInstant(q);
    assert (q.rJD - 2440587.5) * 86400.0 == n as real;
  }

  lemma ClockRange(p: Stamp)
    requires Usable(p) && Clocked(p)
    ensures ClockUpTo24(p)
  {
  }

  lemma ConvertedSeconds(i: Stamp)
    requires Instant(i)
    ensures 0.0 <= Converted(i).s < 60.0
  {
    hide DateOf, RoundedMillis, Div;
    HMSOfInstant(AfterYMD(i));
  }

  /** %S rounds the seconds, and shows 60, which is documented as 59 at most, exactly in the last
      half second of a minute. */
  lemma SecondsPrinted(p: Stamp)
    requires Usable(p) && AfterEpoch(AfterJD(p).rJD)
    ensures var x := Converted(p); var n := Trunc(x.s + 0.5);
            0.0 <= x.s < 60.0 && 0 <= n <= 60 && (n == 60 <==> x.s >= 59.5)
  {
  }

  lemma SixtyText()
    ensures Padded(2, 60) == "60"
  {
    assert Numeral(6) == "6" && Numeral(60) == "60";
  }

  lemma FirstDigit(z: CString, h: int)
    requires |z| >= 2 && 0 <= h <= 24 && z[0..2] == Fixed(2, h)
    ensures IsDigit(z[0])
  {
    assert z[0] == z[0..2][0];
  }

  lemma NoDateInTime(h: int, m: int, s: int, f: CString)
    requires Printable(0, 1, 1, h, m, s) && f != [] && AllDigits(f)
    ensures YyyyMmDd(Joined(TimeText(h, m, s), '.', f), ZERO) == Outcome(true, ZERO)
  {
    hide Fixed, Padded, Scan, Value, TimeText, Joined, SkipDigits;
    FractionalLayout(h, m, s, f);
    var z := Joined(TimeText(h, m, s), '.', f);
    FirstDigit(z, h);
    ScanDate(z, 0);
    assert z[0..4][2] == z[2] == ':';
  }

  lemma FractionalTimeOnly(h: int, m: int, s: int, f: CString, host: Host)
    requires Printable(0, 1, 1, h, m, s) && f != [] && AllDigits(f)
    ensures var r := DateOrTime(Joined(TimeText(h, m, s), '.', f), host);
            && !r.failed && r.p.s == s as real + Value(f) as real / Pow10(|f|) as real
            && Usable(r.p) && Clocked(r.p)
  {
    hide TimeText, YyyyMmDd, HhMmSs, Joined, Value, Pow10, AllDigits;
    NoDateInTime(h, m, s, f);
    ParseFractionalTime(h, m, s, f, ZERO);
    ParsedIsUsable(Joined(TimeText(h, m, s), '.', f), host);
  }

  /** The text 12:00:59.6 prints with %S as 60. */
  lemma SixtySeconds(host: Host)
    ensures var r := DateOrTime(Joined(TimeText(12, 0, 59), '.', "6"), host);
            !r.failed && Piece('S', Converted(r.p), "") == "60"
  {
    hide TimeText, DateOrTime, Converted, Joined, Padded, Usable;
    FractionalTimeOnly(12, 0, 59, "6", host);
    assert Value("6") == 6 && Pow10(1) == 10;
    ConvertedClock(DateOrTime(Joined(TimeText(12, 0, 59), '.', "6"), host).p);
    SixtyText();
  }

  /** 1970-01-01 00:00 is where %s and `unixepoch` count from. */
  lemma UnixEpochAnchor()
    ensures DayNumber(1970, 1, 1) == 2440588 && DateAfter(2440588 - EPOCH) == Gregorian.Date(1970, 1, 1)
    ensures SecondsSince1970(ZERO.(validYMD := true, Y := 1970, M := 1, D := 1)) == 0.0
  {
    assert YearDays(1969) == 2441683 && MonthDays(13) == 428;
    DayNumberOfValid(Gregorian.Date(1970, 1, 1));
  }

  lemma YearInRange(t: Date)
    requires Valid(t) && DayNumber(t.y, t.m, t.d) < 2147483648
    ensures t.y < 1000000000
  {
    hide YearDays, MonthDays, Leap;
    MarchDayRange(t);
    DayNumberSplit(t);
    YearDaysGrow(MarchYear(t));
  }

  /** Every instant in range meets the second pass's needs. */
  lemma InstantIsReady(p: Stamp)
    requires Instant(p) && InRange(p.rJD)
    ensures Ready(Converted(p))
  {
    hide DayNumber, DateOf, RoundedMillis, Trunc, MillisIn, DaysIntoYear, DayOfYear;
    DayOfYearOfInstant(p);
    HMSOfInstant(AfterYMD(p));
    DateOfIsPositive(p);
    YearOfInstant(p);
    WholeDayAndMillis(p);
    DayOfYearRange(DayOf(p));
    YearInRange(DayOf(p));
  }

  lemma DayInRange(i: Stamp)
    requires InRange(i.rJD)
    ensures i.Day() < 2147483648
  {
  }

  lemma ClockIsReady(p: Stamp)
    requires Usable(p) && Clocked(p) && InRange(AfterJD(p).rJD)
    ensures Ready(Converted(p))
  {
    hide DayNumber, DateOf, DaysIntoYear, DayOfYear, AfterJD, Converted, DayIn, MillisIn;
    DayOfYearOfClock(p);
    ClockInstant(p);
    ConvertedInstant(p);
    ConvertedClock(p);
    ClockRange(p);
    var i := Cleared(AfterJD(p));
    YearOfInstant(i);
    DateOfIsPositive(i);
    DayOfYearRange(DayOf(i));
    DayInRange(i);
    YearInRange(DayOf(i));
  }

  /** Every usable stamp in range meets the needs of the second pass. */
  lemma UsableIsReady(p: Stamp)
    requires Usable(p) && InRange(AfterJD(p).rJD)
    ensures Ready(Converted(p))
  {
    hide Ready, Converted, AfterJD, Usable;
    if Clocked(p) {
      ClockIsReady(p);
    } else {
      InstantInside(p);
      InstantIsReady(AfterJD(p));
    }
  }
}
