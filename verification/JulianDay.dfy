/** The two conversions between a calendar date and a day number, with the divisions of
    the C code written exactly; the casts of `double` products are proved equal to them. */
module JulianDay {
  import opened CInt
  import opened Gregorian

  /** X1 + B: the days up to 1 March of year y. */
  function YearDays(y: int): (n: int) {
    var A := Div(y, 100);
    Div(1461 * (y + 4716), 4) + (2 - A + Div(A, 4))
  }

  /** X2: the days up to month m, where January and February are months 13 and 14. */
  function MonthDays(m: int): (n: int) {
    Div(306001 * (m + 1), 10000)
  }

  /** Day number at noon of year Y, month M, day D (no range check, as in the C code). */
  function DayNumber(Y: int, M: int, D: int): (z: int) {
    if M <= 2 then YearDays(Y - 1) + MonthDays(M + 12) + D - 1524
    else YearDays(Y) + MonthDays(M) + D - 1524
  }

  /** Number of century days to put back: alpha - alpha/4, with a division toward zero. */
  function Centuries(Z: int): (n: int) {
    var alpha := Div(4 * Z - 7468865, 146097);
    alpha - Div(alpha, 4)
  }

  function DateOfB(B: int): (t: Date) {
    var C := Div(20 * B - 2442, 7305);
    var D := Div(1461 * C, 4);
    var E := Div(10000 * (B - D), 306001);
    var X1 := Div(306001 * E, 10000);
    var M := if E < 14 then E - 1 else E - 13;
    Date(if M > 2 then C - 4716 else C - 4715, M, B - D - X1)
  }

  /** The date that belongs to a day number. */
  function DateOf(Z: int): (t: Date) {
    var A := Z + 1 + Centuries(Z);
    DateOfB(A + 1524)
  }

  /** The only day number from 0000-01-01 on that DateOf gets wrong: 0300-03-01, where the
      quotient of a negative dividend is exact and truncation rounds nothing up. */
  const BAD_DAY := 1830692

  /** Length in days of the months before month m of a year that starts in March. */
  lemma MonthPart(m: int)
    requires 3 <= m <= 14
    ensures MonthDays(m) == [122, 153, 183, 214, 244, 275, 306, 336, 367, 397, 428, 459][m - 3]
  {
    if m <= 8 { assert m == 3 || m == 4 || m == 5 || m == 6 || m == 7 || m == 8; }
    else { assert m == 9 || m == 10 || m == 11 || m == 12 || m == 13 || m == 14; }
  }

  /** The Julian-calendar part of a year: 365 days, one more every fourth year. */
  lemma JulianYear(y: int)
    requires y >= 0
    ensures Div(1461 * (y + 4716), 4) - Div(1461 * (y + 4715), 4) == if y % 4 == 0 then 366 else 365
  {
    var p, r := y / 4, y % 4;
    assert y == 4 * p + r;
    assert 1461 * (y + 4716) == 4 * (1461 * p + 1461 * 1179) + 1461 * r;
  }

  lemma QuartersOfCentury(q: int)
    requires q >= 0
    ensures (q - 1) / 4 == if q % 4 == 0 then q / 4 - 1 else q / 4
  {
  }

  lemma CenturyOf(y: int)
    requires y >= 0
    ensures (y - 1) / 100 == if y % 100 == 0 then y / 100 - 1 else y / 100
    ensures y % 400 == 0 <==> y % 100 == 0 && y / 100 % 4 == 0
  {
    var q, r := y / 100, y % 100;
    FloorIs(y - 1, if r == 0 then q - 1 else q, 100);
    FloorIs(y, q / 4, 400);
  }

  /** The Gregorian correction drops by one in a century year that is not a leap year. */
  lemma Correction(y: int)
    requires y >= 0
    ensures var A, A' := Div(y, 100), Div(y - 1, 100);
            (2 - A + Div(A, 4)) - (2 - A' + Div(A', 4)) == if y % 100 == 0 && y % 400 != 0 then -1 else 0
  {
    CenturyOf(y);
    QuartersOfCentury(y / 100);
  }

  lemma LeapSplit(y: int)
    requires y >= 0
    ensures (y % 100 == 0 ==> y % 4 == 0) && (y % 400 == 0 ==> y % 100 == 0)
  {
    CenturyOf(y);
    if y % 100 == 0 { FloorIs(y, 25 * (y / 100), 4); }
  }

  lemma YearStep(y: int)
    requires y >= 0
    ensures YearDays(y) - YearDays(y - 1) == if Leap(y) then 366 else 365
  {
    JulianYear(y);
    Correction(y);
    LeapSplit(y);
  }

  lemma NextDayIsNextNumber(t: Date)
    requires Valid(t)
    ensures var n := NextDay(t); DayNumber(n.y, n.m, n.d) == DayNumber(t.y, t.m, t.d) + 1
  {
    hide YearDays, MonthDays, Leap;
    if t.d == MonthLength(t.y, t.m) {
      if t.m == 2 {
        YearStep(t.y);
        MonthPart(3); MonthPart(14);
      } else if t.m == 1 {
        MonthPart(13); MonthPart(14);
      } else if t.m == 12 {
        MonthPart(12); MonthPart(13);
      } else {
        MonthPart(t.m); MonthPart(t.m + 1);
      }
    }
  }

  lemma {:induction false} DayNumberCountsDays(n: nat)
    ensures var t := DateAfter(n); DayNumber(t.y, t.m, t.d) == EPOCH + n
  {
    if n > 0 {
      DayNumberCountsDays(n - 1);
      NextDayIsNextNumber(DateAfter(n - 1));
    }
  }

  /** Year and month of a date in the count that starts years in March. */
  function MarchYear(t: Date): int { if t.m <= 2 then t.y - 1 else t.y }

  function MarchMonth(t: Date): int { if t.m <= 2 then t.m + 12 else t.m }

  /** Day within the March year, offset by the days of the formula's three empty months. */
  function MarchDay(t: Date): int { MonthDays(MarchMonth(t)) + t.d }

  lemma MarchDayRange(t: Date)
    requires Valid(t)
    ensures 123 <= MarchDay(t) <= 488
    ensures MarchDay(t) == 488 ==> Leap(MarchYear(t) + 1)
    ensures MarchDay(t) == 123 <==> t.m == 3 && t.d == 1
    ensures MarchYear(t) == -1 ==> 429 <= MarchDay(t)
  {
    MonthPart(MarchMonth(t));
  }

  lemma QuarterCenturies(c: int)
    requires c >= 0
    ensures c >= 4 ==> Div(c - 4, 4) == c / 4 - 1
    ensures c < 4 ==> Div(c - 3, 4) == 0 == c / 4 && (c > 0 ==> Div(c - 4, 4) == 0)
  {
  }

  lemma YearDaysSplit(y: int, q: int, k: int, r: int)
    requires y == 400 * q + 100 * k + r && q >= 0 && 0 <= k < 4 && 0 <= r < 100
    ensures YearDays(y) == 146097 * q + 36524 * k + 1461 * r / 4 + 1722521
  {
    assert y == 100 * (4 * q + k) + r;
    FloorIs(y, 4 * q + k, 100);
    FloorIs(4 * q + k, q, 4);
    FloorIs(1461 * (y + 4716), 146100 * q + 36525 * k + 1722519 + 1461 * r / 4, 4);
  }

  lemma LeapAtCentury(c: int, r: int, k: int)
    requires c >= 0 && 0 <= r < 100 && k == c % 4
    ensures r == 99 && Leap(100 * c + r + 1) ==> k == 3
  {
    if r == 99 {
      assert 100 * c + r + 1 == 100 * (c + 1);
      FloorIs(100 * (c + 1), (c + 1) / 4, 400);
    }
  }

  lemma CenturiesCancel(y: int, X: int)
    requires y >= 0 && 123 <= X <= 488
    requires X == 488 ==> Leap(y + 1)
    ensures var Z := YearDays(y) + X - 1524;
            var c := y / 100;
            if y == 300 && X == 123 then Centuries(Z) == c - c / 4 - 4
            else Centuries(Z) == c - c / 4 - 3
  {
    hide Div, YearDays, Leap;
    var c, r := y / 100, y % 100;
    var q, k := c / 4, c % 4;
    var Z := YearDays(y) + X - 1524;
    YearDaysSplit(y, q, k, r);
    LeapAtCentury(c, r, k);
    DivIs(4 * Z - 7468865, c - 4, 146097);
    QuarterCenturies(c);
  }

  lemma YearFromB(y: int, X: int)
    requires y >= -1 && 123 <= X <= 488
    requires X == 488 ==> Leap(y + 1)
    ensures Div(20 * (Div(1461 * (y + 4716), 4) + X) - 2442, 7305) == y + 4716
  {
    var n := y + 4716;
    var g, s := 1461 * n / 4, n % 4;
    assert 4 * g == 1461 * n - s;
    DivIs(7305 * n + 20 * X - 5 * s - 2442, n, 7305);
  }

  lemma MonthFromRest(m: int, d: int)
    requires 3 <= m <= 14 && 1 <= d <= 31
    requires m in {4, 6, 9, 11} ==> d <= 30
    requires m == 14 ==> d <= 29
    ensures Div(10000 * (MonthDays(m) + d), 306001) == m + 1
  {
    MonthPart(m);
    DivIs(10000 * (MonthDays(m) + d), m + 1, 306001);
  }

  lemma BFromYear(y: int, X: int)
    requires y >= 0 && 123 <= X <= 488
    requires X == 488 ==> Leap(y + 1)
    requires !(y == 300 && X == 123)
    ensures var Z := YearDays(y) + X - 1524;
            Z + 1 + Centuries(Z) + 1524 == Div(1461 * (y + 4716), 4) + X
  {
    CenturiesCancel(y, X);
    assert Div(y, 100) == y / 100 && Div(y / 100, 4) == y / 100 / 4;
  }

  lemma BFromJanuaryOfYearZero(X: int)
    requires 429 <= X <= 488
    ensures var Z := YearDays(-1) + X - 1524;
            Z + 1 + Centuries(Z) + 1524 == Div(1461 * (-1 + 4716), 4) + X
  {
    assert YearDays(-1) == 1722155;
    DivIs(4 * X - 586341, -5, 146097);
  }

  lemma DateOfBBack(t: Date)
    requires Valid(t)
    ensures DateOfB(Div(1461 * (MarchYear(t) + 4716), 4) + MarchDay(t)) == t
  {
    hide Div, Leap;
    MarchDayRange(t);
    YearFromB(MarchYear(t), MarchDay(t));
    MonthFromRest(MarchMonth(t), t.d);
  }

  lemma BFromDate(t: Date)
    requires Valid(t) && t != Date(300, 3, 1)
    ensures var Z := DayNumber(t.y, t.m, t.d);
            Z + 1 + Centuries(Z) + 1524 == Div(1461 * (MarchYear(t) + 4716), 4) + MarchDay(t)
  {
    hide Div, Centuries, YearDays, MonthDays, Leap;
    MarchDayRange(t);
    if MarchYear(t) >= 0 { BFromYear(MarchYear(t), MarchDay(t)); }
    else { BFromJanuaryOfYearZero(MarchDay(t)); }
  }

  lemma DateOfViaB(Z: int)
    ensures DateOf(Z) == DateOfB(Z + 1 + Centuries(Z) + 1524)
  {
  }

  lemma GoodDate(t: Date)
    requires Valid(t) && t != Date(300, 3, 1)
    ensures DateOf(DayNumber(t.y, t.m, t.d)) == t
  {
    hide *;
    BFromDate(t);
    DateOfBBack(t);
    DateOfViaB(DayNumber(t.y, t.m, t.d));
  }

  lemma BadDate()
    ensures DayNumber(300, 3, 1) == BAD_DAY && DateOf(BAD_DAY) == Date(300, 2, 29)
  {
    assert YearDays(300) == 1832093 && MonthDays(3) == 122;
    assert Centuries(BAD_DAY) == -1;
    assert Div(20 * 1832216 - 2442, 7305) == 5015;
    assert Div(1461 * 5015, 4) == 1831728;
    assert Div(10000 * 488, 306001) == 15;
  }

  /** Going from a date to its day number and back is the identity, for every date of the
      calendar except 0300-03-01, which comes back as 0300-02-29. */
  lemma DateOfDayNumber(t: Date)
    requires Valid(t)
    ensures DateOf(DayNumber(t.y, t.m, t.d)) == t <==> t != Date(300, 3, 1)
    ensures DayNumber(t.y, t.m, t.d) == BAD_DAY <==> t == Date(300, 3, 1)
  {
    BadDate();
    if t != Date(300, 3, 1) { GoodDate(t); }
  }

  /** DateOf agrees with counting one day at a time, from 0000-01-01 on, except on one day. */
  lemma DateOfCountsDays(n: nat)
    ensures DateOf(EPOCH + n) == DateAfter(n) <==> EPOCH + n != BAD_DAY
  {
    DayNumberCountsDays(n);
    DateOfDayNumber(DateAfter(n));
  }

  /** Going from a day number to its date and back is the identity, on every day: 0300-02-29,
      which DateOf gives for the one bad day, is a day past month end and has that number. */
  lemma DayNumberOfDate(Z: int)
    requires Z >= EPOCH
    ensures var t := DateOf(Z); DayNumber(t.y, t.m, t.d) == Z
  {
    var n: nat := Z - EPOCH;
    DayNumberCountsDays(n);
    DateOfCountsDays(n);
    BadDate();
  }

  lemma {:induction false} YearDaysGrow(y: int)
    requires y >= -1
    ensures YearDays(y) >= 1722155 + 365 * (y + 1)
  {
    if y >= 0 {
      YearDaysGrow(y - 1);
      YearStep(y);
    }
  }

  lemma DayNumberSplit(t: Date)
    ensures DayNumber(t.y, t.m, t.d) == YearDays(MarchYear(t)) + MarchDay(t) - 1524
  {
  }

  /** Every valid date is one the day-by-day count reaches, at its day number. */
  lemma DayNumberOfValid(t: Date)
    requires Valid(t)
    ensures DayNumber(t.y, t.m, t.d) >= EPOCH
    ensures DateAfter(DayNumber(t.y, t.m, t.d) - EPOCH) == t
  {
    hide YearDays, MonthDays, Leap, DateOf, MonthLength;
    YearDaysGrow(MarchYear(t));
    MarchDayRange(t);
    DayNumberSplit(t);
    var n: nat := DayNumber(t.y, t.m, t.d) - EPOCH;
    DayNumberCountsDays(n);
    DateOfDayNumber(t);
    DateOfDayNumber(DateAfter(n));
  }

  lemma DayNumberLinear(y: int, m: int, d: int, d': int)
    ensures DayNumber(y, m, d) - d == DayNumber(y, m, d') - d'
  {
  }

  /** A day number past the end of a month names the day that follows in the calendar. */
  lemma DayPastMonthEnd(y: int, m: int, d: int)
    requires y >= 0 && 1 <= m <= 12 && MonthLength(y, m) < d <= 56
    ensures var n := NextDay(Date(y, m, MonthLength(y, m)));
            && DayNumber(y, m, d) == DayNumber(n.y, n.m, d - MonthLength(y, m))
            && (DateOf(DayNumber(y, m, d)) == Date(n.y, n.m, d - MonthLength(y, m))
                <==> Date(y, m, d) != Date(300, 2, 29))
  {
    hide YearDays, MonthDays, Div;
    var len := MonthLength(y, m);
    var last := Date(y, m, len);
    var n := NextDay(last);
    NextDayIsNextNumber(last);
    DayNumberLinear(y, m, d, len);
    DayNumberLinear(n.y, n.m, d - len, 1);
    DateOfDayNumber(Date(n.y, n.m, d - len));
  }

  /** The date read back from a day number whose day may lie past the month's end. */
  lemma ReadBack(y: int, m: int, d: int)
    requires y >= 0 && 1 <= m <= 12 && 1 <= d <= 56
    ensures var len, n := MonthLength(y, m), NextDay(Date(y, m, MonthLength(y, m)));
            DateOf(DayNumber(y, m, d)) ==
            if Date(y, m, d) in {Date(300, 2, 29), Date(300, 3, 1)} then Date(300, 2, 29)
            else if d <= len then Date(y, m, d)
            else Date(n.y, n.m, d - len)
  {
    hide DayNumber, DateOf;
    BadDate();
    if d <= MonthLength(y, m) { DateOfDayNumber(Date(y, m, d)); } else { DayPastMonthEnd(y, m, d); }
  }

  /** The dates, days past a month's end included, that come back from their day number. */
  predicate ComesBack(t: Date)
    requires 1 <= t.m <= 12
  {
    t == Date(300, 2, 29) || (t.d <= MonthLength(t.y, t.m) && t != Date(300, 3, 1))
  }

  lemma ExactlyTheseComeBack(t: Date)
    requires t.y >= 0 && 1 <= t.m <= 12 && 1 <= t.d <= 31
    ensures DateOf(DayNumber(t.y, t.m, t.d)) == t <==> ComesBack(t)
  {
    hide DayNumber, DateOf, Leap;
    ReadBack(t.y, t.m, t.d);
  }
}
