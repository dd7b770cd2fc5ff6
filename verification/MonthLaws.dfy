/** What shifts by months and years do, to instants and to dates and times read from a text. */
module MonthLaws {
  import opened CInt
  import opened Gregorian
  import opened JulianDay
  import opened DateTime
  import opened TimeOfDay
  import opened DateText
  import opened DateModifiers
  import opened DateTextRoundTrip
  import opened DateStamps
  import opened WeekdayLaws

  function ByMonths(p: Stamp, k: int): Stamp { Modified(p, Shift(k as real, "month")).p }

  /** y and m are the year and month that lie k months after those of d. */
  predicate MonthsLater(d: Date, k: int, y: int, m: int) {
    1 <= m <= 12 && 12 * y + m == 12 * d.y + d.m + k
  }

  lemma CarryIsFloor(d: Date, k: int, y: int, m: int)
    requires MonthsLater(d, k, y, m)
    ensures var M := d.m + k;
            var x := if M > 0 then Div(M - 1, 12) else Div(M - 12, 12);
            d.y + x == y && M - x * 12 == m
  {
    var M := d.m + k;
    if M > 0 { FloorIs(M - 1, y - d.y, 12); } else { FloorIs(12 - M, d.y - y, 12); }
  }

  lemma MonthShiftOfInstant(p: Stamp, k: int, y: int, m: int)
    requires Instant(p) && MonthsLater(DateOf(p.Day()), k, y, m)
    ensures var r := ByMonths(p, k);
            && !Modified(p, Shift(k as real, "month")).failed
            && r.validJD && !r.validYMD && !r.validHMS && !r.validTZ
            && r.rJD == Moment(DayNumber(y, m, DateOf(p.Day()).d), RoundedMillis(p.rJD))
  {
    hide DayNumber, DateOf, Trunc, RoundedMillis, Div;
    var d := DateOf(p.Day());
    TruncInt(k);
    CarryIsFloor(d, k, y, m);
    HMSOfInstant(p.(Y := d.y, M := d.m, D := d.d, validYMD := true));
    assert Singular("month") == "month";
  }

  lemma MonthShiftOfClock(p: Stamp, k: int, y: int, m: int)
    requires Usable(p) && Clocked(p) && MonthsLater(DateOf(AfterJD(p).Day()), k, y, m)
    ensures var r := ByMonths(p, k);
            && !Modified(p, Shift(k as real, "month")).failed
            && r.validJD && !r.validYMD && !r.validHMS && !r.validTZ
            && r.rJD == MomentAt(DayNumber(y, m, DateOf(AfterJD(p).Day()).d), p.Seconds() * 1000.0)
  {
    hide DayNumber, DateOf, Trunc, RoundedMillis, Div;
    TruncInt(k);
    CarryIsFloor(DateOf(AfterJD(p).Day()), k, y, m);
    assert Singular("month") == "month";
  }

  /** The milliseconds past midnight that a shift by months or years keeps: those of the clock
      time, 86400000 or more from 24:00 on, or the instant's, rounded. */
  function KeptMillis(p: Stamp): (t: real) {
    if Clocked(p) then p.Seconds() * 1000.0 else RoundedMillis(AfterJD(p).rJD) as real
  }

  /** The date whose month is shifted. */
  function ShiftedFrom(p: Stamp): (d: Date) { DateOf(AfterJD(p).Day()) }

  /** A shift by a whole number of months, forwards or backwards, keeps the day of the month
      and lands on exactly that many months later. It adds the kept time to that day. */
  lemma MonthShift(p: Stamp, k: int, y: int, m: int)
    requires Usable(p) && AfterEpoch(AfterJD(p).rJD) && MonthsLater(ShiftedFrom(p), k, y, m)
    ensures var r := ByMonths(p, k);
            && !Modified(p, Shift(k as real, "month")).failed
            && r.validJD && !r.validYMD && !r.validHMS && !r.validTZ
            && r.rJD == MomentAt(DayNumber(y, m, ShiftedFrom(p).d), KeptMillis(p))
  {
    hide DayNumber, DateOf, RoundedMillis, Usable, MonthsShifted, AfterEpoch;
    if Clocked(p) {
      MonthShiftOfClock(p, k, y, m);
    } else {
      InstantInside(p);
      MonthShiftOfInstant(AfterJD(p), k, y, m);
    }
  }

  /** A kept time of a whole day or more is carried into the next day. */
  function CarriedDay(p: Stamp): (d: int) { ShiftedFrom(p).d + if KeptMillis(p) >= 86400000.0 then 1 else 0 }

  function CarriedMillis(p: Stamp): (t: real) {
    KeptMillis(p) - if KeptMillis(p) >= 86400000.0 then 86400000.0 else 0.0
  }

  lemma CarriedMoment(p: Stamp, z: int)
    ensures MomentAt(z, KeptMillis(p)) == MomentAt(z + CarriedDay(p) - ShiftedFrom(p).d, CarriedMillis(p))
  {
    hide KeptMillis, ShiftedFrom;
  }

  lemma Carried(p: Stamp)
    requires Usable(p) && AfterEpoch(AfterJD(p).rJD)
    ensures var d, e, t := ShiftedFrom(p), CarriedDay(p), CarriedMillis(p);
            && d.y >= 0 && 1 <= d.m <= 12 && 1 <= d.d <= 31 && DayNumber(d.y, d.m, d.d) == AfterJD(p).Day()
            && 0.0 <= t < 86400000.0 && 1 <= e <= 32
    ensures if Clocked(p) then
              && CarriedMillis(p) == AfterJD(p).Millis() && (CarriedDay(p) != ShiftedFrom(p).d <==> Overflows(p))
            else KeptMillis(p) == RoundedMillis(AfterJD(p).rJD) as real
  {
    hide DayNumber, DateOf, RoundedMillis, DayIn, MillisIn;
    var q := AfterJD(p);
    if Clocked(p) {
      ClockInstant(p);
      SecondsRange(p);
      DateOfIsPositive(Cleared(q));
    } else {
      InstantInside(p);
      WholeDayAndMillis(q);
      DateOfIsPositive(q);
    }
  }

  lemma LaterMonth(d: Date, k: int) returns (y: int, m: int)
    ensures MonthsLater(d, k, y, m)
  {
    var n := 12 * d.y + d.m + k - 1;
    y, m := n / 12, n % 12 + 1;
  }

  lemma MonthGapInCalendar(y: int, m: int, y': int, m': int, d: int)
    requires 1 <= m <= 12 && MonthsLater(Gregorian.Date(y, m, 1), 1, y', m') && y >= 0
    ensures DayNumber(y', m', d) == DayNumber(y, m, d) + MonthLength(y, m)
  {
    hide DayNumber, Leap;
    var last := Gregorian.Date(y, m, MonthLength(y, m));
    NextDayIsNextNumber(last);
    assert NextDay(last) == Gregorian.Date(y', m', 1);
    DayNumberLinear(y', m', d, 1);
    DayNumberLinear(y, m, d, last.d);
  }

  lemma AfterDecember(y: int, m: int)
    requires MonthsLater(Gregorian.Date(-1, 12, 1), 1, y, m)
    ensures y == 0 && m == 1
  {
  }

  lemma DecemberGap(d: int)
    ensures DayNumber(0, 1, d) == DayNumber(-1, 12, d) + MonthLength(-1, 12)
  {
    hide YearDays, MonthDays;
    MonthPart(12);
    MonthPart(13);
  }

  lemma MonthGap(y: int, m: int, y': int, m': int, d: int)
    requires 1 <= m <= 12 && MonthsLater(Gregorian.Date(y, m, 1), 1, y', m') && (y >= 0 || (y == -1 && m == 12))
    ensures DayNumber(y', m', d) == DayNumber(y, m, d) + MonthLength(y, m)
  {
    hide *;
    if y >= 0 {
      MonthGapInCalendar(y, m, y', m', d);
    } else {
      AfterDecember(y', m');
      DecemberGap(d);
    }
  }

  function MonthBefore(y: int, m: int): (r: (int, int)) {
    if m == 1 then (y - 1, 12) else (y, m - 1)
  }

  /** The days by which a shift from day d of some month to month y1-m1 and then to month y2-m2
      misses the direct one: none by way of a day that the first month has. Past its end, the
      difference of the months' lengths. The two names of the bad day are apart: 0300-02-29
      reads back as itself, and 0300-03-01 as the day 29 of the month before. */
  function Slip(d: int, y1: int, m1: int, y2: int, m2: int): (days: int)
    requires 1 <= m1 <= 12 && 1 <= m2 <= 12
  {
    var mid := Gregorian.Date(y1, m1, d);
    if mid == Gregorian.Date(300, 2, 29) then 0
    else if mid == Gregorian.Date(300, 3, 1) then 28 - MonthLength(MonthBefore(y2, m2).0, MonthBefore(y2, m2).1)
    else if d <= MonthLength(y1, m1) then 0
    else MonthLength(y2, m2) - MonthLength(y1, m1)
  }

  lemma MonthBeforeIs(y2: int, m2: int, y3: int, m3: int)
    requires 1 <= m3 <= 12 && MonthsLater(Gregorian.Date(y3, m3, 1), 1, y2, m2)
    ensures (y3, m3) == MonthBefore(y2, m2)
  {
  }

  lemma FromYearMinus1(y2: int, m2: int, y3: int, m3: int)
    requires 1 <= m3 <= 12 && MonthsLater(Gregorian.Date(y3, m3, 1), 1, y2, m2) && y2 >= 0
    ensures y3 >= 0 || (y3 == -1 && m3 == 12)
  {
  }

  /** By way of 0300-03-01 the second shift starts from the day 29 of the month before. */
  lemma SecondShiftFromBadDay(y2: int, m2: int, y3: int, m3: int)
    requires y2 >= 0 && MonthsLater(Gregorian.Date(y3, m3, 1), 1, y2, m2) && 1 <= m3 <= 12
    ensures (y3, m3) == MonthBefore(y2, m2)
    ensures DayNumber(y3, m3, 29) == DayNumber(y2, m2, 1) + 28 - MonthLength(y3, m3)
  {
    hide *;
    MonthBeforeIs(y2, m2, y3, m3);
    FromYearMinus1(y2, m2, y3, m3);
    MonthGap(y3, m3, y2, m2, 29);
    DayNumberLinear(y2, m2, 29, 1);
  }

  /** By way of a day past a month's end it starts from the month after. */
  lemma SecondShiftFromOverflow(d: int, len: int, y2: int, m2: int, y3: int, m3: int)
    requires y2 >= 0 && 1 <= m2 <= 12 && MonthsLater(Gregorian.Date(y2, m2, 1), 1, y3, m3)
    ensures DayNumber(y3, m3, d - len) == DayNumber(y2, m2, d) + MonthLength(y2, m2) - len
  {
    hide DayNumber, MonthLength;
    MonthGap(y2, m2, y3, m3, d - len);
    DayNumberLinear(y2, m2, d - len, d);
  }

  /** The second shift misses the day of the direct one by exactly that. */
  lemma SecondShiftDay(d: int, y1: int, m1: int, b: int, y2: int, m2: int, y3: int, m3: int)
    requires y1 >= 0 && 1 <= m1 <= 12 && 1 <= d <= 56
    requires y2 >= 0 && MonthsLater(Gregorian.Date(y1, m1, d), b, y2, m2)
    requires MonthsLater(DateOf(DayNumber(y1, m1, d)), b, y3, m3)
    ensures DayNumber(y3, m3, DateOf(DayNumber(y1, m1, d)).d) == DayNumber(y2, m2, d) + Slip(d, y1, m1, y2, m2)
  {
    hide DayNumber, DateOf, MonthLength, Leap;
    ReadBack(y1, m1, d);
    var mid := Gregorian.Date(y1, m1, d);
    if mid == Gregorian.Date(300, 3, 1) {
      SecondShiftFromBadDay(y2, m2, y3, m3);
    } else if mid != Gregorian.Date(300, 2, 29) && d > MonthLength(y1, m1) {
      SecondShiftFromOverflow(d, MonthLength(y1, m1), y2, m2, y3, m3);
    }
  }

  lemma MomentAfterEpoch(z: int, t: real)
    requires z >= EPOCH && t >= 0.0
    ensures AfterEpoch(MomentAt(z, t))
  {
  }

  /** Where a first shift leads: the carried day of month y1-m1. */
  lemma FirstShift(p: Stamp, a: int, y1: int, m1: int)
    requires Usable(p) && AfterEpoch(AfterJD(p).rJD)
    requires MonthsLater(ShiftedFrom(p), a, y1, m1) && y1 >= 0
    ensures var r := ByMonths(p, a);
            && Instant(r) && Usable(r) && !Clocked(r) && AfterJD(r) == r
            && 1 <= CarriedDay(p) <= 32 && r.Day() == DayNumber(y1, m1, CarriedDay(p))
            && RoundedMillis(r.rJD) == Trunc(CarriedMillis(p) + 0.5)
  {
    hide DayNumber, RoundedMillis, Modified, Trunc, ShiftedFrom, CarriedDay, CarriedMillis, KeptMillis, MomentAt, DayIn;
    var z := DayNumber(y1, m1, ShiftedFrom(p).d);
    MonthShift(p, a, y1, m1);
    Carried(p);
    CarriedMoment(p, z);
    DayNumberLinear(y1, m1, CarriedDay(p), ShiftedFrom(p).d);
    DayNumberFromEpoch(y1, m1, CarriedDay(p));
    MomentParts(DayNumber(y1, m1, CarriedDay(p)), CarriedMillis(p));
    MomentAfterEpoch(DayNumber(y1, m1, CarriedDay(p)), CarriedMillis(p));
  }

  lemma AfterEpochOfInstant(p: Stamp)
    requires Instant(p)
    ensures AfterEpoch(p.rJD)
  {
  }

  /** Two shifts keep the carried time, rounded; the day slips as computed. */
  lemma TwoShifts(p: Stamp, a: int, b: int, y1: int, m1: int, y2: int, m2: int)
    requires Usable(p) && AfterEpoch(AfterJD(p).rJD)
    requires MonthsLater(ShiftedFrom(p), a, y1, m1) && y1 >= 0
    requires MonthsLater(ShiftedFrom(p), a + b, y2, m2) && y2 >= 0
    ensures var e := CarriedDay(p);
            ByMonths(ByMonths(p, a), b).rJD
            == MomentAt(DayNumber(y2, m2, e) + Slip(e, y1, m1, y2, m2), Trunc(CarriedMillis(p) + 0.5) as real)
  {
    hide DayNumber, DateOf, Trunc, RoundedMillis, Modified, MomentAt, Slip, CarriedDay, CarriedMillis, Instant;
    var e := CarriedDay(p);
    FirstShift(p, a, y1, m1);
    var r := ByMonths(p, a);
    var y3, m3 := LaterMonth(ShiftedFrom(r), b);
    assert AfterEpoch(r.rJD) by { AfterEpochOfInstant(r); }
    MonthShift(r, b, y3, m3);
    SecondShiftDay(e, y1, m1, b, y2, m2, y3, m3);
  }

  lemma SameMoment(y: int, t: real, z: int, u: real)
    requires -86400000.0 < t - u < 86400000.0
    ensures MomentAt(y, t) == MomentAt(z, u) <==> y == z && t == u
  {
  }

  lemma RoundNear(t: real)
    requires t >= 0.0
    ensures -0.5 <= Trunc(t + 0.5) as real - t <= 0.5
  {
  }

  lemma MomentLinear(z: int, k: int, t: real)
    ensures MomentAt(z + k, t) == MomentAt(z, t) + k as real
  {
  }

  /** Exactly when two shifts by months are one shift by their sum: on the millisecond grid
      they differ by the days of the slip, from the day to which the kept time carries. */
  lemma MonthShiftsAdd(p: Stamp, a: int, b: int, y1: int, m1: int, y2: int, m2: int)
    requires Usable(p) && AfterEpoch(AfterJD(p).rJD)
    requires MonthsLater(ShiftedFrom(p), a, y1, m1) && y1 >= 0
    requires MonthsLater(ShiftedFrom(p), a + b, y2, m2) && y2 >= 0
    ensures var slip := Slip(CarriedDay(p), y1, m1, y2, m2);
            var grid := Trunc(CarriedMillis(p) + 0.5) as real == CarriedMillis(p);
            && (grid ==> ByMonths(ByMonths(p, a), b).rJD == ByMonths(p, a + b).rJD + slip as real)
            && (ByMonths(ByMonths(p, a), b).rJD == ByMonths(p, a + b).rJD <==> slip == 0 && grid)
  {
    hide DayNumber, DateOf, Trunc, RoundedMillis, Modified, Slip, CarriedDay, CarriedMillis, KeptMillis, MomentAt,
         ShiftedFrom;
    var e, t := CarriedDay(p), CarriedMillis(p);
    TwoShifts(p, a, b, y1, m1, y2, m2);
    MonthShift(p, a + b, y2, m2);
    Carried(p);
    CarriedMoment(p, DayNumber(y2, m2, ShiftedFrom(p).d));
    DayNumberLinear(y2, m2, e, ShiftedFrom(p).d);
    RoundNear(t);
    SameMoment(DayNumber(y2, m2, e) + Slip(e, y1, m1, y2, m2), Trunc(t + 0.5) as real, DayNumber(y2, m2, e), t);
    MomentLinear(DayNumber(y2, m2, e), Slip(e, y1, m1, y2, m2), t);
  }

  /** What must hold for a shift to month y-m and back to restore the date d: the month has the
      day, unless the day between is 0300-03-01 and d not a 1 March of a common year; or the day
      between is 0300-02-29, or d the date 0300-02-29 that stands for 0300-03-01. A carried
      time comes back only from that date by way of a month of 29 days. */
  predicate Restores(d: Date, carried: bool, y: int, m: int)
    requires 1 <= m <= 12
  {
    var mid := Gregorian.Date(y, m, d.d);
    if carried then d == Gregorian.Date(300, 2, 29) && MonthLength(y, m) == 29
    else
      || d == Gregorian.Date(300, 2, 29)
      || mid == Gregorian.Date(300, 2, 29)
      || (d.d <= MonthLength(y, m) && (mid == Gregorian.Date(300, 3, 1) ==> d.m == 3 && !Leap(d.y)))
  }

  lemma MonthOf28(y: int, m: int)
    requires 1 <= m <= 12
    ensures MonthLength(MonthBefore(y, m).0, MonthBefore(y, m).1) == 28 <==> m == 3 && !Leap(y)
  {
    hide Leap;
  }

  lemma SlipBack(d: Date, over: int, y: int, m: int)
    requires 1 <= m <= 12 && (Gregorian.Valid(d) || d == Gregorian.Date(300, 2, 29)) && 0 <= over <= 1
    ensures Slip(d.d + over, y, m, d.y, d.m) + over == 0 <==> Restores(d, over == 1, y, m)
  {
    MonthOf28(d.y, d.m);
  }

  lemma ShiftedFromDate(p: Stamp)
    requires Usable(p) && AfterEpoch(AfterJD(p).rJD)
    ensures var d := ShiftedFrom(p);
            && (Gregorian.Valid(d) || d == Gregorian.Date(300, 2, 29))
            && (AfterJD(p).Day() == BAD_DAY <==> d == Gregorian.Date(300, 2, 29))
  {
    hide DayNumber, DateOf;
    BadDate();
    Carried(p);
    var q := AfterJD(p).(validYMD := false, validHMS := false, validTZ := false, validJD := true);
    DateOfIsPositive(q);
    assert !Leap(300);
  }

  lemma OwnMoment(q: Stamp)
    ensures q.rJD == MomentAt(q.Day(), q.Millis())
  {
  }

  /** On the millisecond grid only a clock time from 24:00 on is carried. */
  lemma CarriedOnGrid(p: Stamp)
    requires Usable(p) && AfterEpoch(AfterJD(p).rJD) && AfterJD(p).OnGrid()
    ensures CarriedDay(p) == ShiftedFrom(p).d + (if Overflows(p) then 1 else 0)
    ensures CarriedMillis(p) == AfterJD(p).Millis()
  {
    hide DateOf, Trunc, RoundedMillis, MillisIn, AfterJD, Usable;
    Carried(p);
    GridRounds(AfterJD(p));
    WholeDayAndMillis(AfterJD(p));
  }

  lemma RoundedAgain(t: real, n: int)
    requires t == n as real && n >= 0
    ensures Trunc(t + 0.5) == n
  {
  }

  lemma RoundedClock(q: Stamp)
    ensures RoundedMillis(q.rJD) == Trunc(q.Millis() + 0.5)
  {
  }

  /** Comparing the instant after two shifts with the one before. */
  lemma BackToInstant(p: Stamp, slip: int)
    requires Usable(p) && AfterEpoch(AfterJD(p).rJD)
    ensures MomentAt(AfterJD(p).Day() + (CarriedDay(p) - ShiftedFrom(p).d) + slip,
                     Trunc(CarriedMillis(p) + 0.5) as real)
            == AfterJD(p).rJD
       <==> AfterJD(p).OnGrid() && slip + (if Overflows(p) then 1 else 0) == 0
  {
    hide DateOf, Trunc, RoundedMillis, MomentAt, MillisIn, DayIn, AfterJD, Usable, ShiftedFrom;
    var q, t := AfterJD(p), CarriedMillis(p);
    var over := CarriedDay(p) - ShiftedFrom(p).d;
    Carried(p);
    OwnMoment(q);
    WholeDayAndMillis(q);
    RoundNear(t);
    GridRounds(q);
    SameMoment(q.Day() + over + slip, Trunc(t + 0.5) as real, q.Day(), q.Millis());
    if !Clocked(p) {
      RoundedAgain(KeptMillis(p), RoundedMillis(q.rJD));
      RoundedAgain(0.0, 0);
    } else {
      RoundedClock(q);
    }
  }

  /** Exactly when `+k months` and then `-k months` gives back the instant that a stamp names. */
  lemma MonthsForthAndBack(p: Stamp, k: int, y: int, m: int)
    requires Usable(p) && AfterEpoch(AfterJD(p).rJD) && MonthsLater(ShiftedFrom(p), k, y, m) && y >= 0
    ensures ByMonths(ByMonths(p, k), -k).rJD == AfterJD(p).rJD
       <==> AfterJD(p).OnGrid() && Restores(ShiftedFrom(p), Overflows(p), y, m)
  {
    hide DayNumber, DateOf, Trunc, RoundedMillis, Modified, Slip, MomentAt, Restores, MillisIn, AfterJD, Usable,
         ShiftedFrom, CarriedDay, CarriedMillis, Overflows;
    var q, d, e := AfterJD(p), ShiftedFrom(p), CarriedDay(p);
    Carried(p);
    ShiftedFromDate(p);
    assert MonthsLater(d, k + -k, d.y, d.m);
    TwoShifts(p, k, -k, y, m, d.y, d.m);
    DayNumberLinear(d.y, d.m, e, d.d);
    BackToInstant(p, Slip(e, y, m, d.y, d.m));
    if q.OnGrid() {
      CarriedOnGrid(p);
      SlipBack(d, if Overflows(p) then 1 else 0, y, m);
    }
  }

  /** A day that every month has, and still: from 0300-02-01 a month forth and back gives
      0300-01-29, because the day between is read back as 0300-02-29. */
  lemma MonthForthAndBackFails(p: Stamp)
    requires Usable(p) && AfterJD(p).OnGrid() && !Overflows(p) && AfterJD(p).Day() == DayNumber(300, 2, 1)
    requires AfterEpoch(AfterJD(p).rJD)
    ensures ByMonths(ByMonths(p, 1), -1).rJD == AfterJD(p).rJD - 3.0
  {
    hide DayNumber, DateOf, Trunc, RoundedMillis, Modified, MomentAt, MillisIn, DayIn, AfterJD, Usable, Overflows,
         CarriedDay, CarriedMillis;
    var q := AfterJD(p);
    BadDate();
    ReadBack(300, 2, 1);
    assert ShiftedFrom(p) == Gregorian.Date(300, 2, 1);
    CarriedOnGrid(p);
    TwoShifts(p, 1, -1, 300, 3, 300, 2);
    assert Slip(1, 300, 3, 300, 2) == -3;
    GridRounds(q);
    RoundedClock(q);
    OwnMoment(q);
    MomentLinear(q.Day(), -3, q.Millis());
    WholeDayAndMillis(q);
  }

  lemma AfterInstant(i: Stamp)
    requires i.validJD
    ensures AfterJD(i) == i
  {
  }

  lemma MomentCarry(z: int, over: int, t: real)
    ensures MomentAt(z, t) == MomentAt(z + over, t - (over * DAY_MS) as real)
  {
  }

  /** For a date and clock time read from a text, a shift by months and the same shift of the
      instant that the text names differ by one day from 24:00 on, on the millisecond grid:
      the day into which 24:00 runs over is counted, and then the 24 hours again. */
  lemma MonthShiftOfText(p: Stamp, k: int)
    requires Usable(p) && Clocked(p) && AfterEpoch(AfterJD(p).rJD)
    ensures var i := Cleared(AfterJD(p));
            && (i.OnGrid() ==> ByMonths(p, k).rJD == ByMonths(i, k).rJD + (if Overflows(p) then 1.0 else 0.0))
            && (ByMonths(p, k).rJD == ByMonths(i, k).rJD <==> i.OnGrid() && !Overflows(p))
  {
    hide DayNumber, DateOf, Trunc, RoundedMillis, Modified, MomentAt, MillisIn, DayIn, AfterJD, Overflows;
    var i := Cleared(AfterJD(p));
    ClockInstant(p);
    AfterInstant(i);
    var y, m := LaterMonth(ShiftedFrom(p), k);
    MonthShift(p, k, y, m);
    MonthShift(i, k, y, m);
    GridRounds(i);
    WholeDayAndMillis(i);
    var z := DayNumber(y, m, ShiftedFrom(p).d);
    var over := if Overflows(p) then 1 else 0;
    MomentCarry(z, over, p.Seconds() * 1000.0);
    SameMoment(z + over, i.Millis(), z, RoundedMillis(i.rJD) as real);
    MomentLinear(z, over, i.Millis());
  }

  /** The text 2000-01-01 24:00:00 names midnight of 2 January; shifted by no months at all it
      becomes midnight of 3 January. */
  lemma MidnightCountsTwice(host: Host)
    ensures var r := DateOrTime(DatetimeText(2000, 1, 1, 24, 0, 0), host);
            && !r.failed && AfterJD(r.p).rJD == Moment(DayNumber(2000, 1, 2), 0)
            && ByMonths(r.p, 0).rJD == Moment(DayNumber(2000, 1, 3), 0)
  {
    hide DatetimeText, YyyyMmDd, HhMmSs, DateOf, Trunc, RoundedMillis, Modified;
    ParsePrinted(2000, 1, 1, 24, 0, 0, ZERO);
    var p := Held(ZERO, 2000, 1, 1, 24, 0, 0);
    DayNumberLinear(2000, 1, 2, 1);
    DayNumberLinear(2000, 1, 3, 1);
    WeekdayAnchor();
    MonthShiftOfText(p, 0);
    ClockInstant(p);
    assert p.Seconds() == 86400.0;
    assert AfterJD(p).rJD == Moment(DayNumber(2000, 1, 2), 0);
    AtMillis(DayNumber(2000, 1, 2), 0);
    var i := Cleared(AfterJD(p));
    GridRounds(i);
    ReadBack(2000, 1, 2);
    MonthShift(i, 0, 2000, 1);
  }

  lemma NextMonthIsLater(d: Date, y: int, m: int, e: int)
    requires Gregorian.Valid(d) && MonthsLater(d, 1, y, m) && e >= 1
    ensures DayNumber(y, m, e) > DayNumber(d.y, d.m, d.d)
  {
    hide DayNumber;
    MonthGap(d.y, d.m, y, m, e);
    DayNumberLinear(d.y, d.m, e, d.d);
  }

  lemma NoDateAfterJD(p: Stamp)
    requires Usable(p)
    ensures !AfterJD(p).validYMD
  {
    hide DayNumber;
  }

  /** A shift by k years is a shift by 12 k months. */
  lemma YearsAreMonths(p: Stamp, k: int)
    requires Usable(p) && AfterEpoch(AfterJD(p).rJD)
    ensures Modified(p, Shift(k as real, "year")) == Modified(p, Shift((12 * k) as real, "month"))
  {
    hide DayNumber, DateOf, Trunc, RoundedMillis, Div, Usable;
    var d := ShiftedFrom(p);
    Carried(p);
    NoDateAfterJD(p);
    TruncInt(k); TruncInt(12 * k);
    CarryIsFloor(d, 12 * k, d.y + k, d.m);
    assert Singular("month") == "month" && Singular("year") == "year";
  }
}
