/** The DateTime structure of date.c and its three lazy conversions. */
module DateTime {
  import opened CInt
  import opened Gregorian
  import opened JulianDay

  const DAY_MS := 86400000

  function DayIn(rJD: real): int { Trunc(rJD + 0.5) }

  function MillisIn(rJD: real): real { (rJD + 0.5 - DayIn(rJD) as real) * 86400000.0 }

  /** The instant's time of day, rounded to a whole number of milliseconds. */
  function RoundedMillis(rJD: real): (n: int) { Trunc(MillisIn(rJD) + 0.5) }

  /** The contents of a DateTime structure. */
  datatype Stamp = Stamp(rJD: real, Y: int, M: int, D: int, h: int, m: int, tz: int, s: real,
                         validYMD: bool, validHMS: bool, validJD: bool, validTZ: bool)
  {
    function Date(): Date { Gregorian.Date(Y, M, D) }

    /** Seconds since midnight of the broken-down time. */
    function Seconds(): real { h as real * 3600.0 + m as real * 60.0 + s }

    /** Number of the day that contains the instant. */
    function Day(): int { DayIn(rJD) }

    /** The instant's distance from midnight, in milliseconds. */
    function Millis(): real { MillisIn(rJD) }

    /** The instant is a whole number of milliseconds past midnight. */
    predicate OnGrid() { Trunc(Millis()) as real == Millis() }
  }

  /** memset(p, 0, sizeof(*p)) */
  const ZERO := Stamp(0.0, 0, 0, 0, 0, 0, 0, 0.0, false, false, false, false)

  function AfterJD(p: Stamp): (r: Stamp)
    ensures r.validJD
  {
    if p.validJD then p
    else
      var day := (if p.validYMD then DayNumber(p.Y, p.M, p.D) else DayNumber(2000, 1, 1)) as real - 0.5;
      var q := p.(validJD := true, validYMD := false);
      if !p.validHMS then q.(rJD := day)
      else if !p.validTZ then q.(rJD := day + p.Seconds() / 86400.0)
      else q.(rJD := day + p.Seconds() / 86400.0 + (p.tz * 60) as real / 86400.0,
              validHMS := false, validTZ := false)
  }

  function AfterYMD(p: Stamp): (r: Stamp)
    ensures r.validYMD
  {
    if p.validYMD then p
    else
      var t := if p.validJD then DateOf(p.Day()) else Gregorian.Date(2000, 1, 1);
      p.(Y := t.y, M := t.m, D := t.d, validYMD := true)
  }

  function AfterHMS(p: Stamp): (r: Stamp)
    ensures r.validHMS
  {
    if p.validHMS then p
    else
      var n := RoundedMillis(p.rJD);
      var t := Div(n, 1000);
      var h := Div(t, 3600);
      var m := Div(t - h * 3600, 60);
      p.(h := h, m := m, s := 0.001 * n as real - (h * 3600 + m * 60) as real, validHMS := true)
  }

  function AfterYMD_HMS(p: Stamp): (r: Stamp) {
    AfterHMS(AfterYMD(p))
  }

  function Cleared(p: Stamp): (r: Stamp) {
    p.(validYMD := false, validHMS := false, validTZ := false)
  }

  // The casts of date.c, as exact integer quotients.

  lemma YearCast(n: int)
    ensures Trunc(365.25 * n as real) == Div(1461 * n, 4)
  {
    TruncIsDiv(365.25 * n as real, 1461 * n, 4);
  }

  lemma MonthCast(n: int)
    ensures Trunc(30.6001 * n as real) == Div(306001 * n, 10000)
  {
    TruncIsDiv(30.6001 * n as real, 306001 * n, 10000);
  }

  lemma CenturyCast(Z: int)
    ensures Trunc((Z as real - 1867216.25) / 36524.25) == Div(4 * Z - 7468865, 146097)
  {
    TruncIsDiv((Z as real - 1867216.25) / 36524.25, 4 * Z - 7468865, 146097);
  }

  lemma YearBackCast(B: int)
    ensures Trunc((B as real - 122.1) / 365.25) == Div(20 * B - 2442, 7305)
  {
    TruncIsDiv((B as real - 122.1) / 365.25, 20 * B - 2442, 7305);
  }

  lemma MonthBackCast(n: int)
    ensures Trunc(n as real / 30.6001) == Div(10000 * n, 306001)
  {
    TruncIsDiv(n as real / 30.6001, 10000 * n, 306001);
  }

  lemma SecondCast(n: int)
    ensures Trunc(0.001 * n as real) == Div(n, 1000)
  {
    TruncIsDiv(0.001 * n as real, n, 1000);
  }

  /** The sum of computeJD for a year that starts in March. */
  lemma DaySum(Y: int, M: int, D: int, y: int, m: int)
    requires if M <= 2 then y == Y - 1 && m == M + 12 else y == Y && m == M
    ensures var A := Div(y, 100);
            Div(1461 * (y + 4716), 4) + Div(306001 * (m + 1), 10000) + D + (2 - A + Div(A, 4)) - 1524
            == DayNumber(Y, M, D)
  {
    hide Div;
  }

  class DateTime {
    var rJD: real
    var Y: int
    var M: int
    var D: int
    var h: int
    var m: int
    var tz: int
    var s: real
    var validYMD: bool
    var validHMS: bool
    var validJD: bool
    var validTZ: bool

    function Value(): Stamp
      reads this
    {
      Stamp(rJD, Y, M, D, h, m, tz, s, validYMD, validHMS, validJD, validTZ)
    }

    constructor ()
      ensures Value() == ZERO
    {
      rJD, Y, M, D, h, m, tz, s := 0.0, 0, 0, 0, 0, 0, 0, 0.0;
      validYMD, validHMS, validJD, validTZ := false, false, false, false;
    }

    /** Assignment of one structure to another. */
    constructor Copy(x: DateTime)
      ensures Value() == x.Value()
    {
      rJD, Y, M, D, h, m, tz, s := x.rJD, x.Y, x.M, x.D, x.h, x.m, x.tz, x.s;
      validYMD, validHMS, validJD, validTZ := x.validYMD, x.validHMS, x.validJD, x.validTZ;
    }

    method ComputeJD()
      modifies this
      ensures Value() == AfterJD(old(Value()))
    {
      hide Div, Trunc, DayNumber;
      if validJD { return; }
      var y, mon, d := 2000, 1, 1;
      if validYMD { y, mon, d := Y, M, D; }
      ghost var named := Gregorian.Date(y, mon, d);
      if mon <= 2 {
        y := y - 1;
        mon := mon + 12;
      }
      var A := Div(y, 100);
      var B := 2 - A + Div(A, 4);
      var X1 := Trunc(365.25 * (y + 4716) as real);
      var X2 := Trunc(30.6001 * (mon + 1) as real);
      YearCast(y + 4716);
      MonthCast(mon + 1);
      DaySum(named.y, named.m, named.d, y, mon);
      rJD := (X1 + X2 + d + B) as real - 1524.5;
      validJD := true;
      validYMD := false;
      if validHMS {
        rJD := rJD + (h as real * 3600.0 + m as real * 60.0 + s) / 86400.0;
        if validTZ {
          rJD := rJD + (tz * 60) as real / 86400.0;
          validHMS := false;
          validTZ := false;
        }
      }
    }

    method ComputeYMD()
      modifies this
      ensures Value() == AfterYMD(old(Value()))
    {
      hide Div, Trunc;
      if validYMD { return; }
      if !validJD {
        Y, M, D := 2000, 1, 1;
      } else {
        var Z := Trunc(rJD + 0.5);
        var A := Trunc((Z as real - 1867216.25) / 36524.25);
        CenturyCast(Z);
        A := Z + 1 + A - Div(A, 4);
        var B := A + 1524;
        var C := Trunc((B as real - 122.1) / 365.25);
        YearBackCast(B);
        var d := Trunc(365.25 * C as real);
        YearCast(C);
        var E := Trunc((B - d) as real / 30.6001);
        MonthBackCast(B - d);
        var X1 := Trunc(30.6001 * E as real);
        MonthCast(E);
        D := B - d - X1;
        M := if E < 14 then E - 1 else E - 13;
        Y := if M > 2 then C - 4716 else C - 4715;
      }
      validYMD := true;
    }

    method ComputeHMS()
      modifies this
      ensures Value() == AfterHMS(old(Value()))
    {
      hide Div, Trunc;
      if validHMS { return; }
      var Z := Trunc(rJD + 0.5);
      var n := Trunc((rJD + 0.5 - Z as real) * 86400000.0 + 0.5);
      s := 0.001 * n as real;
      SecondCast(n);
      var t := Trunc(s);
      s := s - t as real;
      h := Div(t, 3600);
      t := t - h * 3600;
      m := Div(t, 60);
      s := s + (t - m * 60) as real;
      validHMS := true;
    }

    method ComputeYMD_HMS()
      modifies this
      ensures Value() == AfterYMD_HMS(old(Value()))
    {
      ComputeYMD();
      ComputeHMS();
    }

    method ClearYMD_HMS_TZ()
      modifies this
      ensures Value() == Cleared(old(Value()))
    {
      validYMD := false;
      validHMS := false;
      validTZ := false;
    }
  }
}
