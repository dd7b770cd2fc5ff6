/** What strftime writes, read back: as a date, as a time, and as the numbers of the calendar. */
module StrftimeTexts {
  import opened CInt
  import opened CText
  import opened Gregorian
  import opened JulianDay
  import opened DateTime
  import opened TimeOfDay
  import opened DateText
  import opened DateTextRoundTrip
  import opened DateStamps
  import opened WeekdayLaws
  import opened ParsedInstants
  import opened Strftime
  import opened StrftimeLaws

  /** A format in parts: a character that stands for itself, or a letter behind a per cent sign. */
  datatype Item = Literal(c: char) | Conversion(c: char)
  {
    predicate Valid() { c != '\0' && (Literal? ==> c != '%') }

    function Text(): (t: string) { if Literal? then [c] else ['%', c] }
  }

  function Written(items: seq<Item>): (fmt: string) {
    if items == [] then "" else items[0].Text() + Written(items[1..])
  }

  /** The letters documented for strftime. */
  const LETTERS := {'d', 'f', 'H', 'j', 'J', 'm', 'M', 's', 'S', 'w', 'W', 'Y', '%'}

  predicate Documented(items: seq<Item>) {
    forall i :: 0 <= i < |items| ==> items[i].Valid() && (items[i].Conversion? ==> items[i].c in LETTERS)
  }

  lemma WidthOfLetters(c: char)
    ensures Width(c).Some? <==> c in LETTERS
  {
  }

  lemma {:induction false} DocumentedIsNeeded(items: seq<Item>)
    requires Documented(items)
    ensures Need(Written(items)).Some? && '\0' !in Written(items)
  {
    hide Width;
    if items != [] {
      var fmt := Written(items);
      DocumentedIsNeeded(items[1..]);
      WidthOfLetters(items[0].c);
      assert fmt[0] == items[0].Text()[0] && fmt[|items[0].Text()|..] == Written(items[1..]);
    }
  }

  lemma {:induction false} NeededIsDocumented(fmt: CString) returns (items: seq<Item>)
    requires Need(fmt).Some?
    ensures Documented(items) && Written(items) == fmt
  {
    hide Width;
    if fmt == "" {
      items := [];
    } else if fmt[0] != '%' {
      var rest := NeededIsDocumented(fmt[1..]);
      items := [Literal(fmt[0])] + rest;
      assert items[1..] == rest;
    } else {
      WidthOfLetters(fmt[1]);
      var rest := NeededIsDocumented(fmt[2..]);
      items := [Conversion(fmt[1])] + rest;
      assert items[1..] == rest;
    }
  }

  /** A format is accepted exactly if each per cent sign in it stands before a documented letter. */
  lemma AcceptedFormats(fmt: CString)
    ensures Need(fmt).Some? <==> exists items :: Documented(items) && Written(items) == fmt
  {
    hide Need, Documented, Written;
    if Need(fmt).Some? { var items := NeededIsDocumented(fmt); }
    forall items | Documented(items) && Written(items) == fmt ensures Need(fmt).Some? { DocumentedIsNeeded(items); }
  }

  lemma ConversionFirst(fmt: CString, c: char, rest: CString, x: Stamp, jd: CString)
    requires fmt == ['%', c] + rest
    ensures Rendered(fmt, x, jd) == Piece(c, x, jd) + Rendered(rest, x, jd)
  {
    hide Piece;
    assert fmt[2..] == rest;
  }

  lemma LiteralFirst(fmt: CString, c: char, rest: CString, x: Stamp, jd: CString)
    requires c != '%' && fmt == [c] + rest
    ensures Rendered(fmt, x, jd) == [c] + Rendered(rest, x, jd)
  {
    hide Piece;
    assert fmt[1..] == rest;
  }

  lemma DayFormat(rest: CString, x: Stamp, jd: CString)
    ensures Rendered("%Y-%m-%d" + rest, x, jd) == DayText(x.Y, x.M, x.D) + Rendered(rest, x, jd)
  {
    hide Rendered, Padded;
    var e: CString := "%d" + rest;
    var d: CString := "-" + e;
    var c: CString := "%m" + d;
    var b: CString := "-" + c;
    ConversionFirst("%Y-%m-%d" + rest, 'Y', b, x, jd);
    LiteralFirst(b, '-', c, x, jd);
    ConversionFirst(c, 'm', d, x, jd);
    LiteralFirst(d, '-', e, x, jd);
    ConversionFirst(e, 'd', rest, x, jd);
  }

  lemma TimeFormat(rest: CString, x: Stamp, jd: CString)
    ensures Rendered("%H:%M" + rest, x, jd) == Joined(Padded(2, x.h), ':', Padded(2, x.m)) + Rendered(rest, x, jd)
  {
    hide Rendered, Padded;
    var c: CString := "%M" + rest;
    var b: CString := ":" + c;
    ConversionFirst("%H:%M" + rest, 'H', b, x, jd);
    LiteralFirst(b, ':', c, x, jd);
    ConversionFirst(c, 'M', rest, x, jd);
  }

  /** A format that is one conversion renders as its text. */
  lemma OneConversion(c: char, x: Stamp, jd: CString)
    requires c != '\0'
    ensures Rendered(['%', c], x, jd) == Piece(c, x, jd)
  {
    hide Piece;
    ConversionFirst(['%', c], c, "", x, jd);
    assert Rendered("", x, jd) == "";
  }

  lemma HourMinuteText(x: Stamp, jd: CString)
    ensures Rendered("%H:%M", x, jd) == Joined(Padded(2, x.h), ':', Padded(2, x.m))
  {
    hide Padded, Piece;
    TimeFormat("", x, jd);
    assert "%H:%M" + "" == "%H:%M";
    assert Rendered("", x, jd) == "";
  }

  /** Seconds cut to whole milliseconds. */
  function CutSeconds(s: real): (c: real) { (s * 1000.0).Floor as real / 1000.0 }

  lemma MillisDigits(s: real)
    requires 0.0 <= s < 60.0
    ensures var a := Trunc(s); var ms := Trunc((s - a as real) * 1000.0);
            0 <= a <= 59 && 0 <= ms <= 999 && a * 1000 + ms == (s * 1000.0).Floor
  {
  }

  lemma FractionText(x: Stamp, jd: CString)
    requires 0.0 <= x.s < 60.0
    ensures var a, n := Trunc(x.s), (x.s * 1000.0).Floor; var ms := n - a * 1000;
            && 0 <= a <= 59 && 0 <= ms <= 999
            && Rendered("%H:%M:%f", x, jd) == Joined(TimeText(x.h, x.m, a), '.', Fixed(3, ms))
            && AllDigits(Fixed(3, ms)) && Value(Fixed(3, ms)) == ms
  {
    hide Padded, Fixed, Rendered, Value, Pow10;
    MillisDigits(x.s);
    var a := Trunc(x.s);
    var ms := (x.s * 1000.0).Floor - a * 1000;
    SmallPowers();
    PaddedFits(3, ms);
    FixedValue(3, ms);
    TimeFormat(":%f", x, jd);
    LiteralFirst(":%f", ':', "%f", x, jd);
    OneConversion('f', x, jd);
    assert "%H:%M" + ":%f" == "%H:%M:%f";
  }

  /** A structure that holds this time of day and no time zone. */
  function HeldTime(p: Stamp, h: int, m: int, s: real): (q: Stamp) {
    p.(validJD := false, validHMS := true, validTZ := false, h := h, m := m, tz := 0, s := s)
  }

  /** %H:%M:%f reads back as the time that it was made of, cut to the millisecond. */
  lemma TimeReadsBack(x: Stamp, jd: CString, p: Stamp)
    requires 0 <= x.h <= 24 && 0 <= x.m < 60 && 0.0 <= x.s < 60.0
    ensures var z := Rendered("%H:%M:%f", x, jd);
            '\0' !in z && HhMmSs(z, 0, p) == Outcome(false, HeldTime(p, x.h, x.m, CutSeconds(x.s)))
  {
    hide Rendered, HhMmSs, TimeText, Fixed, Value, Pow10, Joined;
    FractionText(x, jd);
    SmallPowers();
    var a := Trunc(x.s);
    var ms := (x.s * 1000.0).Floor - a * 1000;
    ParseFractionalTime(x.h, x.m, a, Fixed(3, ms), p);
    assert CutSeconds(x.s) == a as real + ms as real / 1000.0;
  }

  lemma SpaceJoined(a: CString, b: CString)
    ensures a + " " + b == Joined(a, ' ', b)
  {
  }

  lemma Associative(a: string, b: string, c: string)
    ensures a + (b + c) == a + b + c
  {
  }

  lemma DayThen(time: CString, x: Stamp, jd: CString)
    ensures Rendered("%Y-%m-%d " + time, x, jd) == DayText(x.Y, x.M, x.D) + " " + Rendered(time, x, jd)
  {
    hide Rendered, DayText;
    Associative("%Y-%m-%d", " ", time);
    assert "%Y-%m-%d" + " " == "%Y-%m-%d ";
    DayFormat(" " + time, x, jd);
    LiteralFirst(" " + time, ' ', time, x, jd);
    Associative(DayText(x.Y, x.M, x.D), " ", Rendered(time, x, jd));
  }

  lemma HourFirst(h: int, m: int)
    requires 0 <= h <= 99
    ensures var t := Joined(Padded(2, h), ':', Padded(2, m)); t != "" && !IsSpace(t[0])
  {
    hide Padded, Fixed;
    Widths(0, h, 0);
    FixedDigits(h);
  }

  /** %Y-%m-%d %H:%M reads back as the same date and time. */
  lemma MinuteReadsBack(x: Stamp, jd: CString, p: Stamp)
    requires Printable(x.Y, x.M, x.D, x.h, x.m, 0)
    ensures var z := Rendered("%Y-%m-%d %H:%M", x, jd);
            '\0' !in z && YyyyMmDd(z, p) == Outcome(false, Held(p, x.Y, x.M, x.D, x.h, x.m, 0))
  {
    hide Rendered, HhMmSs, YyyyMmDd, Padded, DayText, Joined;
    DayThen("%H:%M", x, jd);
    assert "%Y-%m-%d " + "%H:%M" == "%Y-%m-%d %H:%M";
    HourMinuteText(x, jd);
    var t := Joined(Padded(2, x.h), ':', Padded(2, x.m));
    HourFirst(x.h, x.m);
    ParseHourMinute(x.h, x.m, p);
    DateThenTime(x.Y, x.M, x.D, t, p);
    SpaceJoined(DayText(x.Y, x.M, x.D), t);
  }

  lemma MillisecondsFirst(h: int, m: int, s: int, f: CString)
    requires 0 <= h <= 99
    ensures var t := Joined(TimeText(h, m, s), '.', f); t != "" && !IsSpace(t[0])
  {
    hide Padded, Fixed;
    Widths(0, h, 0);
    FixedDigits(h);
  }

  /** %Y-%m-%d %H:%M:%f reads back as the same date and time, cut to the millisecond. */
  lemma MillisecondReadsBack(x: Stamp, jd: CString, p: Stamp)
    requires Printable(x.Y, x.M, x.D, x.h, x.m, 0) && 0.0 <= x.s < 60.0
    ensures var z := Rendered("%Y-%m-%d %H:%M:%f", x, jd);
            '\0' !in z && YyyyMmDd(z, p) == Outcome(false, Held(p, x.Y, x.M, x.D, x.h, x.m, 0).(s := CutSeconds(x.s)))
  {
    hide Rendered, HhMmSs, YyyyMmDd, Padded, DayText, CutSeconds, Fixed, Joined;
    DayThen("%H:%M:%f", x, jd);
    assert "%Y-%m-%d " + "%H:%M:%f" == "%Y-%m-%d %H:%M:%f";
    TimeReadsBack(x, jd, p);
    var t: CString := Rendered("%H:%M:%f", x, jd);
    FractionText(x, jd);
    MillisecondsFirst(x.h, x.m, Trunc(x.s), Fixed(3, (x.s * 1000.0).Floor - Trunc(x.s) * 1000));
    DateThenTime(x.Y, x.M, x.D, t, p);
    SpaceJoined(DayText(x.Y, x.M, x.D), t);
  }

  lemma CutOfMillis(t: real, n: int)
    requires t * 1000.0 == n as real
    ensures CutSeconds(t) == t
  {
  }

  /** An instant is cut nowhere: its seconds are whole milliseconds already. */
  lemma ConvertedIsCut(p: Stamp)
    requires Instant(p)
    ensures var x := Converted(p); 0.0 <= x.s < 60.0 && 0 <= x.h <= 24 && 0 <= x.m < 60 && CutSeconds(x.s) == x.s
  {
    hide DateOf, RoundedMillis, Div;
    var x := Converted(p);
    HMSOfInstant(AfterYMD(p));
    CutOfMillis(x.s, RoundedMillis(p.rJD) - (x.h * 3600 + x.m * 60) * 1000);
  }

  /** The instant that a date and time of day name. */
  lemma HeldInstant(Y: int, M: int, D: int, h: int, m: int, s: real)
    ensures var q := ZERO.(validYMD := true, validHMS := true, Y := Y, M := M, D := D, h := h, m := m, s := s);
            AfterJD(q).rJD == MomentAt(DayNumber(Y, M, D), (h as real * 3600.0 + m as real * 60.0 + s) * 1000.0)
  {
    hide DayNumber;
  }

  /** The text of the format %Y-%m-%d %H:%M:%f. */
  function FullText(p: Stamp, jd: CString): (z: string) { Rendered("%Y-%m-%d %H:%M:%f", Converted(p), jd) }

  lemma InstantReadsBack(p: Stamp, jd: CString)
    requires Instant(p) && DateOf(p.Day()).y <= 9999
    ensures var z := FullText(p, jd);
            && '\0' !in z && !YyyyMmDd(z, ZERO).failed
            && (AfterJD(YyyyMmDd(z, ZERO).p).rJD == p.rJD <==> p.OnGrid())
            && -0.5 < (AfterJD(YyyyMmDd(z, ZERO).p).rJD - p.rJD) * 86400000.0 <= 0.5
  {
    hide Rendered, YyyyMmDd, DateOf, DayNumber, RoundedMillis, CutSeconds, MillisIn, DayIn, Trunc, Div;
    var x := Converted(p);
    DateOfIsPositive(p);
    ConvertedIsCut(p);
    MillisecondReadsBack(x, jd, ZERO);
    BreakAndRebuild(p);
    HeldInstant(x.Y, x.M, x.D, x.h, x.m, x.s);
    HMSOfInstant(AfterYMD(p));
  }

  lemma CutIsSmall(s: real)
    requires s >= 0.0
    ensures CutSeconds(s) <= s < CutSeconds(s) + 0.001
  {
  }

  lemma GridOfSeconds(n: int, s: real)
    requires s >= 0.0 && n as real + s * 1000.0 >= 0.0
    ensures Trunc(n as real + s * 1000.0) as real == n as real + s * 1000.0 <==> CutSeconds(s) == s
  {
    assert (n as real + s * 1000.0).Floor == n + (s * 1000.0).Floor;
  }

  lemma OverflowGrid(p: Stamp)
    requires Usable(p) && Clocked(p) && AfterEpoch(AfterJD(p).rJD)
    ensures AfterJD(p).OnGrid() <==> CutSeconds(p.s) == p.s
  {
    hide DayNumber, MillisIn, DayIn, Trunc, AfterJD;
    ClockInstant(p);
    WholeDayAndMillis(AfterJD(p));
    var n := p.h * 3600000 + p.m * 60000 - if Overflows(p) then DAY_MS else 0;
    assert AfterJD(p).Millis() == n as real + p.s * 1000.0;
    GridOfSeconds(n, p.s);
  }

  lemma CutMoment(z: int, over: int, u: real, s: real, c: real)
    requires 0 <= over <= 1 && c <= s < c + 0.001
    ensures MomentAt(z + over, (u + c) * 1000.0) == MomentAt(z, (u + s) * 1000.0) <==> over == 0 && c == s
  {
  }

  lemma ClockReadsBack(p: Stamp, jd: CString)
    requires Usable(p) && Clocked(p) && AfterEpoch(AfterJD(p).rJD) && DateOf(AfterJD(p).Day()).y <= 9999
    ensures var z := FullText(p, jd);
            && '\0' !in z && !YyyyMmDd(z, ZERO).failed
            && (AfterJD(YyyyMmDd(z, ZERO).p).rJD == AfterJD(p).rJD <==> AfterJD(p).OnGrid() && !Overflows(p))
  {
    hide Rendered, YyyyMmDd, DateOf, DayNumber, RoundedMillis, CutSeconds, MillisIn, DayIn, Trunc, Div, AfterJD,
         Converted;
    var x, q := Converted(p), AfterJD(p);
    var over := if Overflows(p) then 1 else 0;
    ClockInstant(p);
    ConvertedClock(p);
    DateOfIsPositive(Cleared(q));
    MillisecondReadsBack(x, jd, ZERO);
    HeldInstant(x.Y, x.M, x.D, x.h, x.m, CutSeconds(x.s));
    CutIsSmall(x.s);
    CutMoment(NamedDay(p), over, p.h as real * 3600.0 + p.m as real * 60.0, p.s, CutSeconds(x.s));
    OverflowGrid(p);
  }

  /** strftime with the format %Y-%m-%d %H:%M:%f names the same instant as its argument exactly on
      the millisecond grid and before 24:00: from then on the printed date is the next day and the
      24 hours stand there again. */
  lemma InstantSurvivesPrinting(p: Stamp, jd: CString, host: Host)
    requires Usable(p) && AfterEpoch(AfterJD(p).rJD) && DateOf(AfterJD(p).Day()).y <= 9999
    ensures var z := FullText(p, jd);
            && '\0' !in z && !DateOrTime(z, host).failed
            && (AfterJD(DateOrTime(z, host).p).rJD == AfterJD(p).rJD <==> AfterJD(p).OnGrid() && !Overflows(p))
  {
    hide YyyyMmDd, HhMmSs, AfterJD, Converted, Usable, Rendered;
    if Clocked(p) {
      ClockReadsBack(p, jd);
    } else {
      InstantInside(p);
      InstantReadsBack(AfterJD(p), jd);
    }
  }

  // The numbers of the calendar, as they are printed.

  /** %j, in three digits, is the day of the year, and one less exactly if a day is missing. */
  lemma DayOfYearText(p: Stamp, jd: CString)
    requires Usable(p) && AfterEpoch(AfterJD(p).rJD)
    ensures var z := Rendered("%j", Converted(p), jd);
            && |z| == 3 && AllDigits(z)
            && Value(z) == DayOfYear(CalendarDate(p)) - (if OneShort(p) then 1 else 0)
  {
    hide Converted, AfterJD, Usable, OneShort, DaysIntoYear, DayOfYear, Padded, Value, Rendered, CalendarDate, Pow10;
    OneConversion('j', Converted(p), jd);
    DayOfYearPrinted(p);
    var n := DaysIntoYear(Converted(p)) + 1;
    PaddedValue(3, n);
    SmallPowers();
    PaddedWidth(3, n);
  }

  /** %W, in two digits, is the number of Mondays from 1 January through the date, and one less
      exactly if a day is missing in a year that starts with a Monday. */
  lemma WeekOfYearText(p: Stamp, jd: CString)
    requires Usable(p) && AfterEpoch(AfterJD(p).rJD)
    ensures var z := Rendered("%W", Converted(p), jd);
            var t := CalendarDate(p); var first := DayNumber(t.y, 1, 1);
            && |z| == 2 && AllDigits(z) && first >= EPOCH
            && Value(z) == Mondays(first - EPOCH, DayOfYear(t))
                           - (if OneShort(p) && WeekdayAfter(first - EPOCH) == 1 then 1 else 0)
  {
    hide Converted, AfterJD, Usable, OneShort, WeekOfYear, DayOfYear, Padded, Value, Rendered, CalendarDate, DayNumber,
         Mondays, WeekdayAfter, Pow10;
    OneConversion('W', Converted(p), jd);
    WeekOfYearPrinted(p);
    var n := WeekOfYear(Converted(p));
    PaddedValue(2, n);
    SmallPowers();
    PaddedWidth(2, n);
  }

  /** %w, in one digit, is the day of the week. */
  lemma WeekdayText(p: Stamp, jd: CString)
    requires AfterEpoch(AfterJD(p).rJD)
    ensures AfterJD(p).Day() >= EPOCH
    ensures var z := Rendered("%w", Converted(p), jd);
            |z| == 1 && AllDigits(z) && Value(z) == WeekdayAfter(AfterJD(p).Day() - EPOCH)
  {
    hide Converted, AfterJD, Padded, Value, Rendered, DayIn, WeekdayAfter, Mod, Trunc, Pow10;
    OneConversion('w', Converted(p), jd);
    WeekdayPrinted(p);
    var n := WeekdayAfter(AfterJD(p).Day() - EPOCH);
    PaddedValue(1, n);
    SmallPowers();
    PaddedWidth(1, n);
  }

  /** %s, with a minus sign if negative, is the nearest second since 1970-01-01, and one more before
      that, except exactly between two seconds. */
  lemma UnixSecondsText(p: Stamp, jd: CString)
    ensures var v, n := SecondsSince1970(p), SignedValue(Rendered("%s", Converted(p), jd));
            var late := v < -0.5 && (v + 0.5).Floor as real != v + 0.5;
            -0.5 < (n - (if late then 1 else 0)) as real - v <= 0.5
  {
    hide Converted, AfterJD, Padded, SignedValue, Rendered, UnixSeconds, SecondsSince1970;
    OneConversion('s', Converted(p), jd);
    UnixSecondsPrinted(p);
    SignedValueOfPadded(UnixSeconds(Converted(p)));
  }

  /** %S, in two digits, is the second of the minute to the nearest, and 60 in the last half. */
  lemma SecondsText(p: Stamp, jd: CString)
    requires Usable(p) && AfterEpoch(AfterJD(p).rJD)
    ensures var x, z := Converted(p), Rendered("%S", Converted(p), jd);
            && |z| == 2 && AllDigits(z) && -0.5 < Value(z) as real - x.s <= 0.5
            && 0 <= Value(z) <= 60 && (Value(z) == 60 <==> x.s >= 59.5)
  {
    hide Converted, AfterJD, Padded, Value, Rendered, Usable, Pow10;
    OneConversion('S', Converted(p), jd);
    SecondsPrinted(p);
    var n := Trunc(Converted(p).s + 0.5);
    PaddedValue(2, n);
    SmallPowers();
    PaddedWidth(2, n);
  }

  /** %Y is the year, of any length, %J the Julian day, and %% a per cent sign. */
  lemma OtherTexts(x: Stamp, jd: CString)
    requires x.Y >= 0
    ensures var z := Rendered("%Y", x, jd); AllDigits(z) && Value(z) == x.Y
    ensures Rendered("%J", x, jd) == jd && Rendered("%%", x, jd) == "%"
  {
    hide Padded, Value, Rendered;
    OneConversion('Y', x, jd);
    PaddedValue(4, x.Y);
    OneConversion('J', x, jd);
    OneConversion('%', x, jd);
  }
}
