/** Printing and reading dates undo each other. */
module DateTextRoundTrip {
  import opened CInt
  import opened CText
  import opened Gregorian
  import opened JulianDay
  import opened DateTime
  import opened TimeOfDay
  import opened DateText

  /** The numbers a date and time text can hold. */
  predicate Printable(Y: int, M: int, D: int, h: int, m: int, s: int) {
    0 <= Y <= 9999 && 1 <= M <= 12 && 1 <= D <= 31 && 0 <= h <= 24 && 0 <= m <= 59 && 0 <= s <= 59
  }

  /** The structure that holds these numbers and no time zone. */
  function Held(p: Stamp, Y: int, M: int, D: int, h: int, m: int, s: int): Stamp {
    p.(validJD := false, validYMD := true, validHMS := true, validTZ := false,
       Y := Y, M := M, D := D, h := h, m := m, tz := 0, s := s as real)
  }

  /** z is the text YYYY-MM-DD HH:MM:SS of these numbers, position by position. */
  predicate Layout(z: string, Y: int, M: int, D: int, h: int, m: int, s: int)
    requires Printable(Y, M, D, h, m, s)
  {
    && |z| == 19
    && z[0..4] == Fixed(4, Y) && z[4] == '-' && z[5..7] == Fixed(2, M) && z[7] == '-' && z[8..10] == Fixed(2, D)
    && z[10] == ' '
    && z[11..13] == Fixed(2, h) && z[13] == ':' && z[14..16] == Fixed(2, m) && z[16] == ':' && z[17..19] == Fixed(2, s)
  }

  lemma Powers()
    ensures Pow10(2) == 100 && Pow10(4) == 10000
  {
    assert Pow10(1) == 10 && Pow10(3) == 1000;
  }

  lemma Widths(Y: int, a: int, b: int)
    requires 0 <= Y <= 9999 && 0 <= a <= 99 && 0 <= b <= 99
    ensures Padded(4, Y) == Fixed(4, Y) && Padded(2, a) == Fixed(2, a) && Padded(2, b) == Fixed(2, b)
    ensures Value(Fixed(4, Y)) == Y && Value(Fixed(2, a)) == a && Value(Fixed(2, b)) == b
    ensures |Fixed(4, Y)| == 4 && |Fixed(2, a)| == |Fixed(2, b)| == 2
  {
    Powers();
    PaddedFits(4, Y); PaddedFits(2, a); PaddedFits(2, b);
    FixedValue(4, Y); FixedValue(2, a); FixedValue(2, b);
  }

  lemma PrintedLayout(Y: int, M: int, D: int, h: int, m: int, s: int)
    requires Printable(Y, M, D, h, m, s)
    ensures Layout(DatetimeText(Y, M, D, h, m, s), Y, M, D, h, m, s)
  {
    hide Fixed, Padded;
    Widths(Y, M, D);
    Widths(0, h, m);
    Widths(0, s, 0);
  }

  lemma Pieces(z: string)
    requires |z| == 19
    ensures z == z[0..4] + [z[4]] + z[5..7] + [z[7]] + z[8..10] + [z[10]]
                 + z[11..13] + [z[13]] + z[14..16] + [z[16]] + z[17..19]
  {
  }

  lemma LayoutIsText(z: CString, Y: int, M: int, D: int, h: int, m: int, s: int)
    requires Printable(Y, M, D, h, m, s) && Layout(z, Y, M, D, h, m, s)
    ensures z == DatetimeText(Y, M, D, h, m, s)
  {
    hide Fixed, Padded, DatetimeText;
    PrintedLayout(Y, M, D, h, m, s);
    Pieces(z);
    Pieces(DatetimeText(Y, M, D, h, m, s));
  }

  lemma NoSpace(z: CString, i: nat)
    requires !IsSpace(At(z, i))
    ensures SkipSpaces(z, i) == i
  {
  }

  lemma OneSpace(z: CString, i: nat)
    requires IsSpace(At(z, i)) && !IsSpace(At(z, i + 1))
    ensures SkipSpaces(z, i) == i + 1
  {
    NoSpace(z, i + 1);
  }

  predicate NumberAt(z: CString, i: nat, n: nat, min: int, max: int) {
    i + n <= |z| && AllDigits(z[i..i + n]) && min <= Value(z[i..i + n]) <= max
  }

  lemma ScanDate(z: CString, i: nat)
    ensures var v := Scan(z, i, YEAR_MONTH_DAY);
            && (|v| == 3 <==> NumberAt(z, i, 4, 0, 9999) && At(z, i + 4) == '-' && NumberAt(z, i + 5, 2, 1, 12)
                              && At(z, i + 7) == '-' && NumberAt(z, i + 8, 2, 1, 31))
            && (|v| == 3 ==> v == [Value(z[i..i + 4]), Value(z[i + 5..i + 7]), Value(z[i + 8..i + 10])])
  {
    hide Scan, AllDigits, Value, At;
    CallsAreGroups();
    ScanFirst(z, i, YEAR_MONTH_DAY);
    ScanFirst(z, i + 5, YEAR_MONTH_DAY[1..]);
    ScanFirst(z, i + 8, YEAR_MONTH_DAY[1..][1..]);
  }

  lemma ScanTime(z: CString, i: nat)
    ensures var v := Scan(z, i, HOUR_MINUTE);
            && (|v| == 2 <==> NumberAt(z, i, 2, 0, 24) && At(z, i + 2) == ':' && NumberAt(z, i + 3, 2, 0, 59))
            && (|v| == 2 ==> v == [Value(z[i..i + 2]), Value(z[i + 3..i + 5])])
  {
    hide Scan, AllDigits, Value, At;
    CallsAreGroups();
    ScanFirst(z, i, HOUR_MINUTE);
    ScanFirst(z, i + 3, HOUR_MINUTE[1..]);
  }

  lemma ScanSeconds(z: CString, i: nat)
    ensures var v := Scan(z, i, SECOND);
            && (|v| == 1 <==> NumberAt(z, i, 2, 0, 59))
            && (|v| == 1 ==> v == [Value(z[i..i + 2])])
  {
    hide Scan, AllDigits, Value, At;
    CallsAreGroups();
    ScanFirst(z, i, SECOND);
  }

  /** What is printed reads back as the same date and time, without a time zone. */
  lemma ParsePrinted(Y: int, M: int, D: int, h: int, m: int, s: int, p: Stamp)
    requires Printable(Y, M, D, h, m, s)
    ensures YyyyMmDd(DatetimeText(Y, M, D, h, m, s), p) == Outcome(false, Held(p, Y, M, D, h, m, s))
  {
    hide Fixed, Padded, DatetimeText, SkipSpaces, Scan, Value;
    PrintedLayout(Y, M, D, h, m, s);
    Widths(Y, M, D); Widths(0, h, m); Widths(0, s, 0);
    var z := DatetimeText(Y, M, D, h, m, s);
    ScanDate(z, 0); ScanTime(z, 11); ScanSeconds(z, 17);
    OneSpace(z, 10);
    NoSpace(z, 19);
  }

  /** A printed time reads back as the same time. */
  lemma ParsePrintedTime(h: int, m: int, s: int, p: Stamp)
    requires Printable(0, 1, 1, h, m, s)
    ensures HhMmSs(TimeText(h, m, s), 0, p)
         == Outcome(false, p.(validJD := false, validHMS := true, validTZ := false,
                              h := h, m := m, tz := 0, s := s as real))
  {
    hide Fixed, Padded, SkipSpaces, Scan, Value;
    Widths(0, h, m); Widths(0, s, 0);
    var z := TimeText(h, m, s);
    assert z[0..2] == Fixed(2, h) && z[3..5] == Fixed(2, m) && z[6..8] == Fixed(2, s);
    ScanTime(z, 0); ScanSeconds(z, 6);
    NoSpace(z, 8);
  }

  lemma DigitsToEnd(z: CString, i: nat)
    requires i <= |z| && AllDigits(z[i..])
    ensures SkipDigits(z, i) == |z|
    decreases |z| - i
  {
    if i < |z| {
      assert z[i] == z[i..][0] && z[i + 1..] == z[i..][1..];
      DigitsToEnd(z, i + 1);
    }
  }

  lemma JoinedParts(a: CString, c: char, b: CString)
    requires c != '\0'
    ensures var z := Joined(a, c, b);
            && |z| == |a| + 1 + |b| && z[|a|] == c && z[|a| + 1..] == b && (b != [] ==> z[|a| + 1] == b[0])
            && (forall i :: 0 <= i < |a| ==> z[i] == a[i])
            && (forall i, j :: 0 <= i <= j <= |a| ==> z[i..j] == a[i..j])
  {
  }

  lemma TimeLayout(h: int, m: int, s: int)
    requires Printable(0, 1, 1, h, m, s)
    ensures var z := TimeText(h, m, s);
            && |z| == 8 && z[0..2] == Fixed(2, h) && z[2] == ':' && z[3..5] == Fixed(2, m) && z[5] == ':'
            && z[6..8] == Fixed(2, s)
  {
    hide Fixed, Padded, Joined;
    Widths(0, h, m);
    Widths(0, s, 0);
    JoinedParts(Padded(2, h), ':', Padded(2, m));
    JoinedParts(Joined(Padded(2, h), ':', Padded(2, m)), ':', Padded(2, s));
  }

  lemma FractionalLayout(h: int, m: int, s: int, f: CString)
    requires Printable(0, 1, 1, h, m, s) && f != [] && AllDigits(f)
    ensures var z := Joined(TimeText(h, m, s), '.', f);
            && |z| == 9 + |f| && z[0..2] == Fixed(2, h) && z[2] == ':' && z[3..5] == Fixed(2, m) && z[5] == ':'
            && z[6..8] == Fixed(2, s) && z[8] == '.' && IsDigit(z[9])
            && SkipDigits(z, 9) == |z| && z[9..|z|] == f
  {
    hide Fixed, Padded, SkipDigits, TimeText, Joined;
    TimeLayout(h, m, s);
    JoinedParts(TimeText(h, m, s), '.', f);
    var z := Joined(TimeText(h, m, s), '.', f);
    assert z[9..] == z[9..|z|];
    DigitsToEnd(z, 9);
  }

  lemma FixedDigits(n: nat)
    ensures AllDigits(Fixed(2, n))
  {
  }

  lemma TwoDigits(z: CString, i: nat, n: nat, max: nat)
    requires i + 2 <= |z| && z[i..i + 2] == Fixed(2, n) && n <= max <= 99
    ensures NumberAt(z, i, 2, 0, max) && Value(z[i..i + 2]) == n
  {
    hide Fixed, Value;
    Widths(0, n, 0);
    FixedDigits(n);
  }

  lemma HourMinuteScan(z: CString, h: int, m: int)
    requires Printable(0, 1, 1, h, m, 0) && |z| >= 5
    requires z[0..2] == Fixed(2, h) && z[2] == ':' && z[3..5] == Fixed(2, m)
    ensures Scan(z, 0, HOUR_MINUTE) == [h, m]
  {
    hide Fixed, Value, Scan, NumberAt;
    TwoDigits(z, 0, h, 24);
    TwoDigits(z, 3, m, 59);
    ScanTime(z, 0);
  }

  lemma SecondScan(z: CString, i: nat, s: int)
    requires 0 <= s <= 59 && i + 2 <= |z| && z[i..i + 2] == Fixed(2, s)
    ensures Scan(z, i, SECOND) == [s]
  {
    hide Fixed, Value, Scan, NumberAt;
    TwoDigits(z, i, s, 59);
    ScanSeconds(z, i);
  }

  lemma FractionalScans(h: int, m: int, s: int, f: CString)
    requires Printable(0, 1, 1, h, m, s) && f != [] && AllDigits(f)
    ensures var z := Joined(TimeText(h, m, s), '.', f);
            && Scan(z, 0, HOUR_MINUTE) == [h, m] && At(z, 5) == ':' && Scan(z, 6, SECOND) == [s]
            && SkipSpaces(z, |z|) == |z| && At(z, |z|) == '\0'
            && SecondsAt(z, 8, s) == (s as real + Value(f) as real / Pow10(|f|) as real, |z|)
  {
    hide Fixed, SkipDigits, SkipSpaces, Value, Pow10, AllDigits, Joined, TimeText, Scan;
    var z := Joined(TimeText(h, m, s), '.', f);
    FractionalLayout(h, m, s, f);
    HourMinuteScan(z, h, m);
    SecondScan(z, 6, s);
    NoSpace(z, |z|);
  }

  /** A time with a fraction of a second of any length reads back as that fraction. */
  lemma ParseFractionalTime(h: int, m: int, s: int, f: CString, p: Stamp)
    requires Printable(0, 1, 1, h, m, s) && f != [] && AllDigits(f)
    ensures HhMmSs(Joined(TimeText(h, m, s), '.', f), 0, p)
         == Outcome(false, p.(validJD := false, validHMS := true, validTZ := false, h := h, m := m, tz := 0,
                              s := s as real + Value(f) as real / Pow10(|f|) as real))
  {
    hide SkipSpaces, Scan, Value, Pow10, AllDigits, Joined, TimeText, SecondsAt, At;
    FractionalScans(h, m, s, f);
  }

  /** A time without seconds reads back as the full minute. */
  lemma ParseHourMinute(h: int, m: int, p: Stamp)
    requires Printable(0, 1, 1, h, m, 0)
    ensures HhMmSs(Joined(Padded(2, h), ':', Padded(2, m)), 0, p)
         == Outcome(false, p.(validJD := false, validHMS := true, validTZ := false, h := h, m := m, tz := 0, s := 0.0))
  {
    hide Fixed, Padded, SkipSpaces, Scan, Value;
    Widths(0, h, m);
    var z := Joined(Padded(2, h), ':', Padded(2, m));
    assert z[0..2] == Fixed(2, h) && z[3..5] == Fixed(2, m);
    ScanTime(z, 0);
    NoSpace(z, 5);
  }

  lemma NumberDigits(z: CString, i: nat, n: nat, min: int, max: int)
    ensures NumberAt(z, i, n, min, max) ==> forall k :: i <= k < i + n ==> IsDigit(At(z, k))
  {
    if NumberAt(z, i, n, min, max) {
      forall k | i <= k < i + n ensures IsDigit(At(z, k)) { assert z[i..i + n][k - i] == z[k]; }
    }
  }

  lemma AcceptedNumbers(z: CString, p: Stamp)
    requires |z| == 19 && z[10] == ' ' && z[13] == ':' && z[16] == ':'
    requires !YyyyMmDd(z, p).failed
    ensures z[0] != '-' && SkipSpaces(z, 10) == 11
    ensures NumberAt(z, 0, 4, 0, 9999) && z[4] == '-' && NumberAt(z, 5, 2, 1, 12)
    ensures z[7] == '-' && NumberAt(z, 8, 2, 1, 31)
    ensures NumberAt(z, 11, 2, 0, 24) && NumberAt(z, 14, 2, 0, 59) && NumberAt(z, 17, 2, 0, 59)
  {
    hide Scan, Value, Timezone, SecondsAt;
    ScanDate(z, 0); ScanDate(z, 1);
    NumberDigits(z, 9, 2, 1, 31);
    assert !IsDigit(At(z, 10)) && !IsDigit(At(z, 16));
    var j := SkipSpaces(z, 10);
    assert IsSpace(At(z, 10)) && !IsSpace(At(z, 13));
    assert 10 < j <= 13;
    ScanTime(z, j);
    NumberDigits(z, j, 2, 0, 24);
    NumberDigits(z, j + 3, 2, 0, 59);
    assert !IsDigit(At(z, 13));
    ScanSeconds(z, 17);
  }

  lemma SameDigits(t: string, w: nat)
    requires |t| == w && AllDigits(t)
    ensures 0 <= Value(t) && t == Fixed(w, Value(t))
  {
    ValueBound(t);
    FixedValue(w, Value(t));
    ValueDeterminesDigits(t, Fixed(w, Value(t)));
  }

  /** A text of that shape that the parser accepts is the print of what it holds: there is
      no second way to write a date and time in this form. */
  lemma ParsedIsPrinted(z: CString, p: Stamp)
    requires |z| == 19 && z[10] == ' ' && z[13] == ':' && z[16] == ':'
    ensures var r := YyyyMmDd(z, p); var q := r.p;
            !r.failed ==> && Printable(q.Y, q.M, q.D, q.h, q.m, Trunc(q.s))
                          && q == Held(p, q.Y, q.M, q.D, q.h, q.m, Trunc(q.s))
                          && z == DatetimeText(q.Y, q.M, q.D, q.h, q.m, Trunc(q.s))
  {
    hide Fixed, Padded, DatetimeText, Scan, Value, AllDigits;
    if !YyyyMmDd(z, p).failed {
      AcceptedNumbers(z, p);
      ScanDate(z, 0); ScanTime(z, 11); ScanSeconds(z, 17);
      NoSpace(z, 19);
      TruncInt(Value(z[17..19]));
      SameDigits(z[0..4], 4); SameDigits(z[5..7], 2); SameDigits(z[8..10], 2);
      SameDigits(z[11..13], 2); SameDigits(z[14..16], 2); SameDigits(z[17..19], 2);
      LayoutIsText(z, Value(z[0..4]), Value(z[5..7]), Value(z[8..10]),
                   Value(z[11..13]), Value(z[14..16]), Value(z[17..19]));
    }
  }

  lemma PrintedDiffers(Y: int, M: int, D: int, h: int, m: int, s: int,
                       Y': int, M': int, D': int, h': int, m': int, s': int)
    requires Printable(Y, M, D, h, m, s) && Printable(Y', M', D', h', m', s')
    requires DatetimeText(Y, M, D, h, m, s) == DatetimeText(Y', M', D', h', m', s')
    ensures Y == Y' && M == M' && D == D' && h == h' && m == m' && s == s'
  {
    hide Fixed, Padded, Value, DatetimeText;
    PrintedLayout(Y, M, D, h, m, s);
    PrintedLayout(Y', M', D', h', m', s');
    Widths(Y, M, D); Widths(0, h, m); Widths(0, s, 0);
    Widths(Y', M', D'); Widths(0, h', m'); Widths(0, s', 0);
  }

  lemma {:induction false} PowersGrow(a: nat, b: nat)
    requires a <= b
    ensures Pow10(a) <= Pow10(b)
  {
    if a < b { PowersGrow(a, b - 1); }
  }

  lemma FiveDigits(n: nat)
    requires n >= 10000
    ensures |Padded(4, n)| >= 5
  {
    hide Value;
    Powers();
    ValueOfNumeral(n);
    ValueBound(Numeral(n));
    if |Numeral(n)| <= 4 { PowersGrow(|Numeral(n)|, 4); }
  }

  lemma LongText(Y: int, M: int, D: int, h: int, m: int, s: int)
    requires Y >= 10000 && Printable(0, M, D, h, m, s)
    ensures |DatetimeText(Y, M, D, h, m, s)| >= 20
  {
    hide Padded;
    FiveDigits(Y);
    Widths(0, M, D); Widths(0, h, m); Widths(0, s, 0);
  }

  /** What a broken-down instant prints is another text exactly if a number is another. */
  lemma PrintsSame(q: Stamp, Y: int, M: int, D: int, h: int, m: int, s: int)
    requires Printable(Y, M, D, h, m, s) && q.Y >= 0 && Printable(0, q.M, q.D, q.h, q.m, Trunc(q.s))
    ensures DatetimeText(q.Y, q.M, q.D, q.h, q.m, Trunc(q.s)) == DatetimeText(Y, M, D, h, m, s)
       <==> q.Date() == Gregorian.Date(Y, M, D) && q.h == h && q.m == m && Trunc(q.s) == s
  {
    hide DatetimeText, Trunc;
    if DatetimeText(q.Y, q.M, q.D, q.h, q.m, Trunc(q.s)) == DatetimeText(Y, M, D, h, m, s) {
      PrintedLayout(Y, M, D, h, m, s);
      if q.Y >= 10000 { LongText(q.Y, q.M, q.D, q.h, q.m, Trunc(q.s)); }
      PrintedDiffers(q.Y, q.M, q.D, q.h, q.m, Trunc(q.s), Y, M, D, h, m, s);
    }
  }

  /** The instant that the printed numbers name; 24:00 is the next day's midnight. */
  lemma NamedInstant(p: Stamp, Y: int, M: int, D: int, h: int, m: int, s: int)
    requires Printable(Y, M, D, h, m, s) && p.validYMD && !p.validJD && p.Date() == Gregorian.Date(Y, M, D)
    requires if p.validHMS then !p.validTZ && p.h == h && p.m == m && p.s == s as real else h == m == s == 0
    ensures var i, c := Cleared(AfterJD(p)), p.(h := h % 24, m := m, s := s as real);
            var z := DayNumber(Y, M, D) + if h == 24 then 1 else 0;
            && z >= EPOCH && ClockTime(c) && Instant(i) && i.rJD == Moment(z, ClockMillis(c))
  {
    hide DayNumber, Trunc;
    TruncInt(s * 1000);
    DayNumberFromEpoch(Y, M, D);
    assert (s * 1000) as real == s as real * 1000.0;
  }

  /** Through a Julian day number these numbers print as themselves exactly when the date
      comes back from its day number and the time is before 24:00. */
  lemma PrintsAgain(p: Stamp, Y: int, M: int, D: int, h: int, m: int, s: int)
    requires Printable(Y, M, D, h, m, s) && p.validYMD && !p.validJD && p.Date() == Gregorian.Date(Y, M, D)
    requires if p.validHMS then !p.validTZ && p.h == h && p.m == m && p.s == s as real else h == m == s == 0
    ensures Printed(Cleared(AfterJD(p))) == DatetimeText(Y, M, D, h, m, s)
       <==> h < 24 && ComesBack(Gregorian.Date(Y, M, D))
  {
    hide DayNumber, DateOf, Trunc, AfterJD, AfterYMD_HMS, DatetimeText, ComesBack, ClockMillis;
    NamedInstant(p, Y, M, D, h, m, s);
    var i, c := Cleared(AfterJD(p)), p.(h := h % 24, m := m, s := s as real);
    var z := DayNumber(Y, M, D) + if h == 24 then 1 else 0;
    MomentBrokenDown(i, z, c);
    ClockSplits(c);
    AtMillis(z, ClockMillis(c));
    DateOfIsPositive(i);
    TruncInt(s);
    PrintsSame(AfterYMD_HMS(i), Y, M, D, h, m, s);
    ExactlyTheseComeBack(Gregorian.Date(Y, M, D));
  }

  /** datetime() maps its own output to itself, with 24:00 and days past a month's end as they
      stand. Once the text has passed through a Julian day number, as most modifiers make it
      do, this holds exactly for the dates that come back and times before 24:00. */
  lemma DatetimeFixedPoint(Y: int, M: int, D: int, h: int, m: int, s: int, host: Host)
    requires Printable(Y, M, D, h, m, s)
    ensures var z := DatetimeText(Y, M, D, h, m, s);
            var r := DateOrTime(z, host);
            && !r.failed && Printed(r.p) == z
            && (Printed(Cleared(AfterJD(r.p))) == z <==> h < 24 && ComesBack(Gregorian.Date(Y, M, D)))
  {
    hide DatetimeText, YyyyMmDd, HhMmSs, AfterJD, ComesBack;
    ParsePrinted(Y, M, D, h, m, s, ZERO);
    TruncInt(s);
    PrintsAgain(Held(ZERO, Y, M, D, h, m, s), Y, M, D, h, m, s);
  }

  /** What datetime() prints of any structure reads back as its date, hour and minute, and as its
      second without the fraction. */
  lemma PrintedCutsSeconds(p: Stamp)
    requires var q := AfterYMD_HMS(p); Printable(q.Y, q.M, q.D, q.h, q.m, 0) && 0.0 <= q.s < 60.0
    ensures var q, r := AfterYMD_HMS(p), YyyyMmDd(Printed(p), ZERO);
            && !r.failed && r.p.Date() == q.Date() && r.p.h == q.h && r.p.m == q.m && !r.p.validTZ
            && r.p.s <= q.s < r.p.s + 1.0
  {
    hide AfterYMD_HMS, DatetimeText, YyyyMmDd;
    var q := AfterYMD_HMS(p);
    ParsePrinted(q.Y, q.M, q.D, q.h, q.m, Trunc(q.s), ZERO);
  }

  /** The structure parsed from a date without a time. */
  function DateOnly(Y: int, M: int, D: int): Stamp {
    ZERO.(validYMD := true, Y := Y, M := M, D := D)
  }

  lemma ParseDateOnly(Y: int, M: int, D: int)
    requires Printable(Y, M, D, 0, 0, 0)
    ensures YyyyMmDd(DayText(Y, M, D), ZERO) == Outcome(false, DateOnly(Y, M, D))
  {
    hide Fixed, Padded, SkipSpaces, Scan, Value;
    Widths(Y, M, D);
    var z := DayText(Y, M, D);
    assert z[0..4] == Fixed(4, Y) && z[5..7] == Fixed(2, M) && z[8..10] == Fixed(2, D);
    ScanDate(z, 0); ScanTime(z, 10);
    NoSpace(z, 10);
  }

  lemma NoonOfZero(p: Stamp)
    requires p.validYMD && !p.validHMS && p.rJD == 0.0
    ensures var q := AfterYMD_HMS(p);
            q.Date() == p.Date() && q.h == 12 && q.m == 0 && Trunc(q.s) == 0
  {
    assert RoundedMillis(0.0) == 43200000;
  }

  /** A text YYYY-MM-DD without a time names midnight as a Julian day, but always prints as
      noon: computeHMS reads rJD, which nothing has set, without looking at validJD. */
  lemma DateOnlyPrintsNoon(Y: int, M: int, D: int, host: Host)
    requires Printable(Y, M, D, 0, 0, 0)
    ensures var r := DateOrTime(DayText(Y, M, D), host);
            && !r.failed
            && Printed(r.p) == DatetimeText(Y, M, D, 12, 0, 0)
            && (Printed(Cleared(AfterJD(r.p))) == DatetimeText(Y, M, D, 0, 0, 0)
                <==> ComesBack(Gregorian.Date(Y, M, D)))
  {
    hide DatetimeText, AfterJD, AfterYMD, ComesBack;
    ParseDateOnly(Y, M, D);
    NoonOfZero(DateOnly(Y, M, D));
    PrintsAgain(DateOnly(Y, M, D), Y, M, D, 0, 0, 0);
  }
}
