/** Which instant a text names: time zones, the word now, and numbers. */
module ParsedInstants {
  import opened CText
  import opened JulianDay
  import opened DateTime
  import opened DateText
  import opened DateTextRoundTrip
  import opened DateStamps
  import opened ParsedStamps
  import opened Wrappers

  lemma ScanOffset(z: CString, i: nat)
    ensures var v := Scan(z, i, OFFSET);
            && (|v| == 2 <==> NumberAt(z, i, 2, 0, 14) && At(z, i + 2) == ':' && NumberAt(z, i + 3, 2, 0, 59))
            && (|v| == 2 ==> v == [Value(z[i..i + 2]), Value(z[i + 3..i + 5])])
  {
    hide Scan, AllDigits, Value, At;
    CallsAreGroups();
    ScanFirst(z, i, OFFSET);
    ScanFirst(z, i + 3, OFFSET[1..]);
  }

  /** "+HH:MM" or "-HH:MM" */
  function ZoneText(minus: bool, h: int, m: int): (t: CString) {
    Joined((if minus then "-" else "+") + Padded(2, h), ':', Padded(2, m))
  }

  /** The minutes that it says. */
  function ZoneMinutes(minus: bool, h: int, m: int): (tz: int) {
    if minus then -(h * 60 + m) else h * 60 + m
  }

  lemma ZoneLayout(minus: bool, h: int, m: int)
    requires 0 <= h <= 14 && 0 <= m <= 59
    ensures var t := ZoneText(minus, h, m);
            && |t| == 6 && t[0] == (if minus then '-' else '+')
            && t[1..3] == Fixed(2, h) && t[3] == ':' && t[4..6] == Fixed(2, m)
  {
    hide Fixed, Padded;
    Widths(0, h, m);
  }

  /** A zone at the end of a text reads back with its sign. */
  lemma ParseZone(z: CString, i: nat, minus: bool, h: int, m: int, p: Stamp)
    requires 0 <= h <= 14 && 0 <= m <= 59 && i <= |z| && z[i..] == ZoneText(minus, h, m)
    ensures Timezone(z, i, p) == Outcome(false, p.(tz := ZoneMinutes(minus, h, m)))
  {
    hide Fixed, Scan, Value, SkipSpaces, ZoneText, NumberAt;
    ZoneLayout(minus, h, m);
    assert z[i] == z[i..][0] && z[i + 3] == z[i..][3];
    assert z[i + 1..i + 3] == z[i..][1..3] && z[i + 4..i + 6] == z[i..][4..6];
    NoSpace(z, i);
    NoSpace(z, i + 6);
    TwoDigits(z, i + 1, h, 14);
    TwoDigits(z, i + 4, m, 59);
    ScanOffset(z, i + 1);
  }

  /** What stands from position i on is a time zone or nothing. */
  predicate ZoneAt(z: CString, i: nat) {
    var j := SkipSpaces(z, i);
    || j >= |z|
    || (IsSign(z[j]) && NumberAt(z, j + 1, 2, 0, 14) && At(z, j + 3) == ':' && NumberAt(z, j + 4, 2, 0, 59)
        && SkipSpaces(z, j + 6) >= |z|)
  }

  /** Behind a time stands nothing but spaces, or a sign, up to 14 hours, a colon and up to 59
      minutes with nothing but spaces around. */
  lemma ZoneForms(z: CString, i: nat, p: Stamp)
    ensures !Timezone(z, i, p).failed <==> ZoneAt(z, i)
  {
  }

  /** The accepted times are HH:MM, HH:MM:SS and HH:MM:SS.F, with one digit or more behind the point,
      up to 24:59:59, with a time zone behind them or without. */
  lemma TimeForms(z: CString, i: nat, p: Stamp)
    ensures !HhMmSs(z, i, p).failed <==>
              && NumberAt(z, i, 2, 0, 24) && At(z, i + 2) == ':' && NumberAt(z, i + 3, 2, 0, 59)
              && if At(z, i + 5) != ':' then ZoneAt(z, i + 5)
                 else
                   && NumberAt(z, i + 6, 2, 0, 59)
                   && ZoneAt(z, if At(z, i + 8) == '.' && IsDigit(At(z, i + 9)) then SkipDigits(z, i + 9) else i + 8)
  {
    hide Scan, Timezone, ZoneAt, NumberAt, SkipDigits, Fraction, IsDigit;
    ScanTime(z, i);
    ScanSeconds(z, i + 6);
    forall j: nat, q: Stamp ensures !Timezone(z, j, q).failed <==> ZoneAt(z, j) { ZoneForms(z, j, q); }
  }

  lemma DateFails(z: CString, p: Stamp)
    ensures var i := if At(z, 0) == '-' then 1 else 0; var j := SkipSpaces(z, i + 10);
            YyyyMmDd(z, p).failed <==> |Scan(z, i, YEAR_MONTH_DAY)| != 3 || (HhMmSs(z, j, p).failed && j < |z|)
  {
  }

  /** The accepted dates are YYYY-MM-DD, with a minus before the year or without, and behind it, with
      spaces between them or none, a time or nothing. */
  lemma DateForms(z: CString, p: Stamp)
    ensures var i := if At(z, 0) == '-' then 1 else 0; var j := SkipSpaces(z, i + 10);
            !YyyyMmDd(z, p).failed <==>
              && NumberAt(z, i, 4, 0, 9999) && At(z, i + 4) == '-' && NumberAt(z, i + 5, 2, 1, 12)
              && At(z, i + 7) == '-' && NumberAt(z, i + 8, 2, 1, 31)
              && (j >= |z| || !HhMmSs(z, j, p).failed)
  {
    hide Scan, HhMmSs, NumberAt, SkipSpaces, YyyyMmDd, At;
    DateFails(z, p);
    ScanDate(z, if At(z, 0) == '-' then 1 else 0);
  }

  lemma ZonedScans(Y: int, M: int, D: int, h: int, m: int, s: int, zone: CString)
    requires Printable(Y, M, D, h, m, s) && zone != "" && IsSign(zone[0])
    ensures var z: CString := DatetimeText(Y, M, D, h, m, s) + zone;
            && |z| == 19 + |zone| && z[19..] == zone && SkipSpaces(z, 10) == 11
            && At(z, 0) != '-' && At(z, 16) == ':' && At(z, 19) != '.'
            && Scan(z, 0, YEAR_MONTH_DAY) == [Y, M, D] && Scan(z, 11, HOUR_MINUTE) == [h, m]
            && Scan(z, 17, SECOND) == [s]
  {
    hide Fixed, Scan, Value, SkipSpaces, DatetimeText;
    PrintedLayout(Y, M, D, h, m, s);
    Widths(Y, M, D); Widths(0, h, m); Widths(0, s, 0);
    var t := DatetimeText(Y, M, D, h, m, s);
    var z: CString := t + zone;
    assert forall i, j :: 0 <= i <= j <= 19 ==> z[i..j] == t[i..j];
    FixedDigits(M); FixedDigits(D); FixedDigits(h); FixedDigits(m); FixedDigits(s);
    assert IsDigit(z[0..4][0]) && IsDigit(z[11..13][0]);
    OneSpace(z, 10);
    ScanDate(z, 0); ScanTime(z, 11); ScanSeconds(z, 17);
  }

  /** A zone moves the instant of the date and time before it by as many minutes as it says, later
      for a plus and earlier for a minus. */
  lemma ZonedText(Y: int, M: int, D: int, h: int, m: int, s: int, minus: bool, zh: int, zm: int, host: Host)
    requires Printable(Y, M, D, h, m, s) && 0 <= zh <= 14 && 0 <= zm <= 59
    ensures var plain := DateOrTime(DatetimeText(Y, M, D, h, m, s), host);
            var r := DateOrTime(DatetimeText(Y, M, D, h, m, s) + ZoneText(minus, zh, zm), host);
            && !plain.failed && !r.failed
            && SecondsSince1970(r.p) == SecondsSince1970(plain.p) + 60.0 * ZoneMinutes(minus, zh, zm) as real
  {
    hide DatetimeText, ZoneText, Scan, SkipSpaces, Timezone, At, DayNumber;
    ParsePrinted(Y, M, D, h, m, s, ZERO);
    ZoneLayout(minus, zh, zm);
    ZonedScans(Y, M, D, h, m, s, ZoneText(minus, zh, zm));
    var z: CString := DatetimeText(Y, M, D, h, m, s) + ZoneText(minus, zh, zm);
    ParseZone(z, 19, minus, zh, zm, ZERO.(validHMS := true, h := h, m := m, s := s as real));
  }

  // A time reads the same wherever it stands in a text.

  lemma AtShift(z: CString, i: nat, k: nat)
    requires i <= |z|
    ensures At(z, i + k) == At(z[i..], k)
  {
  }

  lemma {:induction false} ScanShift(z: CString, i: nat, k: nat, fs: seq<Field>)
    requires i <= |z|
    ensures Scan(z, i + k, fs) == Scan(z[i..], k, fs)
    decreases |fs|
  {
    hide AllDigits, Value;
    if fs != [] {
      var n := fs[0].n;
      if i + k + n <= |z| { assert z[i + k..i + k + n] == z[i..][k..k + n]; }
      AtShift(z, i, k + n);
      ScanShift(z, i, k + n + 1, fs[1..]);
    }
  }

  lemma {:induction false} SkipShift(z: CString, i: nat, k: nat)
    requires i <= |z|
    ensures SkipSpaces(z, i + k) == i + SkipSpaces(z[i..], k) && SkipDigits(z, i + k) == i + SkipDigits(z[i..], k)
    decreases |z| - i - k
  {
    AtShift(z, i, k);
    if i + k < |z| { SkipShift(z, i, k + 1); }
  }

  lemma SecondsShift(z: CString, i: nat, k: nat, s: int)
    requires i <= |z|
    ensures var (a, e), (b, f) := SecondsAt(z, i + k, s), SecondsAt(z[i..], k, s); a == b && e == i + f
  {
    hide SkipDigits, Value, Pow10;
    AtShift(z, i, k);
    AtShift(z, i, k + 1);
    SkipShift(z, i, k + 1);
    var e := SkipDigits(z, i + k + 1);
    if At(z, i + k) == '.' && IsDigit(At(z, i + k + 1)) {
      assert z[i + k + 1..e] == z[i..][k + 1..e - i];
    }
  }

  lemma TimezoneShift(z: CString, i: nat, k: nat, p: Stamp)
    requires i <= |z|
    ensures Timezone(z, i + k, p) == Timezone(z[i..], k, p)
  {
    hide SkipSpaces, Scan;
    SkipShift(z, i, k);
    var j := SkipSpaces(z[i..], k);
    AtShift(z, i, j);
    ScanShift(z, i, j + 1, OFFSET);
    SkipShift(z, i, j + 6);
  }

  lemma TimeShift(z: CString, i: nat, p: Stamp)
    requires i <= |z|
    ensures HhMmSs(z, i, p) == HhMmSs(z[i..], 0, p)
  {
    hide SecondsAt, Timezone, Scan, At;
    ScanShift(z, i, 0, HOUR_MINUTE);
    ScanShift(z, i, 6, SECOND);
    AtShift(z, i, 5);
    var w := Scan(z, i + 6, SECOND);
    if |w| == 1 { SecondsShift(z, i, 8, w[0]); }
    var v := Scan(z, i, HOUR_MINUTE);
    if |v| == 2 {
      var (s, e) := if At(z, i + 5) == ':' && |w| == 1 then SecondsAt(z[i..], 8, w[0]) else (0.0, 5);
      TimezoneShift(z, i, e, p.(validJD := false, validHMS := true, h := v[0], m := v[1], s := s));
    }
  }

  lemma DayTextScan(Y: int, M: int, D: int, t: CString)
    requires Printable(Y, M, D, 0, 0, 0) && t != "" && !IsSpace(t[0])
    ensures var z := Joined(DayText(Y, M, D), ' ', t);
            && |z| == 11 + |t| && z[11..] == t && At(z, 0) != '-' && SkipSpaces(z, 10) == 11
            && Scan(z, 0, YEAR_MONTH_DAY) == [Y, M, D]
  {
    hide Fixed, Padded, Value, Scan, SkipSpaces;
    Widths(Y, M, D);
    var day := DayText(Y, M, D);
    var z := Joined(day, ' ', t);
    assert |day| == 10 && day[0..4] == Fixed(4, Y) && day[5..7] == Fixed(2, M) && day[8..10] == Fixed(2, D);
    assert forall i, j :: 0 <= i <= j <= 10 ==> z[i..j] == day[i..j];
    assert IsDigit(z[0..4][0]);
    FixedDigits(M); FixedDigits(D);
    ScanDate(z, 0);
    OneSpace(z, 10);
  }

  /** A date, a space and a text that reads as a time read as that date and that time. */
  lemma DateThenTime(Y: int, M: int, D: int, t: CString, p: Stamp)
    requires Printable(Y, M, D, 0, 0, 0) && t != "" && !IsSpace(t[0]) && !HhMmSs(t, 0, p).failed
    ensures var q := HhMmSs(t, 0, p).p.(validJD := false, validYMD := true, Y := Y, M := M, D := D);
            YyyyMmDd(Joined(DayText(Y, M, D), ' ', t), p) == Outcome(false, if q.validTZ then AfterJD(q) else q)
  {
    hide Scan, SkipSpaces, HhMmSs, DayText, Joined, AfterJD;
    DayTextScan(Y, M, D, t);
    TimeShift(Joined(DayText(Y, M, D), ' ', t), 11, p);
  }

  lemma MinusFirst(t: CString)
    requires t != "" && t[0] != '-'
    ensures At("-" + t, 0) == '-' && At(t, 0) != '-'
  {
  }

  /** A minus before a date makes the year negative and changes nothing else. */
  lemma MinusYear(t: CString, p: Stamp)
    requires t != "" && t[0] != '-' && !YyyyMmDd(t, p).failed
    ensures '\0' !in "-" + t
    ensures var r, q := YyyyMmDd("-" + t, p), YyyyMmDd(t, p);
            !r.failed && (!q.p.validJD ==> r.p == q.p.(Y := -q.p.Y))
  {
    hide Scan, SkipSpaces, HhMmSs, At;
    var z: CString := "-" + t;
    assert z[1..] == t;
    assert At(z, 0) == '-' && At(t, 0) != '-' by { MinusFirst(t); }
    ScanShift(z, 1, 0, YEAR_MONTH_DAY);
    SkipShift(z, 1, 10);
    ScanDate(t, 0);
    var j := SkipSpaces(t, 10);
    TimeShift(t, j, p);
    TimeShift(z, j + 1, p);
    assert z[j + 1..] == t[j..];
  }

  /** `now` is the instant that the clock shows; it is an error if that cannot be read. */
  lemma NowIsTheClock(z: CString, host: Host)
    requires SameName(z, "now")
    ensures var r := DateOrTime(z, host);
            && (r.failed <==> host.clock.None?)
            && (!r.failed ==> AfterJD(r.p).rJD == host.clock.value)
  {
  }

  lemma DigitsEndAt(z: CString, i: nat, j: nat)
    requires i <= j && (forall k :: i <= k < j ==> IsDigit(At(z, k))) && !IsDigit(At(z, j))
    ensures SkipDigits(z, i) == j
    decreases j - i
  {
    if i < j { DigitsEndAt(z, i + 1, j); }
  }

  lemma NowIsNotANumber(z: CString)
    requires SameName(z, "now")
    ensures !IsNumber(z)
  {
    hide SkipDigits;
    assert Lower(z[0]) == Lower("now"[0]) == 'n';
  }

  lemma NumberIsNotADate(z: CString)
    requires IsNumber(z)
    ensures YyyyMmDd(z, ZERO).failed && !SameName(z, "now")
  {
    hide HhMmSs, SkipDigits, NumberAt, Scan;
    var i := if At(z, 0) == '-' then 1 else 0;
    ScanDate(z, i);
    if |Scan(z, i, YEAR_MONTH_DAY)| == 3 {
      NumberDigits(z, i, 4, 0, 9999);
      DigitsEndAt(z, i, i + 4);
    }
    if SameName(z, "now") { NowIsNotANumber(z); }
  }

  /** A number is the Julian day number with that value. */
  lemma NumberIsTheInstant(z: CString, host: Host)
    requires IsNumber(z)
    ensures var r := DateOrTime(z, host); !r.failed && AfterJD(r.p).rJD == host.atof(z).0
  {
    hide SameName, YyyyMmDd, HhMmSs, IsNumber;
    NumberIsNotADate(z);
    NumberHasNoColon(z);
    NeitherDateNorTime(z);
  }

  /** The parts of a number: a sign, digits, digits behind a point, and an exponent. */
  datatype Number = Number(sign: string, whole: string, fraction: string, e: string, eSign: string, power: string)
  {
    /** All parts but the first digits may be missing. */
    predicate Valid() {
      && sign in {"", "+", "-"} && whole != "" && AllDigits(whole) && AllDigits(fraction)
      && (if e == "" then eSign == power == ""
          else e in {"e", "E"} && eSign in {"", "+", "-"} && power != "" && AllDigits(power))
    }

    function Exponent(): (t: string) { e + eSign + power }

    function BehindDigits(): (t: string) { (if fraction == "" then "" else "." + fraction) + Exponent() }

    function Text(): (t: string) { sign + (whole + BehindDigits()) }
  }

  lemma {:induction false} DigitsThenRest(z: CString, i: nat, digits: string, rest: string)
    requires i <= |z| && z[i..] == digits + rest && AllDigits(digits) && (rest == "" || !IsDigit(rest[0]))
    ensures SkipDigits(z, i) == i + |digits| == |z| - |rest| && z[i + |digits|..] == rest
  {
    assert forall k :: i <= k < i + |digits| ==> z[k] == z[i..][k - i] == digits[k - i];
    assert rest != "" ==> z[i + |digits|] == z[i..][|digits|] == rest[0];
    assert z[i + |digits|..] == z[i..][|digits|..];
    DigitsEndAt(z, i, i + |digits|);
  }

  lemma FirstIsDigit(t: string)
    requires t != "" && AllDigits(t)
    ensures IsDigit(t[0])
  {
  }

  lemma ExponentAccepted(z: CString, i: nat, n: Number)
    requires n.Valid() && i <= |z| && z[i..] == n.Exponent()
    ensures ExponentEnd(z, i) == Some(|z|)
  {
  }

  lemma FractionAccepted(z: CString, i: nat, n: Number)
    requires n.Valid() && i <= |z| && z[i..] == n.BehindDigits()
    ensures var f := FractionEnd(z, i); f.Some? && f.value <= |z| && z[f.value..] == n.Exponent()
  {
    hide SkipDigits, AllDigits;
    if n.fraction == "" {
      assert z[i..] == n.Exponent();
      assert i < |z| ==> z[i] == z[i..][0] == n.e[0];
    } else {
      assert z[i] == z[i..][0] == '.';
      assert z[i + 1..] == z[i..][1..] == n.fraction + n.Exponent();
      assert z[i + 1] == z[i + 1..][0] == n.fraction[0];
      FirstIsDigit(n.fraction);
      DigitsThenRest(z, i + 1, n.fraction, n.Exponent());
    }
  }

  lemma BehindDigitsIsNoDigit(n: Number)
    requires n.Valid()
    ensures var rest := n.BehindDigits(); rest == "" || !IsDigit(rest[0])
  {
    hide AllDigits;
    var rest := n.BehindDigits();
    assert rest == "" || rest[0] == (if n.fraction == "" then n.e[0] else '.');
  }

  lemma WholeAccepted(z: CString, sign: string, whole: string, rest: string)
    requires |sign| <= 1 && (|sign| == 1 ==> IsSign(sign[0])) && whole != "" && AllDigits(whole)
    requires (rest == "" || !IsDigit(rest[0])) && z == sign + (whole + rest)
    ensures var i, b := |sign|, |sign| + |whole|;
            && i == (if IsSign(At(z, 0)) then 1 else 0) && IsDigit(At(z, i))
            && SkipDigits(z, i) == b <= |z| && z[b..] == rest
  {
    hide SkipDigits, AllDigits;
    var i := |sign|;
    assert z[i..] == whole + rest;
    assert z[i] == whole[0];
    FirstIsDigit(whole);
    assert whole[0] != '-' && whole[0] != '+';
    assert At(z, 0) == if |sign| == 1 then sign[0] else whole[0];
    DigitsThenRest(z, i, whole, rest);
  }

  lemma SignIsOne(n: Number)
    requires n.Valid()
    ensures |n.sign| <= 1 && (|n.sign| == 1 ==> IsSign(n.sign[0]))
  {
    hide AllDigits;
  }

  lemma NumberAccepted(z: CString, n: Number)
    requires n.Valid() && z == n.Text()
    ensures IsNumber(z)
  {
    hide SkipDigits, AllDigits, FractionEnd, ExponentEnd, Number.BehindDigits, Number.Exponent;
    SignIsOne(n);
    BehindDigitsIsNoDigit(n);
    WholeAccepted(z, n.sign, n.whole, n.BehindDigits());
    var b := |n.sign| + |n.whole|;
    FractionAccepted(z, b, n);
    ExponentAccepted(z, FractionEnd(z, b).value, n);
  }

  lemma DigitsSliced(z: CString, i: nat)
    requires i < |z| && IsDigit(z[i])
    ensures var e := SkipDigits(z, i); i < e <= |z| && AllDigits(z[i..e]) && z[i..] == z[i..e] + z[e..]
  {
    hide SkipDigits;
    DigitsFrom(z, i);
    var e := SkipDigits(z, i);
    forall k | 0 <= k < e - i ensures IsDigit(z[i..e][k]) { assert z[i..e][k] == At(z, i + k); }
  }

  lemma ExponentSliced(z: CString, i: nat, n: Number) returns (r: Number)
    requires n.e == "" && n.Valid() && i <= |z| && ExponentEnd(z, i) == Some(|z|)
    ensures r.Valid() && r.sign == n.sign && r.whole == n.whole && r.fraction == n.fraction && r.Exponent() == z[i..]
  {
    hide SkipDigits, AllDigits;
    r := n;
    if IsE(At(z, i)) {
      var d := if IsSign(At(z, i + 1)) then i + 2 else i + 1;
      DigitsSliced(z, d);
      assert z[d..|z|] == z[d..];
      r := n.(e := [z[i]], eSign := if d == i + 1 then "" else [z[i + 1]], power := z[d..]);
      assert z[i..] == [z[i]] + r.eSign + z[d..];
    } else {
      assert z[i..] == "";
    }
  }

  lemma FractionSliced(z: CString, i: nat) returns (fraction: string)
    requires i <= |z| && FractionEnd(z, i).Some?
    ensures var c := FractionEnd(z, i).value;
            c <= |z| && AllDigits(fraction) && z[i..] == (if fraction == "" then "" else "." + fraction) + z[c..]
  {
    hide SkipDigits;
    fraction := "";
    if At(z, i) == '.' {
      DigitsSliced(z, i + 1);
      fraction := z[i + 1..SkipDigits(z, i + 1)];
      assert z[i..] == "." + z[i + 1..];
    }
  }

  lemma NumberHasParts(z: CString) returns (n: Number)
    requires IsNumber(z)
    ensures n.Valid() && n.Text() == z
  {
    hide SkipDigits, AllDigits, FractionEnd, ExponentEnd;
    var i := if IsSign(At(z, 0)) then 1 else 0;
    var b := SkipDigits(z, i);
    DigitsSliced(z, i);
    var fraction := FractionSliced(z, b);
    var c := FractionEnd(z, b).value;
    var sign := if i == 0 then "" else [z[0]];
    n := ExponentSliced(z, c, Number(sign, z[i..b], fraction, "", "", ""));
    assert z == sign + z[i..];
  }

  /** The texts that are numbers are exactly those made of such parts. */
  lemma NumberForms(z: CString)
    ensures IsNumber(z) <==> exists n: Number :: n.Valid() && n.Text() == z
  {
    hide IsNumber, Number.Valid, Number.Text;
    if IsNumber(z) { var n := NumberHasParts(z); }
    forall n: Number | n.Valid() && n.Text() == z ensures IsNumber(z) { NumberAccepted(z, n); }
  }
}
