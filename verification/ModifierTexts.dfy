/** Which text asks for which modifier, and what it does. What number stands at the head of a
    text, and how many characters it takes, is for the host to say. */
module ModifierTexts {
  import opened CText
  import opened DateTime
  import opened DateText
  import opened DateModifiers
  import opened DateTextRoundTrip
  import opened DateStamps
  import opened MonthLaws
  import opened ClockLaws
  import opened ShiftLaws
  import opened Wrappers

  /** A text that is short enough and has no upper case. */
  predicate Plain(t: string) {
    |t| <= 29 && forall i :: 0 <= i < |t| ==> t[i] != '\0' && Lower(t[i]) == t[i]
  }

  lemma PlainIsLowered(t: CString)
    requires Plain(t)
    ensures Lowered(t) == t
  {
  }

  /** Of a longer text only the first 29 characters count. */
  lemma LongTextIsCut(p: Stamp, t: CString, host: Host)
    requires |t| >= 29
    ensures ModifiedBy(p, t, host) == ModifiedBy(p, t[..29], host)
  {
    hide Recognised, Modified;
    assert Lowered(t) == Lowered(t[..29]);
  }

  /** `localtime` adds the offset of local time at the instant, and `utc` takes it away again
      exactly when the offset is the same at its first guess. */
  lemma LocalTexts(p: Stamp, host: Host)
    ensures var l := ModifiedBy(p, "localtime", host); var u := ModifiedBy(l.p, "utc", host);
            var guess := l.p.(rJD := l.p.rJD - host.offset(l.p));
            && !l.failed && SecondsSince1970(l.p) == SecondsSince1970(p) + 86400.0 * host.offset(AfterJD(p))
            && !u.failed && (AfterJD(u.p).rJD == AfterJD(p).rJD <==> host.offset(guess) == host.offset(AfterJD(p)))
  {
    hide AfterJD;
    PlainIsLowered("localtime");
    PlainIsLowered("utc");
    var l := ModifiedBy(p, "localtime", host);
    assert l == Modified(p, LocalTime(host.offset));
    assert ModifiedBy(l.p, "utc", host) == Modified(l.p, Utc(host.offset));
    AfterInstant(l.p);
    AfterInstant(ModifiedBy(l.p, "utc", host).p);
    UtcUndoesLocaltime(p, host.offset);
  }

  /** `unixepoch` makes of a number that many seconds since 1970, and is an error for anything
      but a number. */
  lemma UnixepochText(p: Stamp, host: Host)
    ensures var o := ModifiedBy(p, "unixepoch", host);
            && (o.failed <==> !p.validJD)
            && (p.validJD ==> SecondsSince1970(o.p) == p.rJD)
  {
    PlainIsLowered("unixepoch");
    assert ModifiedBy(p, "unixepoch", host) == Modified(p, UnixEpoch);
  }

  lemma NotAWord(z: CString)
    requires z == "localtime" || z == "unixepoch" || z == "utc"
    ensures !("weekday " <= z) && !("start of " <= z) && !Numeric(z)
  {
    FirstLetters(z);
    assert "localtime"[0] == 'l' && "unixepoch"[0] == 'u' && "utc"[0] == 'u';
  }

  lemma WeekdayIsRecognised(t: CString, host: Host)
    requires Plain("weekday " + t)
    ensures '\0' !in "weekday " + t
    ensures Recognised(Lowered("weekday " + t), host)
            == if host.atof(t).1 > 0 then Some(Weekday(host.atof(t).0)) else None
  {
    var z: CString := "weekday " + t;
    PlainIsLowered(z);
    assert "weekday " <= z;
    if z in {"localtime", "unixepoch", "utc"} { NotAWord(z); }
    assert From(z, 8) == t;
  }

  /** `weekday` takes a number that is one of 0 to 6. */
  lemma WeekdayText(p: Stamp, t: CString, host: Host)
    requires Plain("weekday " + t)
    ensures '\0' !in "weekday " + t
    ensures var o, (r, n) := ModifiedBy(p, "weekday " + t, host), host.atof(t);
            && (o.failed <==> n == 0 || r !in {0.0, 1.0, 2.0, 3.0, 4.0, 5.0, 6.0})
            && (!o.failed ==> o == Modified(p, Weekday(r)))
  {
    hide Recognised, WeekdayShifted;
    WeekdayIsRecognised(t, host);
  }

  lemma StartOfIsRecognised(unit: CString, host: Host)
    requires Plain("start of " + unit)
    ensures '\0' !in "start of " + unit
    ensures Recognised(Lowered("start of " + unit), host) == Some(StartOf(unit))
  {
    var z: CString := "start of " + unit;
    PlainIsLowered(z);
    assert "start of " <= z;
    FirstLetters(z);
    if z in {"localtime", "unixepoch", "utc"} { NotAWord(z); }
    assert From(z, 9) == unit;
  }

  /** `start of` takes a day, a month or a year. */
  lemma StartOfText(p: Stamp, unit: CString, host: Host)
    requires Plain("start of " + unit)
    ensures '\0' !in "start of " + unit
    ensures var o := ModifiedBy(p, "start of " + unit, host);
            o == Modified(p, StartOf(unit)) && (o.failed <==> unit !in {"day", "month", "year"})
  {
    hide Recognised, AfterYMD;
    StartOfIsRecognised(unit, host);
  }

  /** The text of a number, a gap of spaces, and a unit, which is what follows the gap. */
  predicate NumberAndUnit(num: string, gap: string, unit: string) {
    && num != "" && (IsSign(num[0]) || IsDigit(num[0]))
    && (forall k :: 0 <= k < |gap| ==> IsSpace(gap[k]))
    && unit != "" && !IsSpace(unit[0])
    && (gap == "" ==> unit[0] != ':')
  }

  lemma {:induction false} SpacesToUnit(z: CString, i: nat, j: nat)
    requires i <= j < |z| && !IsSpace(z[j]) && forall k :: i <= k < j ==> IsSpace(z[k])
    ensures SkipSpaces(z, i) == j
    decreases j - i
  {
    if i < j { SpacesToUnit(z, i + 1, j); }
  }

  lemma NumberAndUnitParts(num: string, gap: string, unit: string)
    requires NumberAndUnit(num, gap, unit) && Plain(num + gap + unit)
    ensures var z := num + gap + unit;
            && '\0' !in z && z[0] == num[0] && Numeric(z) && Lowered(z) == z
            && At(z, |num|) != ':' && SkipSpaces(z, |num|) == |num + gap| && From(z, |num + gap|) == unit
  {
    var z: CString := num + gap + unit;
    PlainIsLowered(z);
    assert forall k :: |num| <= k < |num + gap| ==> z[k] == gap[k - |num|];
    SpacesToUnit(z, |num|, |num + gap|);
    assert z[|num|] == if gap == "" then unit[0] else gap[0];
    assert z[|num + gap|..] == unit;
  }

  /** A number and then a unit is a shift by that number of units. */
  lemma UnitText(p: Stamp, num: string, gap: string, unit: string, host: Host)
    requires NumberAndUnit(num, gap, unit) && Plain(num + gap + unit)
    ensures '\0' !in num + gap + unit
    ensures var (r, n) := host.atof(num + gap + unit);
            n == |num| ==> ModifiedBy(p, num + gap + unit, host) == Modified(p, Shift(r, unit))
  {
    hide Modified, Recognised, Numeric, SkipSpaces, From, Plain;
    NumberAndUnitParts(num, gap, unit);
    NumericIsShift(num + gap + unit, host);
  }

  /** The plural of a unit asks for the same. */
  lemma PluralText(p: Stamp, num: string, gap: string, u: string, host: Host)
    requires u in UNITS && NumberAndUnit(num, gap, u) && Plain(num + gap + u + "s")
    ensures '\0' !in num + gap + u && '\0' !in num + gap + u + "s"
    ensures host.atof(num + gap + u) == host.atof(num + gap + u + "s") && host.atof(num + gap + u).1 == |num| ==>
              ModifiedBy(p, num + gap + u + "s", host) == ModifiedBy(p, num + gap + u, host)
  {
    hide Modified, ModifiedBy;
    var z := num + gap + u + "s";
    assert z == num + gap + (u + "s");
    assert forall i :: 0 <= i < |num + gap + u| ==> (num + gap + u)[i] == z[i];
    UnitText(p, num, gap, u, host);
    UnitText(p, num, gap, u + "s", host);
    PluralShift(p, host.atof(z).0, u);
  }

  /** A time, with or without a sign, is a shift by the clock; a minus turns it backwards. */
  lemma ClockText(p: Stamp, sign: string, time: string, host: Host)
    requires sign in {"", "+", "-"} && time != "" && IsDigit(time[0]) && Plain(sign + time)
    ensures '\0' !in sign + time && '\0' !in time
    ensures var z: CString := sign + time; var n := host.atof(z).1;
            n > 0 && At(z, n) == ':' ==> ModifiedBy(p, z, host) == Modified(p, Clock(sign == "-", time))
  {
    hide Modified, Recognised;
    var z: CString := sign + time;
    PlainIsLowered(z);
    NumericIsShift(z, host);
    assert forall i :: 0 <= i < |time| ==> time[i] == z[|sign| + i];
    assert z[0] == if sign == "" then time[0] else sign[0];
    assert |sign| == if IsDigit(z[0]) then 0 else 1;
    assert z[0] == '-' <==> sign == "-";
    assert From(z, if IsDigit(z[0]) then 0 else 1) == time;
  }

  lemma TimeIsPlain(sign: string, h: int, m: int, s: int)
    requires sign in {"", "+", "-"} && Printable(0, 1, 1, h, m, s)
    ensures var t := TimeText(h, m, s); Plain(sign + t) && |t| == 8 && IsDigit(t[0]) && (sign + t)[|sign| + 2] == ':'
  {
    hide Fixed, Padded, TimeText;
    var t := TimeText(h, m, s);
    TimeLayout(h, m, s);
    FixedDigits(h); FixedDigits(m); FixedDigits(s);
    assert forall i :: 0 <= i < 2 ==> t[i] == t[0..2][i] && t[3 + i] == t[3..5][i] && t[6 + i] == t[6..8][i];
  }

  /** +HH:MM:SS adds that time of day, and -HH:MM:SS takes it away, less whole days, as soon as
      the number read at the head of the text is its hour. */
  lemma SignedTimeText(p: Stamp, sign: string, h: int, m: int, s: int, host: Host)
    requires sign in {"", "+", "-"} && Printable(0, 1, 1, h, m, s)
    ensures '\0' !in sign + TimeText(h, m, s)
    ensures host.atof(sign + TimeText(h, m, s)).1 == |sign| + 2 ==>
              var o := ModifiedBy(p, sign + TimeText(h, m, s), host);
              var part := DayPart((h * 3600 + m * 60 + s) as real);
              !o.failed && AfterJD(o.p).rJD == AfterJD(p).rJD + (if sign == "-" then -part else part)
  {
    hide TimeText, Modified, ModifiedBy, AfterJD, DayPart, HhMmSs;
    TimeIsPlain(sign, h, m, s);
    ClockText(p, sign, TimeText(h, m, s), host);
    ParsePrintedTime(h, m, s, ZERO);
    ClockShift(p, sign == "-", TimeText(h, m, s));
    AfterInstant(Modified(p, Clock(sign == "-", TimeText(h, m, s))).p);
  }

  /** A text that asks for a modifier is one of these, in any case. */
  lemma OnlyTheseTexts(p: Stamp, t: CString, host: Host)
    ensures var z := Lowered(t);
            !ModifiedBy(p, t, host).failed ==>
              z in {"localtime", "unixepoch", "utc"} || "weekday " <= z || "start of " <= z || Numeric(z)
  {
    hide Modified;
  }
}
