/** What the clock modifiers and the modifiers for local time do. */
module ClockLaws {
  import opened CInt
  import opened CText
  import opened JulianDay
  import opened DateTime
  import opened DateText
  import opened DateModifiers
  import opened DateTextRoundTrip
  import opened DateStamps
  import opened WeekdayLaws
  import opened ParsedStamps

  /** The part of a day that s seconds go beyond whole days. */
  function DayPart(s: real): (part: real) { s / 86400.0 - (s / 86400.0).Floor as real }

  lemma PartOfDay(z: int, s: real)
    requires z >= 1 && s > -86400.0
    ensures var r := z as real + s / 86400.0; r - Trunc(r) as real == DayPart(s)
  {
    var q := (s / 86400.0).Floor;
    assert q as real <= s / 86400.0 < q as real + 1.0;
    assert Trunc(z as real + s / 86400.0) == z + q;
  }

  lemma ClockOf2000(t: Stamp)
    requires !t.validJD && !t.validYMD && t.validHMS && (t.validTZ <==> t.tz != 0)
    ensures AfterJD(t).rJD - 0.5 == 2451544.0 + (t.Seconds() + (t.tz * 60) as real) / 86400.0
  {
    hide DayNumber;
    WeekdayAnchor();
  }

  /** A clock modifier shifts by the time that its text names, in its time zone if it has one,
      less whole days: 24:00 counts as no time, and 01:00 in the zone +02:00 as 03:00. */
  lemma ClockShift(p: Stamp, minus: bool, text: CString)
    ensures var o, t := Modified(p, Clock(minus, text)), HhMmSs(text, 0, ZERO);
            var part := DayPart(t.p.Seconds() + (t.p.tz * 60) as real);
            && (t.failed ==> o == Outcome(true, p))
            && (!t.failed ==>
                  && !o.failed && o.p.validJD && 0.0 <= part < 1.0
                  && o.p.rJD == AfterJD(p).rJD + (if minus then -part else part))
  {
    hide HhMmSs, Trunc, DayNumber;
    ParsedClock(text, 0, ZERO);
    WeekdayAnchor();
    var t := HhMmSs(text, 0, ZERO);
    if !t.failed {
      SecondsRange(t.p);
      ClockOf2000(t.p);
      PartOfDay(2451544, t.p.Seconds() + (t.p.tz * 60) as real);
    }
  }

  /** The printed forms HH:MM, HH:MM:SS and HH:MM:SS.FFF shift by what they say. */
  lemma PrintedClockShift(p: Stamp, minus: bool, h: int, m: int, s: int, f: CString)
    requires 0 <= h <= 24 && 0 <= m <= 59 && 0 <= s <= 59 && f != [] && AllDigits(f)
    ensures var sign := if minus then -1.0 else 1.0;
            var minutes := (h * 3600 + m * 60) as real;
            var seconds := minutes + s as real;
            var fractions := seconds + Value(f) as real / Pow10(|f|) as real;
            && Modified(p, Clock(minus, Joined(Padded(2, h), ':', Padded(2, m)))).p.rJD
               == AfterJD(p).rJD + sign * DayPart(minutes)
            && Modified(p, Clock(minus, TimeText(h, m, s))).p.rJD == AfterJD(p).rJD + sign * DayPart(seconds)
            && Modified(p, Clock(minus, Joined(TimeText(h, m, s), '.', f))).p.rJD
               == AfterJD(p).rJD + sign * DayPart(fractions)
  {
    hide HhMmSs, TimeText, Padded, DayPart, Modified, Joined, AfterJD, Value, Pow10;
    ParseHourMinute(h, m, ZERO);
    ParsePrintedTime(h, m, s, ZERO);
    ParseFractionalTime(h, m, s, f, ZERO);
    ClockShift(p, minus, Joined(Padded(2, h), ':', Padded(2, m)));
    ClockShift(p, minus, TimeText(h, m, s));
    ClockShift(p, minus, Joined(TimeText(h, m, s), '.', f));
  }

  /** Upper case makes no difference to a modifier. */
  lemma CaseIgnored(p: Stamp, a: CString, b: CString, host: Host)
    requires SameName(a, b)
    ensures ModifiedBy(p, a, host) == ModifiedBy(p, b, host)
  {
    hide Recognised, Modified;
    assert Lowered(a) == Lowered(b);
  }

  /** `utc` undoes `localtime` exactly when local time is as far ahead at the first guess as
      at the instant itself. */
  lemma UtcUndoesLocaltime(p: Stamp, offset: Stamp -> real)
    ensures var q, l := AfterJD(p), Modified(p, LocalTime(offset)).p;
            var guess := l.(rJD := l.rJD - offset(l));
            Modified(l, Utc(offset)).p.rJD == q.rJD <==> offset(guess) == offset(q)
  {
    hide DayNumber;
  }

  /** Local time two hours ahead until the day 2453309 begins at noon, and one hour from then on. */
  function SummerTime(x: Stamp): (days: real) { if x.rJD < 2453309.0 then 2.0 / 24.0 else 1.0 / 24.0 }

  /** Half an hour before such a change the first guess is behind it, and `utc` does not undo
      `localtime`: it comes out one hour late. */
  lemma UtcMissesLocaltime()
    ensures var p := ZERO.(rJD := 2453309.0 - 0.5 / 24.0, validJD := true);
            Modified(Modified(p, LocalTime(SummerTime)).p, Utc(SummerTime)).p.rJD == p.rJD + 1.0 / 24.0
  {
  }
}
