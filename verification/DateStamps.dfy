/** The stamps that the date functions work on: instants, and dates and times read from a
    text that no instant has been computed from. */
module DateStamps {
  import opened CInt
  import opened Gregorian
  import opened JulianDay
  import opened DateTime
  import opened TimeOfDay

  predicate ClockUpTo24(p: Stamp) {
    0 <= p.h <= 24 && 0 <= p.m < 60 && 0.0 <= p.s < 60.0
  }

  /** What a stamp can carry between two modifiers: an instant and nothing else, or a date, a
      time or both that no instant has been computed from. Without a time rJD is still zero. */
  predicate Usable(p: Stamp) {
    if p.validJD then !p.validYMD && !p.validHMS && !p.validTZ
    else
      && (p.validTZ ==> p.validHMS && p.tz != 0 && -900 < p.tz < 900)
      && (if p.validHMS then ClockUpTo24(p) else p.rJD == 0.0)
  }

  /** A clock time, with or without a date, in no particular time zone. */
  predicate Clocked(p: Stamp) { !p.validJD && p.validHMS && !p.validTZ }

  /** The date that a stamp without an instant names; its day may lie past the month's end. */
  function NamedDate(p: Stamp): (t: Date) {
    if p.validYMD then p.Date() else Gregorian.Date(2000, 1, 1)
  }

  function NamedDay(p: Stamp): (z: int) {
    DayNumber(NamedDate(p).y, NamedDate(p).m, NamedDate(p).d)
  }

  /** A time of 24:00 or later names the next day of the calendar. */
  predicate Overflows(p: Stamp) { Clocked(p) && p.Seconds() >= 86400.0 }

  /** The instant is on or after 0000-01-01 00:00. */
  predicate AfterEpoch(rJD: real) { rJD >= EPOCH as real - 0.5 }

  /** The structure that the date functions print from. */
  function Converted(p: Stamp): (x: Stamp) { AfterYMD_HMS(AfterJD(p)) }

  /** The instant t milliseconds past midnight of day z. */
  function MomentAt(z: int, t: real): (rJD: real) {
    z as real - 0.5 + t / 86400000.0
  }

  lemma MomentParts(z: int, t: real)
    requires z >= 0 && 0.0 <= t < 86400000.0
    ensures DayIn(MomentAt(z, t)) == z && MillisIn(MomentAt(z, t)) == t
    ensures RoundedMillis(MomentAt(z, t)) == Trunc(t + 0.5)
  {
    assert MomentAt(z, t) + 0.5 == z as real + t / 86400000.0;
  }

  lemma SecondsRange(p: Stamp)
    requires ClockUpTo24(p)
    ensures 0.0 <= p.Seconds() < 90000.0
  {
  }

  /** A clock time names the instant at its distance from midnight of its day. */
  lemma ClockInstant(p: Stamp)
    requires Usable(p) && Clocked(p) && AfterEpoch(AfterJD(p).rJD)
    ensures var q, over := AfterJD(p), if Overflows(p) then 1 else 0;
            && q.rJD == MomentAt(NamedDay(p), p.Seconds() * 1000.0) && Instant(Cleared(q))
            && q.Day() == NamedDay(p) + over && q.Millis() == p.Seconds() * 1000.0 - (over * DAY_MS) as real
  {
    hide DayNumber, DayIn, MillisIn, RoundedMillis;
    SecondsRange(p);
    var t := p.Seconds() * 1000.0;
    var over := if Overflows(p) then 1 else 0;
    assert MomentAt(NamedDay(p), t) == MomentAt(NamedDay(p) + over, t - (over * DAY_MS) as real);
    assert AfterJD(p).rJD == MomentAt(NamedDay(p), t);
    MomentParts(NamedDay(p) + over, t - (over * DAY_MS) as real);
  }

  /** Any other stamp is used through its instant alone. */
  lemma InstantInside(p: Stamp)
    requires Usable(p) && !Clocked(p) && AfterEpoch(AfterJD(p).rJD)
    ensures Instant(AfterJD(p)) && AfterJD(AfterJD(p)) == AfterJD(p) && Converted(AfterJD(p)) == Converted(p)
  {
    hide DayNumber, AfterYMD_HMS;
  }

  lemma ConvertedInstant(p: Stamp)
    ensures Converted(p).rJD == AfterJD(p).rJD && Converted(p).validJD
  {
    hide DayNumber, DateOf, RoundedMillis;
  }

  /** What a clock time is printed from. */
  lemma ConvertedClock(p: Stamp)
    requires Usable(p) && Clocked(p)
    ensures var x := Converted(p);
            && x.h == p.h && x.m == p.m && x.s == p.s && x.validHMS && !x.validTZ && x.validYMD
            && x.Date() == DateOf(AfterJD(p).Day())
  {
    hide DayNumber, DateOf;
  }

  lemma EpochDay(rJD: real)
    requires AfterEpoch(rJD)
    ensures DayIn(rJD) >= EPOCH
  {
  }

  /** The calendar's date of the instant that a stamp names. */
  function CalendarDate(p: Stamp): (t: Date)
    requires AfterEpoch(AfterJD(p).rJD)
  {
    EpochDay(AfterJD(p).rJD);
    DateAfter(AfterJD(p).Day() - EPOCH)
  }

  /** Seconds of a stamp's instant since 1970-01-01 00:00. */
  function SecondsSince1970(p: Stamp): (v: real) { (AfterJD(p).rJD - 2440587.5) * 86400.0 }
}
