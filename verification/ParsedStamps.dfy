/** What the parsers leave in a stamp. */
module ParsedStamps {
  import opened CText
  import opened DateTime
  import opened DateText
  import opened DateTextRoundTrip
  import opened DateStamps

  lemma TimezoneRange(z: CString, i: nat, p: Stamp)
    ensures var r := Timezone(z, i, p); -900 < r.p.tz < 900 && r.p == p.(tz := r.p.tz)
  {
    hide SkipSpaces;
    var v := Scan(z, SkipSpaces(z, i) + 1, OFFSET);
  }

  lemma FractionBelow1(z: CString, i: nat)
    ensures 0.0 <= Fraction(z, i) < 1.0
  {
    hide Value, Pow10, IsDigit;
    var e := SkipDigits(z, i);
    if e > i {
      forall k | 0 <= k < e - i ensures IsDigit(z[i..e][k]) { assert z[i..e][k] == At(z, i + k); }
      ValueBound(z[i..e]);
    }
  }

  /** What a text of a time leaves in a structure. */
  lemma ParsedClock(z: CString, i: nat, p: Stamp)
    ensures var r := HhMmSs(z, i, p);
            r.failed || (
              && r.p == p.(validJD := false, validHMS := true, validTZ := r.p.tz != 0,
                           h := r.p.h, m := r.p.m, s := r.p.s, tz := r.p.tz)
              && ClockUpTo24(r.p) && -900 < r.p.tz < 900)
    ensures var r := HhMmSs(z, i, p); r.failed ==>
              r.p.validTZ == p.validTZ && r.p.validYMD == p.validYMD && (r.p.validJD ==> p.validJD) && r.p.rJD == p.rJD
  {
    hide Timezone, Scan, SkipDigits, Fraction;
    FractionBelow1(z, i + 9);
    forall e: nat, q: Stamp
      ensures -900 < Timezone(z, e, q).p.tz < 900 && Timezone(z, e, q).p == q.(tz := Timezone(z, e, q).p.tz)
    {
      TimezoneRange(z, e, q);
    }
  }

  lemma NoTimeWithoutColon(z: CString, i: nat, p: Stamp)
    requires ':' !in z
    ensures HhMmSs(z, i, p) == Outcome(true, p)
  {
    hide Scan, Timezone;
    ScanTime(z, i);
  }

  lemma FractionHasNoColon(z: CString, i: nat)
    ensures var e := FractionEnd(z, i); e.Some? ==> i <= e.value && forall k :: i <= k < e.value ==> At(z, k) != ':'
  {
    hide SkipDigits;
  }

  lemma ExponentHasNoColon(z: CString, i: nat)
    ensures var e := ExponentEnd(z, i); e.Some? ==> i <= e.value && forall k :: i <= k < e.value ==> At(z, k) != ':'
  {
    hide SkipDigits;
  }

  lemma NumberHasNoColon(z: CString)
    requires IsNumber(z)
    ensures ':' !in z
  {
    hide SkipDigits, FractionEnd, ExponentEnd;
    var i := if IsSign(At(z, 0)) then 1 else 0;
    var f := FractionEnd(z, SkipDigits(z, i));
    FractionHasNoColon(z, SkipDigits(z, i));
    ExponentHasNoColon(z, f.value);
    forall k | 0 <= k < |z| ensures z[k] != ':' { assert At(z, k) != ':'; }
  }

  lemma NowHasNoColon(z: CString)
    requires SameName(z, "now")
    ensures ':' !in z
  {
    forall k | 0 <= k < |z| ensures z[k] != ':' { assert Lower(z[k]) == Lower("now"[k]); }
  }

  lemma NeitherDateNorTime(z: CString)
    requires ':' !in z && YyyyMmDd(z, ZERO).failed
    ensures YyyyMmDd(z, ZERO).p == ZERO && HhMmSs(z, 0, ZERO) == Outcome(true, ZERO)
  {
    hide HhMmSs, Scan, SkipSpaces;
    var i := if At(z, 0) == '-' then 1 else 0;
    NoTimeWithoutColon(z, SkipSpaces(z, i + 10), ZERO);
    NoTimeWithoutColon(z, 0, ZERO);
  }

  lemma ParsedDate(z: CString)
    ensures var r := YyyyMmDd(z, ZERO); !r.failed ==> Usable(r.p)
    ensures var r := YyyyMmDd(z, ZERO); r.failed ==> !r.p.validYMD && !r.p.validTZ && !r.p.validJD && r.p.rJD == 0.0
  {
    hide HhMmSs, Scan, SkipSpaces;
    ParsedClock(z, SkipSpaces(z, if At(z, 0) == '-' then 11 else 10), ZERO);
  }

  /** Whatever text parses leaves a usable stamp. */
  lemma ParsedIsUsable(z: CString, host: Host)
    ensures var r := DateOrTime(z, host); !r.failed ==> Usable(r.p)
  {
    hide HhMmSs, YyyyMmDd, IsNumber, SameName;
    ParsedDate(z);
    ParsedClock(z, 0, YyyyMmDd(z, ZERO).p);
    if YyyyMmDd(z, ZERO).failed && (SameName(z, "now") || IsNumber(z)) {
      if IsNumber(z) { NumberHasNoColon(z); } else { NowHasNoColon(z); }
      NeitherDateNorTime(z);
    }
  }
}
