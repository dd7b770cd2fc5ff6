/** Reading and printing dates and times: getDigits, the parsers, and datetimeFunc. */
module DateText {
  import opened CInt
  import opened CText
  import opened DateTime
  import opened Wrappers

  /** One group of getDigits arguments: digit count, bounds, and the character that must
      follow, where the terminator character marks the last group. */
  datatype Field = Field(n: nat, min: int, max: int, next: char)

  /** The varargs protocol of getDigits: only the last group has no following character;
      every call in the file asks for two or four digits. */
  predicate Groups(fs: seq<Field>) {
    |fs| > 0 && forall k :: 0 <= k < |fs| ==> fs[k].n > 0 && (fs[k].next == '\0' <==> k == |fs| - 1)
  }

  /** The numbers that the fields fs read from position i, up to the first that fails. */
  function Scan(z: CString, i: nat, fs: seq<Field>): (vals: seq<int>)
    ensures |vals| <= |fs|
    ensures forall k :: 0 <= k < |vals| ==> fs[k].min <= vals[k] <= fs[k].max
    decreases |fs|
  {
    if fs == [] then []
    else
      var f := fs[0];
      if !(i + f.n <= |z| && AllDigits(z[i..i + f.n])) then []
      else
        var v := Value(z[i..i + f.n]);
        if v < f.min || v > f.max || (f.next != '\0' && f.next != At(z, i + f.n)) then []
        else [v] + Scan(z, i + f.n + 1, fs[1..])
  }

  lemma ScanFirst(z: CString, i: nat, fs: seq<Field>)
    requires Groups(fs)
    ensures var f := fs[0];
            Scan(z, i, fs) ==
            if !(i + f.n <= |z| && AllDigits(z[i..i + f.n])) then []
            else
              var v := Value(z[i..i + f.n]);
              if v < f.min || v > f.max || (f.next != '\0' && f.next != At(z, i + f.n)) then []
              else if f.next == '\0' then [v]
              else [v] + Scan(z, i + f.n + 1, fs[1..])
    ensures |fs| > 0 && fs[0].n > 0 && (fs[0].next != '\0' ==> Groups(fs[1..]))
  {
  }

  lemma Associate(a: seq<int>, v: int, b: seq<int>)
    ensures (a + [v]) + b == a + ([v] + b) && a + [] == a
  {
  }

  lemma NoDigits(z: CString, start: nat)
    ensures start <= |z| ==> AllDigits(z[start..start]) && Value(z[start..start]) == 0
  {
  }

  lemma OneMoreDigit(z: CString, start: nat, i: nat)
    requires start <= i && IsDigit(At(z, i))
    ensures i < |z|
    ensures AllDigits(z[start..i]) ==> AllDigits(z[start..i + 1])
    ensures Value(z[start..i + 1]) == Value(z[start..i]) * 10 + DigitValue(At(z, i))
  {
    assert z[start..i + 1][..i - start] == z[start..i];
    assert z[start..i + 1] == z[start..i] + [z[i]];
  }

  lemma NotAllDigits(z: CString, at: nat, n: nat, i: nat)
    requires at <= i < at + n && !IsDigit(At(z, i))
    ensures !(at + n <= |z| && AllDigits(z[at..at + n]))
  {
    if at + n <= |z| { assert z[at..at + n][i - at] == z[i]; }
  }

  /** The inner loop of getDigits. */
  method ReadNumber(z: CString, start: nat, N: nat) returns (ok: bool, val: int)
    requires N > 0
    ensures ok <==> start + N <= |z| && AllDigits(z[start..start + N])
    ensures ok ==> val == Value(z[start..start + N])
  {
    hide IsDigit, Value, At, DigitValue, AllDigits;
    var n, i := N, start;
    val := 0;
    NoDigits(z, start);
    while n > 0
      invariant 0 <= n <= N && i == start + (N - n) && (i == start || i <= |z|)
      invariant i <= |z| ==> AllDigits(z[start..i]) && val == Value(z[start..i])
      decreases n
    {
      if !IsDigit(At(z, i)) {
        NotAllDigits(z, start, N, i);
        return false, val;
      }
      OneMoreDigit(z, start, i);
      val := val * 10 + DigitValue(At(z, i));
      n, i := n - 1, i + 1;
    }
    ok := true;
  }

  method GetDigits(z: CString, start: nat, fs: seq<Field>) returns (vals: seq<int>)
    requires Groups(fs)
    ensures vals == Scan(z, start, fs)
  {
    hide IsDigit, Value, At, DigitValue, AllDigits, Scan, Groups;
    vals := [];
    var i: nat, rest := start, fs;
    var going := true;
    while going
      invariant going ==> Groups(rest) && vals + Scan(z, i, rest) == Scan(z, start, fs)
      invariant !going ==> vals == Scan(z, start, fs)
      decreases |rest|, going
    {
      ScanFirst(z, i, rest);
      var f := rest[0];
      var ok, val := ReadNumber(z, i, f.n);
      i := i + f.n;
      if !ok || val < f.min || val > f.max || (f.next != '\0' && f.next != At(z, i)) {
        going := false;
      } else {
        Associate(vals, val, Scan(z, i + 1, rest[1..]));
        vals := vals + [val];
        i := i + 1;
        rest := rest[1..];
        going := f.next != '\0';
      }
    }
  }

  const HOUR_MINUTE := [Field(2, 0, 24, ':'), Field(2, 0, 59, '\0')]
  const SECOND := [Field(2, 0, 59, '\0')]
  const OFFSET := [Field(2, 0, 14, ':'), Field(2, 0, 59, '\0')]
  const YEAR_MONTH_DAY := [Field(4, 0, 9999, '-'), Field(2, 1, 12, '-'), Field(2, 1, 31, '\0')]

  /** A return code of the C parsers (true is failure) and the structure they leave. */
  datatype Outcome = Outcome(failed: bool, p: Stamp)

  function Timezone(z: CString, i: nat, p: Stamp): (r: Outcome) {
    var j := SkipSpaces(z, i);
    if At(z, j) != '-' && At(z, j) != '+' then Outcome(j < |z|, p.(tz := 0))
    else
      var v := Scan(z, j + 1, OFFSET);
      if |v| != 2 then Outcome(true, p.(tz := 0))
      else
        var sgn := if At(z, j) == '-' then -1 else 1;
        Outcome(SkipSpaces(z, j + 6) < |z|, p.(tz := sgn * (v[1] + v[0] * 60)))
  }

  /** The digits from position i on, read as a decimal fraction. */
  function Fraction(z: CString, i: nat): (f: real) {
    var e := SkipDigits(z, i);
    if e == i then 0.0 else Value(z[i..e]) as real / Pow10(e - i) as real
  }

  /** Seconds read at position i, with an optional decimal fraction, and where they end. */
  function SecondsAt(z: CString, i: nat, s: int): (r: (real, nat)) {
    if At(z, i) == '.' && IsDigit(At(z, i + 1)) then
      (s as real + Fraction(z, i + 1), SkipDigits(z, i + 1))
    else (s as real, i)
  }

  function HhMmSs(z: CString, i: nat, p: Stamp): (r: Outcome) {
    var v := Scan(z, i, HOUR_MINUTE);
    if |v| != 2 then Outcome(true, p)
    else
      var w := if At(z, i + 5) == ':' then Scan(z, i + 6, SECOND) else [0];
      if |w| != 1 then Outcome(true, p)
      else
        var (s, e) := if At(z, i + 5) == ':' then SecondsAt(z, i + 8, w[0]) else (0.0, i + 5);
        var r := Timezone(z, e, p.(validJD := false, validHMS := true, h := v[0], m := v[1], s := s));
        if r.failed then r else r.(p := r.p.(validTZ := r.p.tz != 0))
  }

  function YyyyMmDd(z: CString, p: Stamp): (r: Outcome) {
    var neg := At(z, 0) == '-';
    var i := if neg then 1 else 0;
    var v := Scan(z, i, YEAR_MONTH_DAY);
    if |v| != 3 then Outcome(true, p)
    else
      var j := SkipSpaces(z, i + 10);
      var t := HhMmSs(z, j, p);
      if t.failed && j < |z| then t
      else
        var q := if t.failed then t.p.(validHMS := false) else t.p;
        var d := q.(validJD := false, validYMD := true, Y := if neg then -v[0] else v[0], M := v[1], D := v[2]);
        Outcome(false, if d.validTZ then AfterJD(d) else d)
  }

  /** What the date functions ask of their surroundings: the clock, if it can be read; the
      number at the head of a text, and how many characters it takes; and, in days, how far
      local time is ahead. */
  datatype Host = Host(clock: Option<real>, atof: CString -> (real, nat), offset: Stamp -> real)

  predicate IsSign(c: char) { c == '-' || c == '+' }

  predicate IsE(c: char) { c == 'e' || c == 'E' }

  /** Where the fraction of a number ends whose digits end at position i. */
  function FractionEnd(z: CString, i: nat): (e: Option<nat>) {
    if At(z, i) != '.' then Some(i) else if IsDigit(At(z, i + 1)) then Some(SkipDigits(z, i + 1)) else None
  }

  /** Where the exponent of a number ends whose digits and fraction end at position i. */
  function ExponentEnd(z: CString, i: nat): (e: Option<nat>) {
    if !IsE(At(z, i)) then Some(i)
    else
      var d := if IsSign(At(z, i + 1)) then i + 2 else i + 1;
      if IsDigit(At(z, d)) then Some(SkipDigits(z, d)) else None
  }

  /** The whole text is a number, with an optional sign, fraction and exponent. */
  predicate IsNumber(z: CString) {
    var i := if IsSign(At(z, 0)) then 1 else 0;
    IsDigit(At(z, i)) &&
    var f := FractionEnd(z, SkipDigits(z, i));
    f.Some? && ExponentEnd(z, f.value) == Some(|z|)
  }

  /** parseDateOrTime, which starts from a zeroed structure. */
  function DateOrTime(z: CString, host: Host): (r: Outcome) {
    var a := YyyyMmDd(z, ZERO);
    if !a.failed then a
    else
      var b := HhMmSs(z, 0, a.p);
      if !b.failed then b
      else if SameName(z, "now") then
        if host.clock.Some? then Outcome(false, b.p.(rJD := host.clock.value, validJD := true)) else b
      else if IsNumber(z) then Outcome(false, b.p.(rJD := host.atof(z).0, validJD := true))
      else b
  }

  method ScanSpaces(z: CString, start: nat) returns (i: nat)
    ensures i == SkipSpaces(z, start)
  {
    i := start;
    while IsSpace(At(z, i))
      invariant SkipSpaces(z, i) == SkipSpaces(z, start)
      decreases |z| - i
    {
      i := i + 1;
    }
  }

  method ParseTimezone(z: CString, start: nat, p: DateTime) returns (failed: bool)
    modifies p
    ensures Outcome(failed, p.Value()) == Timezone(z, start, old(p.Value()))
  {
    hide Scan, SkipSpaces, IsSpace;
    var sgn := 0;
    var i := ScanSpaces(z, start);
    p.tz := 0;
    if At(z, i) == '-' {
      sgn := -1;
    } else if At(z, i) == '+' {
      sgn := 1;
    } else {
      return At(z, i) != '\0';
    }
    i := i + 1;
    var v := GetDigits(z, i, OFFSET);
    if |v| != 2 { return true; }
    i := i + 5;
    p.tz := sgn * (v[1] + v[0] * 60);
    i := ScanSpaces(z, i);
    failed := At(z, i) != '\0';
  }

  method ParseFraction(z: CString, start: nat) returns (ms: real, i: nat)
    ensures i == SkipDigits(z, start) && ms == Fraction(z, start)
  {
    hide IsDigit, Value, At, DigitValue;
    var rScale := 1.0;
    i := start;
    ms := 0.0;
    NoDigits(z, start);
    while IsDigit(At(z, i))
      invariant start <= i && (i == start || i <= |z|) && SkipDigits(z, i) == SkipDigits(z, start)
      invariant i <= |z| ==> ms == Value(z[start..i]) as real && rScale == Pow10(i - start) as real
      invariant i == start ==> ms == 0.0
      decreases |z| - i
    {
      OneMoreDigit(z, start, i);
      ms := ms * 10.0 + DigitValue(At(z, i)) as real;
      rScale := rScale * 10.0;
      i := i + 1;
    }
    ms := ms / rScale;
  }

  lemma CallsAreGroups()
    ensures Groups(HOUR_MINUTE) && Groups(SECOND) && Groups(OFFSET) && Groups(YEAR_MONTH_DAY)
    ensures |HOUR_MINUTE| == 2 && |SECOND| == 1
  {
  }

  /** The optional seconds of a time; `ok` is false if a colon is not followed by two digits. */
  method ReadSeconds(z: CString, start: nat) returns (ok: bool, s: real, i: nat)
    ensures At(z, start) != ':' ==> ok && s == 0.0 && i == start
    ensures At(z, start) == ':' ==>
      var w := Scan(z, start + 1, SECOND);
      (ok <==> |w| == 1) && (ok ==> (s, i) == SecondsAt(z, start + 3, w[0]))
  {
    hide Scan, SkipDigits, Fraction, IsDigit, At, Groups;
    CallsAreGroups();
    ok, s, i := true, 0.0, start;
    if At(z, i) == ':' {
      i := i + 1;
      var w := GetDigits(z, i, SECOND);
      if |w| != 1 { return false, s, i; }
      var ms := 0.0;
      i := i + 2;
      if At(z, i) == '.' && IsDigit(At(z, i + 1)) {
        ms, i := ParseFraction(z, i + 1);
      }
      s := w[0] as real + ms;
    }
  }

  method ParseHhMmSs(z: CString, start: nat, p: DateTime) returns (failed: bool)
    modifies p
    ensures Outcome(failed, p.Value()) == HhMmSs(z, start, old(p.Value()))
  {
    hide Scan, SecondsAt, Timezone, At, Groups;
    CallsAreGroups();
    var i := start;
    var v := GetDigits(z, i, HOUR_MINUTE);
    if |v| != 2 { return true; }
    i := i + 5;
    var ok, s, e := ReadSeconds(z, i);
    if !ok { return true; }
    p.validJD := false;
    p.validHMS := true;
    p.h := v[0];
    p.m := v[1];
    p.s := s;
    failed := ParseTimezone(z, e, p);
    if failed { return; }
    p.validTZ := p.tz != 0;
  }

  /** The fields that parseYyyyMmDd sets, and the conversion when there is a time zone. */
  method SetDate(Y: int, M: int, D: int, p: DateTime)
    modifies p
    ensures var d := old(p.Value()).(validJD := false, validYMD := true, Y := Y, M := M, D := D);
            p.Value() == if d.validTZ then AfterJD(d) else d
  {
    hide AfterJD;
    p.validJD := false;
    p.validYMD := true;
    p.Y := Y;
    p.M := M;
    p.D := D;
    if p.validTZ { p.ComputeJD(); }
  }

  method ParseYyyyMmDd(z: CString, p: DateTime) returns (failed: bool)
    modifies p
    ensures Outcome(failed, p.Value()) == YyyyMmDd(z, old(p.Value()))
  {
    hide Scan, SkipSpaces, HhMmSs, AfterJD, Groups;
    CallsAreGroups();
    var i, neg := 0, false;
    if At(z, 0) == '-' {
      i := 1;
      neg := true;
    }
    var v := GetDigits(z, i, YEAR_MONTH_DAY);
    if |v| != 3 { return true; }
    i := i + 10;
    i := ScanSpaces(z, i);
    failed := ParseHhMmSs(z, i, p);
    if !failed {
    } else if At(z, i) == '\0' {
      p.validHMS := false;
    } else {
      return true;
    }
    SetDate(if neg then -v[0] else v[0], v[1], v[2], p);
    failed := false;
  }

  method ScanDigits(z: CString, start: nat) returns (i: nat)
    ensures i == SkipDigits(z, start)
  {
    i := start;
    while IsDigit(At(z, i))
      invariant SkipDigits(z, i) == SkipDigits(z, start)
      decreases |z| - i
    {
      i := i + 1;
    }
  }

  lemma DigitsFrom(z: CString, i: nat)
    requires IsDigit(At(z, i))
    ensures SkipDigits(z, i) == SkipDigits(z, i + 1) <= |z|
  {
  }

  /** The part of sqlite3IsNumber for a decimal point. */
  method PassFraction(z: CString, start: nat) returns (e: Option<nat>)
    requires start <= |z|
    ensures e == FractionEnd(z, start) && (e.Some? ==> e.value <= |z|)
  {
    hide IsDigit, SkipDigits;
    var i := start;
    if At(z, i) == '.' {
      i := i + 1;
      if !IsDigit(At(z, i)) { return None; }
      DigitsFrom(z, i);
      i := ScanDigits(z, i);
    }
    e := Some(i);
  }

  /** The part of sqlite3IsNumber for an exponent. */
  method PassExponent(z: CString, start: nat) returns (e: Option<nat>)
    requires start <= |z|
    ensures e == ExponentEnd(z, start) && (e.Some? ==> e.value <= |z|)
  {
    hide IsDigit, SkipDigits;
    var i := start;
    if IsE(At(z, i)) {
      i := i + 1;
      if IsSign(At(z, i)) { i := i + 1; }
      if !IsDigit(At(z, i)) { return None; }
      DigitsFrom(z, i);
      i := ScanDigits(z, i);
    }
    e := Some(i);
  }

  /** sqlite3IsNumber, on a text of single bytes. */
  method CheckNumber(z: CString) returns (number: bool)
    ensures number <==> IsNumber(z)
  {
    hide IsDigit, SkipDigits, IsSign, FractionEnd, ExponentEnd;
    var i := 0;
    if IsSign(At(z, i)) { i := i + 1; }
    if !IsDigit(At(z, i)) { return false; }
    DigitsFrom(z, i);
    i := ScanDigits(z, i + 1);
    var e := PassFraction(z, i);
    if e.None? { return false; }
    e := PassExponent(z, e.value);
    number := e.Some? && At(z, e.value) == '\0';
  }

  method ParseDateOrTime(z: CString, host: Host) returns (failed: bool, p: DateTime)
    ensures fresh(p)
    ensures Outcome(failed, p.Value()) == DateOrTime(z, host)
  {
    hide SameName, IsNumber, YyyyMmDd, HhMmSs;
    p := new DateTime();
    failed := ParseYyyyMmDd(z, p);
    if !failed { return; }
    failed := ParseHhMmSs(z, 0, p);
    if !failed { return; }
    if SameName(z, "now") {
      if host.clock.Some? {
        p.rJD := host.clock.value;
        p.validJD := true;
        failed := false;
      }
      return;
    }
    var number := CheckNumber(z);
    if number {
      p.rJD := host.atof(z).0;
      p.validJD := true;
      failed := false;
    }
  }

  /** "%04d-%02d-%02d" */
  function DayText(Y: int, M: int, D: int): (t: CString) {
    Joined(Joined(Padded(4, Y), '-', Padded(2, M)), '-', Padded(2, D))
  }

  /** "%02d:%02d:%02d" */
  function TimeText(h: int, m: int, s: int): (t: CString) {
    Joined(Joined(Padded(2, h), ':', Padded(2, m)), ':', Padded(2, s))
  }

  /** "%04d-%02d-%02d %02d:%02d:%02d" */
  function DatetimeText(Y: int, M: int, D: int, h: int, m: int, s: int): (t: CString) {
    Joined(DayText(Y, M, D), ' ', TimeText(h, m, s))
  }

  /** The text datetimeFunc makes of a parsed and modified structure. */
  function Printed(p: Stamp): (t: CString) {
    var q := AfterYMD_HMS(p);
    DatetimeText(q.Y, q.M, q.D, q.h, q.m, Trunc(q.s))
  }

  method Print(p: DateTime) returns (t: CString)
    modifies p
    ensures t == Printed(old(p.Value())) && p.Value() == AfterYMD_HMS(old(p.Value()))
  {
    p.ComputeYMD_HMS();
    t := DatetimeText(p.Y, p.M, p.D, p.h, p.m, Trunc(p.s));
  }
}
