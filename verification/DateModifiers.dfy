/** parseModifier: the shifts a caller of the date functions can ask for. */
module DateModifiers {
  import opened CInt
  import opened CText
  import opened JulianDay
  import opened DateTime
  import opened DateText
  import opened Wrappers

  /** A modifier after its text is recognised and its number read. */
  datatype Modifier =
    | LocalTime(offset: Stamp -> real)
    | UnixEpoch
    | Utc(offset: Stamp -> real)
    | Weekday(r: real)
    | StartOf(unit: string)
    | Shift(r: real, unit: string)
    | Clock(minus: bool, time: CString)

  /** The copy that parseModifier makes of a text: at most 29 characters, in lower case. */
  function Lowered(t: CString): (z: CString)
    ensures |z| == if |t| < 29 then |t| else 29
  {
    var z := seq(if |t| < 29 then |t| else 29, i requires 0 <= i < |t| => Lower(t[i]));
    assert forall i :: 0 <= i < |z| ==> z[i] == Lower(t[i]) && t[i] != '\0';
    z
  }

  /** The text behind position i. */
  function From(z: CString, i: nat): (t: CString) {
    if i <= |z| then z[i..] else ""
  }

  /** The text starts with a sign or a digit. */
  predicate Numeric(z: CString) { IsSign(At(z, 0)) || IsDigit(At(z, 0)) }

  /** What a lower-case text asks for, if it has the form of a modifier. */
  function Recognised(z: CString, host: Host): (m: Option<Modifier>) {
    if z == "localtime" then Some(LocalTime(host.offset))
    else if z == "unixepoch" then Some(UnixEpoch)
    else if z == "utc" then Some(Utc(host.offset))
    else if "weekday " <= z then
      var (r, n) := host.atof(From(z, 8));
      if n > 0 then Some(Weekday(r)) else None
    else if "start of " <= z then Some(StartOf(From(z, 9)))
    else if Numeric(z) then
      var (r, n) := host.atof(z);
      if n == 0 then None
      else if At(z, n) == ':' then Some(Clock(z[0] == '-', From(z, if IsDigit(z[0]) then 0 else 1)))
      else Some(Shift(r, From(z, SkipSpaces(z, n))))
    else None
  }

  /** A unit without the plural s. */
  function Singular(unit: string): (u: string) {
    if unit != [] && unit[|unit| - 1] == 's' then unit[..|unit| - 1] else unit
  }

  function WeekdayShifted(p: Stamp, n: int): (r: Stamp) {
    var q := AfterJD(AfterYMD_HMS(p).(validTZ := false, validJD := false));
    var w := Mod(Trunc(q.rJD + 1.5), 7);
    Cleared(q.(rJD := q.rJD + (n - (if w > n then w - 7 else w)) as real))
  }

  function StartOfUnit(p: Stamp, unit: string): (r: Outcome) {
    var q := AfterYMD(p).(validHMS := true, h := 0, m := 0, s := 0.0, validTZ := false, validJD := false);
    if unit == "month" then Outcome(false, q.(D := 1))
    else if unit == "year" then Outcome(false, q.(M := 1, D := 1))
    else Outcome(unit != "day", q)
  }

  function MonthsShifted(p: Stamp, r: real): (q: Stamp) {
    var a := AfterYMD_HMS(p);
    var M := a.M + Trunc(r);
    var x := if M > 0 then Div(M - 1, 12) else Div(M - 12, 12);
    var b := AfterJD(a.(Y := a.Y + x, M := M - x * 12, validJD := false));
    b.(rJD := b.rJD + (r - Trunc(r) as real) * 30.0)
  }

  function YearsShifted(p: Stamp, r: real): (q: Stamp) {
    var a := AfterYMD_HMS(p);
    AfterJD(a.(Y := a.Y + Trunc(r), validJD := false))
  }

  function ShiftedBy(p: Stamp, r: real, u: string): (o: Outcome) {
    var q := AfterJD(p);
    if u == "day" then Outcome(false, Cleared(q.(rJD := q.rJD + r)))
    else if u == "hour" then Outcome(false, Cleared(q.(rJD := q.rJD + r / 24.0)))
    else if u == "minute" then Outcome(false, Cleared(q.(rJD := q.rJD + r / 1440.0)))
    else if u == "second" then Outcome(false, Cleared(q.(rJD := q.rJD + r / 86400.0)))
    else if u == "month" then Outcome(false, Cleared(MonthsShifted(q, r)))
    else if u == "year" then Outcome(false, Cleared(YearsShifted(q, r)))
    else Outcome(true, Cleared(q))
  }

  function Shifted(p: Stamp, r: real, unit: string): (o: Outcome) {
    if |unit| > 10 || |unit| < 3 then Outcome(true, p) else ShiftedBy(p, r, Singular(unit))
  }

  function ClockShifted(p: Stamp, minus: bool, time: CString): (o: Outcome) {
    var t := HhMmSs(time, 0, ZERO);
    if t.failed then Outcome(true, p)
    else
      var r := AfterJD(t.p).rJD - 0.5;
      var part := r - Trunc(r) as real;
      var q := Cleared(AfterJD(p));
      Outcome(false, q.(rJD := q.rJD + if minus then -part else part))
  }

  function Localized(p: Stamp, offset: Stamp -> real): (r: Stamp) {
    var q := AfterJD(p);
    Cleared(q.(rJD := q.rJD + offset(q)))
  }

  /** The first guess subtracts the offset of the local time itself. */
  function Universal(p: Stamp, offset: Stamp -> real): (r: Stamp) {
    var q := AfterJD(p);
    var guess := Cleared(q.(rJD := q.rJD - offset(q)));
    guess.(rJD := guess.rJD + (offset(q) - offset(guess)))
  }

  function Modified(p: Stamp, mod: Modifier): (o: Outcome) {
    match mod
    case LocalTime(offset) => Outcome(false, Localized(p, offset))
    case Utc(offset) => Outcome(false, Universal(p, offset))
    case UnixEpoch =>
      if p.validJD then Outcome(false, Cleared(p.(rJD := p.rJD / 86400.0 + 2440587.5))) else Outcome(true, p)
    case Weekday(r) =>
      if Trunc(r) as real == r && 0 <= Trunc(r) < 7 then Outcome(false, WeekdayShifted(p, Trunc(r)))
      else Outcome(true, p)
    case StartOf(unit) => StartOfUnit(p, unit)
    case Shift(r, unit) => Shifted(p, r, unit)
    case Clock(minus, time) => ClockShifted(p, minus, time)
  }

  /** parseModifier: the return code and the structure after a modifier text. */
  function ModifiedBy(p: Stamp, text: CString, host: Host): (o: Outcome) {
    match Recognised(Lowered(text), host)
    case None => Outcome(true, p)
    case Some(mod) => Modified(p, mod)
  }

  /** The loop that copies the text. */
  method LowerCopy(text: CString) returns (z: CString)
    ensures z == Lowered(text)
  {
    z := "";
    var n := 0;
    while n < 29 && At(text, n) != '\0'
      invariant 0 <= n <= |text| && n <= 29 && z == Lowered(text)[..n]
    {
      z := z + [Lower(text[n])];
      n := n + 1;
    }
  }

  lemma FirstLetters(z: CString)
    ensures At("localtime", 0) == 'l' && At("unixepoch", 0) == 'u' && At("utc", 0) == 'u'
    ensures "weekday " <= z ==> At(z, 0) == 'w'
    ensures "start of " <= z ==> At(z, 0) == 's'
  {
    if "weekday " <= z { assert z[0] == "weekday "[0]; }
    if "start of " <= z { assert z[0] == "start of "[0]; }
  }

  lemma NumericIsShift(z: CString, host: Host)
    requires Numeric(z)
    ensures var (r, n) := host.atof(z);
            Recognised(z, host) ==
            if n == 0 then None
            else if At(z, n) == ':' then Some(Clock(z[0] == '-', From(z, if IsDigit(z[0]) then 0 else 1)))
            else Some(Shift(r, From(z, SkipSpaces(z, n))))
  {
    hide SkipSpaces, From;
    FirstLetters(z);
  }

  method ShiftMonths(r: real, p: DateTime)
    modifies p
    ensures p.Value() == MonthsShifted(old(p.Value()), r)
  {
    hide AfterJD, AfterYMD_HMS, Trunc, Div;
    p.ComputeYMD_HMS();
    p.M := p.M + Trunc(r);
    var x := if p.M > 0 then Div(p.M - 1, 12) else Div(p.M - 12, 12);
    p.Y := p.Y + x;
    p.M := p.M - x * 12;
    p.validJD := false;
    p.ComputeJD();
    var y := Trunc(r);
    if y as real != r {
      p.rJD := p.rJD + (r - y as real) * 30.0;
    }
  }

  method ShiftBy(r: real, u: string, p: DateTime) returns (failed: bool)
    modifies p
    ensures Outcome(failed, p.Value()) == ShiftedBy(old(p.Value()), r, u)
  {
    hide AfterJD, AfterYMD_HMS, Trunc, Div;
    p.ComputeJD();
    failed := false;
    if u == "day" {
      p.rJD := p.rJD + r;
    } else if u == "hour" {
      p.rJD := p.rJD + r / 24.0;
    } else if u == "minute" {
      p.rJD := p.rJD + r / (24.0 * 60.0);
    } else if u == "second" {
      p.rJD := p.rJD + r / (24.0 * 60.0 * 60.0);
    } else if u == "month" {
      ShiftMonths(r, p);
    } else if u == "year" {
      p.ComputeYMD_HMS();
      p.Y := p.Y + Trunc(r);
      p.validJD := false;
      p.ComputeJD();
    } else {
      failed := true;
    }
    p.ClearYMD_HMS_TZ();
  }

  method ShiftByClock(minus: bool, time: CString, p: DateTime) returns (failed: bool)
    modifies p
    ensures Outcome(failed, p.Value()) == ClockShifted(old(p.Value()), minus, time)
  {
    hide AfterJD, Trunc, HhMmSs;
    var tx := new DateTime();
    failed := ParseHhMmSs(time, 0, tx);
    if failed { return; }
    tx.ComputeJD();
    tx.rJD := tx.rJD - 0.5;
    var day := Trunc(tx.rJD);
    tx.rJD := tx.rJD - day as real;
    if minus { tx.rJD := -tx.rJD; }
    p.ComputeJD();
    p.ClearYMD_HMS_TZ();
    p.rJD := p.rJD + tx.rJD;
    failed := false;
  }

  /** The branch of parseModifier for a text that starts with a sign or a digit. */
  method ParseShift(z: CString, p: DateTime, host: Host) returns (failed: bool)
    requires Numeric(z)
    modifies p
    ensures Outcome(failed, p.Value())
         == match Recognised(z, host)
            case None => Outcome(true, old(p.Value()))
            case Some(mod) => Modified(old(p.Value()), mod)
  {
    hide ShiftedBy, ClockShifted, From, SkipSpaces, Localized, Universal, WeekdayShifted, StartOfUnit, Trunc;
    NumericIsShift(z, host);
    failed := true;
    var (r, n) := host.atof(z);
    if n == 0 { return; }
    if At(z, n) == ':' {
      failed := ShiftByClock(z[0] == '-', From(z, if IsDigit(z[0]) then 0 else 1), p);
      return;
    }
    n := ScanSpaces(z, n);
    var u := From(z, n);
    if |u| > 10 || |u| < 3 { return; }
    if u[|u| - 1] == 's' { u := u[..|u| - 1]; }
    failed := ShiftBy(r, u, p);
  }

  method ToLocal(p: DateTime, offset: Stamp -> real)
    modifies p
    ensures p.Value() == Localized(old(p.Value()), offset)
  {
    hide AfterJD;
    p.ComputeJD();
    p.rJD := p.rJD + offset(p.Value());
    p.ClearYMD_HMS_TZ();
  }

  method ToUniversal(p: DateTime, offset: Stamp -> real)
    modifies p
    ensures p.Value() == Universal(old(p.Value()), offset)
  {
    hide AfterJD;
    p.ComputeJD();
    var c1 := offset(p.Value());
    p.rJD := p.rJD - c1;
    p.ClearYMD_HMS_TZ();
    p.rJD := p.rJD + (c1 - offset(p.Value()));
  }

  method ToWeekday(n: int, p: DateTime)
    modifies p
    ensures p.Value() == WeekdayShifted(old(p.Value()), n)
  {
    hide Trunc, AfterJD, AfterYMD_HMS;
    p.ComputeYMD_HMS();
    p.validTZ := false;
    p.validJD := false;
    p.ComputeJD();
    var Z := Trunc(p.rJD + 1.5);
    Z := Mod(Z, 7);
    if Z > n { Z := Z - 7; }
    p.rJD := p.rJD + (n - Z) as real;
    p.ClearYMD_HMS_TZ();
  }

  method ToStart(unit: string, p: DateTime) returns (failed: bool)
    modifies p
    ensures Outcome(failed, p.Value()) == StartOfUnit(old(p.Value()), unit)
  {
    hide DateOf;
    failed := true;
    p.ComputeYMD();
    p.validHMS := true;
    p.h, p.m := 0, 0;
    p.s := 0.0;
    p.validTZ := false;
    p.validJD := false;
    if unit == "month" {
      p.D := 1;
      failed := false;
    } else if unit == "year" {
      p.ComputeYMD();
      p.M := 1;
      p.D := 1;
      failed := false;
    } else if unit == "day" {
      failed := false;
    }
  }

  method ParseModifier(text: CString, p: DateTime, host: Host) returns (failed: bool)
    modifies p
    ensures Outcome(failed, p.Value()) == ModifiedBy(old(p.Value()), text, host)
  {
    hide Lowered, Localized, Universal, WeekdayShifted, StartOfUnit, Trunc, Shifted, ClockShifted, From;
    var z := LowerCopy(text);
    FirstLetters(z);
    failed := true;
    if z == "localtime" {
      ToLocal(p, host.offset);
      failed := false;
    } else if z == "unixepoch" && p.validJD {
      p.rJD := p.rJD / 86400.0 + 2440587.5;
      p.ClearYMD_HMS_TZ();
      failed := false;
    } else if z == "utc" {
      ToUniversal(p, host.offset);
      failed := false;
    } else if "weekday " <= z {
      var (r, count) := host.atof(From(z, 8));
      var n := Trunc(r);
      if count > 0 && n as real == r && n >= 0 && n < 7 {
        ToWeekday(n, p);
        failed := false;
      }
    } else if "start of " <= z {
      failed := ToStart(From(z, 9), p);
    } else if Numeric(z) {
      failed := ParseShift(z, p, host);
    }
  }
}
