/** strftimeFunc: a first pass over the format sizes the buffer, a second one fills it. */
module Strftime {
  import opened CInt
  import opened CText
  import opened Gregorian
  import opened DateTime
  import opened Wrappers

  /** Characters the first pass sets aside for a conversion; none for an unknown one. */
  function Width(c: char): (w: Option<nat>)
    ensures w.Some? ==> w.value >= 1
  {
    match c
    case 'd' | 'H' | 'm' | 'M' | 'S' | 'W' => Some(2)
    case 'w' | '%' => Some(1)
    case 'f' | 'Y' => Some(9)
    case 'j' => Some(4)
    case 's' | 'J' => Some(51)
    case _ => None
  }

  function Plus(k: nat, n: Option<nat>): Option<nat> {
    match n
    case None => None
    case Some(v) => Some(k + v)
  }

  /** Characters the first pass sets aside for a whole format. */
  function Need(fmt: string): (n: Option<nat>) {
    if fmt == [] then Some(0)
    else if fmt[0] != '%' then Plus(1, Need(fmt[1..]))
    else if |fmt| == 1 || Width(fmt[1]).None? then None
    else Plus(Width(fmt[1]).value, Need(fmt[2..]))
  }

  /** Whole days from the same time on 1 January. */
  function DaysIntoYear(x: Stamp): (n: int) {
    Trunc(x.rJD - AfterJD(x.(validJD := false, M := 1, D := 1)).rJD)
  }

  /** %W: the day of the week counts from Monday. */
  function WeekOfYear(x: Stamp): (n: int) {
    Div(DaysIntoYear(x) + 7 - Mod(Trunc(x.rJD + 0.5), 7), 7)
  }

  function UnixSeconds(x: Stamp): (n: int) {
    Trunc((x.rJD - 2440587.5) * 86400.0 + 0.5)
  }

  /** From 0000-01-01 on, as far as the day numbers fit an int of C, which is beyond the year 5000000. */
  predicate InRange(rJD: real) { EPOCH as real - 0.5 <= rJD && rJD + 1.5 < 2147483648.0 }

  /** An instant in range, broken down; a clock time of 24:00 makes the date the next day, and
      the whole days since 1 January one less. */
  predicate Ready(x: Stamp) {
    && x.validJD && x.validYMD && x.validHMS && !x.validTZ && InRange(x.rJD)
    && 0 <= x.Y < 1000000000 && 1 <= x.M <= 12 && 1 <= x.D <= 31
    && 0 <= x.h <= 24 && 0 <= x.m < 60 && 0.0 <= x.s < 60.0
    && -1 <= DaysIntoYear(x) < 366
  }

  /** The text of a conversion; `jd` stands for what printf makes of the Julian day (%.16g). */
  function Piece(c: char, x: Stamp, jd: CString): (t: CString) {
    match c
    case 'd' => Padded(2, x.D)
    case 'f' => Joined(Padded(2, Trunc(x.s)), '.', Padded(3, Trunc((x.s - Trunc(x.s) as real) * 1000.0)))
    case 'H' => Padded(2, x.h)
    case 'W' => Padded(2, WeekOfYear(x))
    case 'j' => Padded(3, DaysIntoYear(x) + 1)
    case 'J' => jd
    case 'm' => Padded(2, x.M)
    case 'M' => Padded(2, x.m)
    case 's' => Padded(1, UnixSeconds(x))
    case 'S' => Padded(2, Trunc(x.s + 0.5))
    case 'w' => Padded(1, Mod(Trunc(x.rJD + 1.5), 7))
    case 'Y' => Padded(4, x.Y)
    case '%' => "%"
    case _ => ""
  }

  function Rendered(fmt: CString, x: Stamp, jd: CString): (t: string) {
    if fmt == [] then []
    else if fmt[0] != '%' then [fmt[0]] + Rendered(fmt[1..], x, jd)
    else if |fmt| == 1 then []
    else Piece(fmt[1], x, jd) + Rendered(fmt[2..], x, jd)
  }

  lemma NarrowPieces(x: Stamp)
    requires Ready(x)
    ensures 0 <= WeekOfYear(x) <= 53
    ensures 0 <= Mod(Trunc(x.rJD + 1.5), 7) <= 6 && 0 <= Trunc(x.s + 0.5) <= 60
    ensures 0 <= Trunc(x.s) <= 59 && 0 <= Trunc((x.s - Trunc(x.s) as real) * 1000.0) <= 999
  {
    hide DaysIntoYear;
    assert Trunc(x.rJD + 0.5) >= 0 && Trunc(x.rJD + 1.5) >= 0;
  }

  lemma PaddedWidth(w: nat, n: int)
    requires w >= 1 && 0 <= n < Pow10(w)
    ensures |Padded(w, n)| == w
  {
    PaddedFits(w, n);
  }

  lemma SmallPowers()
    ensures Pow10(1) == 10 && Pow10(2) == 100 && Pow10(3) == 1000
    ensures Pow10(9) == 1000000000 && Pow10(15) == 1000000000000000
  {
    assert Pow10(6) == 1000000;
    assert Pow10(12) == 1000000000000;
  }

  /** In range, %s prints at most a sign and fifteen digits. */
  lemma UnixSecondsWidth(x: Stamp)
    requires Ready(x)
    ensures |Padded(1, UnixSeconds(x))| <= 16
  {
    hide Pow10, DaysIntoYear, Numeral;
    SmallPowers();
    var n := UnixSeconds(x);
    assert -1000000000000000 < n < 1000000000000000;
    NumeralLength(if n >= 0 then n else -n, 15);
  }

  lemma YearWidth(Y: int)
    requires 0 <= Y < 1000000000
    ensures |Padded(4, Y)| <= 9
  {
    hide Pow10;
    SmallPowers();
    NumeralLength(Y, 9);
  }

  /** A conversion prints no more than the first pass set aside for it and, where the second
      pass advances by a fixed amount, exactly that many characters. */
  predicate Fits(c: char, x: Stamp, jd: CString) {
    && (Width(c).Some? ==> |Piece(c, x, jd)| <= Width(c).value)
    && (c in {'d', 'H', 'm', 'M', 'S', 'W'} ==> |Piece(c, x, jd)| == 2)
    && (c == 'j' ==> |Piece(c, x, jd)| == 3)
    && (c == 'w' ==> |Piece(c, x, jd)| == 1)
  }

  /** All conversions of the format fit: what the second pass needs of the structure. */
  predicate FormatFits(fmt: CString, x: Stamp, jd: CString) {
    if fmt == [] then true
    else if fmt[0] != '%' then FormatFits(fmt[1..], x, jd)
    else |fmt| > 1 ==> Fits(fmt[1], x, jd) && FormatFits(fmt[2..], x, jd)
  }

  /** In range every conversion fits. */
  lemma PieceFits(c: char, x: Stamp, jd: CString)
    requires Ready(x) && |jd| <= 51
    ensures Fits(c, x, jd)
  {
    hide WeekOfYear, DaysIntoYear, Trunc, Mod, UnixSeconds, Padded;
    UnixSecondsWidth(x);
    NarrowPieces(x);
    SmallPowers();
    if c == 'd' { PaddedWidth(2, x.D); }
    else if c == 'H' { PaddedWidth(2, x.h); }
    else if c == 'm' { PaddedWidth(2, x.M); }
    else if c == 'M' { PaddedWidth(2, x.m); }
    else if c == 'S' { PaddedWidth(2, Trunc(x.s + 0.5)); }
    else if c == 'W' { PaddedWidth(2, WeekOfYear(x)); }
    else if c == 'w' { PaddedWidth(1, Mod(Trunc(x.rJD + 1.5), 7)); }
    else if c == 'Y' { YearWidth(x.Y); }
    else if c == 'j' { PaddedWidth(3, DaysIntoYear(x) + 1); }
    else if c == 'f' { PaddedWidth(2, Trunc(x.s)); PaddedWidth(3, Trunc((x.s - Trunc(x.s) as real) * 1000.0)); }
  }

  lemma {:induction false} FormatFitsInRange(fmt: CString, x: Stamp, jd: CString)
    requires Ready(x) && |jd| <= 51
    ensures FormatFits(fmt, x, jd)
  {
    hide Ready, Fits;
    if fmt == [] {
    } else if fmt[0] != '%' {
      FormatFitsInRange(fmt[1..], x, jd);
    } else if |fmt| > 1 {
      PieceFits(fmt[1], x, jd);
      FormatFitsInRange(fmt[2..], x, jd);
    }
  }

  /** What the second pass writes fits in what the first pass set aside. */
  lemma {:induction false} RenderedFits(fmt: CString, x: Stamp, jd: CString)
    requires FormatFits(fmt, x, jd)
    ensures Need(fmt).Some? ==> |Rendered(fmt, x, jd)| <= Need(fmt).value
  {
    hide Piece, Padded, UnixSeconds, Width;
    if fmt == [] {
    } else if fmt[0] != '%' {
      RenderedFits(fmt[1..], x, jd);
    } else if |fmt| > 1 {
      RenderedFits(fmt[2..], x, jd);
    }
  }

  lemma FitsStep(fmt: CString, i: nat, x: Stamp, jd: CString)
    requires i < |fmt| && FormatFits(fmt[i..], x, jd)
    ensures fmt[i] != '%' ==> FormatFits(fmt[i + 1..], x, jd)
    ensures fmt[i] == '%' && i + 1 < |fmt| ==>
              && FormatFits(fmt[i + 2..], x, jd)
              && (Width(fmt[i + 1]).Some? ==> |Piece(fmt[i + 1], x, jd)| <= Width(fmt[i + 1]).value)
  {
    hide Piece, Width;
    assert fmt[i..][1..] == fmt[i + 1..];
    if i + 1 < |fmt| { assert fmt[i..][1] == fmt[i + 1] && fmt[i..][2..] == fmt[i + 2..]; }
  }

  /** sprintf(&z[j], ...) of a text, and its terminator. */
  method Sprintf(z: array<char>, j: nat, t: CString)
    requires j + |t| < z.Length
    modifies z
    ensures z[..j + |t|] == old(z[..j]) + t
  {
    var k := 0;
    while k < |t|
      invariant k <= |t| && z[..j + k] == old(z[..j]) + t[..k]
    {
      z[j + k] := t[k];
      k := k + 1;
    }
    z[j + |t|] := '\0';
  }

  lemma RenderedEmpty(x: Stamp, jd: CString)
    ensures Rendered("", x, jd) == ""
  {
  }

  lemma RenderedStep(fmt: CString, i: nat, x: Stamp, jd: CString)
    requires i < |fmt|
    ensures fmt[i] != '%' ==> Rendered(fmt[i..], x, jd) == [fmt[i]] + Rendered(fmt[i + 1..], x, jd)
    ensures fmt[i] == '%' && i + 1 < |fmt| ==>
              Rendered(fmt[i..], x, jd) == Piece(fmt[i + 1], x, jd) + Rendered(fmt[i + 2..], x, jd)
  {
    assert fmt[i..][1..] == fmt[i + 1..];
    if i + 1 < |fmt| { assert fmt[i..][1] == fmt[i + 1] && fmt[i..][2..] == fmt[i + 2..]; }
  }

  method DaysSinceNewYear(x: DateTime) returns (n: int)
    ensures n == DaysIntoYear(x.Value())
  {
    hide AfterJD, Trunc;
    var y := new DateTime.Copy(x);
    y.validJD := false;
    y.M := 1;
    y.D := 1;
    y.ComputeJD();
    n := Trunc(x.rJD - y.rJD);
  }

  /** One conversion of the second pass. */
  method Conversion(c: char, x: DateTime, jd: CString) returns (t: CString)
    ensures t == Piece(c, x.Value(), jd)
  {
    hide Padded, AfterJD, Trunc, Mod, Div;
    match c
    case 'd' => t := Padded(2, x.D);
    case 'f' =>
      var s := Trunc(x.s);
      var ms := Trunc((x.s - s as real) * 1000.0);
      t := Joined(Padded(2, s), '.', Padded(3, ms));
    case 'H' => t := Padded(2, x.h);
    case 'W' =>
      var n := DaysSinceNewYear(x);
      var wd := Mod(Trunc(x.rJD + 0.5), 7);
      t := Padded(2, Div(n + 7 - wd, 7));
    case 'j' =>
      var n := DaysSinceNewYear(x);
      t := Padded(3, n + 1);
    case 'J' => t := jd;
    case 'm' => t := Padded(2, x.M);
    case 'M' => t := Padded(2, x.m);
    case 's' => t := Padded(1, Trunc((x.rJD - 2440587.5) * 86400.0 + 0.5));
    case 'S' => t := Padded(2, Trunc(x.s + 0.5));
    case 'w' => t := Padded(1, Mod(Trunc(x.rJD + 1.5), 7));
    case 'Y' => t := Padded(4, x.Y);
    case '%' => t := "%";
    case _ => t := "";
  }

  lemma NeedStep(fmt: CString, i: nat)
    requires i < |fmt|
    ensures fmt[i] != '%' ==> Need(fmt[i..]) == Plus(1, Need(fmt[i + 1..]))
    ensures fmt[i] == '%' && (i + 1 == |fmt| || Width(fmt[i + 1]).None?) ==> Need(fmt[i..]).None?
    ensures fmt[i] == '%' && i + 1 < |fmt| && Width(fmt[i + 1]).Some?
        ==> Need(fmt[i..]) == Plus(Width(fmt[i + 1]).value, Need(fmt[i + 2..]))
  {
    assert fmt[i..][1..] == fmt[i + 1..];
    if i + 1 < |fmt| { assert fmt[i..][1] == fmt[i + 1] && fmt[i..][2..] == fmt[i + 2..]; }
  }

  method SecondPass(fmt: CString, x: DateTime, jd: CString, z: array<char>, n: nat) returns (j: nat)
    requires FormatFits(fmt, x.Value(), jd)
    requires Need(fmt).Some? && Need(fmt).value + 1 == n <= z.Length
    modifies z
    ensures j < n && z[..j] == Rendered(fmt, x.Value(), jd)
  {
    hide FormatFits, Piece, Width, Rendered, Need;
    var i: nat := 0;
    j := 0;
    assert fmt[0..] == fmt;
    while i < |fmt|
      invariant i <= |fmt| && Need(fmt[i..]).Some? && j + Need(fmt[i..]).value < n
      invariant FormatFits(fmt[i..], x.Value(), jd)
      invariant z[..j] + Rendered(fmt[i..], x.Value(), jd) == Rendered(fmt, x.Value(), jd)
      decreases |fmt| - i
    {
      NeedStep(fmt, i);
      RenderedStep(fmt, i, x.Value(), jd);
      FitsStep(fmt, i, x.Value(), jd);
      if fmt[i] != '%' {
        z[j] := fmt[i];
        j := j + 1;
      } else {
        i := i + 1;
        var t := Conversion(fmt[i], x, jd);
        Sprintf(z, j, t);
        j := j + |t|;
      }
      i := i + 1;
    }
    assert fmt[i..] == "";
    RenderedEmpty(x.Value(), jd);
  }

  method FirstPass(fmt: CString) returns (n: Option<nat>)
    ensures n == Plus(1, Need(fmt))
  {
    hide Width;
    var i: nat, k: nat := 0, 1;
    while i < |fmt|
      invariant i <= |fmt| && Plus(k, Need(fmt[i..])) == Plus(1, Need(fmt))
      decreases |fmt| - i
    {
      NeedStep(fmt, i);
      if fmt[i] == '%' {
        var w := if i + 1 < |fmt| then Width(fmt[i + 1]) else None;
        if w.None? { return None; }
        k := k + w.value - 1;
        i := i + 1;
      }
      i, k := i + 1, k + 1;
    }
    n := Some(k);
  }

  method Strftime(fmt: CString, x: DateTime, jd: CString) returns (text: Option<string>)
    requires Need(fmt).Some? ==> FormatFits(fmt, AfterYMD_HMS(AfterJD(x.Value())), jd)
    modifies x
    ensures text == if Need(fmt).None? then None else Some(Rendered(fmt, AfterYMD_HMS(AfterJD(old(x.Value()))), jd))
  {
    hide FormatFits, Rendered, AfterJD, AfterYMD_HMS;
    var n := FirstPass(fmt);
    if n.None? { return None; }
    var z := new char[if n.value < 100 then 100 else n.value];
    x.ComputeJD();
    x.ComputeYMD_HMS();
    var j := SecondPass(fmt, x, jd, z, n.value);
    z[j] := '\0';
    text := Some(z[..j]);
  }
}
