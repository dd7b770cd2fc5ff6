/** isDate, which every date function starts with, and strftimeFunc from end to end. */
module DateFunctions {
  import opened CInt
  import opened CText
  import opened JulianDay
  import opened DateTime
  import opened DateText
  import opened DateModifiers
  import opened DateStamps
  import opened MonthLaws
  import opened ShiftLaws
  import opened ModifierTexts
  import opened ParsedStamps
  import opened Strftime
  import opened StrftimeLaws
  import opened Wrappers

  /** The date-time stamp after the modifiers, one by one; None stands for an SQL NULL among
      the arguments, and as a result for an error. */
  function Modify(p: Stamp, mods: seq<Option<CString>>, host: Host): (r: Option<Stamp>)
    decreases |mods|
  {
    if mods == [] then Some(p)
    else if mods[0].None? || ModifiedBy(p, mods[0].value, host).failed then None
    else Modify(ModifiedBy(p, mods[0].value, host).p, mods[1..], host)
  }

  function Dated(text: Option<CString>, mods: seq<Option<CString>>, host: Host): (r: Option<Stamp>) {
    if text.None? || DateOrTime(text.value, host).failed then None
    else Modify(DateOrTime(text.value, host).p, mods, host)
  }

  method IsDate(text: Option<CString>, mods: seq<Option<CString>>, host: Host)
    returns (failed: bool, p: DateTime)
    ensures fresh(p)
    ensures failed <==> Dated(text, mods, host).None?
    ensures !failed ==> Dated(text, mods, host) == Some(p.Value())
  {
    hide DateOrTime, ModifiedBy;
    p := new DateTime();
    if text.None? { return true, p; }
    failed, p := ParseDateOrTime(text.value, host);
    if failed { return; }
    ghost var whole := Dated(text, mods, host);
    var i := 0;
    while i < |mods|
      invariant 0 <= i <= |mods| && fresh(p) && !failed
      invariant Modify(p.Value(), mods[i..], host) == whole
    {
      assert mods[i..][1..] == mods[i + 1..];
      if mods[i].None? { return true, p; }
      failed := ParseModifier(mods[i].value, p, host);
      if failed { return; }
      i := i + 1;
    }
  }

  /** Every modifier that is accepted keeps the stamp usable. */
  lemma ModifierKeepsUsable(p: Stamp, mod: Modifier)
    requires Usable(p)
    ensures var o := Modified(p, mod); !o.failed ==> Usable(o.p)
  {
    hide Trunc, DateOf, DayNumber, RoundedMillis, Div, HhMmSs;
  }

  lemma {:induction false} ModifyKeepsUsable(p: Stamp, mods: seq<Option<CString>>, host: Host)
    requires Usable(p)
    ensures var r := Modify(p, mods, host); r.Some? ==> Usable(r.value)
    decreases |mods|
  {
    hide Modified, Recognised, Usable;
    if mods != [] && mods[0].Some? && !ModifiedBy(p, mods[0].value, host).failed {
      ModifierKeepsUsable(p, Recognised(Lowered(mods[0].value), host).value);
      ModifyKeepsUsable(ModifiedBy(p, mods[0].value, host).p, mods[1..], host);
    }
  }

  /** No modifier can make a stamp that isDate accepts hold anything else. */
  lemma DatedIsUsable(text: Option<CString>, mods: seq<Option<CString>>, host: Host)
    ensures var r := Dated(text, mods, host); r.Some? ==> Usable(r.value)
  {
    hide DateOrTime, Usable, Modify;
    if text.Some? && !DateOrTime(text.value, host).failed {
      ParsedIsUsable(text.value, host);
      ModifyKeepsUsable(DateOrTime(text.value, host).p, mods, host);
    }
  }

  lemma {:induction false} ModifyAppend(p: Stamp, mods: seq<Option<CString>>, m: Option<CString>, host: Host)
    ensures var q := Modify(p, mods, host);
            Modify(p, mods + [m], host)
            == if q.None? || m.None? || ModifiedBy(q.value, m.value, host).failed then None
               else Some(ModifiedBy(q.value, m.value, host).p)
    decreases |mods|
  {
    hide ModifiedBy;
    if mods == [] {
      assert ([] + [m])[1..] == [];
    } else {
      assert (mods + [m])[1..] == mods[1..] + [m];
      if mods[0].Some? && !ModifiedBy(p, mods[0].value, host).failed {
        ModifyAppend(ModifiedBy(p, mods[0].value, host).p, mods[1..], m, host);
      }
    }
  }

  /** Without modifiers the stamp is the parsed text. The last modifier acts on what all those
      before it give: an error there, a NULL or an error of its own is an error of the whole. */
  lemma DatedAppend(text: Option<CString>, mods: seq<Option<CString>>, m: Option<CString>, host: Host)
    ensures Dated(text, [], host)
         == if text.None? || DateOrTime(text.value, host).failed then None else Some(DateOrTime(text.value, host).p)
    ensures var q := Dated(text, mods, host);
            Dated(text, mods + [m], host)
            == if q.None? || m.None? || ModifiedBy(q.value, m.value, host).failed then None
               else Some(ModifiedBy(q.value, m.value, host).p)
  {
    hide DateOrTime, ModifiedBy;
    if text.Some? && !DateOrTime(text.value, host).failed {
      ModifyAppend(DateOrTime(text.value, host).p, mods, m, host);
    }
  }

  /** The text of a shift by k months. */
  function MonthsText(k: int): (t: CString) {
    (if k < 0 then "-" + Numeral(-k) else "+" + Numeral(k)) + " months"
  }

  /** The host reads the number at the head of such a text. */
  predicate ReadsMonths(host: Host, k: int) {
    host.atof(MonthsText(k)) == (k as real, |Numeral(if k < 0 then -k else k)| + 1)
  }

  lemma MonthsTextParts(k: int)
    requires |Numeral(if k < 0 then -k else k)| <= 21
    ensures var num := if k < 0 then "-" + Numeral(-k) else "+" + Numeral(k);
            && NumberAndUnit(num, " ", "months") && Plain(num + " " + "months") && MonthsText(k) == num + " " + "months"
  {
  }

  lemma MonthsTextShifts(p: Stamp, k: int, host: Host)
    requires |Numeral(if k < 0 then -k else k)| <= 21 && ReadsMonths(host, k)
    ensures ModifiedBy(p, MonthsText(k), host) == Modified(p, Shift(k as real, "month"))
  {
    hide Numeral, Modified, ModifiedBy, Plain, NumberAndUnit, MonthsText;
    MonthsTextParts(k);
    UnitText(p, if k < 0 then "-" + Numeral(-k) else "+" + Numeral(k), " ", "months", host);
    assert "months" == "month" + "s";
    PluralShift(p, k as real, "month");
  }

  lemma MonthsAccepted(p: Stamp, k: int)
    ensures !Modified(p, Shift(k as real, "month")).failed && ByMonths(p, k).validJD
  {
  }

  lemma MonthsTextAppended(text: Option<CString>, mods: seq<Option<CString>>, k: int, host: Host)
    requires |Numeral(if k < 0 then -k else k)| <= 21 && ReadsMonths(host, k) && Dated(text, mods, host).Some?
    ensures Dated(text, mods + [Some(MonthsText(k))], host) == Some(ByMonths(Dated(text, mods, host).value, k))
  {
    hide Dated, Modified, ModifiedBy, Numeral, ReadsMonths, MonthsText, DateOrTime;
    var p := Dated(text, mods, host).value;
    DatedAppend(text, mods, Some(MonthsText(k)), host);
    MonthsTextShifts(p, k, host);
    MonthsAccepted(p, k);
  }

  /** Behind any date text and any modifiers, `+k months` and then `-k months` are accepted, and
      give back the instant exactly if it is on the millisecond grid and its day comes back. */
  lemma MonthsForthAndBackByText(text: Option<CString>, mods: seq<Option<CString>>, k: int, host: Host, y: int, m: int)
    requires |Numeral(if k < 0 then -k else k)| <= 21 && ReadsMonths(host, k) && ReadsMonths(host, -k)
    requires Dated(text, mods, host).Some?
    requires var p := Dated(text, mods, host).value;
             AfterEpoch(AfterJD(p).rJD) && MonthsLater(ShiftedFrom(p), k, y, m) && y >= 0
    ensures var p := Dated(text, mods, host).value;
            var r := Dated(text, mods + [Some(MonthsText(k))] + [Some(MonthsText(-k))], host);
            && r.Some?
            && (AfterJD(r.value).rJD == AfterJD(p).rJD
                <==> AfterJD(p).OnGrid() && Restores(ShiftedFrom(p), Overflows(p), y, m))
  {
    hide Dated, Modified, AfterJD, Numeral, Usable, Restores, ShiftedFrom, Overflows, ReadsMonths, MonthsText,
         MonthsLater, AfterEpoch;
    var p := Dated(text, mods, host).value;
    DatedIsUsable(text, mods, host);
    MonthsTextAppended(text, mods, k, host);
    MonthsTextAppended(text, mods + [Some(MonthsText(k))], -k, host);
    MonthsAccepted(ByMonths(p, k), -k);
    MonthsForthAndBack(p, k, y, m);
    AfterInstant(ByMonths(ByMonths(p, k), -k));
  }

  /** For every date text, all modifiers and every format: every conversion fits, and what
      strftime writes before the terminator fits in what the first pass set aside. */
  lemma StrftimeFits(fmt: CString, text: Option<CString>, mods: seq<Option<CString>>, host: Host, jd: CString)
    requires |jd| <= 51
    ensures var p := Dated(text, mods, host);
            p.Some? && InRange(AfterJD(p.value).rJD) ==>
              && FormatFits(fmt, Converted(p.value), jd)
              && (Need(fmt).Some? ==> |Rendered(fmt, Converted(p.value), jd)| <= Need(fmt).value)
  {
    hide Dated, Usable, Ready, Rendered, Need, FormatFits, Converted, InRange, AfterJD;
    var p := Dated(text, mods, host);
    DatedIsUsable(text, mods, host);
    if p.Some? && InRange(AfterJD(p.value).rJD) {
      UsableIsReady(p.value);
      FormatFitsInRange(fmt, Converted(p.value), jd);
      RenderedFits(fmt, Converted(p.value), jd);
    }
  }

  method StrftimeFunc(fmt: CString, text: Option<CString>, mods: seq<Option<CString>>, host: Host, jd: CString)
    returns (result: Option<string>)
    requires var p := Dated(text, mods, host); p.Some? && Need(fmt).Some? ==> FormatFits(fmt, Converted(p.value), jd)
    ensures var p := Dated(text, mods, host);
            result == if p.None? || Need(fmt).None? then None else Some(Rendered(fmt, Converted(p.value), jd))
  {
    hide Dated, Rendered, Need, FormatFits, AfterJD, AfterYMD_HMS;
    var failed, x := IsDate(text, mods, host);
    if failed { return None; }
    result := Strftime.Strftime(fmt, x, jd);
  }
}
