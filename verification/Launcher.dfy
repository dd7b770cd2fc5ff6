/** The launcher's own switches: parseNWNCmdLine takes them out of the command line and
    passes the rest on to the server. */
module Launcher {
  import opened CText
  import opened CmdLine

  /** The dialog fields that the switches set. */
  datatype Settings = Settings(port: int, moduleName: string, watchdogProcess: bool, intervalProcess: int,
                               watchdogGamespy: bool, intervalGamespy: int, gamespyRetries: int,
                               oldGamespyProtocol: bool, restartDelay: int)

  datatype Switch =
    | Port | Module | ProcessWatchdog | ProcessInterval | GamespyWatchdog | GamespyInterval
    | GamespyRetries | OldGamespyProtocol | PublicServer | RestartDelay | Other

  function SwitchOf(t: string): (s: Switch) {
    if SameName(t, "-port") then Port
    else if SameName(t, "-module") then Module
    else if SameName(t, "-processwatchdog") then ProcessWatchdog
    else if SameName(t, "-processinterval") then ProcessInterval
    else if SameName(t, "-gamespywatchdog") then GamespyWatchdog
    else if SameName(t, "-gamespyinterval") then GamespyInterval
    else if SameName(t, "-gamespyretries") then GamespyRetries
    else if SameName(t, "-oldgamespyprotocol") then OldGamespyProtocol
    else if SameName(t, "-publicserver") then PublicServer
    else if SameName(t, "-restartdelay") then RestartDelay
    else Other
  }

  /** The switch and its value are taken out of the command line. */
  predicate Consumes(s: Switch) {
    s != PublicServer && s != Other
  }

  function DigitsEnd(t: string, i: nat): (e: nat)
    requires i <= |t|
    ensures i <= e <= |t|
    decreases |t| - i
  {
    if i < |t| && IsDigit(t[i]) then DigitsEnd(t, i + 1) else i
  }

  /** atoi; values that do not fit in an int are not part of this model. */
  function Atoi(t: string): (n: int) {
    var i := Skip(t, 0);
    var j := if i < |t| && (t[i] == '-' || t[i] == '+') then i + 1 else i;
    var v := Value(t[j..DigitsEnd(t, j)]);
    if i < |t| && t[i] == '-' then -v else v
  }

  /** _itoa(n, buffer, 10) */
  function Itoa(n: int): (t: string) {
    Padded(1, n)
  }

  /** What a switch with value v does to the settings. */
  function Applied(st: Settings, s: Switch, v: string): (r: Settings) {
    match s
    case Port => st.(port := Atoi(v))
    case Module => st.(moduleName := v)
    case ProcessWatchdog => st.(watchdogProcess := Atoi(v) != 0)
    case ProcessInterval => st.(intervalProcess := Atoi(v))
    case GamespyWatchdog => st.(watchdogGamespy := Atoi(v) != 0)
    case GamespyInterval => st.(intervalGamespy := Atoi(v))
    case GamespyRetries => st.(gamespyRetries := Atoi(v))
    case OldGamespyProtocol => if Atoi(v) == 1 then st.(oldGamespyProtocol := true) else st
    case PublicServer => if Atoi(v) == 0 then st.(watchdogGamespy := false) else st
    case RestartDelay => st.(restartDelay := Atoi(v))
    case Other => st
  }

  /** Every switch that looks at a value has a token behind it. */
  predicate Complete(args: seq<string>)
    decreases |args|
  {
    args == [] ||
    var s := SwitchOf(args[0]);
    if Consumes(s) then |args| >= 2 && Complete(args[2..])
    else (s == PublicServer ==> |args| >= 2) && Complete(args[1..])
  }

  /** The settings after the tokens, and the tokens that stay. */
  datatype Parsed = Parsed(st: Settings, kept: seq<string>)

  function Parse(args: seq<string>, st: Settings): (r: Parsed)
    requires Complete(args)
    decreases |args|
  {
    if args == [] then Parsed(st, [])
    else
      var s := SwitchOf(args[0]);
      if Consumes(s) then Parse(args[2..], Applied(st, s, args[1]))
      else
        var r := Parse(args[1..], if s == PublicServer then Applied(st, s, args[1]) else st);
        r.(kept := [args[0]] + r.kept)
  }

  /** The tokens passed on to the server. */
  function Passed(r: Parsed): (ts: seq<string>) {
    r.kept + ["-port", Itoa(r.st.port)] + if r.st.moduleName == "" then [] else ["-module", r.st.moduleName]
  }

  /** Tokens with a space behind each. */
  function Spaced(ts: seq<string>): (s: string) {
    if ts == [] then [] else ts[0] + " " + Spaced(ts[1..])
  }

  /** The text that parseNWNCmdLine leaves in cmdline. */
  function Line(r: Parsed): (s: string) {
    Spaced(r.kept) + "-port " + Itoa(r.st.port) + if r.st.moduleName == "" then "" else " -module " + r.st.moduleName
  }

  lemma SpacedStep(line: string, t: string)
    ensures forall ks: seq<string> :: line + Spaced([t] + ks) == line + t + " " + Spaced(ks)
  {
    forall ks: seq<string> ensures line + Spaced([t] + ks) == line + t + " " + Spaced(ks) {
      assert ([t] + ks)[1..] == ks;
      assert line + (t + " " + Spaced(ks)) == line + t + " " + Spaced(ks);
    }
  }

  lemma ParseEnd(args: seq<string>, i: nat, st: Settings)
    requires i == |args|
    ensures Complete(args[i..]) && Parse(args[i..], st) == Parsed(st, []) && Spaced([]) == ""
  {
  }

  lemma ParseStep(args: seq<string>, i: nat, st: Settings)
    requires i < |args| && Complete(args[i..])
    ensures var s := SwitchOf(args[i]);
            && ((Consumes(s) || s == PublicServer) ==> i + 1 < |args|)
            && (Consumes(s) ==>
                  && Complete(args[i + 2..])
                  && Parse(args[i..], st) == Parse(args[i + 2..], Applied(st, s, args[i + 1])))
            && (!Consumes(s) ==>
                  && Complete(args[i + 1..])
                  && var r := Parse(args[i + 1..], if s == PublicServer then Applied(st, s, args[i + 1]) else st);
                     Parse(args[i..], st) == r.(kept := [args[i]] + r.kept))
  {
    hide SwitchOf, Applied;
    assert args[i..][1..] == args[i + 1..];
    if i + 1 < |args| { assert args[i..][2..] == args[i + 2..] && args[i..][1] == args[i + 1]; }
  }

  class App {
    var port: int
    var moduleName: string
    var watchdogProcess: bool
    var intervalProcess: int
    var watchdogGamespy: bool
    var intervalGamespy: int
    var gamespyRetries: int
    var oldGamespyProtocol: bool
    var restartDelay: int
    var cmdline: string

    function Value(): (st: Settings)
      reads this
    {
      Settings(port, moduleName, watchdogProcess, intervalProcess, watchdogGamespy, intervalGamespy,
               gamespyRetries, oldGamespyProtocol, restartDelay)
    }

    /** The branches of the loop that set a field. */
    method Apply(s: Switch, v: string)
      modifies this
      ensures Value() == Applied(old(Value()), s, v) && cmdline == old(cmdline)
    {
      match s
      case Port => port := Atoi(v);
      case Module => moduleName := v;
      case ProcessWatchdog => if Atoi(v) == 0 { watchdogProcess := false; } else { watchdogProcess := true; }
      case ProcessInterval => intervalProcess := Atoi(v);
      case GamespyWatchdog => if Atoi(v) == 0 { watchdogGamespy := false; } else { watchdogGamespy := true; }
      case GamespyInterval => intervalGamespy := Atoi(v);
      case GamespyRetries => gamespyRetries := Atoi(v);
      case OldGamespyProtocol => if Atoi(v) == 1 { oldGamespyProtocol := true; }
      case PublicServer => if Atoi(v) == 0 { watchdogGamespy := false; }
      case RestartDelay => restartDelay := Atoi(v);
      case Other =>
    }

    method ParseNWNCmdLine(args: seq<string>)
      requires Complete(args) && cmdline == ""
      modifies this
      ensures var r := Parse(args, old(Value())); Value() == r.st && cmdline == Line(r)
    {
      hide SwitchOf, Atoi, Itoa, Parse, Complete, Spaced, Applied;
      var i: nat := 0;
      assert args[0..] == args;
      while i < |args|
        invariant i <= |args| && Complete(args[i..])
        invariant var r, q := Parse(args, old(Value())), Parse(args[i..], Value());
                  q.st == r.st && cmdline + Spaced(q.kept) == Spaced(r.kept)
        decreases |args| - i
      {
        ParseStep(args, i, Value());
        SpacedStep(cmdline, args[i]);
        var s := SwitchOf(args[i]);
        if Consumes(s) {
          Apply(s, args[i + 1]);
          i := i + 1;
        } else {
          if s == PublicServer { Apply(s, args[i + 1]); }
          cmdline := cmdline + args[i];
          cmdline := cmdline + " ";
        }
        i := i + 1;
      }
      ParseEnd(args, i, Value());
      var number := Itoa(port);
      cmdline := cmdline + "-port ";
      cmdline := cmdline + number;
      if moduleName != "" {
        cmdline := cmdline + " -module ";
        cmdline := cmdline + moduleName;
      }
    }
  }

  lemma {:induction false} DigitsUpTo(t: string, i: nat, e: nat)
    requires i <= e <= |t| && (forall k :: i <= k < e ==> IsDigit(t[k])) && (e < |t| ==> !IsDigit(t[e]))
    ensures DigitsEnd(t, i) == e
    decreases e - i
  {
    if i < e { DigitsUpTo(t, i + 1, e); }
  }

  lemma FourParts(a: string, b: string, c: string, d: string)
    ensures var t := a + b + c + d;
            && (forall k :: 0 <= k < |a| ==> t[k] == a[k])
            && (forall k :: |a| <= k < |a + b| ==> t[k] == b[k - |a|])
            && (forall k :: |a + b| <= k < |a + b + c| ==> t[k] == c[k - |a + b|])
            && (d != "" ==> t[|a + b + c|] == d[0]) && t[|a + b|..|a + b + c|] == c
  {
  }

  lemma AtoiAt(t: string, i: nat, j: nat)
    requires i < |t| && Skip(t, 0) == i && j == if t[i] == '-' || t[i] == '+' then i + 1 else i
    ensures Atoi(t) == if t[i] == '-' then -Value(t[j..DigitsEnd(t, j)]) else Value(t[j..DigitsEnd(t, j)])
  {
    hide Value, Skip, DigitsEnd;
  }

  lemma SkipTo(t: string, i: nat)
    requires i < |t| && !IsSpace(t[i]) && forall k :: 0 <= k < i ==> IsSpace(t[k])
    ensures Skip(t, 0) == i
  {
  }

  /** atoi reads the digits behind whitespace and a sign, if there are any, and stops at what follows. */
  lemma AtoiReads(gap: string, sign: string, d: string, rest: string)
    requires Blank(gap) && |sign| <= 1 && (|sign| == 1 ==> sign[0] == '-' || sign[0] == '+')
    requires d != "" && AllDigits(d) && (rest == "" || !IsDigit(rest[0]))
    ensures Atoi(gap + sign + d + rest) == if |sign| == 1 && sign[0] == '-' then -Value(d) else Value(d)
  {
    hide Value, Skip, DigitsEnd, Atoi;
    var t := gap + sign + d + rest;
    var i, j := |gap|, |gap + sign|;
    FourParts(gap, sign, d, rest);
    assert t[i] == if |sign| == 0 then d[0] else sign[0];
    assert d[0] != '-' && d[0] != '+' && !IsSpace(d[0]);
    SkipTo(t, i);
    DigitsUpTo(t, j, j + |d|);
    AtoiAt(t, i, j);
  }

  lemma AtoiOfDigits(d: string)
    requires d != "" && AllDigits(d)
    ensures Atoi(d) == Value(d) && Atoi("-" + d) == -Value(d)
  {
    hide Value, Atoi;
    AtoiReads("", "", d, "");
    AtoiReads("", "-", d, "");
    assert "" + "" + d + "" == d && "" + "-" + d + "" == "-" + d;
  }

  /** A printed port number reads back as itself, whatever its sign. */
  lemma AtoiOfItoa(n: int)
    ensures Atoi(Itoa(n)) == n
  {
    hide Padded, Atoi, Numeral, Value;
    PaddedToOne(n);
    AtoiOfDigits(Numeral(if n >= 0 then n else -n));
    ValueOfNumeral(if n >= 0 then n else -n);
  }

  lemma ItoaIsToken(n: int)
    ensures WellFormed(Itoa(n))
  {
    hide Padded, Numeral;
    PaddedToOne(n);
    var d := Numeral(if n >= 0 then n else -n);
    assert forall k :: 0 <= k < |d| ==> IsDigit(d[k]);
  }

  lemma {:induction false} SpacedIsJoin(a: seq<string>, b: seq<string>)
    requires b != []
    ensures Spaced(a) + Join(b) == Join(a + b)
    decreases |a|
  {
    if a == [] {
      assert a + b == b;
    } else {
      assert (a + b)[1..] == a[1..] + b;
      SpacedIsJoin(a[1..], b);
      assert Spaced(a) + Join(b) == a[0] + " " + (Spaced(a[1..]) + Join(b));
    }
  }

  lemma JoinTwo(a: string, b: string)
    ensures Join([a, b]) == a + " " + b
  {
    assert [a, b][1..] == [b];
  }

  lemma JoinStep(t: string, ts: seq<string>)
    ensures Join([t] + ts) == if ts == [] then t else t + " " + Join(ts)
  {
    assert ([t] + ts)[1..] == ts;
  }

  lemma JoinFour(a: string, b: string, c: string, d: string)
    ensures Join([a, b, c, d]) == a + " " + (b + " " + (c + " " + d))
  {
    JoinTwo(c, d);
    JoinStep(b, [c, d]);
    JoinStep(a, [b, c, d]);
    assert [b] + [c, d] == [b, c, d] && [a] + [b, c, d] == [a, b, c, d];
  }

  /** The text is the passed tokens with single spaces between them. */
  lemma LineIsJoined(r: Parsed)
    ensures Line(r) == Join(Passed(r))
    ensures Line(r) == Join(r.kept + ["-port", Itoa(r.st.port)]
                            + if r.st.moduleName == "" then [] else ["-module", r.st.moduleName])
  {
    hide Itoa, Join, Spaced;
    var number, m := Itoa(r.st.port), r.st.moduleName;
    if m == "" {
      JoinTwo("-port", number);
      SpacedIsJoin(r.kept, ["-port", number]);
      assert Passed(r) == r.kept + ["-port", number];
      assert Line(r) == Spaced(r.kept) + ("-port" + " " + number);
    } else {
      JoinFour("-port", number, "-module", m);
      SpacedIsJoin(r.kept, ["-port", number, "-module", m]);
      assert Passed(r) == r.kept + ["-port", number, "-module", m];
      assert Line(r) == Spaced(r.kept) + ("-port" + " " + (number + " " + ("-module" + " " + m)));
    }
  }

  /** What stays is tokens of the input that are not switches of the launcher's own. */
  lemma {:induction false} KeptTokens(args: seq<string>, st: Settings)
    requires Complete(args)
    ensures forall t :: t in Parse(args, st).kept ==> t in args && !Consumes(SwitchOf(t))
    ensures var m := Parse(args, st).st.moduleName; m == st.moduleName || m in args
    decreases |args|
  {
    hide SwitchOf;
    if args != [] {
      var s := SwitchOf(args[0]);
      if Consumes(s) { KeptTokens(args[2..], Applied(st, s, args[1])); }
      else { KeptTokens(args[1..], if s == PublicServer then Applied(st, s, args[1]) else st); }
    }
  }

  /** The names of the launcher's own switches. */
  const OWN := ["-port", "-module", "-processwatchdog", "-processinterval", "-gamespywatchdog", "-gamespyinterval",
                "-gamespyretries", "-oldgamespyprotocol", "-restartdelay"]

  /** The token is one of the launcher's own switches, in any case. */
  predicate Own(t: string) {
    exists k :: 0 <= k < |OWN| && SameName(t, OWN[k])
  }

  /** No token has two of the names. */
  lemma NamesDiffer(t: string)
    ensures SwitchOf(t) == Port <==> SameName(t, "-port")
    ensures SwitchOf(t) == Module <==> SameName(t, "-module")
    ensures SwitchOf(t) == ProcessWatchdog <==> SameName(t, "-processwatchdog")
    ensures SwitchOf(t) == ProcessInterval <==> SameName(t, "-processinterval")
    ensures SwitchOf(t) == GamespyWatchdog <==> SameName(t, "-gamespywatchdog")
    ensures SwitchOf(t) == GamespyInterval <==> SameName(t, "-gamespyinterval")
    ensures SwitchOf(t) == GamespyRetries <==> SameName(t, "-gamespyretries")
    ensures SwitchOf(t) == OldGamespyProtocol <==> SameName(t, "-oldgamespyprotocol")
    ensures SwitchOf(t) == PublicServer <==> SameName(t, "-publicserver")
    ensures SwitchOf(t) == RestartDelay <==> SameName(t, "-restartdelay")
  {
    assert SameName(t, "-processwatchdog") ==> Lower(t[1]) == 'p' && Lower(t[8]) == 'w';
    assert SameName(t, "-processinterval") ==> Lower(t[1]) == 'p' && Lower(t[8]) == 'i';
    assert SameName(t, "-gamespywatchdog") ==> Lower(t[1]) == 'g' && Lower(t[8]) == 'w';
    assert SameName(t, "-gamespyinterval") ==> Lower(t[1]) == 'g' && Lower(t[8]) == 'i';
    assert SameName(t, "-publicserver") ==> Lower(t[1]) == 'p';
    assert SameName(t, "-restartdelay") ==> Lower(t[1]) == 'r';
  }

  lemma OwnIsConsumed(t: string)
    ensures Own(t) <==> Consumes(SwitchOf(t))
  {
    hide SwitchOf, SameName;
    NamesDiffer(t);
    assert Own(t) <==>
      SameName(t, OWN[0]) || SameName(t, OWN[1]) || SameName(t, OWN[2]) || SameName(t, OWN[3]) || SameName(t, OWN[4])
      || SameName(t, OWN[5]) || SameName(t, OWN[6]) || SameName(t, OWN[7]) || SameName(t, OWN[8]);
  }

  /** The tokens behind the first: behind one of the launcher's own switches stands a value. */
  function Rest(args: seq<string>): (rest: seq<string>)
    requires |args| >= 2
    ensures |rest| < |args|
  {
    if Own(args[0]) then args[2..] else args[1..]
  }

  /** The values behind the tokens of a name. */
  function Values(args: seq<string>, name: string): (vs: seq<string>)
    decreases |args|
  {
    if |args| < 2 then [] else (if SameName(args[0], name) then [args[1]] else []) + Values(Rest(args), name)
  }

  /** The last of the texts, or the default. */
  function Last<T>(vs: seq<T>, default: T): (v: T) {
    if vs == [] then default else vs[|vs| - 1]
  }

  function LastNumber(vs: seq<string>, default: int): (n: int) {
    if vs == [] then default else Atoi(vs[|vs| - 1])
  }

  function LastFlag(vs: seq<string>, default: bool): (b: bool) {
    if vs == [] then default else Atoi(vs[|vs| - 1]) != 0
  }

  /** One of the texts is the number one. */
  predicate SomeOne(vs: seq<string>) {
    exists i :: 0 <= i < |vs| && Atoi(vs[i]) == 1
  }

  lemma NumberStep(args: seq<string>, name: string, default: int)
    requires |args| >= 2
    ensures LastNumber(Values(args, name), default)
         == LastNumber(Values(Rest(args), name), if SameName(args[0], name) then Atoi(args[1]) else default)
  {
  }

  lemma FlagStep(args: seq<string>, name: string, default: bool)
    requires |args| >= 2
    ensures LastFlag(Values(args, name), default)
         == LastFlag(Values(Rest(args), name), if SameName(args[0], name) then Atoi(args[1]) != 0 else default)
  {
  }

  lemma TextStep(args: seq<string>, name: string, default: string)
    requires |args| >= 2
    ensures Last(Values(args, name), default)
         == Last(Values(Rest(args), name), if SameName(args[0], name) then args[1] else default)
  {
  }

  lemma LastAppend<T>(a: seq<T>, b: seq<T>, default: T)
    ensures Last(a + b, default) == Last(b, Last(a, default))
  {
    if b == [] { assert a + b == a; }
  }

  /** What -gamespywatchdog and a -publicserver of zero say about the gamespy watchdog. */
  function Verdict(t: string, v: string): (vs: seq<bool>) {
    if SameName(t, "-gamespywatchdog") then [Atoi(v) != 0]
    else if SameName(t, "-publicserver") && Atoi(v) == 0 then [false]
    else []
  }

  /** What all tokens say about it. */
  function Verdicts(args: seq<string>): (vs: seq<bool>)
    decreases |args|
  {
    if |args| < 2 then [] else Verdict(args[0], args[1]) + Verdicts(Rest(args))
  }

  lemma VerdictStep(args: seq<string>, default: bool)
    requires |args| >= 2
    ensures Last(Verdicts(args), default) == Last(Verdicts(Rest(args)), Last(Verdict(args[0], args[1]), default))
  {
    hide SameName, Own, Atoi, Verdict, Last;
    LastAppend(Verdict(args[0], args[1]), Verdicts(Rest(args)), default);
  }

  lemma OneAppend(a: seq<string>, b: seq<string>)
    ensures SomeOne(a + b) <==> SomeOne(a) || SomeOne(b)
  {
    hide Atoi;
    forall i | 0 <= i < |a| && Atoi(a[i]) == 1 ensures SomeOne(a + b) { assert Atoi((a + b)[i]) == 1; }
    forall i | 0 <= i < |b| && Atoi(b[i]) == 1 ensures SomeOne(a + b) { assert Atoi((a + b)[|a| + i]) == 1; }
  }

  lemma OneOfOne(v: string)
    ensures (SomeOne([v]) <==> Atoi(v) == 1) && !SomeOne([])
  {
    hide Atoi;
    assert [v][0] == v;
  }

  lemma OneStep(args: seq<string>, name: string)
    requires |args| >= 2
    ensures SomeOne(Values(args, name))
       <==> (SameName(args[0], name) && Atoi(args[1]) == 1) || SomeOne(Values(Rest(args), name))
  {
    hide SameName, Own, Atoi, SomeOne;
    var own := if SameName(args[0], name) then [args[1]] else [];
    OneAppend(own, Values(Rest(args), name));
    OneOfOne(args[1]);
  }

  /** Each setting is the last value behind its own switch, or the default. The gamespy watchdog
      listens to -publicserver 0 as well, and the old protocol can only be switched on. */
  function Settled(args: seq<string>, st: Settings): (r: Settings) {
    Settings(
      LastNumber(Values(args, "-port"), st.port),
      Last(Values(args, "-module"), st.moduleName),
      LastFlag(Values(args, "-processwatchdog"), st.watchdogProcess),
      LastNumber(Values(args, "-processinterval"), st.intervalProcess),
      Last(Verdicts(args), st.watchdogGamespy),
      LastNumber(Values(args, "-gamespyinterval"), st.intervalGamespy),
      LastNumber(Values(args, "-gamespyretries"), st.gamespyRetries),
      SomeOne(Values(args, "-oldgamespyprotocol")) || st.oldGamespyProtocol,
      LastNumber(Values(args, "-restartdelay"), st.restartDelay))
  }

  lemma VerdictApplies(t: string, v: string, st: Settings)
    ensures Last(Verdict(t, v), st.watchdogGamespy) == Applied(st, SwitchOf(t), v).watchdogGamespy
  {
    hide SwitchOf, SameName, Atoi;
    NamesDiffer(t);
  }

  lemma SettledStep(args: seq<string>, st: Settings)
    requires |args| >= 2
    ensures Settled(args, st) == Settled(Rest(args), Applied(st, SwitchOf(args[0]), args[1]))
  {
    hide SwitchOf, SameName, Atoi, Own, Values, Verdict, Verdicts, Last, LastNumber, LastFlag, SomeOne, Rest;
    NamesDiffer(args[0]);
    VerdictApplies(args[0], args[1], st);
    NumberStep(args, "-port", st.port);
    TextStep(args, "-module", st.moduleName);
    FlagStep(args, "-processwatchdog", st.watchdogProcess);
    NumberStep(args, "-processinterval", st.intervalProcess);
    VerdictStep(args, st.watchdogGamespy);
    NumberStep(args, "-gamespyinterval", st.intervalGamespy);
    NumberStep(args, "-gamespyretries", st.gamespyRetries);
    OneStep(args, "-oldgamespyprotocol");
    NumberStep(args, "-restartdelay", st.restartDelay);
  }

  lemma SettledEnd(args: seq<string>, st: Settings)
    requires |args| < 2
    ensures Settled(args, st) == st
  {
  }

  lemma OtherToken(st: Settings, s: Switch, v: string)
    ensures !Consumes(s) && s != PublicServer ==> Applied(st, s, v) == st
  {
  }

  /** For every list of tokens the settings are those. */
  lemma {:induction false} SettingsAreLast(args: seq<string>, st: Settings)
    requires Complete(args)
    ensures Parse(args, st).st == Settled(args, st)
    decreases |args|
  {
    hide SwitchOf, Own, Applied, Settled;
    if |args| >= 2 {
      var s := SwitchOf(args[0]);
      OwnIsConsumed(args[0]);
      OtherToken(st, s, args[1]);
      SettledStep(args, st);
      SettingsAreLast(Rest(args), Applied(st, s, args[1]));
    } else {
      SettledEnd(args, st);
    }
  }

  /** Parsing goes token by token: the tokens that stay stand one behind the other, and the settings
      go on from where they are. */
  lemma {:induction false} ParseAppend(a: seq<string>, b: seq<string>, st: Settings)
    requires Complete(a) && Complete(b)
    ensures Complete(a + b)
    ensures var r := Parse(a, st); var q := Parse(b, r.st); Parse(a + b, st) == Parsed(q.st, r.kept + q.kept)
    decreases |a|
  {
    hide SwitchOf, Applied;
    if a == [] {
      assert a + b == b;
      assert Parse(b, st).kept == [] + Parse(b, st).kept;
    } else {
      var s, all := SwitchOf(a[0]), a + b;
      assert all[1..] == a[1..] + b && all[0] == a[0] && (|a| > 1 ==> all[1] == a[1] && all[2..] == a[2..] + b);
      if Consumes(s) {
        ParseAppend(a[2..], b, Applied(st, s, a[1]));
      } else {
        var st' := if s == PublicServer then Applied(st, s, a[1]) else st;
        ParseAppend(a[1..], b, st');
        assert [a[0]] + (Parse(a[1..], st').kept + Parse(b, Parse(a[1..], st').st).kept)
            == ([a[0]] + Parse(a[1..], st').kept) + Parse(b, Parse(a[1..], st').st).kept;
      }
    }
  }

  /** Of the launcher's own switches and their values nothing stays; any other token does. */
  lemma WhatStays(t: string, v: string, st: Settings)
    ensures Own(t) ==> Complete([t, v]) && Parse([t, v], st).kept == []
    ensures !Own(t) && !SameName(t, "-publicserver") ==> Complete([t]) && Parse([t], st).kept == [t]
    ensures SameName(t, "-publicserver") && !Own(v) && !SameName(v, "-publicserver") ==>
              Complete([t, v]) && Parse([t, v], st).kept == [t, v]
  {
    hide SwitchOf, Own, Applied, SameName;
    OwnIsConsumed(t);
    OwnIsConsumed(v);
    NamesDiffer(t);
    NamesDiffer(v);
    assert [t, v][1..] == [v] && [t, v][2..] == [] && [t][1..] == [] && [v][1..] == [];
    if SameName(t, "-publicserver") && !Own(v) && !SameName(v, "-publicserver") {
      assert Complete([v]);
      var st' := Applied(st, PublicServer, v);
      assert Parse([v], st') == Parsed(st', [v] + []);
    }
  }

  /** Tokens that stay once stay again, whatever follows them. */
  lemma {:induction false} KeptStay(kept: seq<string>, tail: seq<string>, st: Settings) returns (st': Settings)
    requires (forall t :: t in kept ==> !Consumes(SwitchOf(t))) && tail != [] && Complete(tail)
    ensures Complete(kept + tail) && st'.moduleName == st.moduleName
    ensures var r := Parse(tail, st'); Parse(kept + tail, st) == r.(kept := kept + r.kept)
    decreases |kept|
  {
    hide SwitchOf, Atoi;
    if kept == [] {
      assert kept + tail == tail;
      st' := st;
    } else {
      var all := kept + tail;
      var s := SwitchOf(kept[0]);
      assert all[1..] == kept[1..] + tail && all[0] == kept[0];
      st' := KeptStay(kept[1..], tail, if s == PublicServer then Applied(st, s, all[1]) else st);
      assert [kept[0]] + (kept[1..] + Parse(tail, st').kept) == kept + Parse(tail, st').kept;
    }
  }

  lemma OwnSwitches()
    ensures SwitchOf("-port") == Port && SwitchOf("-module") == Module
    ensures WellFormed("-port") && WellFormed("-module")
  {
    assert Lower('-') == '-' && Lower('p') == 'p' && Lower('m') == 'm';
    assert |"-port"| == 5 && |"-module"| == 7;
  }

  lemma NoArguments(st: Settings)
    ensures Complete([]) && Parse([], st) == Parsed(st, [])
  {
  }

  lemma SwitchTaken(t: string, v: string, rest: seq<string>, st: Settings)
    requires Consumes(SwitchOf(t)) && Complete(rest)
    ensures Complete([t, v] + rest) && Parse([t, v] + rest, st) == Parse(rest, Applied(st, SwitchOf(t), v))
  {
    hide SwitchOf, Applied;
    assert ([t, v] + rest)[2..] == rest;
  }

  /** The part of the line that the launcher writes itself parses to what it says. */
  lemma OwnTail(n: int, m: string, st: Settings)
    ensures var tail := ["-port", Itoa(n)] + if m == "" then [] else ["-module", m];
            && Complete(tail)
            && Parse(tail, st) == Parsed(if m == "" then st.(port := n) else st.(port := n, moduleName := m), [])
  {
    hide SwitchOf, Itoa, Atoi, Parse, Complete;
    OwnSwitches();
    AtoiOfItoa(n);
    NoArguments(st.(port := n));
    NoArguments(st.(port := n, moduleName := m));
    if m == "" {
      SwitchTaken("-port", Itoa(n), [], st);
      assert ["-port", Itoa(n)] + [] == ["-port", Itoa(n)];
    } else {
      SwitchTaken("-module", m, [], st.(port := n));
      assert ["-module", m] + [] == ["-module", m];
      SwitchTaken("-port", Itoa(n), ["-module", m], st);
      assert ["-port", Itoa(n)] + ["-module", m] == ["-port", Itoa(n), "-module", m];
    }
  }

  lemma PassedAreTokens(r: Parsed)
    requires forall k :: 0 <= k < |r.kept| ==> WellFormed(r.kept[k])
    requires r.st.moduleName == "" || LastToken(r.st.moduleName)
    ensures var ts := Passed(r);
            forall k :: 0 <= k < |ts| ==> if k < |ts| - 1 then WellFormed(ts[k]) else LastToken(ts[k])
  {
    hide WellFormed, LastToken, Itoa;
    OwnSwitches();
    ItoaIsToken(r.st.port);
    WellFormedIsLast(Itoa(r.st.port));
  }

  lemma PassedAgain(r: Parsed, st: Settings)
    requires forall t :: t in r.kept ==> !Consumes(SwitchOf(t))
    ensures Complete(Passed(r))
    ensures var again := Parse(Passed(r), st);
            && again.kept == r.kept && again.st.port == r.st.port
            && again.st.moduleName == (if r.st.moduleName == "" then st.moduleName else r.st.moduleName)
  {
    hide SwitchOf, Itoa, Atoi, Parse, Complete, Spaced;
    var tail := ["-port", Itoa(r.st.port)] + if r.st.moduleName == "" then [] else ["-module", r.st.moduleName];
    OwnTail(r.st.port, r.st.moduleName, st);
    var st' := KeptStay(r.kept, tail, st);
    OwnTail(r.st.port, r.st.moduleName, st');
    assert Passed(r) == r.kept + tail;
    assert r.kept + [] == r.kept;
  }

  lemma SameLine(r: Parsed, again: Parsed)
    requires again.kept == r.kept && again.st.port == r.st.port
    requires again.st.moduleName != r.st.moduleName ==> r.st.moduleName == ""
    ensures Line(again) == Line(r) <==> again.st.moduleName == r.st.moduleName
  {
    hide Itoa, Spaced;
    if again.st.moduleName != r.st.moduleName { assert |Line(again)| > |Line(r)|; }
  }

  /** The tokens that a line must be made of to read back: those that stay well formed, and the
      module name one token, whose quote may lack its close. */
  predicate Readable(r: Parsed) {
    && (forall k :: 0 <= k < |r.kept| ==> WellFormed(r.kept[k]))
    && (r.st.moduleName == "" || LastToken(r.st.moduleName))
  }

  /** Tokenizing and rewriting is a normal form for every readable line: it holds exactly the
      unconsumed tokens in order and then the launcher's own -port and -module, and a second
      launcher that starts from the same defaults makes the same line of it, unless an empty
      module name has overridden a default one, which then comes back. */
  lemma NormalForm(args: seq<string>, st: Settings)
    requires Complete(args)
    ensures var r := Parse(args, st);
            Readable(r) ==>
              && Tokenize(Line(r)) == Passed(r) && Complete(Passed(r))
              && var again := Parse(Tokenize(Line(r)), st);
                 && again.kept == r.kept && again.st.port == r.st.port
                 && (Line(again) == Line(r) <==> (r.st.moduleName == "" ==> st.moduleName == ""))
  {
    hide SwitchOf, Itoa, Atoi, Parse, Complete, WellFormed, LastToken, Join, Spaced, Tokenize, Line, Passed;
    var r := Parse(args, st);
    if Readable(r) {
      KeptTokens(args, st);
      PassedAreTokens(r);
      LineIsJoined(r);
      TokenizeJoined(Passed(r));
      PassedAgain(r, st);
      SameLine(r, Parse(Passed(r), st));
    }
  }

  /** Exactly when the line reads back: any other quoted token that nothing closes, or an empty
      one, merges with what the launcher adds. */
  lemma ReadsBackExactly(args: seq<string>, st: Settings)
    requires Complete(args) && '\0' !in Line(Parse(args, st))
    ensures var r := Parse(args, st); Tokenize(Line(r)) == Passed(r) <==> Readable(r)
  {
    hide Line, WellFormed, LastToken, Parse, Itoa, TokensFrom;
    var r := Parse(args, st);
    if Readable(r) {
      PassedAreTokens(r);
      LineIsJoined(r);
      TokenizeJoined(Passed(r));
    }
    if Tokenize(Line(r)) == Passed(r) {
      var ts := Passed(r);
      OnlyLastIllFormed(Line(r), 0);
      forall k | 0 <= k < |r.kept| ensures WellFormed(r.kept[k]) { assert ts[k] == r.kept[k]; }
      TokensAreLast(Line(r), 0);
      if r.st.moduleName != "" { assert ts[|ts| - 1] == r.st.moduleName; }
    }
  }
}
