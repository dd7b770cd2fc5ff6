/** The profiler's flat stack machine and the call tree it measures. */
module CallProfile {
  import opened CInt
  import opened Words
  import opened JenkinsHash

  const MAX_CALLDEPTH := 128

  /** The figures of one script name. */
  datatype Stat = Stat(calls: word, elapsed: word)

  type Table = map<Key, Stat>

  /** The globals of the profiler, with the hash table as a map. */
  datatype View = View(depth: int, names: seq<Key>, last: seq<int>, counter: word, empty: bool, stats: Table)
  {
    predicate WellFormed() {
      -1 <= depth < MAX_CALLDEPTH && |names| == |last| == MAX_CALLDEPTH
    }
  }

  /** Microseconds between two counter readings, cut to 32 bits. */
  function Elapsed(start: int, stop: int, frequency: nat): (e: word)
    requires frequency > 0
  {
    Div((stop - start) * 1000000, frequency) % SPACE
  }

  /** More than ten seconds, counted in whole milliseconds, since the last statistic. */
  predicate FlushDue(last: int, now: int, frequency: nat)
    requires frequency > 0
  {
    Div((now - last) * 1000, frequency) % SPACE > 10000
  }

  /** One more call of a script. */
  function Counted(t: Table, name: Key, e: word): (r: Table) {
    t[name := if name in t then Stat(Sum(t[name].calls, 1), Sum(t[name].elapsed, e)) else Stat(1, e)]
  }

  /** The common part of the four entry hooks, for a tag that is not null. */
  function Entered(v: View, name: Key, now: int): (r: View)
    requires v.WellFormed()
    ensures r.WellFormed()
  {
    var d := if v.depth < MAX_CALLDEPTH - 1 then v.depth + 1 else v.depth;
    v.(depth := d, names := v.names[d := name], last := v.last[d := now],
       counter := Sum(v.counter, 1), empty := false)
  }

  /** StopTimer, when there is a timer to stop. */
  function Stopped(v: View, now: int, frequency: nat): (r: View)
    requires v.WellFormed() && v.depth >= 0 && frequency > 0
    ensures r.WellFormed()
  {
    v.(depth := v.depth - 1,
       stats := Counted(v.stats, v.names[v.depth], Elapsed(v.last[v.depth], now, frequency)))
  }

  datatype Event = Enter(name: Key, now: int) | Exit(now: int)

  /** Starting at depth d, the events neither nest deeper than the stack nor exit below it. */
  predicate Bracketed(d: int, es: seq<Event>)
    decreases |es|
  {
    es == [] ||
    if es[0].Enter? then d < MAX_CALLDEPTH - 1 && Bracketed(d + 1, es[1..])
    else d >= 0 && Bracketed(d - 1, es[1..])
  }

  function Run(v: View, es: seq<Event>, frequency: nat): (r: View)
    requires v.WellFormed() && Bracketed(v.depth, es) && frequency > 0
    ensures r.WellFormed()
    decreases |es|
  {
    if es == [] then v
    else if es[0].Enter? then Run(Entered(v, es[0].name, es[0].now), es[1..], frequency)
    else Run(Stopped(v, es[0].now, frequency), es[1..], frequency)
  }

  /** A finished call: its name, its counter readings, and the calls it made in between. */
  datatype Call = Call(name: Key, start: int, calls: seq<Call>, stop: int)

  /** Enter and exit events of a sequence of calls, in the order in which they happen. */
  function Events(cs: seq<Call>): (es: seq<Event>)
    decreases cs
  {
    if cs == [] then []
    else [Enter(cs[0].name, cs[0].start)] + Events(cs[0].calls) + [Exit(cs[0].stop)] + Events(cs[1..])
  }

  /** How deep the calls nest. */
  function Height(cs: seq<Call>): (h: nat)
    decreases cs
  {
    if cs == [] then 0
    else
      var h, k := 1 + Height(cs[0].calls), Height(cs[1..]);
      if h > k then h else k
  }

  function CallCount(cs: seq<Call>): (n: nat)
    decreases cs
  {
    if cs == [] then 0 else 1 + CallCount(cs[0].calls) + CallCount(cs[1..])
  }

  /** The table after the calls have been counted, the inner ones of each call first. */
  function Tally(t: Table, cs: seq<Call>, frequency: nat): (r: Table)
    requires frequency > 0
    decreases cs
  {
    if cs == [] then t
    else
      var inner := Tally(t, cs[0].calls, frequency);
      Tally(Counted(inner, cs[0].name, Elapsed(cs[0].start, cs[0].stop, frequency)), cs[1..], frequency)
  }

  /** Calls under a name anywhere in the trees. */
  function NameCount(cs: seq<Call>, name: Key): (n: nat)
    decreases cs
  {
    if cs == [] then 0
    else (if cs[0].name == name then 1 else 0) + NameCount(cs[0].calls, name) + NameCount(cs[1..], name)
  }

  /** The microseconds spent under a name anywhere in the trees. */
  function NameTime(cs: seq<Call>, name: Key, frequency: nat): (n: nat)
    requires frequency > 0
    decreases cs
  {
    if cs == [] then 0
    else (if cs[0].name == name then Elapsed(cs[0].start, cs[0].stop, frequency) else 0)
         + NameTime(cs[0].calls, name, frequency) + NameTime(cs[1..], name, frequency)
  }

  function DepthAfter(d: int, es: seq<Event>): int
    decreases |es|
  {
    if es == [] then d else DepthAfter(if es[0].Enter? then d + 1 else d - 1, es[1..])
  }

  lemma {:induction false} BracketedAppend(d: int, es: seq<Event>, fs: seq<Event>, e: int)
    requires Bracketed(d, es) && e == DepthAfter(d, es)
    ensures Bracketed(d, es + fs) <==> Bracketed(e, fs)
    ensures DepthAfter(d, es + fs) == DepthAfter(e, fs)
    decreases |es|
  {
    if es == [] {
      assert es + fs == fs;
    } else {
      assert (es + fs)[1..] == es[1..] + fs;
      BracketedAppend(if es[0].Enter? then d + 1 else d - 1, es[1..], fs, e);
    }
  }

  lemma {:induction false} EventsAreBracketed(cs: seq<Call>, d: int)
    requires -1 <= d && d + Height(cs) < MAX_CALLDEPTH
    ensures Bracketed(d, Events(cs)) && DepthAfter(d, Events(cs)) == d
    decreases cs
  {
    if cs != [] {
      var enter, inner := [Enter(cs[0].name, cs[0].start)], Events(cs[0].calls);
      var exit, rest := [Exit(cs[0].stop)], Events(cs[1..]);
      EventsAreBracketed(cs[0].calls, d + 1);
      EventsAreBracketed(cs[1..], d);
      BracketedAppend(d, enter, inner, d + 1);
      BracketedAppend(d, enter + inner, exit, d + 1);
      BracketedAppend(d, enter + inner + exit, rest, d);
    }
  }

  lemma {:induction false} RunAppend(v: View, es: seq<Event>, fs: seq<Event>, frequency: nat)
    requires v.WellFormed() && frequency > 0 && Bracketed(v.depth, es + fs) && Bracketed(v.depth, es)
    ensures var u := Run(v, es, frequency);
            && u.depth == DepthAfter(v.depth, es) && Bracketed(u.depth, fs)
            && Run(v, es + fs, frequency) == Run(u, fs, frequency)
    decreases |es|
  {
    if es == [] {
      assert es + fs == fs;
    } else {
      assert (es + fs)[1..] == es[1..] + fs;
      if es[0].Enter? { RunAppend(Entered(v, es[0].name, es[0].now), es[1..], fs, frequency); }
      else { RunAppend(Stopped(v, es[0].now, frequency), es[1..], fs, frequency); }
    }
  }

  /** The stack up to the depth d is the same in both views. */
  predicate SameStack(v: View, r: View)
    requires v.WellFormed() && r.WellFormed()
  {
    && v.depth == r.depth
    && v.names[..v.depth + 1] == r.names[..v.depth + 1]
    && v.last[..v.depth + 1] == r.last[..v.depth + 1]
  }

  /** What a run over finished calls leaves behind. */
  predicate Measured(v: View, r: View, cs: seq<Call>, frequency: nat)
    requires v.WellFormed() && r.WellFormed() && frequency > 0
  {
    && SameStack(v, r)
    && r.stats == Tally(v.stats, cs, frequency)
    && r.counter == (v.counter + CallCount(cs)) % SPACE
  }

  lemma NoCalls(v: View, frequency: nat)
    requires v.WellFormed() && frequency > 0
    ensures Bracketed(v.depth, []) && Measured(v, Run(v, [], frequency), [], frequency)
  {
  }

  lemma Pushed(v: View, c: Call) returns (v1: View)
    requires v.WellFormed() && v.depth < MAX_CALLDEPTH - 1
    ensures v1 == Entered(v, c.name, c.start) && v1.WellFormed() && v1.depth == v.depth + 1
    ensures v1.counter == (v.counter + 1) % SPACE && v1.stats == v.stats
  {
    v1 := Entered(v, c.name, c.start);
  }

  lemma SameStackTwice(u: View, v: View, w: View)
    requires u.WellFormed() && v.WellFormed() && w.WellFormed() && SameStack(u, v) && SameStack(v, w)
    ensures SameStack(u, w)
  {
  }

  lemma Wraps(a: int, b: int)
    ensures (a % SPACE + b) % SPACE == (a + b) % SPACE
  {
  }

  /** The exit pops what the entry pushed, and nothing the inner calls did shows. */
  lemma CallReturns(v: View, v1: View, v2: View, c: Call, frequency: nat) returns (v3: View)
    requires v.WellFormed() && v.depth < MAX_CALLDEPTH - 1 && v1 == Entered(v, c.name, c.start)
    requires v2.WellFormed() && SameStack(v1, v2) && frequency > 0
    ensures v2.depth == v.depth + 1 && v3 == Stopped(v2, c.stop, frequency) && v3.WellFormed()
    ensures SameStack(v, v3) && v3.depth == v.depth && v3.counter == v2.counter
    ensures v3.stats == Counted(v2.stats, c.name, Elapsed(c.start, c.stop, frequency))
  {
    hide Counted, Elapsed;
    var d := v.depth + 1;
    assert v2.names[d] == v2.names[..d + 1][d] == v1.names[..d + 1][d];
    assert v2.last[d] == v2.last[..d + 1][d] == v1.last[..d + 1][d];
    assert v2.names[..d] == v2.names[..d + 1][..d] && v2.last[..d] == v2.last[..d + 1][..d];
    v3 := Stopped(v2, c.stop, frequency);
  }

  lemma RunInParts(v: View, c: Call, rest: seq<Event>, frequency: nat)
    requires v.WellFormed() && frequency > 0
    requires v.depth + 1 + Height(c.calls) < MAX_CALLDEPTH
    requires Bracketed(v.depth, [Enter(c.name, c.start)] + Events(c.calls) + [Exit(c.stop)] + rest)
    ensures var v1 := Entered(v, c.name, c.start);
            && Bracketed(v1.depth, Events(c.calls)) && Run(v1, Events(c.calls), frequency).depth == v.depth + 1
            && var v3 := Stopped(Run(v1, Events(c.calls), frequency), c.stop, frequency);
            && Bracketed(v3.depth, rest)
            && Run(v, [Enter(c.name, c.start)] + Events(c.calls) + [Exit(c.stop)] + rest, frequency)
               == Run(v3, rest, frequency)
  {
    hide Counted, Elapsed;
    var v1 := Entered(v, c.name, c.start);
    var inner, exit := Events(c.calls), [Exit(c.stop)];
    var all := [Enter(c.name, c.start)] + inner + exit + rest;
    assert all[1..] == inner + (exit + rest);
    EventsAreBracketed(c.calls, v1.depth);
    RunAppend(v1, inner, exit + rest, frequency);
    assert (exit + rest)[1..] == rest;
  }

  /** The flat machine agrees with the call tree: over the events of finished calls that nest
      no deeper than the stack, it counts what the tree says and leaves the stack as it was. */
  lemma {:induction false} RunMeasuresCalls(v: View, cs: seq<Call>, frequency: nat)
    requires v.WellFormed() && frequency > 0 && v.depth + Height(cs) < MAX_CALLDEPTH
    ensures Bracketed(v.depth, Events(cs))
    ensures Measured(v, Run(v, Events(cs), frequency), cs, frequency)
    decreases cs
  {
    hide Counted, Elapsed, SameStack, Stopped, Entered, Bracketed, Run;
    EventsAreBracketed(cs, v.depth);
    if cs == [] {
      NoCalls(v, frequency);
    } else {
      var c := cs[0];
      var v1 := Pushed(v, c);
      RunMeasuresCalls(v1, c.calls, frequency);
      var v2 := Run(v1, Events(c.calls), frequency);
      var v3 := CallReturns(v, v1, v2, c, frequency);
      RunMeasuresCalls(v3, cs[1..], frequency);
      RunInParts(v, c, Events(cs[1..]), frequency);
      SameStackTwice(v, v3, Run(v3, Events(cs[1..]), frequency));
      Wraps(v.counter + 1, CallCount(c.calls));
      Wraps(v.counter + 1 + CallCount(c.calls), CallCount(cs[1..]));
    }
  }

  function Calls(t: Table, name: Key): nat { if name in t then t[name].calls else 0 }

  function Time(t: Table, name: Key): nat { if name in t then t[name].elapsed else 0 }

  /** Table r holds n more calls and e more microseconds of one name than t. */
  predicate Adds(t: Table, r: Table, name: Key, n: nat, e: nat) {
    && (name in r <==> name in t || n > 0)
    && Calls(r, name) == (Calls(t, name) + n) % SPACE
    && Time(r, name) == (Time(t, name) + e) % SPACE
  }

  lemma AddsNothing(t: Table, name: Key)
    ensures Adds(t, t, name, 0, 0)
  {
  }

  lemma AddsTwice(t: Table, u: Table, r: Table, name: Key, n: nat, e: nat, n': nat, e': nat)
    requires Adds(t, u, name, n, e) && Adds(u, r, name, n', e')
    ensures Adds(t, r, name, n + n', e + e')
  {
    hide Calls, Time;
    Wraps(Calls(t, name) + n, n');
    Wraps(Time(t, name) + e, e');
  }

  lemma CountedByName(t: Table, called: Key, e: word, name: Key)
    ensures Adds(t, Counted(t, called, e), name, if called == name then 1 else 0, if called == name then e else 0)
  {
  }

  /** Over the calls of a whole session the table holds, for each name, how often it was
      called and how long it ran, wherever in the tree its calls were. */
  lemma {:induction false} TallyByName(t: Table, cs: seq<Call>, frequency: nat, name: Key)
    requires frequency > 0
    ensures Adds(t, Tally(t, cs, frequency), name, NameCount(cs, name), NameTime(cs, name, frequency))
    decreases cs
  {
    hide Elapsed, Counted, Adds;
    if cs == [] {
      AddsNothing(t, name);
    } else {
      var c := cs[0];
      var e := Elapsed(c.start, c.stop, frequency);
      var inner := Tally(t, c.calls, frequency);
      var own := if c.name == name then 1 else 0;
      var time := if c.name == name then e else 0;
      TallyByName(t, c.calls, frequency, name);
      CountedByName(inner, c.name, e, name);
      AddsTwice(t, inner, Counted(inner, c.name, e), name,
                NameCount(c.calls, name), NameTime(c.calls, name, frequency), own, time);
      TallyByName(Counted(inner, c.name, e), cs[1..], frequency, name);
      AddsTwice(t, Counted(inner, c.name, e), Tally(t, cs, frequency), name,
                NameCount(c.calls, name) + own, NameTime(c.calls, name, frequency) + time,
                NameCount(cs[1..], name), NameTime(cs[1..], name, frequency));
    }
  }

  /** The time between two counter readings is the whole number of microseconds in it, of which
      the table keeps 32 bits. */
  lemma ElapsedIsWhole(start: int, stop: int, frequency: nat) returns (q: nat)
    requires frequency > 0 && start <= stop
    ensures q * frequency <= (stop - start) * 1000000 < (q + 1) * frequency
    ensures Elapsed(start, stop, frequency) == q % SPACE
  {
    q := (stop - start) * 1000000 / frequency;
  }

  /** The two readings lie in order and less than 2^32 microseconds, or 71 minutes, apart. */
  predicate Near(start: int, stop: int, frequency: nat) {
    start <= stop && (stop - start) * 1000000 < SPACE * frequency
  }

  lemma TimesMonotone(a: nat, b: nat, c: nat)
    requires a <= b
    ensures a * c <= b * c
  {
  }

  lemma FitsWord(q: nat, frequency: nat, n: int)
    requires frequency > 0 && q * frequency <= n < SPACE * frequency
    ensures q < SPACE
  {
  }

  lemma ElapsedBounds(start: int, stop: int, frequency: nat)
    requires frequency > 0 && Near(start, stop, frequency)
    ensures var e := Elapsed(start, stop, frequency);
            e * frequency <= (stop - start) * 1000000 < (e + 1) * frequency
  {
    hide Elapsed;
    var q := ElapsedIsWhole(start, stop, frequency);
    FitsWord(q, frequency, (stop - start) * 1000000);
  }

  /** What an exit does to the table: the name on top of the stack has one more call, and as many
      more microseconds as have passed since its entry; every other name keeps its figures. */
  lemma ExitBooksTime(v: View, now: int, frequency: nat) returns (e: word)
    requires v.WellFormed() && v.depth >= 0 && frequency > 0 && Near(v.last[v.depth], now, frequency)
    ensures e * frequency <= (now - v.last[v.depth]) * 1000000 < (e + 1) * frequency
    ensures var r, name := Stopped(v, now, frequency), v.names[v.depth];
            && r.depth == v.depth - 1 && Adds(v.stats, r.stats, name, 1, e)
            && forall k :: k != name ==> (k in r.stats <==> k in v.stats) && (k in r.stats ==> r.stats[k] == v.stats[k])
  {
    hide Elapsed;
    e := Elapsed(v.last[v.depth], now, frequency);
    ElapsedBounds(v.last[v.depth], now, frequency);
  }

  lemma LessThanTwoMore(a: nat, b: nat, c: nat, x: int, y: int, f: nat)
    requires f > 0 && a * f <= x < (a + 1) * f && b * f <= y < (b + 1) * f && c * f <= x + y < (c + 1) * f
    ensures a + b <= c <= a + b + 1
  {
    assert (a + b) * f == a * f + b * f;
    if c < a + b { TimesMonotone(c + 1, a + b, f); }
    if c > a + b + 1 { TimesMonotone(a + b + 2, c, f); }
  }

  /** Of two adjoining intervals the times add up to that of the whole, up to one microsecond that
      rounding down loses. */
  lemma ElapsedAdds(a: int, b: int, c: int, frequency: nat)
    requires frequency > 0 && a <= b <= c && Near(a, c, frequency)
    ensures Elapsed(a, b, frequency) + Elapsed(b, c, frequency) <= Elapsed(a, c, frequency)
         <= Elapsed(a, b, frequency) + Elapsed(b, c, frequency) + 1
  {
    hide Elapsed;
    ElapsedBounds(a, b, frequency);
    ElapsedBounds(b, c, frequency);
    ElapsedBounds(a, c, frequency);
    LessThanTwoMore(Elapsed(a, b, frequency), Elapsed(b, c, frequency), Elapsed(a, c, frequency),
                    (b - a) * 1000000, (c - b) * 1000000, frequency);
  }

  /** The statistics are due 10.001 seconds after the last ones, but not again after 2^32
      milliseconds. */
  lemma FlushDueMeans(last: int, now: int, frequency: nat)
    requires frequency > 0 && last <= now && (now - last) * 1000 < SPACE * frequency
    ensures FlushDue(last, now, frequency) <==> (now - last) * 1000 >= 10001 * frequency
  {
    var n := (now - last) * 1000;
    var q := n / frequency;
    assert q * frequency <= n < (q + 1) * frequency;
    FitsWord(q, frequency, n);
    if q <= 10000 { TimesMonotone(q + 1, 10001, frequency); } else { TimesMonotone(10001, q, frequency); }
  }

  /** All calls in the trees last less than 2^32 microseconds. */
  predicate AllNear(cs: seq<Call>, frequency: nat)
    decreases cs
  {
    cs == [] ||
    (Near(cs[0].start, cs[0].stop, frequency) && AllNear(cs[0].calls, frequency) && AllNear(cs[1..], frequency))
  }

  /** Counter ticks spent under a name anywhere in the trees. */
  function NameTicks(cs: seq<Call>, name: Key): (n: int)
    decreases cs
  {
    if cs == [] then 0
    else (if cs[0].name == name then cs[0].stop - cs[0].start else 0)
         + NameTicks(cs[0].calls, name) + NameTicks(cs[1..], name)
  }

  /** What has been added up is short of n ticks by less than a microsecond a call. */
  predicate ShortBy(time: nat, calls: nat, ticks: int, frequency: nat) {
    time * frequency <= ticks * 1000000 <= (time + calls) * frequency
  }

  lemma ShortTogether(t: nat, c: nat, n: int, t': nat, c': nat, n': int, frequency: nat)
    requires ShortBy(t, c, n, frequency) && ShortBy(t', c', n', frequency)
    ensures ShortBy(t + t', c + c', n + n', frequency)
  {
    assert (t + t') * frequency == t * frequency + t' * frequency;
    assert (t + t' + (c + c')) * frequency == (t + c) * frequency + (t' + c') * frequency;
  }

  lemma OwnTime(c: Call, name: Key, frequency: nat)
    requires frequency > 0 && Near(c.start, c.stop, frequency)
    ensures if c.name == name then ShortBy(Elapsed(c.start, c.stop, frequency), 1, c.stop - c.start, frequency)
            else ShortBy(0, 0, 0, frequency)
  {
    hide Elapsed;
    ElapsedBounds(c.start, c.stop, frequency);
  }

  lemma ShortAtFirst(own: nat, once: nat, ticks: int, t: nat, c: nat, n: int, t': nat, c': nat, n': int, frequency: nat)
    requires ShortBy(own, once, ticks, frequency) && ShortBy(t, c, n, frequency) && ShortBy(t', c', n', frequency)
    ensures ShortBy(own + t + t', once + c + c', ticks + n + n', frequency)
  {
    hide ShortBy;
    ShortTogether(own, once, ticks, t, c, n, frequency);
    ShortTogether(own + t, once + c, ticks + n, t', c', n', frequency);
  }

  lemma NothingShort(frequency: nat)
    ensures ShortBy(0, 0, 0, frequency)
  {
    assert 0 * frequency == 0;
  }

  /** The microseconds under a name are the ticks spent under it, short by less than one a call. */
  lemma {:induction false} NameTimeBounds(cs: seq<Call>, name: Key, frequency: nat)
    requires frequency > 0 && AllNear(cs, frequency)
    ensures ShortBy(NameTime(cs, name, frequency), NameCount(cs, name), NameTicks(cs, name), frequency)
    decreases cs
  {
    hide Elapsed, Near, ShortBy;
    if cs == [] {
      NothingShort(frequency);
    } else {
      var c, inner, rest := cs[0], cs[0].calls, cs[1..];
      OwnTime(c, name, frequency);
      NameTimeBounds(inner, name, frequency);
      NameTimeBounds(rest, name, frequency);
      ShortAtFirst(if c.name == name then Elapsed(c.start, c.stop, frequency) else 0,
                   if c.name == name then 1 else 0, if c.name == name then c.stop - c.start else 0,
                   NameTime(inner, name, frequency), NameCount(inner, name), NameTicks(inner, name),
                   NameTime(rest, name, frequency), NameCount(rest, name), NameTicks(rest, name), frequency);
    }
  }

  /** Over a session that starts with an empty table and whose figures fit 32 bits, the table holds
      for each name its calls and, but for less than a microsecond a call, its time. */
  lemma SessionTimes(cs: seq<Call>, name: Key, frequency: nat)
    requires frequency > 0 && AllNear(cs, frequency)
    requires NameCount(cs, name) < SPACE && NameTicks(cs, name) * 1000000 < SPACE * frequency
    ensures var r := Tally(map[], cs, frequency);
            && Calls(r, name) == NameCount(cs, name)
            && ShortBy(Time(r, name), NameCount(cs, name), NameTicks(cs, name), frequency)
  {
    hide NameTime, NameTicks, NameCount, Tally, AllNear;
    TallyByName(map[], cs, frequency, name);
    NameTimeBounds(cs, name, frequency);
    FitsWord(NameTime(cs, name, frequency), frequency, NameTicks(cs, name) * 1000000);
  }

  /** The calls counted in the table, over all names. */
  ghost function SumCalls(t: Table): (n: nat) {
    if t == map[] then 0
    else
      var k :| k in t;
      t[k].calls + SumCalls(t - {k})
  }

  lemma {:induction false} SumWithout(t: Table, k: Key)
    requires k in t
    ensures SumCalls(t) == t[k].calls + SumCalls(t - {k})
    decreases |t|
  {
    var j :| j in t && SumCalls(t) == t[j].calls + SumCalls(t - {j});
    if j != k {
      SumWithout(t - {j}, k);
      SumWithout(t - {k}, j);
      assert t - {j} - {k} == t - {k} - {j};
    }
  }

  lemma SumCounted(t: Table, name: Key, e: word)
    ensures SumCalls(Counted(t, name, e)) % SPACE == (SumCalls(t) + 1) % SPACE
  {
    var r := Counted(t, name, e);
    SumWithout(r, name);
    assert r - {name} == t - {name};
    if name in t { SumWithout(t, name); Wraps(t[name].calls + 1, SumCalls(t - {name})); }
    else { assert t - {name} == t; }
  }

  /** Every call entered is either counted in the table or still on the stack. */
  ghost predicate Conserved(v: View) {
    v.counter == (SumCalls(v.stats) + v.depth + 1) % SPACE
  }

  /** At every point of every bracketed run, the script counter is the number of calls in the
      table plus the number of calls on the stack. */
  lemma {:induction false} RunConserves(v: View, es: seq<Event>, frequency: nat)
    requires v.WellFormed() && frequency > 0 && Bracketed(v.depth, es) && Conserved(v)
    ensures Conserved(Run(v, es, frequency))
    decreases |es|
  {
    hide Counted, Elapsed, SumCalls;
    if es != [] {
      if es[0].Enter? {
        Wraps(SumCalls(v.stats) + v.depth + 1, 1);
        RunConserves(Entered(v, es[0].name, es[0].now), es[1..], frequency);
      } else {
        var e := Elapsed(v.last[v.depth], es[0].now, frequency);
        SumCounted(v.stats, v.names[v.depth], e);
        Wraps(SumCalls(Counted(v.stats, v.names[v.depth], e)), v.depth);
        Wraps(SumCalls(v.stats) + 1, v.depth);
        RunConserves(Stopped(v, es[0].now, frequency), es[1..], frequency);
      }
    }
  }
}
