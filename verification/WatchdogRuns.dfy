/** What every run of the watchdogs keeps: when the gamespy watchdog restarts the server, and
    how the two watchdogs put each other to sleep. */
module WatchdogRuns {
  import opened Watchdogs

  // ---- restarts of the gamespy watchdog

  /** Unanswered polls since the last answer. */
  function Unanswered(log: seq<Note>): (n: nat) {
    if log == [] then 0
    else
      match log[|log| - 1]
      case Poll(answered) => if answered then 0 else Unanswered(log[..|log| - 1]) + 1
      case Restart => Unanswered(log[..|log| - 1])
  }

  /** Whether the server was restarted since the last answer. */
  predicate RestartedSince(log: seq<Note>) {
    log != [] &&
    match log[|log| - 1]
    case Poll(answered) => !answered && RestartedSince(log[..|log| - 1])
    case Restart => true
  }

  /** The unanswered poll just made is number limit + 1, the first one too many. */
  predicate Due(log: seq<Note>, limit: nat) {
    Unanswered(log) == limit + 1 && !RestartedSince(log)
  }

  /** A restart comes exactly where one is due. */
  predicate Timely(log: seq<Note>, limit: nat) {
    forall i :: 0 <= i < |log| ==> (log[i] == Restart <==> Due(log[..i], limit))
  }

  lemma Noted(log: seq<Note>, x: Note, limit: nat)
    requires Timely(log, limit) && (x == Restart <==> Due(log, limit))
    ensures Timely(log + [x], limit)
    ensures Unanswered(log + [x])
         == if x == Poll(true) then 0 else if x == Restart then Unanswered(log) else Unanswered(log) + 1
    ensures RestartedSince(log + [x]) <==> x != Poll(true) && (x == Restart || RestartedSince(log))
  {
    var l := log + [x];
    assert l[..|l| - 1] == log;
    forall i | 0 <= i < |l| ensures l[i] == Restart <==> Due(l[..i], limit) {
      assert l[..i] == log[..i];
      if i == |log| { assert log[..i] == log; }
    }
  }

  predicate RestartPending(pc: GamespyPc) {
    pc in {GCheck, GKill, GPostLockup, GPostRestart, GStart}
  }

  /** The thread's own variables tell what its history tells. */
  predicate Tracks(g: GamespyDog, limit: nat) {
    && Timely(g.log, limit)
    && (g.pc in {GPostChecking, GPostNone} ==> g.episode == Idle)
    && (g.pc == GPoll ==> g.episode != Idle)
    && (RestartPending(g.pc) ==> g.episode == Restarting)
    && match g.episode
       case Idle => Unanswered(g.log) == 0 && !RestartedSince(g.log) && (g.pc == GDecide ==> g.retries == 0)
       case Waiting =>
         && g.retries == Unanswered(g.log) <= limit + (if g.pc == GDecide then 1 else 0)
         && !RestartedSince(g.log)
       case Restarting => if RestartPending(g.pc) then Due(g.log, limit) else RestartedSince(g.log)
  }

  lemma GamespyStepTracks(s: State, answered: bool, limit: nat)
    requires Tracks(s.g, limit)
    ensures Tracks(GamespyNext(s, answered, limit).g, limit)
  {
    hide Timely, Unanswered, RestartedSince;
    if s.g.pc == GPoll { Noted(s.g.log, Poll(answered), limit); }
    if s.g.pc == GStart { Noted(s.g.log, Restart, limit); }
  }

  lemma OthersKeepLog(s: State, a: Action, limit: nat)
    requires !a.GamespyStep?
    ensures Next(s, a, limit).g
            == s.g.(doSleep := Next(s, a, limit).g.doSleep, running := Next(s, a, limit).g.running)
  {
  }

  /** In every interleaving, for a constant retry limit: the gamespy watchdog restarts the
      server on exactly the poll that makes limit + 1 unanswered ones in a row, never earlier,
      never later, and never twice for one silence. */
  lemma {:induction false} RestartsOnTime(s: State, actions: seq<Action>, limit: nat)
    requires Initial(s) || Tracks(s.g, limit)
    ensures Tracks(Run(s, actions, limit).g, limit)
    ensures Timely(Run(s, actions, limit).g.log, limit)
    decreases |actions|
  {
    hide ProcessNext, GamespyNext, UiNext;
    if actions != [] {
      var a := actions[0];
      if a.GamespyStep? { GamespyStepTracks(s, a.answered, limit); } else { OthersKeepLog(s, a, limit); }
      RestartsOnTime(Next(s, a, limit), actions[1..], limit);
    }
  }

  lemma {:induction false} StillRestarted(log: seq<Note>, i: nat, j: nat)
    requires i < j <= |log| && log[i] == Restart
    requires forall k :: i < k < j ==> log[k] != Poll(true)
    ensures RestartedSince(log[..j])
  {
    var l := log[..j];
    assert l[|l| - 1] == log[j - 1] && l[..|l| - 1] == log[..j - 1];
    if j > i + 1 { StillRestarted(log, i, j - 1); }
  }

  /** Between two restarts the server answered at least once. */
  lemma AnswerBetweenRestarts(log: seq<Note>, limit: nat, i: nat, j: nat)
    requires Timely(log, limit) && i < j < |log| && log[i] == Restart && log[j] == Restart
    ensures exists k :: i < k < j && log[k] == Poll(true)
  {
    if forall k :: i < k < j ==> log[k] != Poll(true) {
      StillRestarted(log, i, j);
      assert false;
    }
  }

  // ---- putting each other to sleep

  /** The sleep flag once the queued messages are handled. */
  predicate Told(flag: bool, q: seq<Msg>, on: Msg, off: Msg)
    decreases |q|
  {
    if q == [] then flag else Told(if q[0] == on then true else if q[0] == off then false else flag, q[1..], on, off)
  }

  lemma {:induction false} ToldPosted(flag: bool, q: seq<Msg>, x: Msg, on: Msg, off: Msg)
    ensures Told(flag, q + [x], on, off) == if x == on then true else if x == off then false else Told(flag, q, on, off)
    decreases |q|
  {
    if q == [] { assert q + [x] == [x]; }
    else {
      assert (q + [x])[1..] == q[1..] + [x];
      ToldPosted(if q[0] == on then true else if q[0] == off then false else flag, q[1..], x, on, off);
    }
  }

  lemma PostTold(s: State, x: Msg)
    ensures Told(s.g.doSleep, s.d.Post(x).queue, ProcessChecking, ProcessNone)
            == if x == ProcessChecking then true else if x == ProcessNone then false
               else Told(s.g.doSleep, s.d.queue, ProcessChecking, ProcessNone)
    ensures Told(s.p.doSleep, s.d.Post(x).queue, GamespyChecking, GamespyNone)
            == if x == GamespyChecking then true else if x == GamespyNone then false
               else Told(s.p.doSleep, s.d.queue, GamespyChecking, GamespyNone)
  {
    ToldPosted(s.g.doSleep, s.d.queue, x, ProcessChecking, ProcessNone);
    ToldPosted(s.p.doSleep, s.d.queue, x, GamespyChecking, GamespyNone);
  }

  /** Each watchdog will be asleep, once the queue is empty, exactly while the other's last
      state message says it is checking; a watchdog that has left says it is not. */
  predicate Aligned(s: State) {
    && Told(s.g.doSleep, s.d.queue, ProcessChecking, ProcessNone) == s.p.showing
    && Told(s.p.doSleep, s.d.queue, GamespyChecking, GamespyNone) == s.g.showing
    && (s.p.pc == PExited ==> !s.p.showing)
    && (s.g.pc == GExited ==> !s.g.showing)
  }

  lemma ProcessStepAligned(s: State)
    requires Aligned(s)
    ensures Aligned(ProcessNext(s))
  {
    hide Told;
    match s.p.pc
    case PPostChecking => PostTold(s, ProcessChecking);
    case PPostRestart => PostTold(s, RestartedProcess);
    case PPostNone => PostTold(s, ProcessNone);
    case PLeaving => PostTold(s, ProcessNone);
    case _ =>
  }

  lemma GamespyStepAligned(s: State, answered: bool, limit: nat)
    requires Aligned(s)
    ensures Aligned(GamespyNext(s, answered, limit))
  {
    hide Told, GamespyNext;
    GamespyTalks(s, answered, limit);
    var m := GamespySays(s.g.pc);
    if m.Some? { PostTold(s, m.value); }
  }

  lemma UiStepAligned(s: State)
    requires Aligned(s)
    ensures Aligned(UiNext(s))
  {
  }

  lemma {:induction false} SleepIsAligned(s: State, actions: seq<Action>, limit: nat)
    requires Initial(s) || Aligned(s)
    ensures Aligned(Run(s, actions, limit))
    decreases |actions|
  {
    hide ProcessNext, GamespyNext, UiNext;
    if actions != [] {
      match actions[0] {
        case ProcessStep => ProcessStepAligned(s);
        case GamespyStep(answered) => GamespyStepAligned(s, answered, limit);
        case UiStep => UiStepAligned(s);
        case _ =>
      }
      SleepIsAligned(Next(s, actions[0], limit), actions[1..], limit);
    }
  }

  /** A watchdog whose partner has left, with no message outstanding, is awake. */
  lemma LeavingWakesTheOther(s: State, actions: seq<Action>, limit: nat)
    requires Initial(s)
    ensures var r := Run(s, actions, limit);
            r.d.queue == [] ==> (r.p.pc == PExited ==> !r.g.doSleep) && (r.g.pc == GExited ==> !r.p.doSleep)
  {
    SleepIsAligned(s, actions, limit);
  }

  /** Both watchdogs asleep, each waiting for the other's next message. */
  predicate BothAsleep(s: State) {
    && s.p.doSleep && s.g.doSleep && s.d.queue == []
    && s.p.running && s.g.running
    && s.p.pc in {PTop, PSleep} && s.g.pc in {GTop, GEnd}
  }

  /** At rest, with both threads running, the watchdogs are asleep exactly when each one's last
      state message says it is checking. */
  lemma AsleepWhenBothCheck(s: State, actions: seq<Action>, limit: nat)
    requires Initial(s)
    ensures var r := Run(s, actions, limit);
            r.d.queue == [] && r.p.running && r.g.running && r.p.pc in {PTop, PSleep} && r.g.pc in {GTop, GEnd} ==>
            (BothAsleep(r) <==> r.p.showing && r.g.showing)
  {
    SleepIsAligned(s, actions, limit);
  }

  lemma StaysAsleep(s: State, a: Action, limit: nat)
    requires BothAsleep(s) && a != StopProcess && a != StopGamespy
    ensures var r := Next(s, a, limit);
            BothAsleep(r) && r.p.restarts == s.p.restarts && r.g.restarts == s.g.restarts
  {
  }

  /** Nobody watches any more: as long as neither thread is stopped, whatever happens to the
      server, the watchdogs stay asleep and never restart it. */
  lemma {:induction false} AsleepForGood(s: State, actions: seq<Action>, limit: nat)
    requires BothAsleep(s) && StopProcess !in actions && StopGamespy !in actions
    ensures var r := Run(s, actions, limit);
            BothAsleep(r) && r.p.restarts == s.p.restarts && r.g.restarts == s.g.restarts
    decreases |actions|
  {
    hide Next, BothAsleep;
    if actions != [] {
      StaysAsleep(s, actions[0], limit);
      AsleepForGood(Next(s, actions[0], limit), actions[1..], limit);
    }
  }

  lemma {:induction false} RunThen(s: State, actions: seq<Action>, a: Action, limit: nat)
    ensures Run(s, actions + [a], limit) == Next(Run(s, actions, limit), a, limit)
    decreases |actions|
  {
    hide Next;
    if actions == [] {
      assert [] + [a] == [a];
    } else {
      assert (actions + [a])[1..] == actions[1..] + [a];
      RunThen(Next(s, actions[0], limit), actions[1..], a, limit);
    }
  }

  lemma Then(s: State, actions: seq<Action>, a: Action, limit: nat) returns (longer: seq<Action>)
    ensures longer == actions + [a] && Run(s, longer, limit) == Next(Run(s, actions, limit), a, limit)
  {
    longer := actions + [a];
    RunThen(s, actions, a, limit);
  }

  /** Both watchdogs say they are checking before the dialog hears either of them. */
  lemma BothStartChecking(s: State, limit: nat) returns (actions: seq<Action>)
    requires Initial(s) && s.p.running && s.g.running
    ensures var r := Run(s, actions, limit);
            && r.p == s.p.(pc := PCheck, showing := true, doSleep := true)
            && r.g == s.g.(pc := GPoll, episode := Waiting, retries := 0, showing := true, doSleep := true)
            && r.d.queue == [] && !r.active
  {
    assert Run(s, [], limit) == s;
    hide Run;
    actions := Then(s, [], ServerDies, limit);
    actions := Then(s, actions, GamespyStep(false), limit);
    actions := Then(s, actions, GamespyStep(false), limit);
    actions := Then(s, actions, ProcessStep, limit);
    actions := Then(s, actions, ProcessStep, limit);
    actions := Then(s, actions, UiStep, limit);
    actions := Then(s, actions, UiStep, limit);
  }

  /** The process watchdog restarts the server and goes round without saying it is done. */
  lemma ProcessRestarts(s: State, before: seq<Action>, limit: nat) returns (actions: seq<Action>)
    requires var b := Run(s, before, limit); b.p.pc == PCheck && b.d.queue == [] && !b.active
    ensures var b, r := Run(s, before, limit), Run(s, actions, limit);
            && r.p == b.p.(pc := PSleep, restarts := b.p.restarts + 1) && r.g == b.g
            && r.d.queue == [] && r.active
  {
    hide Run;
    actions := Then(s, before, ProcessStep, limit);
    actions := Then(s, actions, ProcessStep, limit);
    actions := Then(s, actions, ProcessStep, limit);
    actions := Then(s, actions, UiStep, limit);
  }

  lemma GamespyKills(s: State, before: seq<Action>, limit: nat) returns (actions: seq<Action>)
    requires var b := Run(s, before, limit); b.g.pc == GCheck && b.d.queue == [] && b.active
    ensures var b, r := Run(s, before, limit), Run(s, actions, limit);
            r.p == b.p && r.g.pc == GEnd && r.g.doSleep == b.g.doSleep && r.g.running == b.g.running && r.d.queue == []
  {
    hide Run;
    actions := Then(s, before, GamespyStep(false), limit);
    actions := Then(s, actions, GamespyStep(false), limit);
    actions := Then(s, actions, GamespyStep(false), limit);
    actions := Then(s, actions, GamespyStep(false), limit);
    actions := Then(s, actions, UiStep, limit);
  }

  /** The gamespy watchdog gets no answer and goes round, killing and restarting on the way
      when it has no retries at all. */
  lemma GamespyGoesRound(s: State, before: seq<Action>, limit: nat) returns (actions: seq<Action>)
    requires var b := Run(s, before, limit);
             b.g.pc == GPoll && b.g.episode == Waiting && b.g.retries == 0 && b.d.queue == [] && b.active
    ensures var b, r := Run(s, before, limit), Run(s, actions, limit);
            r.p == b.p && r.g.pc == GEnd && r.g.doSleep == b.g.doSleep && r.g.running == b.g.running && r.d.queue == []
  {
    hide Run;
    actions := Then(s, before, GamespyStep(false), limit);
    actions := Then(s, actions, GamespyStep(false), limit);
    if limit == 0 { actions := GamespyKills(s, actions, limit); }
  }

  /** From every start of both watchdogs, with every retry limit, some run ends there. */
  lemma BothCanFallAsleep(s: State, limit: nat) returns (actions: seq<Action>)
    requires Initial(s) && s.p.running && s.g.running
    ensures BothAsleep(Run(s, actions, limit))
  {
    hide Run;
    actions := BothStartChecking(s, limit);
    actions := ProcessRestarts(s, actions, limit);
    actions := GamespyGoesRound(s, actions, limit);
  }
}
