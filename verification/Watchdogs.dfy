/** The launcher's two watchdog threads and the dialog's message queue, as interleaved steps. */
module Watchdogs {
  import opened Wrappers

  datatype Msg =
    | ProcessChecking | ProcessNone | GamespyChecking | GamespyNone
    | RestartedProcess | RestartedGamespy | RestartedLockup

  /** Where watchdogProcessThread stands. */
  datatype ProcessPc =
    | PTop | PPostChecking | PCheck | PStart | PPostRestart | PPostNone | PSleep | PLeaving | PExited

  /** Where watchdogGamespyThread stands. */
  datatype GamespyPc =
    | GTop | GPostChecking | GPoll | GPostNone | GDecide | GCheck | GKill | GPostLockup | GPostRestart | GStart
    | GEnd | GLeaving | GExited

  /** The variable watchdogState. */
  datatype Episode = Idle | Waiting | Restarting

  /** What the gamespy watchdog does to the server. */
  datatype Note = Poll(answered: bool) | Restart

  /** The process watchdog and its shared flags; `restarts` and `showing`, the state it posted
      last, are history. */
  datatype ProcessDog = ProcessDog(pc: ProcessPc, running: bool, doSleep: bool, restarts: nat, showing: bool)

  /** The gamespy watchdog, its shared flags and its history. */
  datatype GamespyDog = GamespyDog(pc: GamespyPc, running: bool, doSleep: bool, episode: Episode, retries: int,
                                   restarts: nat, kills: nat, showing: bool, log: seq<Note>)

  /** The message queue and the counters of the dialog. */
  datatype Dialog = Dialog(queue: seq<Msg>, crashesProcess: nat, crashesGamespy: nat, lockups: nat)
  {
    /** PostMessage */
    function Post(m: Msg): Dialog { this.(queue := queue + [m]) }
  }

  datatype State = State(p: ProcessDog, g: GamespyDog, d: Dialog, active: bool)

  datatype Action =
    | ProcessStep
    | GamespyStep(answered: bool)   // whether the server answers, if this step is a poll
    | UiStep
    | ServerDies
    | ServerUp
    | StopProcess
    | StopGamespy

  /** One step of the process watchdog. */
  function ProcessNext(s: State): (r: State) {
    var p := s.p;
    match p.pc
    case PTop => s.(p := p.(pc := if p.doSleep then PSleep else PPostChecking))
    case PPostChecking => s.(p := p.(pc := PCheck, showing := true), d := s.d.Post(ProcessChecking))
    case PCheck => s.(p := p.(pc := if s.active then PPostNone else PStart))
    case PStart => s.(p := p.(pc := PPostRestart, restarts := p.restarts + 1), active := true)
    case PPostRestart => s.(p := p.(pc := PSleep), d := s.d.Post(RestartedProcess))
    case PPostNone => s.(p := p.(pc := PSleep, showing := false), d := s.d.Post(ProcessNone))
    case PSleep => s.(p := p.(pc := if p.running then PTop else PLeaving))
    case PLeaving => s.(p := p.(pc := PExited, showing := false), d := s.d.Post(ProcessNone))
    case PExited => s
  }

  /** One step of the gamespy watchdog with retry limit `limit`. */
  function GamespyNext(s: State, answered: bool, limit: nat): (r: State) {
    var g := s.g;
    match g.pc
    case GTop => s.(g := g.(pc := if g.doSleep then GEnd else if g.episode == Idle then GPostChecking else GPoll))
    case GPostChecking =>
      s.(g := g.(pc := GPoll, episode := Waiting, retries := 0, showing := true), d := s.d.Post(GamespyChecking))
    case GPoll =>
      var log := g.log + [Poll(answered)];
      s.(g := if answered then g.(pc := GPostNone, episode := Idle, log := log)
              else g.(pc := GDecide, retries := g.retries + 1, log := log))
    case GPostNone => s.(g := g.(pc := GDecide, retries := 0, showing := false), d := s.d.Post(GamespyNone))
    case GDecide =>
      s.(g := if g.retries > limit && g.episode != Restarting then g.(pc := GCheck, episode := Restarting)
              else g.(pc := GEnd))
    case GCheck => s.(g := g.(pc := if s.active then GKill else GPostRestart))
    case GKill => s.(g := g.(pc := GPostLockup, kills := g.kills + 1), active := false)
    case GPostLockup => s.(g := g.(pc := GStart), d := s.d.Post(RestartedLockup))
    case GPostRestart => s.(g := g.(pc := GStart), d := s.d.Post(RestartedGamespy))
    case GStart => s.(g := g.(pc := GEnd, restarts := g.restarts + 1, log := g.log + [Restart]), active := true)
    case GEnd => s.(g := g.(pc := if g.running then GTop else GLeaving))
    case GLeaving => s.(g := g.(pc := GExited, showing := false), d := s.d.Post(GamespyNone))
    case GExited => s
  }

  /** The dialog handles the oldest message. */
  function UiNext(s: State): (r: State) {
    if s.d.queue == [] then s
    else
      var d := s.d.(queue := s.d.queue[1..]);
      match s.d.queue[0]
      case RestartedProcess => s.(d := d.(crashesProcess := d.crashesProcess + 1))
      case RestartedGamespy => s.(d := d.(crashesGamespy := d.crashesGamespy + 1))
      case RestartedLockup => s.(d := d.(lockups := d.lockups + 1))
      case ProcessChecking => s.(d := d, g := s.g.(doSleep := true))
      case ProcessNone => s.(d := d, g := s.g.(doSleep := false))
      case GamespyChecking => s.(d := d, p := s.p.(doSleep := true))
      case GamespyNone => s.(d := d, p := s.p.(doSleep := false))
  }

  function Next(s: State, a: Action, limit: nat): (r: State) {
    match a
    case ProcessStep => ProcessNext(s)
    case GamespyStep(answered) => GamespyNext(s, answered, limit)
    case UiStep => UiNext(s)
    case ServerDies => s.(active := false)
    case ServerUp => s.(active := true)
    case StopProcess => s.(p := s.p.(running := false))
    case StopGamespy => s.(g := s.g.(running := false))
  }

  /** The state after the actions, in any interleaving. */
  function Run(s: State, actions: seq<Action>, limit: nat): (r: State)
    decreases |actions|
  {
    if actions == [] then s else Run(Next(s, actions[0], limit), actions[1..], limit)
  }

  /** The dialog has just started the watchdogs it was asked to start. */
  predicate Initial(s: State) {
    && s.p == ProcessDog(if s.p.running then PTop else PExited, s.p.running, false, 0, false)
    && s.g == GamespyDog(if s.g.running then GTop else GExited, s.g.running, false, Idle, s.g.retries, 0, 0, false, [])
    && s.d == Dialog([], 0, 0, 0)
  }

  // ---- restarts and counters

  function Count(q: seq<Msg>, m: Msg): (n: nat) {
    if q == [] then 0 else (if q[0] == m then 1 else 0) + Count(q[1..], m)
  }

  lemma {:induction false} CountPosted(q: seq<Msg>, x: Msg, m: Msg)
    ensures Count(q + [x], m) == Count(q, m) + if x == m then 1 else 0
  {
    if q == [] { assert q + [x] == [x]; }
    else {
      assert (q + [x])[1..] == q[1..] + [x];
      CountPosted(q[1..], x, m);
    }
  }

  lemma PostCounts(d: Dialog, x: Msg)
    ensures Count(d.Post(x).queue, RestartedProcess)
         == Count(d.queue, RestartedProcess) + if x == RestartedProcess then 1 else 0
    ensures Count(d.Post(x).queue, RestartedGamespy)
         == Count(d.queue, RestartedGamespy) + if x == RestartedGamespy then 1 else 0
    ensures Count(d.Post(x).queue, RestartedLockup)
         == Count(d.queue, RestartedLockup) + if x == RestartedLockup then 1 else 0
  {
    CountPosted(d.queue, x, RestartedProcess);
    CountPosted(d.queue, x, RestartedGamespy);
    CountPosted(d.queue, x, RestartedLockup);
  }

  lemma CountFirst(q: seq<Msg>, m: Msg)
    requires q != []
    ensures Count(q, m) == (if q[0] == m then 1 else 0) + Count(q[1..], m)
  {
  }

  /** The process watchdog restarts before it posts, so it may be one ahead of the dialog. */
  predicate ProcessAccounted(p: ProcessDog, d: Dialog) {
    p.restarts == d.crashesProcess + Count(d.queue, RestartedProcess) + (if p.pc == PPostRestart then 1 else 0)
  }

  /** The gamespy watchdog posts before it restarts, so it may be one behind; it kills before
      it posts a lockup. */
  predicate GamespyAccounted(g: GamespyDog, d: Dialog) {
    && g.restarts + (if g.pc == GStart then 1 else 0)
       == d.crashesGamespy + d.lockups + Count(d.queue, RestartedGamespy) + Count(d.queue, RestartedLockup)
    && g.kills == d.lockups + Count(d.queue, RestartedLockup) + (if g.pc == GPostLockup then 1 else 0)
  }

  predicate Accounted(s: State) {
    ProcessAccounted(s.p, s.d) && GamespyAccounted(s.g, s.d)
  }

  lemma ProcessStepAccounted(s: State)
    requires Accounted(s)
    ensures Accounted(ProcessNext(s))
  {
    hide Count;
    match s.p.pc
    case PPostChecking => PostCounts(s.d, ProcessChecking);
    case PPostRestart => PostCounts(s.d, RestartedProcess);
    case PPostNone => PostCounts(s.d, ProcessNone);
    case PLeaving => PostCounts(s.d, ProcessNone);
    case _ =>
  }

  /** The message that the gamespy watchdog posts in its next step. */
  function GamespySays(pc: GamespyPc): (m: Option<Msg>) {
    match pc
    case GPostChecking => Some(GamespyChecking)
    case GPostNone => Some(GamespyNone)
    case GPostLockup => Some(RestartedLockup)
    case GPostRestart => Some(RestartedGamespy)
    case GLeaving => Some(GamespyNone)
    case _ => None
  }

  lemma GamespyTalks(s: State, answered: bool, limit: nat)
    ensures var r, m := GamespyNext(s, answered, limit), GamespySays(s.g.pc);
            && r.p == s.p && r.g.doSleep == s.g.doSleep
            && r.d == (if m.Some? then s.d.Post(m.value) else s.d)
            && r.g.showing == (if m == Some(GamespyChecking) then true else m != Some(GamespyNone) && s.g.showing)
            && (r.g.pc == GExited <==> s.g.pc in {GLeaving, GExited})
  {
  }

  lemma GamespyCounts(s: State, answered: bool, limit: nat)
    ensures var r := GamespyNext(s, answered, limit);
            && r.g.restarts == s.g.restarts + (if s.g.pc == GStart then 1 else 0)
            && r.g.kills == s.g.kills + (if s.g.pc == GKill then 1 else 0)
            && (r.g.pc == GStart <==> s.g.pc in {GPostLockup, GPostRestart})
            && (r.g.pc == GPostLockup <==> s.g.pc == GKill)
  {
  }

  lemma GamespyStepAccounted(s: State, answered: bool, limit: nat)
    requires Accounted(s)
    ensures Accounted(GamespyNext(s, answered, limit))
  {
    hide Count, GamespyNext;
    GamespyTalks(s, answered, limit);
    GamespyCounts(s, answered, limit);
    var m := GamespySays(s.g.pc);
    if m.Some? { PostCounts(s.d, m.value); }
  }

  lemma UiStepAccounted(s: State)
    requires Accounted(s)
    ensures Accounted(UiNext(s))
  {
    hide Count;
    if s.d.queue != [] {
      CountFirst(s.d.queue, RestartedProcess);
      CountFirst(s.d.queue, RestartedGamespy);
      CountFirst(s.d.queue, RestartedLockup);
    }
  }

  /** In every interleaving of both threads, the dialog and the server, every restart is
      counted in the dialog or on its way there, up to the two one-step windows. */
  lemma {:induction false} RestartsAccounted(s: State, actions: seq<Action>, limit: nat)
    requires Initial(s) || Accounted(s)
    ensures Accounted(Run(s, actions, limit))
    decreases |actions|
  {
    hide ProcessNext, GamespyNext, UiNext;
    if actions != [] {
      match actions[0] {
        case ProcessStep => ProcessStepAccounted(s);
        case GamespyStep(answered) => GamespyStepAccounted(s, answered, limit);
        case UiStep => UiStepAccounted(s);
        case _ =>
      }
      RestartsAccounted(Next(s, actions[0], limit), actions[1..], limit);
    }
  }

  // ---- restarts and their causes

  /** How often the server died by itself. */
  function Deaths(actions: seq<Action>): (n: nat) {
    if actions == [] then 0 else (if actions[0] == ServerDies then 1 else 0) + Deaths(actions[1..])
  }

  /** Restarts of the process watchdog, with one that it is about to do. */
  function ProcessRestarts(p: ProcessDog): (n: nat) { p.restarts + if p.pc == PStart then 1 else 0 }

  /** Restarts of the gamespy watchdog without a kill, with one that it is about to do. */
  function CrashRestarts(g: GamespyDog): (n: int) {
    g.restarts - g.kills + if g.pc in {GPostLockup, GPostRestart, GStart} then 1 else 0
  }

  /** Each restart has a cause of its own: the server was down at first, has died, or the gamespy
      watchdog has killed it. While it is down and nobody is restarting it, a cause is left over. */
  predicate Caused(s: State, down: nat) {
    && ProcessRestarts(s.p) + (if s.active || s.p.pc == PStart then 0 else 1) <= down + s.g.kills
    && CrashRestarts(s.g) + (if s.active || s.g.pc in {GPostLockup, GPostRestart, GStart} then 0 else 1) <= down
  }

  lemma ProcessStepCaused(s: State, down: nat)
    requires Caused(s, down)
    ensures Caused(ProcessNext(s), down)
  {
  }

  lemma GamespyLocal(s: State, answered: bool, limit: nat)
    ensures var r, pc := GamespyNext(s, answered, limit), s.g.pc; var busy := {GPostLockup, GPostRestart, GStart};
            && r.p == s.p && r.active == (if pc == GKill then false else pc == GStart || s.active)
            && (r.g.pc in busy <==> pc in {GKill, GPostLockup, GPostRestart} || (pc == GCheck && !s.active))
            && (pc == GKill ==> r.g.pc == GPostLockup)
  {
  }

  lemma GamespyStepCaused(s: State, answered: bool, limit: nat, down: nat)
    requires Caused(s, down)
    ensures Caused(GamespyNext(s, answered, limit), down)
  {
    hide GamespyNext;
    GamespyLocal(s, answered, limit);
    GamespyCounts(s, answered, limit);
  }

  lemma UiStepLocal(s: State)
    ensures var r := UiNext(s);
            && r.active == s.active && r.p == s.p.(doSleep := r.p.doSleep) && r.g == s.g.(doSleep := r.g.doSleep)
  {
  }

  lemma StepCaused(s: State, a: Action, limit: nat, down: nat)
    requires Caused(s, down)
    ensures Caused(Next(s, a, limit), down + if a == ServerDies then 1 else 0)
  {
    hide ProcessNext, GamespyNext, UiNext;
    match a
    case ProcessStep => ProcessStepCaused(s, down);
    case GamespyStep(answered) => GamespyStepCaused(s, answered, limit, down);
    case UiStep => UiStepLocal(s);
    case _ =>
  }

  lemma {:induction false} RunCaused(s: State, actions: seq<Action>, limit: nat, down: nat)
    requires Caused(s, down)
    ensures Caused(Run(s, actions, limit), down + Deaths(actions))
    decreases |actions|
  {
    hide Caused, Next;
    if actions != [] {
      StepCaused(s, actions[0], limit, down);
      RunCaused(Next(s, actions[0], limit), actions[1..], limit, down + if actions[0] == ServerDies then 1 else 0);
    }
  }

  /** In every interleaving a watchdog only restarts a server that was down: the process watchdog
      restarts it no more often than it was down at first, has died, or was killed by the gamespy
      watchdog, and that one restarts it without a kill no more often than it was down or has died. */
  lemma RestartsHaveCauses(s: State, actions: seq<Action>, limit: nat)
    requires Initial(s)
    ensures var r := Run(s, actions, limit); var down := (if s.active then 0 else 1) + Deaths(actions);
            ProcessRestarts(r.p) <= down + r.g.kills && CrashRestarts(r.g) <= down
  {
    hide Run;
    RunCaused(s, actions, limit, if s.active then 0 else 1);
  }

  lemma {:induction false} NoDeaths(actions: seq<Action>)
    requires ServerDies !in actions
    ensures Deaths(actions) == 0
  {
    if actions != [] { NoDeaths(actions[1..]); }
  }

  /** A server that is up and never dies is restarted by nobody but a gamespy watchdog that has
      killed it first. */
  lemma HealthyServerStaysUp(s: State, actions: seq<Action>, limit: nat)
    requires Initial(s) && s.active && ServerDies !in actions
    ensures var r := Run(s, actions, limit);
            && (r.g.kills == 0 ==> r.p.restarts == 0)
            && r.g.restarts <= r.g.kills
  {
    hide Run;
    NoDeaths(actions);
    RestartsHaveCauses(s, actions, limit);
  }

  // ---- leaving

  /** Steps that the process watchdog still makes once it has been told to stop. */
  function ProcessStepsLeft(pc: ProcessPc): (n: nat) {
    match pc
    case PTop => 7
    case PPostChecking => 6
    case PCheck => 5
    case PStart => 4
    case PPostRestart => 3
    case PPostNone => 3
    case PSleep => 2
    case PLeaving => 1
    case PExited => 0
  }

  function GamespyStepsLeft(pc: GamespyPc): (n: nat) {
    match pc
    case GTop => 11
    case GPostChecking => 10
    case GPoll => 9
    case GPostNone => 8
    case GDecide => 7
    case GCheck => 6
    case GKill => 5
    case GPostLockup => 4
    case GPostRestart => 4
    case GStart => 3
    case GEnd => 2
    case GLeaving => 1
    case GExited => 0
  }

  function ProcessSteps(actions: seq<Action>): (n: nat) {
    if actions == [] then 0 else (if actions[0] == ProcessStep then 1 else 0) + ProcessSteps(actions[1..])
  }

  function GamespySteps(actions: seq<Action>): (n: nat) {
    if actions == [] then 0 else (if actions[0].GamespyStep? then 1 else 0) + GamespySteps(actions[1..])
  }

  lemma ProcessLeaves(s: State)
    requires !s.p.running
    ensures var r := ProcessNext(s);
            && r.g == s.g && !r.p.running
            && (s.p.pc == PExited || ProcessStepsLeft(r.p.pc) < ProcessStepsLeft(s.p.pc))
  {
  }

  lemma GamespyLeaves(s: State, answered: bool, limit: nat)
    requires !s.g.running
    ensures var r := GamespyNext(s, answered, limit);
            && r.p == s.p && !r.g.running
            && (s.g.pc == GExited || GamespyStepsLeft(r.g.pc) < GamespyStepsLeft(s.g.pc))
  {
  }

  lemma ProcessStepAlone(s: State)
    ensures ProcessNext(s).g == s.g
  {
  }

  lemma Exited(s: State)
    ensures s.p.pc == PExited ==> ProcessNext(s) == s
  {
  }

  lemma GamespyExited(s: State, answered: bool, limit: nat)
    ensures s.g.pc == GExited ==> GamespyNext(s, answered, limit) == s
  {
  }

  lemma StepLeaves(s: State, a: Action, limit: nat)
    ensures var r := Next(s, a, limit);
            && (!s.p.running ==>
                  && !r.p.running && ProcessStepsLeft(r.p.pc) <= ProcessStepsLeft(s.p.pc)
                  && (a == ProcessStep && s.p.pc != PExited ==> ProcessStepsLeft(r.p.pc) < ProcessStepsLeft(s.p.pc)))
            && (!s.g.running ==>
                  && !r.g.running && GamespyStepsLeft(r.g.pc) <= GamespyStepsLeft(s.g.pc)
                  && (a.GamespyStep? && s.g.pc != GExited ==> GamespyStepsLeft(r.g.pc) < GamespyStepsLeft(s.g.pc)))
  {
    hide UiNext, ProcessNext, GamespyNext, ProcessStepsLeft, GamespyStepsLeft;
    match a
    case ProcessStep =>
      ProcessStepAlone(s);
      if !s.p.running { ProcessLeaves(s); Exited(s); }
    case GamespyStep(answered) =>
      GamespyLocal(s, answered, limit);
      if !s.g.running { GamespyLeaves(s, answered, limit); GamespyExited(s, answered, limit); }
    case UiStep => UiStepLocal(s);
    case _ =>
  }

  /** In every interleaving a thread that has been told to stop leaves: the process watchdog after at
      most 7 more steps of its own, the gamespy watchdog after at most 11. */
  lemma {:induction false} StoppedThreadsLeave(s: State, actions: seq<Action>, limit: nat)
    ensures var r := Run(s, actions, limit);
            && (!s.p.running && ProcessSteps(actions) >= ProcessStepsLeft(s.p.pc) ==> r.p.pc == PExited)
            && (!s.g.running && GamespySteps(actions) >= GamespyStepsLeft(s.g.pc) ==> r.g.pc == GExited)
    decreases |actions|
  {
    hide Next;
    if actions != [] {
      StepLeaves(s, actions[0], limit);
      StoppedThreadsLeave(Next(s, actions[0], limit), actions[1..], limit);
    }
  }
}
