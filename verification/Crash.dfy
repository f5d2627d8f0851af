/**
 Crash detection: `SetState` (environment/winproc/environment.go), `OnStateChange`
 (server/server.go) and `handleServerCrash` (server/crash.go), driven by the state
 changes of `Start`, `Stop`, `Terminate`, `Destroy` and `wait`. Every state change
 is handled, crash handler included, before the next one happens; the daemon itself
 runs a goroutine per event.
 */
module Crash {

  datatype Option<T> = None | Some(value: T)

  type Time = int

  datatype ProcessState = Offline | Starting | Running | Stopping

  datatype Config = Config(enabled: bool, cleanExitIsCrash: bool, timeout: nat)

  /** `tracked` is resources.State; `handled` counts calls of the crash handler; `restarts` are its automatic restarts. */
  datatype View = View(
    state: ProcessState, tracked: ProcessState, lastExit: nat,
    lastCrash: Option<Time>, handled: nat, restarts: seq<Time>)

  /** The two clock readings of a crash handler that may run: at the test and at the stamp. */
  datatype Clock = Clock(test: Time, stamp: Time)

  predicate Online(s: ProcessState) {
    s == Starting || s == Running
  }

  /** An automatic restart is due: offline, enabled, not a clean exit unless those count, and the last one long enough ago. */
  predicate RestartDue(cfg: Config, state: ProcessState, lastExit: nat, lastCrash: Option<Time>, now: Time) {
    && state == Offline && cfg.enabled
    && (lastExit != 0 || cfg.cleanExitIsCrash)
    && (cfg.timeout == 0 || lastCrash.None? || lastCrash.value + cfg.timeout <= now)
  }

  /** The automatic restart, if any, that follows when the state has become `v.state`. */
  function Restart(v: View, cfg: Config, clock: Clock): seq<Time> {
    if Online(v.tracked) && RestartDue(cfg, v.state, v.lastExit, v.lastCrash, clock.test) then [clock.stamp] else []
  }

  /** What a state change means for the server. */
  function Set(v: View, s: ProcessState, cfg: Config, clock: Clock): View {
    if v.state == s then v
    else
      var restart := Restart(v.(state := s), cfg, clock);
      View(s, s, v.lastExit, if restart == [] then v.lastCrash else Some(clock.stamp),
           v.handled + (if Online(v.tracked) && s == Offline then 1 else 0), v.restarts + restart)
  }

  // ---------------------------------------------------------------------
  // The code
  // ---------------------------------------------------------------------

  class Server {
    const cfg: Config
    var state: ProcessState
    var tracked: ProcessState
    var lastExit: nat
    var lastCrash: Option<Time>
    var handled: nat
    var restarts: seq<Time>

    constructor (cfg: Config)
      ensures this.cfg == cfg && Now() == View(Offline, Offline, 0, None, 0, [])
    {
      this.cfg := cfg;
      state, tracked, lastExit, lastCrash, handled, restarts := Offline, Offline, 0, None, 0, [];
    }

    ghost function Now(): View
      reads this
    {
      View(state, tracked, lastExit, lastCrash, handled, restarts)
    }

    /** Restarts and stamps exactly when a restart is due; the restart itself is another power action. */
    method HandleServerCrash(clock: Clock)
      modifies this
      ensures state == old(state) && tracked == old(tracked) && lastExit == old(lastExit) && handled == old(handled) + 1
      ensures RestartDue(cfg, state, lastExit, old(lastCrash), clock.test) ==>
                restarts == old(restarts) + [clock.stamp] && lastCrash == Some(clock.stamp)
      ensures !RestartDue(cfg, state, lastExit, old(lastCrash), clock.test) ==>
                restarts == old(restarts) && lastCrash == old(lastCrash)
    {
      handled := handled + 1;
      if state != Offline || !cfg.enabled {
        return;
      }
      if lastExit == 0 && !cfg.cleanExitIsCrash {
        return;
      }
      if cfg.timeout != 0 && lastCrash.Some? && lastCrash.value + cfg.timeout > clock.test {
        return;
      }
      lastCrash := Some(clock.stamp);
      restarts := restarts + [clock.stamp];
    }

    /** Afterwards the tracked state is the current one; the handler ran exactly on the way from online to offline. */
    method OnStateChange(clock: Clock)
      modifies this
      ensures tracked == state == old(state) && lastExit == old(lastExit)
      ensures handled == old(handled) + if Online(old(tracked)) && state == Offline then 1 else 0
      ensures restarts == old(restarts) + Restart(old(Now()).(state := state), cfg, clock)
      ensures lastCrash == if restarts == old(restarts) then old(lastCrash) else Some(clock.stamp)
    {
      var prev := tracked;
      tracked := state;
      if (prev == Starting || prev == Running) && state == Offline {
        HandleServerCrash(clock);
      }
    }

    /** Setting the current state again is not noticed; any other state becomes the current and the tracked one. */
    method SetState(s: ProcessState, clock: Clock)
      modifies this
      ensures state == s && lastExit == old(lastExit)
      ensures old(state) == s ==> Now() == old(Now())
      ensures old(state) != s ==>
                && tracked == s
                && handled == old(handled) + (if Online(old(tracked)) && s == Offline then 1 else 0)
                && restarts == old(restarts) + Restart(old(Now()).(state := s), cfg, clock)
                && lastCrash == if restarts == old(restarts) then old(lastCrash) else Some(clock.stamp)
    {
      if state != s {
        state := s;
        OnStateChange(clock);
      }
    }

    /** Going offline by way of stopping never reaches the crash handler from a settled state. */
    method PassThroughStopping(clock: Clock)
      modifies this
      ensures Now() == Set(Set(old(Now()), Stopping, cfg, clock), Offline, cfg, clock)
      ensures old(tracked) == old(state) ==> handled == old(handled) && restarts == old(restarts)
    {
      SetState(Stopping, clock);
      SetState(Offline, clock);
    }

    /** The state changes of one operation. */
    method Perform(e: Event, clock: Clock)
      modifies this
      ensures Now() == After(old(Now()), e, cfg, clock)
    {
      hide Restart;
      match e
      case Started =>
        SetState(Starting, clock);
      case FoundRunning =>
        SetState(Running, clock);
      case StartFailed =>
        SetState(Starting, clock);
        PassThroughStopping(clock);
      case MarkedRunning =>
        if state == Starting {
          SetState(Running, clock);
        }
      case StopRequested =>
        if state != Offline {
          SetState(Stopping, clock);
        }
      case Terminated(alive) =>
        if alive {
          SetState(Stopping, clock);
        } else if state != Offline {
          PassThroughStopping(clock);
        }
      case Destroyed =>
        PassThroughStopping(clock);
      case StopEchoed =>
        if state == Starting || state == Running {
          SetState(Offline, clock);
        }
      case Exited(code) =>
        lastExit := code;
        SetState(Offline, clock);
    }
  }

  // ---------------------------------------------------------------------
  // Runs
  // ---------------------------------------------------------------------

  datatype Event =
    | Started
    | FoundRunning                 // Start called while a process is alive
    | StartFailed
    | MarkedRunning                // the console shows the start-completion line
    | StopRequested
    | Terminated(alive: bool)
    | Destroyed
    | StopEchoed                   // the process prints the stop command itself
    | Exited(code: nat)            // wait() has reaped the process

  /** The state changes of one operation, in its own order. */
  function After(v: View, e: Event, cfg: Config, clock: Clock): View {
    match e
    case Started => Set(v, Starting, cfg, clock)
    case FoundRunning => Set(v, Running, cfg, clock)
    case StartFailed => Set(Set(Set(v, Starting, cfg, clock), Stopping, cfg, clock), Offline, cfg, clock)
    case MarkedRunning => if v.state == Starting then Set(v, Running, cfg, clock) else v
    case StopRequested => if v.state != Offline then Set(v, Stopping, cfg, clock) else v
    case Terminated(alive) =>
      if alive then Set(v, Stopping, cfg, clock)
      else if v.state != Offline then Set(Set(v, Stopping, cfg, clock), Offline, cfg, clock)
      else v
    case Destroyed => Set(Set(v, Stopping, cfg, clock), Offline, cfg, clock)
    case StopEchoed => if Online(v.state) then Set(v, Offline, cfg, clock) else v
    case Exited(code) => Set(v.(lastExit := code), Offline, cfg, clock)
  }

  const Initial: View := View(Offline, Offline, 0, None, 0, [])

  function Run(evs: seq<(Event, Clock)>, cfg: Config): View {
    if evs == [] then Initial
    else
      var n := |evs| - 1;
      After(Run(evs[..n], cfg), evs[n].0, cfg, evs[n].1)
  }

  /** A start was the last thing that happened, the completion line aside: neither a stop nor an exit came after it. */
  function Undisturbed(evs: seq<(Event, Clock)>): bool {
    if evs == [] then false
    else
      var n := |evs| - 1;
      match evs[n].0
      case Started => true
      case FoundRunning => true
      case MarkedRunning => Undisturbed(evs[..n])
      case _ => false
  }

  /** The events that look like a crash: an exit, or the echo of the stop command, while undisturbed. */
  function Crashes(evs: seq<(Event, Clock)>): nat {
    if evs == [] then 0
    else
      var n := |evs| - 1;
      Crashes(evs[..n])
      + if (evs[n].0.Exited? || evs[n].0.StopEchoed?) && Undisturbed(evs[..n]) then 1 else 0
  }

  /** One event, seen from a state whose last change has been handled. */
  lemma EventEffect(v: View, e: Event, cfg: Config, clock: Clock)
    requires v.tracked == v.state
    ensures var v' := After(v, e, cfg, clock);
            && v'.tracked == v'.state
            && (Online(v'.state) <==>
                  e.Started? || e.FoundRunning? || (e.MarkedRunning? && Online(v.state)))
            && v'.handled == v.handled + if (e.Exited? || e.StopEchoed?) && Online(v.state) then 1 else 0
  {
  }

  /**
   The crash handler is reached exactly by exits (and stop-command echoes) that no
   stop, termination, destruction, failed start or earlier exit precedes since the
   last start. Deliberate operations themselves never reach it.
   */
  lemma {:induction false} HandlerReachedExactly(evs: seq<(Event, Clock)>, cfg: Config)
    ensures var v := Run(evs, cfg);
            v.tracked == v.state && (Online(v.state) <==> Undisturbed(evs)) && v.handled == Crashes(evs)
  {
    if evs != [] {
      hide Set, After;
      var n := |evs| - 1;
      HandlerReachedExactly(evs[..n], cfg);
      EventEffect(Run(evs[..n], cfg), evs[n].0, cfg, evs[n].1);
    }
  }

  /** After a deliberate stop, what follows cannot reach the handler until the next start. */
  lemma {:induction false} StoppedRunsAreQuiet(evs: seq<(Event, Clock)>, more: seq<(Event, Clock)>, cfg: Config)
    requires evs != []
    requires var e := evs[|evs| - 1].0; e.StopRequested? || e.Terminated? || e.Destroyed? || e.StartFailed?
    requires forall i :: 0 <= i < |more| ==> !more[i].0.Started? && !more[i].0.FoundRunning?
    ensures Run(evs + more, cfg).handled == Run(evs[..|evs| - 1], cfg).handled
  {
    HandlerReachedExactly(evs + more, cfg);
    HandlerReachedExactly(evs[..|evs| - 1], cfg);
    QuietSuffix(evs, more);
  }

  lemma {:induction false} QuietSuffix(evs: seq<(Event, Clock)>, more: seq<(Event, Clock)>)
    requires !Undisturbed(evs)
    requires forall i :: 0 <= i < |more| ==> !more[i].0.Started? && !more[i].0.FoundRunning?
    ensures !Undisturbed(evs + more) && Crashes(evs + more) == Crashes(evs)
    decreases |more|
  {
    if more == [] {
      assert evs + more == evs;
    } else {
      var n := |more| - 1;
      QuietSuffix(evs, more[..n]);
      assert (evs + more)[..|evs + more| - 1] == evs + more[..n];
    }
  }

  /**
   The restriction is needed: on a restart, `WaitForStop` returns as soon as the old
   process has exited, so its wait() can come after the new Start has announced
   itself, and the deliberate stop is then taken for a crash.
   */
  lemma {:induction false} LateExitAfterRestart(cfg: Config, c: Clock)
    ensures Run([(Started, c), (StopRequested, c), (Started, c), (Exited(1), c)], cfg).handled == 1
  {
    var evs: seq<(Event, Clock)> := [(Started, c), (StopRequested, c), (Started, c), (Exited(1), c)];
    HandlerReachedExactly(evs, cfg);
    assert evs[..3] == [(Started, c), (StopRequested, c), (Started, c)];
    assert evs[..3][..2] == [(Started, c), (StopRequested, c)];
    assert evs[..3][..2][..1] == [(Started, c)];
    assert evs[..3][..2][..1][..0] == [];
    assert Crashes(evs[..3][..2][..1]) == 0;
    assert Crashes(evs[..3][..2]) == 0;
  }

  // ---------------------------------------------------------------------
  // Automatic restarts
  // ---------------------------------------------------------------------

  /** Clock readings never go back, within an event and from one event to the next. */
  ghost predicate Monotone(evs: seq<(Event, Clock)>) {
    && (forall i :: 0 <= i < |evs| ==> evs[i].1.test <= evs[i].1.stamp)
    && (forall i, j :: 0 <= i < j < |evs| ==> evs[i].1.stamp <= evs[j].1.test)
  }

  ghost predicate Spaced(restarts: seq<Time>, gap: nat) {
    forall i, j :: 0 <= i < j < |restarts| ==> restarts[j] - restarts[i] >= gap
  }

  ghost predicate Stamped(v: View, now: Time) {
    && (v.lastCrash.Some? <==> v.restarts != [])
    && (v.restarts != [] ==> v.lastCrash == Some(v.restarts[|v.restarts| - 1]) && v.lastCrash.value <= now)
  }

  lemma RestartKeepsSpacing(v: View, v': View, cfg: Config, clock: Clock)
    requires cfg.timeout != 0 && Spaced(v.restarts, cfg.timeout) && Stamped(v, clock.test)
    requires clock.test <= clock.stamp
    requires v'.restarts == v.restarts + [clock.stamp] && v'.lastCrash == Some(clock.stamp)
    requires v.lastCrash.None? || v.lastCrash.value + cfg.timeout <= clock.test
    ensures Spaced(v'.restarts, cfg.timeout) && Stamped(v', clock.stamp)
  {
    var r := v.restarts;
    if r != [] {
      assert forall i :: 0 <= i < |r| ==> r[i] <= r[|r| - 1];
    }
  }

  /** One operation restarts the server at most once, and only when the last restart is long enough ago. */
  lemma OneRestartAtMost(v: View, e: Event, cfg: Config, clock: Clock)
    requires v.tracked == v.state
    ensures var v' := After(v, e, cfg, clock);
            || (v'.restarts == v.restarts && v'.lastCrash == v.lastCrash)
            || (&& v'.restarts == v.restarts + [clock.stamp] && v'.lastCrash == Some(clock.stamp)
                && (cfg.timeout == 0 || v.lastCrash.None? || v.lastCrash.value + cfg.timeout <= clock.test))
  {
    hide After;
    EventRestarts(v, e, cfg, clock);
  }

  /** With a nonzero timeout and a clock that never goes back, any two automatic restarts are at least the timeout apart. */
  lemma {:induction false} RestartsAreSpaced(evs: seq<(Event, Clock)>, cfg: Config)
    requires cfg.timeout != 0 && Monotone(evs)
    ensures var v := Run(evs, cfg);
            && Spaced(v.restarts, cfg.timeout)
            && (evs == [] ==> v.restarts == [])
            && (evs != [] ==> Stamped(v, evs[|evs| - 1].1.stamp))
  {
    if evs != [] {
      hide After;
      var n := |evs| - 1;
      var (e, clock) := evs[n];
      RestartsAreSpaced(evs[..n], cfg);
      HandlerReachedExactly(evs[..n], cfg);
      var v := Run(evs[..n], cfg);
      assert evs[n].1.test <= evs[n].1.stamp;
      assert n > 0 ==> evs[n - 1].1.stamp <= evs[n].1.test;
      OneRestartAtMost(v, e, cfg, clock);
      if After(v, e, cfg, clock).restarts != v.restarts {
        RestartKeepsSpacing(v, After(v, e, cfg, clock), cfg, clock);
      }
    }
  }

  // ---------------------------------------------------------------------
  // The whole history, read off the events
  // ---------------------------------------------------------------------

  /** The state a server is in after these events. */
  function StateAfter(evs: seq<(Event, Clock)>): ProcessState {
    if evs == [] then Offline
    else
      var n := |evs| - 1;
      var before := StateAfter(evs[..n]);
      match evs[n].0
      case Started => Starting
      case FoundRunning => Running
      case StartFailed => Offline
      case MarkedRunning => if before == Starting then Running else before
      case StopRequested => if before == Offline then Offline else Stopping
      case Terminated(alive) => if alive then Stopping else Offline
      case Destroyed => Offline
      case StopEchoed => if Online(before) then Offline else before
      case Exited(_) => Offline
  }

  /** The exit code of the latest exit; zero before the first. */
  function LatestCode(evs: seq<(Event, Clock)>): nat {
    if evs == [] then 0
    else
      var n := |evs| - 1;
      if evs[n].0.Exited? then evs[n].0.code else LatestCode(evs[..n])
  }

  /** The last event looks like a crash: an exit, or the echo of the stop command, while undisturbed. */
  predicate LooksLikeCrash(evs: seq<(Event, Clock)>) {
    evs != [] &&
    var n := |evs| - 1;
    (evs[n].0.Exited? || evs[n].0.StopEchoed?) && Undisturbed(evs[..n])
  }

  function Last(times: seq<Time>): Option<Time> {
    if times == [] then None else Some(times[|times| - 1])
  }

  /**
   When a restart is due: detection is enabled, there was something like a crash, the
   exit code is not zero (unless clean exits count), and the timeout is zero or the
   previous restart at least that long ago.
   */
  predicate Due(cfg: Config, crash: bool, code: nat, previous: Option<Time>, now: Time) {
    && cfg.enabled && crash
    && (code != 0 || cfg.cleanExitIsCrash)
    && (cfg.timeout == 0 || previous.None? || previous.value + cfg.timeout <= now)
  }

  /** The automatic restarts of a run. */
  function RestartTimes(evs: seq<(Event, Clock)>, cfg: Config): seq<Time> {
    if evs == [] then []
    else
      var n := |evs| - 1;
      var before, clock := RestartTimes(evs[..n], cfg), evs[n].1;
      if Due(cfg, LooksLikeCrash(evs), LatestCode(evs), Last(before), clock.test) then before + [clock.stamp] else before
  }

  lemma EventExit(v: View, e: Event, cfg: Config, clock: Clock)
    ensures After(v, e, cfg, clock).lastExit == if e.Exited? then e.code else v.lastExit
  {
  }

  /** One event restarts the server exactly when that is due. */
  lemma EventRestarts(v: View, e: Event, cfg: Config, clock: Clock)
    requires v.tracked == v.state
    ensures var v' := After(v, e, cfg, clock);
            if Due(cfg, (e.Exited? || e.StopEchoed?) && Online(v.state), v'.lastExit, v.lastCrash, clock.test)
            then v'.restarts == v.restarts + [clock.stamp] && v'.lastCrash == Some(clock.stamp)
            else v'.restarts == v.restarts && v'.lastCrash == v.lastCrash
  {
  }

  lemma EventState(v: View, e: Event, cfg: Config, clock: Clock)
    ensures After(v, e, cfg, clock).state ==
            match e
            case Started => Starting
            case FoundRunning => Running
            case MarkedRunning => if v.state == Starting then Running else v.state
            case StopRequested => if v.state == Offline then Offline else Stopping
            case Terminated(alive) => if alive then Stopping else Offline
            case StopEchoed => if Online(v.state) then Offline else v.state
            case _ => Offline
  {
  }

  lemma {:induction false} StateIsHistory(evs: seq<(Event, Clock)>, cfg: Config)
    ensures Run(evs, cfg).state == StateAfter(evs)
  {
    if evs != [] {
      hide After;
      var n := |evs| - 1;
      StateIsHistory(evs[..n], cfg);
      EventState(Run(evs[..n], cfg), evs[n].0, cfg, evs[n].1);
    }
  }

  lemma {:induction false} ExitIsHistory(evs: seq<(Event, Clock)>, cfg: Config)
    ensures Run(evs, cfg).lastExit == LatestCode(evs)
  {
    if evs != [] {
      hide After;
      var n := |evs| - 1;
      ExitIsHistory(evs[..n], cfg);
      EventExit(Run(evs[..n], cfg), evs[n].0, cfg, evs[n].1);
    }
  }

  lemma {:induction false} RestartsAreHistory(evs: seq<(Event, Clock)>, cfg: Config)
    ensures var v := Run(evs, cfg); v.restarts == RestartTimes(evs, cfg) && v.lastCrash == Last(v.restarts)
  {
    if evs != [] {
      hide After, LatestCode, Undisturbed, Crashes, Due;
      var n := |evs| - 1;
      RestartsAreHistory(evs[..n], cfg);
      HandlerReachedExactly(evs[..n], cfg);
      ExitIsHistory(evs, cfg);
      EventRestarts(Run(evs[..n], cfg), evs[n].0, cfg, evs[n].1);
    }
  }

  /**
   Over every run the server's record is what the events say: its state, the latest
   exit code, exactly the automatic restarts that are due, and the time of the last.
   */
  lemma {:induction false} RecordIsHistory(evs: seq<(Event, Clock)>, cfg: Config)
    ensures var v := Run(evs, cfg);
            && v.state == StateAfter(evs) && v.lastExit == LatestCode(evs)
            && v.restarts == RestartTimes(evs, cfg)
            && v.lastCrash == Last(v.restarts)
  {
    StateIsHistory(evs, cfg);
    ExitIsHistory(evs, cfg);
    RestartsAreHistory(evs, cfg);
  }

  // ---------------------------------------------------------------------
  // The server driven by a run
  // ---------------------------------------------------------------------

  /** A server that goes through any operations: how often its crash handler ran, and how far its restarts are apart. */
  method Drive(cfg: Config, evs: seq<(Event, Clock)>) returns (server: Server)
    ensures fresh(server) && server.cfg == cfg
    ensures server.handled == Crashes(evs)
    ensures server.restarts == RestartTimes(evs, cfg) && server.state == StateAfter(evs)
    ensures server.tracked == server.state && (Online(server.state) <==> Undisturbed(evs))
    ensures cfg.timeout != 0 && Monotone(evs) ==> Spaced(server.restarts, cfg.timeout)
  {
    hide After;
    server := new Server(cfg);
    for i := 0 to |evs|
      invariant fresh(server) && server.cfg == cfg && server.Now() == Run(evs[..i], cfg)
    {
      assert evs[..i + 1][..i] == evs[..i];
      server.Perform(evs[i].0, evs[i].1);
    }
    assert evs[..|evs|] == evs;
    HandlerReachedExactly(evs, cfg);
    RecordIsHistory(evs, cfg);
    if cfg.timeout != 0 && Monotone(evs) {
      RestartsAreSpaced(evs, cfg);
    }
  }
}
