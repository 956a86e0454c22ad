// The front end's auto-reloader: the active flag, the handle of the interval
// timer that re-runs the reload callback, and the "auto-reload-state-changed"
// notifications.  The browser timer is modelled by its effect: `setInterval`
// hands back a timer id, which the caller supplies, and the ghost map
// `timers` holds the timers registered and not yet cleared, each with its
// interval.  The callback itself is not modelled; `immediateRuns` counts the
// immediate invocations that `start` makes.  Dispatched events are the
// `isActive` details appended to a ghost log; console output is left out.
module AutoReload {
  import opened Common

  /** The interval `start` uses when none is given, in milliseconds. */
  const DefaultInterval: nat := 2000

  /** The reloader's observable state: its two fields plus the effects it has had. */
  datatype Reloader = Reloader(isActive: bool, intervalId: Option<nat>, timers: map<nat, nat>,
                               notifications: seq<bool>, immediateRuns: nat)

  /** State right after construction. */
  const Initial: Reloader := Reloader(false, None, map[], [], 0)

  /** The flag is set exactly while a timer is held, and the held timer is the only one registered. */
  predicate Valid(r: Reloader) {
    (r.isActive <==> r.intervalId.Some?) &&
    (r.intervalId.None? ==> r.timers == map[]) &&
    (r.intervalId.Some? ==> r.timers.Keys == {r.intervalId.value})
  }

  /**
   * `start(callback, interval)` with `setInterval` returning `timerId`: refused
   * while active or holding a timer; otherwise runs the callback once,
   * registers the timer and notifies.
   */
  function StartR(r: Reloader, interval: nat, timerId: nat): Reloader {
    if r.isActive || r.intervalId.Some? then r
    else Reloader(true, Some(timerId), r.timers[timerId := interval], r.notifications + [true],
                  r.immediateRuns + 1)
  }

  /** `stop`: refused while idle; otherwise clears the held timer, if any, and notifies. */
  function StopR(r: Reloader): Reloader {
    if !r.isActive && r.intervalId.None? then r
    else
      var timers := if r.intervalId.Some? then r.timers - {r.intervalId.value} else r.timers;
      Reloader(false, None, timers, r.notifications + [false], r.immediateRuns)
  }

  /** The "request-auto-reload-state" listener: re-sends the current state. */
  function RequestR(r: Reloader): Reloader {
    r.(notifications := r.notifications + [r.isActive])
  }

  /** Every operation keeps the reloader valid, so at most one interval timer ever runs. */
  lemma OperationsPreserveValid(r: Reloader, interval: nat, timerId: nat)
    requires Valid(r)
    ensures Valid(StartR(r, interval, timerId)) && Valid(StopR(r)) && Valid(RequestR(r))
    ensures |r.timers.Keys| <= 1
  {
    if r.intervalId.Some? {
      assert r.timers.Keys == {r.intervalId.value};
      assert (r.timers - {r.intervalId.value}).Keys == {};
    } else {
      assert r.timers[timerId := interval].Keys == {timerId};
    }
  }

  /**
   * A start from idle runs the callback once, registers exactly one timer with
   * the given interval and reports "active"; a second start changes nothing.
   */
  lemma StartFromIdle(r: Reloader, interval: nat, timerId: nat)
    requires Valid(r) && !r.isActive
    ensures var s := StartR(r, interval, timerId);
      s.isActive && s.intervalId == Some(timerId) && s.timers == map[timerId := interval] &&
      s.immediateRuns == r.immediateRuns + 1 && s.notifications == r.notifications + [true] &&
      StartR(s, interval, timerId + 1) == s
  {
    assert r.timers == map[];
  }

  /**
   * A stop after any start leaves no timer registered and the flag down, and
   * reports "inactive"; a second stop changes nothing.
   */
  lemma StopClearsTimer(r: Reloader)
    requires Valid(r) && r.isActive
    ensures var s := StopR(r);
      !s.isActive && s.intervalId.None? && s.timers == map[] &&
      s.notifications == r.notifications + [false] && s.immediateRuns == r.immediateRuns &&
      StopR(s) == s
  {
    assert r.timers.Keys == {r.intervalId.value};
    assert (r.timers - {r.intervalId.value}).Keys == {};
  }

  /** One call from the page. */
  datatype Call = StartCall(interval: nat, timerId: nat) | StopCall | RequestState

  function Apply(r: Reloader, c: Call): Reloader {
    match c
    case StartCall(interval, timerId) => StartR(r, interval, timerId)
    case StopCall => StopR(r)
    case RequestState => RequestR(r)
  }

  function Run(r: Reloader, calls: seq<Call>): Reloader
    decreases |calls|
  {
    if |calls| == 0 then r else Run(Apply(r, calls[0]), calls[1..])
  }

  /**
   * Valid, with the last event dispatched, if any, reporting the current state
   * and no more immediate callback runs than events.
   */
  predicate Informed(r: Reloader) {
    Valid(r) && (|r.notifications| > 0 ==> r.notifications[|r.notifications| - 1] == r.isActive) &&
    r.immediateRuns <= |r.notifications|
  }

  /** Each call keeps listeners informed. */
  lemma CallKeepsInformed(r: Reloader, c: Call)
    requires Informed(r)
    ensures Informed(Apply(r, c))
  {
    match c {
      case StartCall(interval, timerId) => OperationsPreserveValid(r, interval, timerId);
      case StopCall => OperationsPreserveValid(r, 0, 0);
      case RequestState => OperationsPreserveValid(r, 0, 0);
    }
  }

  lemma {:induction false} RunFrom(r: Reloader, calls: seq<Call>)
    requires Informed(r)
    ensures Informed(Run(r, calls))
    decreases |calls|
  {
    if |calls| > 0 {
      CallKeepsInformed(r, calls[0]);
      RunFrom(Apply(r, calls[0]), calls[1..]);
    }
  }

  /**
   * From construction, after any sequence of calls the reloader is valid (so
   * at most one interval timer runs, the one it holds) and the last event it
   * dispatched, if any, reports its current state.
   */
  lemma RunKeepsListenersInformed(calls: seq<Call>)
    ensures var r := Run(Initial, calls);
      Valid(r) && |r.timers.Keys| <= 1 &&
      (|r.notifications| > 0 ==> r.notifications[|r.notifications| - 1] == r.isActive) &&
      r.immediateRuns <= |r.notifications|
  {
    RunFrom(Initial, calls);
    OperationsPreserveValid(Run(Initial, calls), 0, 0);
  }

  /** The singleton of the source. */
  class AutoReloader {
    var intervalId: Option<nat>
    var isActive: bool
    ghost var timers: map<nat, nat>
    ghost var notifications: seq<bool>
    ghost var immediateRuns: nat

    ghost function State(): Reloader
      reads this
    {
      Reloader(isActive, intervalId, timers, notifications, immediateRuns)
    }

    constructor ()
      ensures State() == Initial
    {
      intervalId := None;
      isActive := false;
      timers := map[];
      notifications := [];
      immediateRuns := 0;
    }

    /** `start`; `timerId` is the id `setInterval` returns. */
    method Start(timerId: nat, interval: nat := DefaultInterval)
      modifies this
      ensures State() == StartR(old(State()), interval, timerId)
      ensures Valid(old(State())) ==> Valid(State())
    {
      ghost var before := State();
      if isActive || intervalId.Some? {
        return;
      }
      isActive := true;
      immediateRuns := immediateRuns + 1;
      timers := timers[timerId := interval];
      intervalId := Some(timerId);
      notifications := notifications + [isActive];
      if Valid(before) {
        OperationsPreserveValid(before, interval, timerId);
      }
    }

    /** `stop`. */
    method Stop()
      modifies this
      ensures State() == StopR(old(State()))
      ensures Valid(old(State())) ==> Valid(State())
    {
      ghost var before := State();
      if !isActive && intervalId.None? {
        return;
      }
      if intervalId.Some? {
        timers := timers - {intervalId.value};
        intervalId := None;
      }
      isActive := false;
      notifications := notifications + [isActive];
      if Valid(before) {
        OperationsPreserveValid(before, 0, 0);
      }
    }

    /** `getState`. */
    method GetState() returns (active: bool)
      ensures active == isActive
    {
      return isActive;
    }

    /** The handler of "request-auto-reload-state" registered by the constructor. */
    method OnRequestState()
      modifies this
      ensures State() == RequestR(old(State()))
      ensures Valid(old(State())) ==> Valid(State())
    {
      notifications := notifications + [isActive];
    }
  }
}
