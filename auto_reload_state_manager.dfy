// The front end's auto-reload switch without the timer: one boolean and a
// "auto-reload-state-changed" notification whenever it flips.  The DOM event
// is modelled as an entry appended to a ghost log holding the `isActive`
// detail each dispatched event carries; console output is left out.
module AutoReloadState {

  datatype Command = Start | Stop | Toggle | Cleanup

  /** The flag after one command. */
  function Next(active: bool, c: Command): bool {
    match c
    case Start => true
    case Stop => false
    case Cleanup => false
    case Toggle => !active
  }

  /**
   * The events one command dispatches: one carrying the new state when the
   * flag changed, none when the command found the flag already as asked.
   */
  function Emitted(active: bool, c: Command): (events: seq<bool>)
    ensures |events| <= 1
    ensures events == [] <==> Next(active, c) == active
    ensures events != [] ==> events[0] == Next(active, c) && events[0] != active
  {
    if Next(active, c) == active then [] else [Next(active, c)]
  }

  /** What each command does to the flag: start and stop are idempotent, toggle negates, cleanup stops. */
  lemma CommandTable(active: bool)
    ensures Next(active, Start) && Next(Next(active, Start), Start)
    ensures !Next(active, Stop) && !Next(Next(active, Stop), Stop)
    ensures Next(active, Toggle) == !active && Next(Next(active, Toggle), Toggle) == active
    ensures Next(active, Cleanup) == Next(active, Stop)
    ensures Emitted(Next(active, Start), Start) == [] && Emitted(Next(active, Stop), Stop) == []
    ensures |Emitted(active, Toggle)| == 1
  {
  }

  /** The flag and the event log after a sequence of commands. */
  function Replay(active: bool, commands: seq<Command>): (r: (bool, seq<bool>))
    decreases |commands|
  {
    if |commands| == 0 then (active, [])
    else
      var rest := Replay(Next(active, commands[0]), commands[1..]);
      (rest.0, Emitted(active, commands[0]) + rest.1)
  }

  /**
   * Every event reports a change: the log alternates, its first entry differs
   * from the initial state and its last entry is the final state, so a
   * listener that follows the events always knows the current state.
   */
  lemma {:induction false} ReplayLog(active: bool, commands: seq<Command>)
    ensures var (final, log) := Replay(active, commands);
      (forall i :: 0 < i < |log| ==> log[i] != log[i - 1]) &&
      (|log| == 0 ==> final == active) &&
      (|log| > 0 ==> log[0] != active && log[|log| - 1] == final)
    decreases |commands|
  {
    if |commands| > 0 {
      var next := Next(active, commands[0]);
      ReplayLog(next, commands[1..]);
      var rest := Replay(next, commands[1..]);
      var e := Emitted(active, commands[0]);
      var log := e + rest.1;
      if |e| == 1 {
        forall i | 0 < i < |log| ensures log[i] != log[i - 1] {
          if i > 1 {
            assert log[i] == rest.1[i - 1] && log[i - 1] == rest.1[i - 2];
          }
        }
      }
    }
  }

  /** The singleton of the source: the flag and the events it has dispatched. */
  class AutoReloadStateManager {
    var isActive: bool
    ghost var notifications: seq<bool>

    constructor ()
      ensures !isActive && notifications == []
    {
      isActive := false;
      notifications := [];
    }

    /** `start`: becomes active and notifies, unless it already was active. */
    method Start()
      modifies this
      ensures isActive == Next(old(isActive), Command.Start)
      ensures notifications == old(notifications) + Emitted(old(isActive), Command.Start)
    {
      if isActive {
        return;
      }
      isActive := true;
      notifications := notifications + [isActive];
    }

    /** `stop`: becomes inactive and notifies, unless it already was inactive. */
    method Stop()
      modifies this
      ensures isActive == Next(old(isActive), Command.Stop)
      ensures notifications == old(notifications) + Emitted(old(isActive), Command.Stop)
    {
      if !isActive {
        return;
      }
      isActive := false;
      notifications := notifications + [isActive];
    }

    /** `getState`. */
    method GetState() returns (active: bool)
      ensures active == isActive
    {
      return isActive;
    }

    /** `toggle`: stops when active, starts otherwise. */
    method Toggle()
      modifies this
      ensures isActive == Next(old(isActive), Command.Toggle)
      ensures notifications == old(notifications) + Emitted(old(isActive), Command.Toggle)
    {
      if isActive {
        Stop();
      } else {
        Start();
      }
    }

    /** `cleanup`: the same as `stop`. */
    method Cleanup()
      modifies this
      ensures isActive == Next(old(isActive), Command.Cleanup)
      ensures notifications == old(notifications) + Emitted(old(isActive), Command.Cleanup)
    {
      Stop();
    }
  }
}
