/** The C# classes `LuaAutomation` and `LuaAutomationTimer`, whose fields the
    constructor, the timer callback and `Unload` update in place. Each method
    is proved to move the object exactly as the matching step of `Lifecycle`
    does (`Lifecycle.TickAsRun` ties a whole callback to the two halves that
    `Lifecycle.Run` is built from). */
module Automation {
  import opened Twos
  import opened Lifecycle

  /** `LuaAutomationTimer`: a platform timer extended with the tick counter,
      the count of consecutive skipped ticks, and the reentrancy guard. */
  class AutomationTimer {
    var ticks: int32
    var missedTicks: int32
    var mutex: int32
    var running: bool

    constructor ()
      ensures ticks == 0 && missedTicks == 0 && mutex == 0 && !running
    {
      ticks, missedTicks, mutex, running := 0, 0, 0, false;
    }

    method Start()
      modifies this
      ensures running
      ensures ticks == old(ticks) && missedTicks == old(missedTicks) && mutex == old(mutex)
    {
      running := true;
    }

    /** Stopping a stopped timer is harmless. */
    method Stop()
      modifies this
      ensures !running
      ensures ticks == old(ticks) && missedTicks == old(missedTicks) && mutex == old(mutex)
    {
      running := false;
    }
  }

  /** `LuaAutomation`. `stateClosed` records `State.Close()`; `tickInFlight`
      is where a suspended timer callback stands: inside its `OnTick` call.
      `trace` is the record of every entry into script code and every
      request to the owning mod to unload. */
  class LuaAutomation {
    var timer: AutomationTimer
    var failed: bool
    var stateClosed: bool
    var tickInFlight: bool
    ghost var trace: seq<Event>

    function Snapshot(): State
      reads this, timer
    {
      State(failed, timer.ticks, timer.missedTicks, timer.mutex, timer.running, stateClosed, tickInFlight)
    }

    ghost predicate Valid()
      reads this, timer
    {
      Consistent(Snapshot())
    }

    /** The failure and timer-start skeleton of the constructor. The field
        initialiser creates a timer that is never started; only when the main
        script and `OnLoad` both return is a fresh timer created and started. */
    constructor (mainScript: Outcome, onLoad: Outcome)
      ensures Valid() && fresh(timer)
      ensures Snapshot() == Load(mainScript, onLoad).next
      ensures trace == Load(mainScript, onLoad).emitted
    {
      timer := new AutomationTimer();
      failed := false;
      stateClosed := false;
      tickInFlight := false;
      trace := [RunMainScript];
      match mainScript
      case Raises =>
        failed := true;
      case Returns =>
        trace := trace + [EnterOnLoad];
        match onLoad
        case Raises =>
          failed := true;
        case Returns =>
          var started := new AutomationTimer();
          started.Start();
          timer := started;
    }

    /** A timer callback up to and including its call into `OnTick`;
        `called` says whether it made that call. */
    method BeginTick() returns (called: bool)
      requires Valid()
      modifies this, timer
      ensures Valid() && timer == old(timer)
      ensures Snapshot() == EnterTick(old(Snapshot())).next
      ensures trace == old(trace) + EnterTick(old(Snapshot())).emitted
      ensures called <==> trace != old(trace)
      ensures old(failed) ==> failed && !called
    {
      if failed {
        timer.Stop();
        return false;
      }
      if timer.mutex > 0 {
        timer.ticks := Inc32(timer.ticks);
        timer.missedTicks := Inc32(timer.missedTicks);
        return false;
      }
      timer.mutex := 1;
      trace := trace + [EnterOnTick(timer.ticks)];
      tickInFlight := true;
      return true;
    }

    /** The rest of the callback once `OnTick` returns or raises. */
    method FinishTick(hook: Outcome)
      requires Valid() && tickInFlight
      modifies this, timer
      ensures Valid() && timer == old(timer)
      ensures Snapshot() == ResumeTick(old(Snapshot()), hook).next
      ensures trace == old(trace) + ResumeTick(old(Snapshot()), hook).emitted
    {
      tickInFlight := false;
      match hook
      case Raises =>
        trace := trace + [SignalModUnload];
        failed := true;
      case Returns =>
        timer.ticks := Inc32(timer.ticks);
        timer.missedTicks := 0;
        timer.mutex := 0;
    }

    /** `LuaAutomationTick`: one whole timer callback, whose `OnTick` call
        (if it makes one) ends with `hook` before anything else happens. */
    method LuaAutomationTick(hook: Outcome)
      requires Valid()
      modifies this, timer
      ensures Valid() && timer == old(timer)
      ensures Snapshot() == Tick(old(Snapshot()), hook).next
      ensures trace == old(trace) + Tick(old(Snapshot()), hook).emitted
      ensures old(failed) ==> failed && trace == old(trace)
    {
      var called := BeginTick();
      if called {
        FinishTick(hook);
      }
    }

    /** `Unload`, with `hook` the way the call into `OnUnload` ends. */
    method Unload(hook: Outcome)
      requires Valid()
      modifies this, timer
      ensures Valid() && timer == old(timer)
      ensures Snapshot() == UnloadStep(old(Snapshot()), hook).next
      ensures trace == old(trace) + UnloadStep(old(Snapshot()), hook).emitted
      ensures old(failed) ==> failed && trace == old(trace)
    {
      if failed {
        return;
      }
      timer.Stop();
      trace := trace + [EnterOnUnload];
      match hook
      case Raises =>
        failed := true;
      case Returns =>
        stateClosed := true;
    }
  }
}
