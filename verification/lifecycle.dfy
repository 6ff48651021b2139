/** The life of one Lua automation as a state machine over the fields the C#
    code mutates: `failed`, the timer's `Ticks`, `MissedTicks` and `Mutex`,
    whether the timer runs, and whether the interpreter state was closed.

    Script code is abstract: each call into it is an event, and how the call
    ends (normally or by a script error) is an input of the step. A timer
    callback is cut at its call into `OnTick`, so that another callback can
    fire while one is suspended in the hook, which is how the skip path
    (`Mutex > 0`) is reached. */
module Lifecycle {
  import opened Twos

  /** How one call into script code ends. */
  datatype Outcome = Returns | Raises

  /** What the automation does outside its own fields: every entry into
      script code, and the request to the owning mod to unload. */
  datatype Event =
    | RunMainScript
    | EnterOnLoad
    | EnterOnTick(tick: int32)
    | EnterOnUnload
    | SignalModUnload

  predicate EntersScript(e: Event)
  {
    !e.SignalModUnload?
  }

  /** `tickInFlight` is not a field of the C# classes: it says that some
      timer callback is suspended inside its call to `OnTick`. */
  datatype State = State(
    failed: bool,
    ticks: int32,
    missedTicks: int32,
    mutex: int32,
    timerRunning: bool,
    stateClosed: bool,
    tickInFlight: bool)

  /** The state after a step and the events the step emitted, in order. */
  datatype Step = Step(next: State, emitted: seq<Event>)

  /** What holds of every state the automation can reach. The guard only
      ever holds 0 or 1; it is held while a call to `OnTick` runs, and held
      with no call running only once `failed` is set; and the timer never
      runs once the interpreter is closed. */
  predicate Consistent(s: State)
  {
    && (s.mutex == 0 || s.mutex == 1)
    && (s.tickInFlight ==> s.mutex == 1)
    && (s.mutex == 1 && !s.tickInFlight ==> s.failed)
    && (s.stateClosed ==> !s.timerRunning)
  }

  /** The skeleton of the constructor: run the main script, then `OnLoad`;
      either raising sets `failed` and returns before the timer is started. */
  function Load(mainScript: Outcome, onLoad: Outcome): (r: Step)
    ensures Consistent(r.next)
    ensures r.next.ticks == 0 && r.next.missedTicks == 0 && r.next.mutex == 0
    ensures !r.next.stateClosed && !r.next.tickInFlight
    ensures r.next.failed <==> mainScript == Raises || onLoad == Raises
    ensures r.next.timerRunning <==> !r.next.failed
    ensures |r.emitted| == if mainScript == Returns then 2 else 1
    ensures r.emitted[0] == RunMainScript
    ensures EnterOnLoad in r.emitted <==> mainScript == Returns
    ensures forall e :: e in r.emitted ==> e == RunMainScript || e == EnterOnLoad
  {
    var initial := State(false, 0, 0, 0, false, false, false);
    match mainScript
    case Raises => Step(initial.(failed := true), [RunMainScript])
    case Returns =>
      match onLoad
      case Raises => Step(initial.(failed := true), [RunMainScript, EnterOnLoad])
      case Returns => Step(initial.(timerRunning := true), [RunMainScript, EnterOnLoad])
  }

  /** A timer callback, up to and including its call into `OnTick`. */
  function EnterTick(s: State): (r: Step)
    requires Consistent(s)
    ensures Consistent(r.next)
    // once failed, a callback only stops the timer
    ensures s.failed ==> r.emitted == [] && r.next == s.(timerRunning := false)
    // the skip path is taken only while another callback is inside the hook
    ensures !s.failed && s.mutex > 0 ==>
      && s.tickInFlight && r.emitted == []
      && r.next == s.(ticks := Inc32(s.ticks), missedTicks := Inc32(s.missedTicks))
    // a call starts exactly when none is running and nothing failed
    ensures r.emitted != [] <==> !s.failed && !s.tickInFlight
    ensures r.emitted != [] ==>
      && r.emitted == [EnterOnTick(s.ticks)]
      && r.next == s.(mutex := 1, tickInFlight := true)
  {
    if s.failed then Step(s.(timerRunning := false), [])
    else if s.mutex > 0 then
      Step(s.(ticks := Inc32(s.ticks), missedTicks := Inc32(s.missedTicks)), [])
    else Step(s.(mutex := 1, tickInFlight := true), [EnterOnTick(s.ticks)])
  }

  /** The rest of a callback once its `OnTick` call ends. On a script error
      the owning mod is told to unload, then `failed` is set; the guard stays
      held and `Ticks` does not advance. Otherwise `Ticks` advances, the miss
      count resets and the guard is released. */
  function ResumeTick(s: State, hook: Outcome): (r: Step)
    requires Consistent(s) && s.tickInFlight
    ensures Consistent(r.next) && !r.next.tickInFlight
    ensures forall e :: e in r.emitted ==> !EntersScript(e)
    ensures hook == Returns ==>
      && r.emitted == []
      && r.next == s.(ticks := Inc32(s.ticks), missedTicks := 0, mutex := 0, tickInFlight := false)
    ensures hook == Raises ==>
      && r.emitted == [SignalModUnload]
      && r.next == s.(failed := true, tickInFlight := false)
      && r.next.mutex == 1
  {
    match hook
    case Returns =>
      Step(s.(ticks := Inc32(s.ticks), missedTicks := 0, mutex := 0, tickInFlight := false), [])
    case Raises =>
      Step(s.(failed := true, tickInFlight := false), [SignalModUnload])
  }

  /** One whole timer callback whose `OnTick` call, if it makes one, ends
      before anything else happens. */
  function Tick(s: State, hook: Outcome): (r: Step)
    requires Consistent(s)
    ensures Consistent(r.next)
    ensures s.failed ==> r == Step(s.(timerRunning := false), [])
    ensures !s.failed && s.mutex > 0 ==>
      r == Step(s.(ticks := Inc32(s.ticks), missedTicks := Inc32(s.missedTicks)), [])
    ensures !s.failed && s.mutex == 0 && hook == Returns ==>
      && r.emitted == [EnterOnTick(s.ticks)]
      && r.next == s.(ticks := Inc32(s.ticks), missedTicks := 0)
      && r.next.mutex == 0
    ensures !s.failed && s.mutex == 0 && hook == Raises ==>
      && r.emitted == [EnterOnTick(s.ticks), SignalModUnload]
      && r.next == s.(failed := true, mutex := 1)
  {
    var enter := EnterTick(s);
    if enter.emitted == [] then enter
    else
      var resume := ResumeTick(enter.next, hook);
      Step(resume.next, enter.emitted + resume.emitted)
  }

  /** `Unload`: nothing at all once failed; otherwise stop the timer and call
      `OnUnload`. If that raises, `failed` is set and the interpreter is left
      open; otherwise the interpreter is closed. There is no guard against a
      second call on the success path. */
  function UnloadStep(s: State, hook: Outcome): (r: Step)
    requires Consistent(s)
    ensures Consistent(r.next)
    ensures s.failed ==> r == Step(s, [])
    ensures !s.failed ==> r.emitted == [EnterOnUnload] && !r.next.timerRunning
    ensures !s.failed && hook == Raises ==>
      r.next == s.(timerRunning := false, failed := true)
    ensures !s.failed && hook == Returns ==>
      r.next == s.(timerRunning := false, stateClosed := true) && !r.next.failed
  {
    if s.failed then Step(s, [])
    else match hook
      case Raises => Step(s.(timerRunning := false, failed := true), [EnterOnUnload])
      case Returns => Step(s.(timerRunning := false, stateClosed := true), [EnterOnUnload])
  }

  /** What can happen to a loaded automation: a timer callback fires, the
      `OnTick` call of a suspended callback ends, or the mod calls `Unload`. */
  datatype Action =
    | TimerElapsed
    | TickHookEnds(hook: Outcome)
    | UnloadCalled(hook: Outcome)

  /** One action. A hook can only end while a callback is suspended in it; an
      `TickHookEnds` with none suspended is not a step and changes nothing. */
  function Apply(s: State, a: Action): (r: Step)
    requires Consistent(s)
    ensures Consistent(r.next)
  {
    match a
    case TimerElapsed => EnterTick(s)
    case TickHookEnds(hook) => if s.tickInFlight then ResumeTick(s, hook) else Step(s, [])
    case UnloadCalled(hook) => UnloadStep(s, hook)
  }

  /** A sequence of actions, with all the events they emit in order. */
  function Run(s: State, acts: seq<Action>): (r: Step)
    requires Consistent(s)
    ensures Consistent(r.next)
    decreases |acts|
  {
    if acts == [] then Step(s, [])
    else
      var first := Apply(s, acts[0]);
      var rest := Run(first.next, acts[1..]);
      Step(rest.next, first.emitted + rest.emitted)
  }

  /** `n` timer callbacks in a row. */
  function Elapses(n: nat): (acts: seq<Action>)
    ensures |acts| == n && forall a :: a in acts ==> a == TimerElapsed
  {
    seq(n, _ => TimerElapsed)
  }

  /** `n` callbacks, each of whose `OnTick` calls returns before the next. */
  function Cycles(n: nat): (acts: seq<Action>)
    ensures |acts| == 2 * n
  {
    if n == 0 then [] else [TimerElapsed, TickHookEnds(Returns)] + Cycles(n - 1)
  }

  /** The calls `OnTick(t)`, `OnTick(t + 1)`, ..., `n` of them. */
  function TickCalls(t: int32, n: nat): (es: seq<Event>)
    requires t as int + n <= MaxInt32 as int + 1
    ensures |es| == n
  {
    seq(n, i requires 0 <= i < n => EnterOnTick(t + i))
  }

  /** A whole callback is the callback's first half followed at once by
      the end of its `OnTick` call, if it made one. */
  lemma TickAsRun(s: State, hook: Outcome)
    requires Consistent(s) && !s.tickInFlight
    ensures Tick(s, hook) == Run(s, [TimerElapsed, TickHookEnds(hook)])
  {
    var acts := [TimerElapsed, TickHookEnds(hook)];
    var first := Apply(s, TimerElapsed);
    assert acts[1..] == [TickHookEnds(hook)];
    assert Run(first.next, acts[1..]) == Apply(first.next, TickHookEnds(hook)) by {
      assert acts[1..][1..] == [];
    }
  }

  /** Running two action sequences one after the other. */
  lemma {:induction false} RunAppend(s: State, a: seq<Action>, b: seq<Action>)
    requires Consistent(s)
    ensures Run(s, a + b).next == Run(Run(s, a).next, b).next
    ensures Run(s, a + b).emitted == Run(s, a).emitted + Run(Run(s, a).next, b).emitted
    decreases |a|
  {
    if a == [] {
      assert a + b == b;
    } else {
      assert (a + b)[0] == a[0];
      assert (a + b)[1..] == a[1..] + b;
      RunAppend(Apply(s, a[0]).next, a[1..], b);
    }
  }

  /** Once `failed` holds, nothing that can happen enters script code again,
      and `failed` stays set. */
  lemma {:induction false} FailedIsFinal(s: State, acts: seq<Action>)
    requires Consistent(s) && s.failed
    ensures Run(s, acts).next.failed
    ensures forall e :: e in Run(s, acts).emitted ==> !EntersScript(e)
    decreases |acts|
  {
    if acts != [] {
      var first := Apply(s, acts[0]);
      assert first.next.failed;
      assert forall e :: e in first.emitted ==> !EntersScript(e);
      FailedIsFinal(first.next, acts[1..]);
    }
  }

  /** While one callback is suspended in `OnTick`, every further callback is
      skipped: no call is made, and `Ticks` and `MissedTicks` each grow by one
      per callback. */
  lemma {:induction false} SkipsWhileHookRuns(s: State, n: nat)
    requires Consistent(s) && !s.failed && s.tickInFlight
    requires s.ticks as int + n <= MaxInt32 as int
    requires s.missedTicks as int + n <= MaxInt32 as int
    ensures Run(s, Elapses(n)).emitted == []
    ensures Run(s, Elapses(n)).next == s.(ticks := s.ticks + n, missedTicks := s.missedTicks + n)
    decreases n
  {
    if n > 0 {
      var s' := s.(ticks := s.ticks + 1, missedTicks := s.missedTicks + 1);
      assert Apply(s, TimerElapsed).next == s';
      assert Elapses(n)[1..] == Elapses(n - 1);
      SkipsWhileHookRuns(s', n - 1);
    }
  }

  /** `n` callbacks whose calls all return in time: `OnTick` is called with
      `Ticks` values `t`, `t + 1`, ..., and afterwards `Ticks` is `t + n` and
      no tick counts as missed. */
  lemma {:induction false} CompletedTicks(s: State, n: nat)
    requires Consistent(s) && !s.failed && !s.tickInFlight
    requires s.ticks as int + n <= MaxInt32 as int
    ensures Run(s, Cycles(n)).emitted == TickCalls(s.ticks, n)
    ensures n > 0 ==> Run(s, Cycles(n)).next == s.(ticks := s.ticks + n, missedTicks := 0)
    decreases n
  {
    if n > 0 {
      var s' := s.(ticks := s.ticks + 1, missedTicks := 0);
      var cycle := [TimerElapsed, TickHookEnds(Returns)];
      assert Cycles(n) == cycle + Cycles(n - 1);
      CompletedCycle(s);
      RunAppend(s, cycle, Cycles(n - 1));
      CompletedTicks(s', n - 1);
      TickCallsCons(s.ticks, n);
    }
  }

  /** One callback whose `OnTick` call returns in time. */
  lemma CompletedCycle(s: State)
    requires Consistent(s) && !s.failed && !s.tickInFlight && s.ticks < MaxInt32
    ensures Run(s, [TimerElapsed, TickHookEnds(Returns)])
         == Step(s.(ticks := s.ticks + 1, missedTicks := 0), [EnterOnTick(s.ticks)])
  {
    TickAsRun(s, Returns);
  }

  /** The first of `n` consecutive `OnTick` calls, and the rest. */
  lemma TickCallsCons(t: int32, n: nat)
    requires n > 0 && t as int + n <= MaxInt32 as int
    ensures TickCalls(t, n) == [EnterOnTick(t)] + TickCalls(t + 1, n - 1)
  {
    var rest := TickCalls(t + 1, n - 1);
    assert forall i :: 0 <= i < n - 1 ==> rest[i] == EnterOnTick(t + 1 + i);
  }

  /** A script that loads, then completes `n` ticks on time: `OnTick` sees
      0, 1, ..., n - 1, and ends with `Ticks == n` and `MissedTicks == 0`. */
  lemma LoadThenTicks(n: nat)
    requires n <= MaxInt32 as int
    ensures var loaded := Load(Returns, Returns).next;
      && Run(loaded, Cycles(n)).emitted == TickCalls(0, n)
      && Run(loaded, Cycles(n)).next.ticks == n
      && Run(loaded, Cycles(n)).next.missedTicks == 0
      && Run(loaded, Cycles(n)).next.mutex == 0
  {
    CompletedTicks(Load(Returns, Returns).next, n);
  }

  /** A call to `OnTick` that overruns `k` intervals is the only call made:
      the `k` callbacks meanwhile are counted as missed, and when the call
      returns `Ticks` is `k + 1` and the miss count is back to 0. */
  lemma OverrunningTick(k: nat)
    requires k < MaxInt32 as int
    ensures var loaded := Load(Returns, Returns).next;
      var acts := [TimerElapsed] + Elapses(k) + [TickHookEnds(Returns)];
      && Run(loaded, acts).emitted == [EnterOnTick(0)]
      && Run(loaded, acts).next.ticks == k + 1
      && Run(loaded, acts).next.missedTicks == 0
      && Run(loaded, [TimerElapsed] + Elapses(k)).next.missedTicks == k
  {
    var loaded := Load(Returns, Returns).next;
    var entered := loaded.(mutex := 1, tickInFlight := true);
    assert Run(loaded, [TimerElapsed]) == Step(entered, [EnterOnTick(0)]);
    RunAppend(loaded, [TimerElapsed], Elapses(k));
    SkipsWhileHookRuns(entered, k);
    var skipped := entered.(ticks := k, missedTicks := k);
    RunAppend(loaded, [TimerElapsed] + Elapses(k), [TickHookEnds(Returns)]);
    assert Run(skipped, [TickHookEnds(Returns)]).emitted == [];
  }

  /** A tick whose `OnTick` raises signals the mod to unload, and from then on
      nothing enters script code again. */
  lemma TickErrorSilencesScript(s: State, later: seq<Action>)
    requires Consistent(s) && !s.failed && !s.tickInFlight
    ensures var acts := [TimerElapsed, TickHookEnds(Raises)] + later;
      && |Run(s, acts).emitted| >= 2
      && Run(s, acts).emitted[..2] == [EnterOnTick(s.ticks), SignalModUnload]
      && Run(s, acts).next.failed
      && forall i :: 2 <= i < |Run(s, acts).emitted| ==> !EntersScript(Run(s, acts).emitted[i])
  {
    var cycle := [TimerElapsed, TickHookEnds(Raises)];
    var failed := s.(failed := true, mutex := 1);
    TickAsRun(s, Raises);
    RunAppend(s, cycle, later);
    FailedIsFinal(failed, later);
    var all := Run(s, cycle + later).emitted;
    forall i | 2 <= i < |all|
      ensures !EntersScript(all[i])
    {
      assert all[i] in Run(failed, later).emitted;
    }
  }

  /** `Unload` is not guarded by the tick's `Mutex`: called while a callback is
      suspended in `OnTick`, it enters `OnUnload` and closes the interpreter
      with that call still running. */
  lemma UnloadDuringTick()
    ensures var loaded := Load(Returns, Returns).next;
      var r := Run(loaded, [TimerElapsed, UnloadCalled(Returns)]);
      && r.emitted == [EnterOnTick(0), EnterOnUnload]
      && r.next.tickInFlight && r.next.stateClosed
  {
  }

  /** A second `Unload` after a successful one calls `OnUnload` again, after
      the interpreter was closed. */
  lemma UnloadTwice()
    ensures var loaded := Load(Returns, Returns).next;
      var r := Run(loaded, [UnloadCalled(Returns), UnloadCalled(Returns)]);
      && r.emitted == [EnterOnUnload, EnterOnUnload]
      && r.next.stateClosed && !r.next.failed
  {
  }
}
