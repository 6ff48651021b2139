# Lua automations in RaCMAN, modelled in Dafny

RaCMAN runs user-written Lua "automation" scripts next to a running game. Each
script gets its own interpreter. The interpreter runs the main script, then calls
the script's `OnLoad`. From then on a 16 ms timer calls `OnTick(ticks)` until the
script fails or the owning mod unloads it. Unloading calls `OnUnload` and closes
the interpreter. Scripts also get marshalling functions that convert between
integers and big-endian byte arrays (`bytestoint`, `inttobytes`).

This project models two parts of `RaCTrainer/LuaAutomation.cs`:

- **The marshalling functions** `LuaFunctions.ByteArrayToInt` and
  `LuaFunctions.IntToByteArray` (module `LuaFunctions`). They are built, as in
  C#, from `BitConverter` on a little-endian host and the LINQ operators
  `Reverse` and `Take` (module `DotNet`). They are proved against big-endian and
  two's-complement definitions that do not use those operators (module `Twos`).
- **The lifecycle of an automation.** This covers:
  - the failure and timer-start skeleton of the constructor;
  - the timer callback `LuaAutomationTick`, with its skip path and miss counting;
  - `Unload`.

  Module `Lifecycle` is a pure state machine over the fields the code mutates. It
  comes with lemmas about arbitrary runs of timer callbacks and `Unload` calls.
  Module `Automation` holds the two C# classes, `LuaAutomation` and
  `LuaAutomationTimer`, as Dafny classes. Their methods update the fields step by
  step, and each method is proved to match one step of `Lifecycle`.

Script code is not modelled. Every call into it is recorded as an event. How the
call ends (it returns, or it raises a `LuaScriptException`) is a parameter of the
step. So is whether the main script and `OnLoad` raise during construction.

A real timer callback can fire while an earlier callback is still inside
`OnTick`. The code's `Mutex` field guards against exactly this. To reach that
case, the model cuts a callback in two at its call into `OnTick`:

- `BeginTick` covers the callback up to and including the call.
- `FinishTick` covers the rest, once the call returns or raises.

`LuaAutomationTick` is the two halves run back to back. The state field
`tickInFlight` says that some callback is suspended inside `OnTick`.

C# `int` fields are the subset type `int32`. `Ticks += 1` and `MissedTicks += 1`
wrap around at 2^31 - 1, as they do in C#'s default unchecked context.

## Behaviour as written

The model follows the code in these places, even where one would expect a stricter
design:

- `ByteArrayToInt` has no length check of its own:
  - length 1 is read unsigned and length 2 as a signed 16-bit word;
  - any other length goes to `BitConverter.ToInt32` on the reversed array;
  - so lengths 0 and 3 fail with `BitConverter`'s exceptions, and lengths above
    4 are accepted and read only their last four bytes.
- `IntToByteArray` never fails. A `size` of 0 or less gives an empty array, and a
  `size` above 4 gives 4 bytes.
- `Mutex` is a plain field, and nothing serialises `Unload` against the timer
  callback. So `Unload` can enter `OnUnload` and close the interpreter while
  `OnTick` is still running (`Lifecycle.UnloadDuringTick`).
- `Unload` has no guard on its success path. A second call stops the timer and
  calls `OnUnloadFunction.Call()` again after the interpreter was closed
  (`Lifecycle.UnloadTwice`).
- A tick whose `OnTick` raises does three things:
  - it tells the mod to unload, and sets `failed` only after that;
  - it leaves `Mutex` at 1;
  - it does not stop the timer. The next callback sees `failed` and stops it.

## Model

| member | source | states |
|---|---|---|
| `Twos.Inc32` | RaCTrainer/LuaAutomation.cs:138-139 | `x += 1` on a C# `int`: the result equals `x + 1` modulo 2^32, and is larger than `x` unless `x` is the largest `int` |
| `DotNet.Take` | RaCTrainer/LuaAutomation.cs:236 | `Take(size)` returns a prefix of length `size`, clamped to the sequence's length, and empty when `size <= 0` |
| `DotNet.ToInt16` | RaCTrainer/LuaAutomation.cs:228 | `BitConverter.ToInt16(a, 0)` succeeds exactly when `a` has at least 2 bytes |
| `DotNet.ToInt32` | RaCTrainer/LuaAutomation.cs:231 | `BitConverter.ToInt32(a, 0)` succeeds exactly when `a` has at least 4 bytes |
| `LuaFunctions.ByteArrayToIntOneByte` | RaCTrainer/LuaAutomation.cs:221-224 | a 1-byte array decodes to that byte, unsigned, in 0..255 |
| `LuaFunctions.ByteArrayToIntTwoBytes` | RaCTrainer/LuaAutomation.cs:226-229 | `[hi, lo]` decodes to the signed 16-bit number with bit pattern `hi*256+lo`, which equals its big-endian value, always in -32768..32767 |
| `LuaFunctions.ByteArrayToIntWord` | RaCTrainer/LuaAutomation.cs:231 | an array of 4 or more bytes decodes to the signed 32-bit big-endian value of its last four bytes |
| `LuaFunctions.ByteArrayToIntFourBytes` | RaCTrainer/LuaAutomation.cs:231 | exactly 4 bytes decode to their signed 32-bit big-endian value |
| `LuaFunctions.ByteArrayToIntLastFourOnly` | RaCTrainer/LuaAutomation.cs:231 | two arrays of 4 or more bytes that end in the same four bytes decode to the same result |
| `LuaFunctions.ByteArrayToIntErrors` | RaCTrainer/LuaAutomation.cs:219-232 | decoding fails if and only if the length is 0 or 3: length 0 with the start-index exception, length 3 with the array-too-small exception |
| `LuaFunctions.IntToByteArrayLowBytes` | RaCTrainer/LuaAutomation.cs:234-237 | `IntToByteArray(num, size)` returns exactly `min(max(size,0),4)` bytes, and their big-endian value is `num`'s 32-bit two's-complement pattern modulo 256^length: the low bytes, most significant first |
| `LuaFunctions.RoundTripWord` | RaCTrainer/LuaAutomation.cs:219-237 | decoding `IntToByteArray(v, n)` for `n >= 4` gives `v` back |
| `LuaFunctions.RoundTripHalf` | RaCTrainer/LuaAutomation.cs:219-237 | decoding `IntToByteArray(v, 2)` gives the low 16 bits of `v`, sign-extended |
| `LuaFunctions.RoundTripByte` | RaCTrainer/LuaAutomation.cs:219-237 | decoding `IntToByteArray(v, 1)` gives `v mod 256` |
| `LuaFunctions.RoundTripFails` | RaCTrainer/LuaAutomation.cs:219-237 | for `size <= 0` or `size == 3` the encoded array does not decode |
| `LuaFunctions.MarshallingExamples` | RaCTrainer/LuaAutomation.cs:219-237 | the worked values: `(258, 2)` gives `[0x01, 0x02]`, `(1, 2)` gives `[0x00, 0x01]`, which decodes to 1, `(-1, 4)` gives four `0xFF` bytes, `[0xFF, 0xFE]` decodes to -2, `[0x12, 0x34, 0x56, 0x78]` decodes to `0x12345678`, and 3 bytes fail |
| `Lifecycle.Load` | RaCTrainer/LuaAutomation.cs:79-121 | after construction the counters and guard are 0. `failed` holds exactly when the main script or `OnLoad` raised, and the timer runs exactly when nothing failed. The main script runs first and exactly once; `OnLoad` is entered exactly when the main script returned, and then exactly once, so the record has two events after a returning main script and one otherwise |
| `Lifecycle.EnterTick` | RaCTrainer/LuaAutomation.cs:130-154 | a failed automation's callback only stops the timer. The skip path is taken only while another callback is inside `OnTick`; it advances `Ticks` and `MissedTicks` by one and changes nothing else. A call starts exactly when nothing failed and none is running, and it passes the pre-tick `Ticks` and takes the guard. The consistency invariant is kept |
| `Lifecycle.ResumeTick` | RaCTrainer/LuaAutomation.cs:155-176 | when `OnTick` returns: `Ticks` advances, the miss count resets to 0 and the guard is released. When it raises: the mod unload is signalled, `failed` is set, the guard stays at 1 and `Ticks` does not advance. No script code is entered either way |
| `Lifecycle.Tick` | RaCTrainer/LuaAutomation.cs:126-177 | a whole callback, case by case. Failed: only the timer stops. Guard held: a skip with both counters +1. Hook returns: exactly one call `OnTick(Ticks)`, then `Ticks` +1, `MissedTicks == 0` and `Mutex == 0`. Hook raises: the call, then the mod unload signal, with `failed` set, `Mutex == 1` and `Ticks` unchanged |
| `Lifecycle.UnloadStep` | RaCTrainer/LuaAutomation.cs:179-201 | when failed, `Unload` does nothing. Otherwise it stops the timer and enters `OnUnload` exactly once. If that raises, it sets `failed` and leaves the interpreter open. Otherwise it closes the interpreter and leaves `failed` false |
| `Lifecycle.Apply` | RaCTrainer/LuaAutomation.cs:126-201 | any callback half or `Unload` call keeps the consistency invariant: the guard is 0 or 1; it is held while a call to `OnTick` runs, and held with no call running only once `failed` is set; and a closed interpreter has no running timer |
| `Lifecycle.Run` | RaCTrainer/LuaAutomation.cs:126-201 | every sequence of callbacks and `Unload` calls keeps the consistency invariant stated for `Lifecycle.Apply`; its events are those of the first action followed by those of the rest |
| `Lifecycle.TickAsRun` | RaCTrainer/LuaAutomation.cs:126-177 | a whole callback (`Lifecycle.Tick`) has exactly the effect and events of its first half followed at once by the end of its `OnTick` call, so every lemma about runs applies to whole callbacks |
| `Lifecycle.FailedIsFinal` | RaCTrainer/LuaAutomation.cs:130-134 | once `failed` holds, no sequence of callbacks and `Unload` calls enters script code again, and `failed` stays set |
| `Lifecycle.SkipsWhileHookRuns` | RaCTrainer/LuaAutomation.cs:136-144 | while a callback is suspended in `OnTick`, `n` further callbacks make no call and advance `Ticks` and `MissedTicks` by `n` each, changing nothing else |
| `Lifecycle.CompletedTicks` | RaCTrainer/LuaAutomation.cs:146-176 | `n` callbacks that each return in time call `OnTick(t)`, `OnTick(t+1)` and so on, `n` calls in all, and leave `Ticks == t+n` and `MissedTicks == 0` |
| `Lifecycle.CompletedCycle` | RaCTrainer/LuaAutomation.cs:146-176 | one callback whose `OnTick` call returns in time calls `OnTick(Ticks)` and leaves `Ticks` one larger and `MissedTicks == 0`, all else unchanged |
| `Lifecycle.LoadThenTicks` | RaCTrainer/LuaAutomation.cs:96-176 | after a successful load, `n` on-time ticks call `OnTick(0..n-1)` and end with `Ticks == n`, `MissedTicks == 0` and `Mutex == 0` |
| `Lifecycle.OverrunningTick` | RaCTrainer/LuaAutomation.cs:136-176 | an `OnTick` call that overruns `k` intervals is the only call made. Meanwhile `MissedTicks` reaches `k`. When it returns, `Ticks == k+1` and `MissedTicks == 0` |
| `Lifecycle.TickErrorSilencesScript` | RaCTrainer/LuaAutomation.cs:155-165 | a tick whose `OnTick` raises emits the call and then the mod unload signal. It sets `failed`, and no later action enters script code |
| `Lifecycle.UnloadDuringTick` | RaCTrainer/LuaAutomation.cs:179-201 | `Unload` during an unfinished `OnTick` call still enters `OnUnload` and closes the interpreter while that call is running |
| `Lifecycle.UnloadTwice` | RaCTrainer/LuaAutomation.cs:179-201 | after a successful `Unload`, a second one calls `OnUnloadFunction.Call()` again after the interpreter was closed |
| `Automation.AutomationTimer.constructor` | RaCTrainer/LuaAutomation.cs:250-260 | a new timer has `Ticks`, `MissedTicks` and `Mutex` at 0 and is not running |
| `Automation.AutomationTimer.Start` | RaCTrainer/LuaAutomation.cs:121 | starting sets the timer running and leaves the counters and guard alone |
| `Automation.AutomationTimer.Stop` | RaCTrainer/LuaAutomation.cs:132 | stopping clears the running flag and leaves the counters and guard alone |
| `Automation.LuaAutomation.constructor` | RaCTrainer/LuaAutomation.cs:79-121 | the object's fields and event record are those of `Lifecycle.Load`, and its timer is a new object. A timer is started only after both the main script and `OnLoad` returned |
| `Automation.LuaAutomation.BeginTick` | RaCTrainer/LuaAutomation.cs:126-154 | the fields change exactly as `Lifecycle.EnterTick` says, and the event record grows by its events. `called` says whether `OnTick` was entered, and is never true once failed |
| `Automation.LuaAutomation.FinishTick` | RaCTrainer/LuaAutomation.cs:155-176 | the fields and event record change exactly as `Lifecycle.ResumeTick` says |
| `Automation.LuaAutomation.LuaAutomationTick` | RaCTrainer/LuaAutomation.cs:126-177 | the fields and event record change exactly as `Lifecycle.Tick` says; once failed, no event is recorded and `failed` stays set |
| `Automation.LuaAutomation.Unload` | RaCTrainer/LuaAutomation.cs:179-201 | the fields and event record change exactly as `Lifecycle.UnloadStep` says; once failed, no event is recorded and `failed` stays set |

## Left out

- The NLua interpreter (`DoString`, `RegisterFunction`, `LoadCLRPackage`, `LuaFunction.Call`). Script code is abstract: each call is an event, and whether it returns or raises is an input.
- Reading the standard and per-game library directories and running their files (lines 44-77), and the `package.path` chunk (line 61). These are filesystem and path work. A script error there is not caught by the constructor and escapes from it, so no automation is built. The model starts at the main script.
- A hook the script does not define. The code then calls a method on a null reference, and the resulting exception is not caught by these methods. The model assumes `OnLoad`, `OnTick` and `OnUnload` exist.
- Injecting `Ratchetron` and `GAME_PID` (lines 41-42). This is an opaque host API.
- `Print`, `Sleep` and all console output (lines 24, 84-85, 141, 209-217). These are I/O and blocking.
- `ByteArrayToFloat` and `FloatToByteArray` (lines 239-247). These are IEEE-754 single-precision floats.
- The `Stopwatch` and the "exceeded 16 ms" message (lines 148-172). They are wall-clock time and logging, and they change no state.
- The timer's thread pool, its interval and `SynchronizingObject` (lines 112-121). A callback is modelled as two atomic halves split at the `OnTick` call. The code's check-then-set on `Mutex` (lines 136-146) and its `+=` updates are not atomic between threads; interleavings inside those statements are not modelled.
- The body of `mod.Unload()`, since the `Mod` class is not part of this model. It is recorded only as the event `SignalModUnload`. In the code it runs before `failed` is set. If it calls back into this automation's `Unload`, that call sees `failed == false`; the model does not follow that call.
- A null `bytes` argument, and NLua's conversion of Lua numbers to `int`. The model's parameters are already byte sequences and 32-bit integers.
- The model does not stop timer callbacks from arriving after the timer is stopped. This is more permissive than the timer itself, and every lemma holds for it all the same.
- Calls into a closed interpreter, from a second `Unload` or a timer callback that arrives late. They are given the same returns-or-raises outcomes as any other call; what NLua really does when a closed `Lua` state is used is not modelled.
