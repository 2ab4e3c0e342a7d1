# go-sentinel: a Dafny model of the sentinel supervisor

The sentinel package runs a user "Every" callback on a ticker and/or on manual
triggers, routes its outcome through optional "Success" and "Failure"
callbacks, stops when a callback says so or when `Stop` is called, then runs
"Finally" and signals completion on a one-slot done channel. This project
models its core, `sentinel.go`, together with the enumerations and callback
record of `types.go`.

- `types.dfy` (module `SentinelTypes`): `StopReason`, `TriggerReason`, the
  `Functions` record (which of the four callbacks are non-nil), the values
  callbacks exchange, and `Call`, one recorded callback invocation.
- `trigger.dfy` (module `TriggerProtocol`): `Trigger`, the pure decision
  taken after each trigger. Callback results are inputs (a `Reply`), and the
  result lists the callbacks consulted, in order, with their arguments.
- `worker.dfy` (module `Worker`): the worker loop as a specification. `Run`
  consumes a serialized stream of `select` choices (`StopReq`, `Tick`,
  `Manual`), and lemmas state what the loop guarantees.
- `sentinel.dfy` (module `Supervisor`): class `Sentinel` with `active`, the
  stop slot `stopPending` and the done slot `donePending`. `Start`, `Stop`
  and `Shutdown` update them in place, and `IsActive` reads `active`. `Work` is the `for`/`select`
  loop, proved equal to `Run`. `Finish` is the rest of `work`: it calls
  `Finally` and runs `shutdown`. `Valid()` is the invariant that a stop
  request is pending only while the sentinel is active.

Modelling choices:
- Each `Tick` or `Manual` event carries the `Reply` the user callbacks give
  when that event is processed. For a fixed event stream the loop is
  deterministic, so this covers every behaviour of stateful callbacks.
- An event whose channel cannot be ready is passed over. A `StopReq` with
  an empty stop slot is one; a `Tick` when no ticker exists (duration ≤ 0,
  so the ticker channel is nil) is another.
- `Work` may end with the events used up and no exit. The worker is then
  still looping, and `RunResume` shows that a later `Work` call carries on
  exactly where it stopped. So a `Stop` by another goroutine while the loop
  runs is modelled as a `Stop()` call between two `Work` calls.
- When the loop leaves, `Work` returns with the sentinel still active.
  `Finally` runs without the lock and before `shutdown` (sentinel.go:107-113).
  So until `Finish` is called, `IsActive` returns true, `Start` fails, and
  `Stop` can post a request that `shutdown` then drains. Calls made from
  `Finally` itself fall in this window too. The doc comment on `Stop`
  (sentinel.go:60-61) says an error is returned when the sentinel is
  "stopping". In this window the code returns nil instead, and `shutdown`
  then drops the request; the model follows the code.

Facts about the code that the model keeps:
- The done channel `C` is a capacity-1 channel written with a non-blocking
  send (sentinel.go:20, 130-133). Only one reader receives it, and a
  completion while a value is unread adds nothing.
- There are two stop reasons, `ManualStop` and `AutomaticStop`
  (types.go:10-13). An absent Every stops the loop with `AutomaticStop`.
- A ticker trigger passes the tick's time to Every (sentinel.go:94-96).

## Model

| member | source | states |
|---|---|---|
| `TriggerProtocol.Trigger` | sentinel.go:136-174 | No Every: stop, nothing consulted. Every is consulted first with the trigger's reason and data. With an error, stop exactly when Failure is absent or done; only Failure (given the error) is consulted. Without one, stop exactly when Success is absent, or Success or Every is done; only Success (given Every's data) is consulted. Continuing requires every consulted callback present and not done. |
| `TriggerProtocol.ErrorPathIgnoresEveryDone` | sentinel.go:142-156 | On the error path, flipping Every's done flag leaves the decision and the calls unchanged |
| `Worker.StepOf` | sentinel.go:89-104 | One select iteration. It leaves with ManualStop exactly for a received stop request (slot full), which consults no callback; a stop request with the slot empty does nothing. A tick without a ticker does nothing. A received tick runs Trigger with InternalTrigger and the tick's time; a manual trigger runs it with ExternalTrigger and the payload. Either makes Trigger's calls and leaves, with AutomaticStop, exactly when Trigger says stop. |
| `Worker.Run` | sentinel.go:85-110 | The loop never takes more events than offered |
| `Worker.RunLeavesOnFirstExit` | sentinel.go:86-105 | Still running exactly when no event makes it leave, having then taken all events. Otherwise it leaves on the first such event with that event's reason. ManualStop exactly when that event is a stop request, which needs a pending request. |
| `Worker.RunResume` | sentinel.go:87-105 | A run that has not left, continued on more events, equals the run over the concatenation: no state is carried between iterations |
| `Worker.RunIgnoresLater` | sentinel.go:87-105 | After the loop leaves, later events change nothing |
| `Worker.RunCallsEveryInOrder` | sentinel.go:94-103 | With Every present, the Every calls are exactly one per tick or manual event taken, in order, with InternalTrigger and the tick time or ExternalTrigger and the payload |
| `Worker.RunFinallyOnce` | sentinel.go:107-110 | Finally is invoked at most once: exactly once, as the last call, when the loop has left and Finally is present; never otherwise |
| `Worker.NoInternalTriggerWithoutTicker` | sentinel.go:24-29 | With no ticker (duration ≤ 0) Every is never called with InternalTrigger |
| `Worker.ManualOnlySingleTrigger` | sentinel.go:99-103 | Manual-only sentinel, one payload: exactly one Every call, with that payload and ExternalTrigger |
| `Supervisor.Sentinel.constructor` | sentinel.go:19-41 | New: inactive, stop and done slots empty, ticking exactly when the duration is positive, callbacks as given |
| `Supervisor.Sentinel.Start` | sentinel.go:46-58 | Fails with AlreadyStarted on an active sentinel, changing nothing; otherwise succeeds and sets active. Slots untouched. |
| `Supervisor.Sentinel.Stop` | sentinel.go:63-76 | Inactive: MustBeActiveToStop, nothing changed. Active with empty slot: fills it, Ok. Slot full: StopAlreadyRequested, one request still pending. Never changes active. |
| `Supervisor.Sentinel.IsActive` | sentinel.go:79-83 | Returns active and changes nothing |
| `Supervisor.Sentinel.Shutdown` | sentinel.go:116-134 | Called only after the loop has left: drains the stop slot, clears active, leaves the done slot full (an already-full slot stays as is); the worker is gone |
| `Supervisor.Sentinel.Work` | sentinel.go:85-105 | Events taken, stop reason and callback calls are exactly those of Run, Finally's call aside. The sentinel stays active. On leaving, the worker is recorded as leaving with that reason. A received stop request empties the stop slot; otherwise the slot is unchanged. Keeps Valid(). |
| `Supervisor.Sentinel.Finish` | sentinel.go:107-113 | After the loop has left with a reason: calls Finally once with that reason if present, then shuts down, leaving the sentinel inactive, stop slot empty, done slot full |

## Left out

- The goroutine spawned by `Start`, the `sync.RWMutex` and the random choice of `select` among ready channels: each method runs atomically, and the order of `select` choices is the event sequence given to `Work`.
- `time.NewTicker` and durations: only whether the duration is positive (a ticker exists) is kept; tick times are plain integers.
- `context.Context`: `New` never stores it, so every callback receives a nil context; the model does not pass one.
- The bodies of the user callbacks: their results are inputs (`Reply`).
- The manual-trigger channel `T` (capacity 1) and its blocking sends: a `Manual` event is a payload the loop has received.
- Callers reading the done channel `C`: only the send side in `Shutdown` is modelled.
- Error construction with `github.com/pkg/errors`: errors are an enumeration (`LifecycleError`), not their texts.
- examples/simple.go is not part of this model (demo wiring that does not match the package API).
