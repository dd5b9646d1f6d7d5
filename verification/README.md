# worker-farm controller, modelled in Dafny

This project models the controller side of `worker-farm`. That library runs calls of a module's
functions in a pool of child processes. It has four cooperating objects:

- **Heart**: a countdown liveness monitor. `beat` refills it and a shared once-a-second ticker
  `attack`s every live monitor. Reaching exactly zero emits `timeout`.
- **HeroWorker**: a child-process handle that respawns its child on every disconnect until it is
  dismissed. Dismissal ends in one `leave`.
- **TaskWorker**: one schedulable worker that owns a heart and a hero. It tracks `busy` and
  `currentTask`, and reacts to spawn, child messages (`ready`, `result`, `error`, heartbeats),
  disconnects, timeouts and leave. Its requests to the heart and hero are effects; `WorkerUnit`
  carries them out with the `Heart` and `HeroWorker` models.
- **WorkerFarm**: the pool. It has an ordered worker list, a FIFO task queue, a `layoffs` counter
  and a `closing` flag. It covers admission checks, dispatch, the idle policy, retries and removal
  of departed workers.

Every handler is a pure function from a state and an input event to a new state plus the list of
effects it performs, in order. Examples of effects: dispatching a task, dismissing a worker,
settling a call, emitting an event, forking or killing a child. Processes, IPC, timers and promises
are not modelled. Forking, sending and killing become effects, and the child's events and the
ticker become inputs.

Modules, one per file:

| module | file | contents |
|---|---|---|
| `Wrappers` | wrappers.dfy | `Option`, `Result`, and `Exceeds`, the comparison against a limit that may be `Infinity` |
| `Seqs` | seqs.dfy | `findIndex`, `filter` and `splice(i, 1)` with JavaScript's semantics, including a negative start |
| `Protocol` | protocol.dfy | identities, tasks, and the messages exchanged with a child |
| `Heart` | heart.dfy | the monitor, its registry and the ticker |
| `HeroWorker` | hero_worker.dfy | the respawning handle |
| `TaskWorker` | task_worker.dfy | the per-worker machine |
| `WorkerLifecycle` | worker_lifecycle.dfy | a worker and its hero composed: hero signals delivered to the worker's handlers |
| `WorkerUnit` | worker_unit.dfy | a worker wired to its heart in the shared registry and to its hero: its requests are carried out on them, and the ticker's `timeout` reaches the worker |
| `WorkerFarm` | worker_farm.dfy | the pool, and a worker's events as the pool sees them |
| `FarmInvariant` | farm_invariant.dfy | the pool invariant, preserved by every operation and every event sequence |
| `FarmScenarios` | farm_scenarios.dfy | FIFO order, retries, shutdown and the behaviours kept as written |

Encodings:

- The option value `Infinity` is `None`. This covers `maxCallTime`, `maxConcurrentCalls`,
  `maxRetries` and a heart's capacity. A heart's `healthPoint` is `Option<int>`, because a finite
  counter goes negative and `Infinity - 1` is `Infinity`.
- A call's promise is its task identity. Settling it is a `Resolve` or `Reject` effect on that
  identity.
- `maxConcurrentWorkers` is a parameter; the default, the CPU count, is not modelled.

## Behaviour kept as written

These are behaviours of the code that a reader might expect to be otherwise. The model follows
the code and proves each one.

- `_onIdle` shifts the queue head before it looks at pending layoffs. When a layoff is pending,
  the head task is therefore dropped: it is neither run, re-queued nor settled
  (`FarmScenarios.LayoffDropsQueuedTask`).
- `run` compares the current number of calls with `maxConcurrentCalls` using strict `>`, before
  counting the new call. A farm at exactly the limit admits one more call, and with a limit of 1 the
  second concurrent call is admitted as well (`FarmScenarios.RunAdmitsOneBeyondLimit`,
  `FarmScenarios.RunBound`, `FarmScenarios.TwoCallsPassALimitOfOne`). A reader might expect a limit
  of 1 to reject the second concurrent call; the code admits it, and the model follows the code.
- `layoff` and `close` select workers with no `currentTask`, but dispatch selects workers that are
  not `busy`. A worker that is still starting up (busy, no task) can therefore be laid off, yet
  receives no task (`FarmScenarios.FreshWorkerIsIdleForLayoffOnly`).
- `dismiss` removes the hero's `disconnect` listener before it kills the child. A worker that
  `destroy` dismisses while it runs a task therefore never hands that task back. The call is
  neither retried nor settled (`FarmScenarios.DestroyedTaskVanishes`). A reader might expect such
  tasks to come back through the retry path; the code does not do that, and the model follows the
  code.
- A worker that `layoff` or `close` dismisses while idle stays in `workers`, not busy, until its
  child disconnects. `_runTask` selects by `!busy`, so a call made in that window is dispatched to
  the dismissed worker. When the worker leaves, the call is gone: it is neither retried nor settled
  (`FarmScenarios.LaidOffWorkerSwallowsCall`).
- `layoff` does not skip a worker it has already dismissed. While some worker has no task, a
  second `layoff` dismisses that same worker again and records no pending layoff, so two layoffs
  can shrink the pool by only one (`FarmScenarios.RepeatedLayoffHitsSameWorker`).
- `close()` on a heart that is not registered has index -1, and `splice(-1, 1)` removes the last
  registered heart. The farm's `_onLeave` behaves the same way for an unknown worker (`Heart.Close`,
  `WorkerFarm.OnLeave`).
- Calling `send`, `kill` or `dismiss` on a hero before `start` makes the code throw, because the
  child is undefined. So does a `result` or `error` reply with no task in flight. The model
  produces a `Throw` effect for these cases, and the farm surfaces it as `Uncaught`.
- `dismiss` on a hero whose child is still connected adds one `leave` callback per call, so two
  calls give two `leave`s. The worker's `once` handler reacts to the first only
  (`WorkerLifecycle.DismissLeavesOnce`).

## Model

| member | source | states |
|---|---|---|
| Seqs.SpliceOne | src/Heart.js:28 | removing one element at a start index removes exactly that element; a negative start counts from the end, so -1 removes the last element |
| Seqs.RemoveAtIsFilter | src/WorkerFarm.js:172 | when only the element at k fails a predicate, cutting out k equals filtering by the predicate |
| Heart.New | src/Heart.js:8-14 | a new monitor keeps its capacity and starts full |
| Heart.Beat | src/Heart.js:16-18 | whatever the counter held, a beat leaves it full (at `maxHP`, or infinite); identity and capacity are kept |
| Heart.BeatsIdempotent | src/Heart.js:16-18 | any positive number of consecutive beats equals one beat |
| Heart.Attack | src/Heart.js:20-25 | a finite counter drops by exactly one and an infinite one is unchanged; `timeout` fires if and only if the new value is 0 |
| Heart.AttackTimes | src/Heart.js:20-25 | over k consecutive attacks, the (i+1)-th fires if and only if the counter started at i+1, so a countdown fires at most once and then goes negative |
| Heart.BeatThenAttacks | src/Heart.js:16-25 | after a beat with capacity N, `timeout` fires on the N-th attack and no other, and past N the counter is negative |
| Heart.Replay | src/Heart.js:16-25 | any sequence of beats and attacks keeps the monitor's identity, capacity and well-formedness |
| Heart.InfiniteNeverTimesOut | src/Heart.js:12-25 | with the default `Infinity` capacity, no sequence of beats and attacks ever fires `timeout` |
| Heart.Register | src/Heart.js:8-14 | construction appends a full monitor with a fresh identity and keeps the registry's identities distinct |
| Heart.Close | src/Heart.js:27-29 | closing removes one monitor from a non-empty registry; for an unregistered monitor it is the last one |
| Heart.CloseIsFilter | src/Heart.js:27-29 | in a well-formed registry, closing a registered monitor keeps exactly the other monitors, in order |
| Heart.CloseKeepsValid | src/Heart.js:27-29 | closing keeps the registry's identities distinct and fresh |
| Heart.CloseRemovesExactly | src/Heart.js:27-29 | after closing, that monitor is unregistered and every other monitor's registration is unchanged |
| Heart.RegisterThenClose | src/Heart.js:8-29 | registering a monitor and then closing it restores the registry |
| Heart.Tick | src/Heart.js:3-4 | one tick attacks every registered monitor exactly once, in order; the reported timeouts are exactly the monitors whose attack fired |
| Heart.ClosedHeartNeverAttacked | src/Heart.js:3-29 | after a monitor is closed, the ticker neither attacks it nor reports it |
| HeroWorker.New | src/HeroWorker.js:20-28 | a new handle has no child and is not dismissed |
| HeroWorker.Start | src/HeroWorker.js:33-42 | a new child replaces the current one, is connected and has listeners, then `spawn` is emitted; well-formedness is preserved |
| HeroWorker.Create | src/TaskWorker.js:24-31 | a worker's hero is constructed and started, giving a single live child |
| HeroWorker.Send | src/HeroWorker.js:47-49 | a message goes to the current child; without one the call throws |
| HeroWorker.Kill | src/HeroWorker.js:54-56 | kill signals the child and leaves the handle's state alone, so it is never dismissed |
| HeroWorker.Dismiss | src/HeroWorker.js:61-71 | dismissed is set and listeners detached; `leave` now if the child is disconnected, else one more pending `leave`, so leaves emitted plus pending grows by one |
| HeroWorker.OnChildMessage | src/HeroWorker.js:79-81 | a child message is re-emitted only while the listeners are attached |
| HeroWorker.OnChildError | src/HeroWorker.js:83-86 | a child error on a live handle emits `workerError` and then kills the child; a detached handle does nothing |
| HeroWorker.OnChildDisconnect | src/HeroWorker.js:88-95 | every pending `leave` is emitted; a live handle emits `disconnect` and respawns; a dismissed one never does; well-formedness is preserved |
| HeroWorker.SendAfterStart | src/HeroWorker.js:33-64 | after `start`, `send` hands the message to the child instead of failing on a missing child, also once the child was killed or the handle dismissed, since neither clears the child reference |
| HeroWorker.KilledHeroRespawns | src/HeroWorker.js:54-94 | a killed handle that was not dismissed gets a new child and a `spawn` on the next disconnect |
| HeroWorker.DismissThenDisconnectLeavesOnce | src/HeroWorker.js:61-70 | dismissing a connected handle emits no `leave` at once and exactly one when the child disconnects, with no respawn |
| HeroWorker.DismissDisconnectedLeavesNow | src/HeroWorker.js:66-67 | dismissing a handle whose child already disconnected emits exactly one `leave` at once |
| HeroWorker.DismissedHandleIsSilent | src/HeroWorker.js:61-77 | once dismissed, the child's messages, errors and disconnect produce no `message`, `workerError`, `disconnect` or respawn, only pending `leave`s |
| TaskWorker.New | src/TaskWorker.js:12-32 | a new worker is busy with no task, so it cannot be dispatched to and holds no task; it registers its heart and starts its hero |
| TaskWorker.Run | src/TaskWorker.js:34-40 | the worker becomes busy with the task and sends exactly one `run` request carrying the task's method and arguments |
| TaskWorker.Dismiss | src/TaskWorker.js:42-44 | dismissal is delegated to the hero and changes nothing in the worker |
| TaskWorker.OnSpawn | src/TaskWorker.js:49-52 | a new child is sent `init` with the module path and `maxCallTime`, then the heart is beaten |
| TaskWorker.OnTimeout | src/TaskWorker.js:57-60 | a timeout is reported and the hero is killed, never dismissed |
| TaskWorker.GoIdle | src/TaskWorker.js:65-69 | after going idle the worker can be dispatched to, holds no task, and `idle` is emitted; every other field, module path and call time included, is kept |
| TaskWorker.OnDisconnect | src/TaskWorker.js:74-81 | the task in flight, possibly none, is handed back, and the worker is left busy without a task |
| TaskWorker.OnLeave | src/TaskWorker.js:86-89 | the first `leave` closes the heart and emits `leave`; any later one does nothing |
| TaskWorker.OnError | src/TaskWorker.js:94-96 | a hero error is forwarded as the worker's `workerError` |
| TaskWorker.OnMessage | src/TaskWorker.js:101-120 | every message beats the heart first; `ready` idles; `result`/`error` settle the task in flight with the payload then idle; idling changes only `busy` and `currentTask`; others change nothing; a stray reply throws |
| TaskWorker.RunThenReply | src/TaskWorker.js:101-119 | a task given to `run` is settled by the next reply with that reply's payload; a heartbeat in between keeps it in flight |
| TaskWorker.RunThenDisconnect | src/TaskWorker.js:74-81 | a task given to `run` comes back with the next disconnect |
| WorkerLifecycle.ConstructionInitialises | src/TaskWorker.js:21-52 | constructing a worker starts a child whose `spawn` makes the worker send `init` and beat its heart, still without a task |
| WorkerLifecycle.TimeoutRecovers | src/TaskWorker.js:57-81 | after a timeout kills a live hero, the disconnect hands back the task in flight, the respawned child is sent `init` again, and the hero is not dismissed |
| WorkerLifecycle.ChildErrorIsForwarded | src/HeroWorker.js:83-86 | a child error reaches the worker as `workerError` with the same payload, and the hero kills the child |
| WorkerLifecycle.DismissTimesWaits | src/HeroWorker.js:61-70 | each `dismiss` of a connected handle leaves one more pending `leave` and keeps the handle well-formed |
| WorkerLifecycle.DeliverLeaves | src/TaskWorker.js:29 | however many `leave`s the hero emits, the worker reacts to the first only |
| WorkerLifecycle.DismissLeavesOnce | src/TaskWorker.js:42-44 | dismissing a live worker one or more times gives exactly one worker-level `leave` and one heart close when the child disconnects, with no respawn |
| WorkerUnit.TickAttacks | src/Heart.js:3-4 | one tick attacks this worker's heart exactly once, in place, and it stays the only entry with its identity; the ticker reports this heart's timeout exactly when its own attack fires |
| WorkerUnit.FiredIsTimedOut | src/TaskWorker.js:21-22 | the worker hears `timeout` from its own heart exactly when the ticker reports that heart's identity as timed out |
| WorkerUnit.QuietTick | src/Heart.js:20-25 | a tick whose attack on this heart does not fire leaves the worker and hero untouched |
| WorkerUnit.LoudTick | src/TaskWorker.js:21-22 | a tick whose attack on this heart fires runs `_onTimeout`: `workerError` and a kill that the hero carries out |
| WorkerUnit.BeatByIdBeats | src/Heart.js:16-18 | the worker's beat refills its own heart in place, and it stays the only entry with its identity |
| WorkerUnit.ConstructionWires | src/TaskWorker.js:12-52 | constructing a worker appends one full heart of capacity `maxCallTime` to the registry, forks one child and sends it `init` with the module path and call timeout; the worker is busy without a task |
| WorkerUnit.QuietTicks | src/Heart.js:20-25 | while the counter stays above the number of ticks, ticks only lower this heart's counter, one per tick |
| WorkerUnit.FullHeartRunsOut | src/Heart.js:20-25 | from a full heart of capacity n, the first n-1 ticks do nothing and the n-th emits a heartbeat-timeout `workerError` and kills the child |
| WorkerUnit.SilentWorkerIsKilled | src/TaskWorker.js:57-60 | after a beat with finite `maxCallTime` = n, the first n-1 ticks do nothing and the n-th emits a heartbeat-timeout `workerError` and kills the child, without dismissing the hero |
| WorkerUnit.UnboundedHeartNeverKills | src/Heart.js:20-25 | with an infinite `maxCallTime`, no number of ticks ever reaches the worker or its hero |
| WorkerUnit.RunReachesChild | src/TaskWorker.js:34-39 | `run` on a started worker sends the child exactly one `run` request with the task's method and arguments |
| WorkerUnit.ClosedHeartIsQuiet | src/Heart.js:27-29 | once the worker's heart is out of the registry, no tick ever reaches the worker or its hero |
| WorkerUnit.LeaveStopsTheHeart | src/TaskWorker.js:86-89 | dismissing a live worker and then its child's disconnect make the worker close its heart and emit `leave`; the heart leaves the registry and no later tick reaches the worker |
| WorkerFarm.Empty | src/WorkerFarm.js:16-25 | a new farm has no workers, no tasks, no layoffs, is not closing, and is well-formed |
| WorkerFarm.AddWorker | src/WorkerFarm.js:43-59 | fails when full (checked first) or when closing; otherwise appends exactly one new busy, taskless worker with a fresh identity and emits `workerAdd`; the size bound and invariant are preserved |
| WorkerFarm.FillUp | src/WorkerFarm.js:34-38 | from below the maximum the farm ends with exactly `maxConcurrentWorkers` workers, the old ones first and the added ones fresh; at or above it nothing changes; a closing farm below the maximum fails |
| WorkerFarm.Create | src/WorkerFarm.js:16-29 | a new farm is well-formed, has no queued task and holds `maxConcurrentWorkers` starting workers when `autoStart` is set, none otherwise |
| WorkerFarm.Layoff | src/WorkerFarm.js:64-72 | the first worker without a task is dismissed; if there is none, one layoff is recorded |
| WorkerFarm.Run | src/WorkerFarm.js:77-88 | every call gets a fresh identity; a closing farm rejects it; the call is also rejected if and only if the calls in flight plus queued strictly exceed the limit; otherwise a task with zero retries is dispatched |
| WorkerFarm.CloseFarm | src/WorkerFarm.js:93-101 | the farm is closing and the workers without a task are dismissed, in order |
| WorkerFarm.Destroy | src/WorkerFarm.js:106-112 | the farm is closing and every worker is dismissed, in order |
| WorkerFarm.RunTask | src/WorkerFarm.js:118-125 | the task goes to the first worker that is not busy and the queue is unchanged; if every worker is busy, it is appended to the queue |
| WorkerFarm.RunOn | src/WorkerFarm.js:136-138 | the named worker becomes busy with the task, and nothing else in the farm changes |
| WorkerFarm.OnIdle | src/WorkerFarm.js:127-144 | the queue always loses its head; a pending layoff dismisses the worker and uses up one layoff; otherwise the head runs on the worker; with an empty queue a closing farm dismisses it |
| WorkerFarm.OnDisconnect | src/WorkerFarm.js:149-159 | without a task nothing happens; otherwise retries go up by one, and the task is rejected if and only if they exceed `maxRetries`, else `retry` is emitted and the task is dispatched again |
| WorkerFarm.OnWorkerError | src/WorkerFarm.js:164-166 | a worker's error is forwarded with the worker |
| WorkerFarm.OnLeave | src/WorkerFarm.js:171-177 | one worker leaves a non-empty list, `workerLeave` is emitted, and `close` follows if and only if no worker remains; an unknown worker removes the last one |
| WorkerFarm.LeaveRemovesExactly | src/WorkerFarm.js:171-172 | when identities are distinct, exactly the departing worker is removed and the others keep their order |
| WorkerFarm.IndexOfWorker | src/WorkerFarm.js:172 | the index is -1 if and only if no worker has that identity, and otherwise points at it |
| WorkerFarm.HandleMessage | src/WorkerFarm.js:51-52 | a message for a worker not in the farm changes nothing |
| WorkerFarm.HandleReady | src/TaskWorker.js:106-108 | `ready` makes the worker idle and then runs the farm's idle policy on it |
| WorkerFarm.HandleReply | src/TaskWorker.js:110-118 | a reply settles exactly the worker's task with its payload, and then the idle policy runs |
| WorkerFarm.HandlePing | src/TaskWorker.js:101-119 | a heartbeat or unknown message changes nothing at the farm |
| WorkerFarm.HandleStrayReply | src/TaskWorker.js:110-116 | a reply with no task in flight escapes as an uncaught error and changes nothing |
| WorkerFarm.HandleDisconnect | src/WorkerFarm.js:54 | the worker hands its task back and is left busy, then the farm's retry rule is applied to that task |
| WorkerFarm.HandleLeave | src/WorkerFarm.js:55 | a worker's first `leave` removes it from the farm; later ones do nothing |
| FarmInvariant.DropHeadKeepsValid | src/WorkerFarm.js:128 | shifting the queue keeps the invariant, and the shifted task is no longer held or queued anywhere |
| FarmInvariant.RunTaskKeepsValid | src/WorkerFarm.js:118-125 | dispatching an unplaced task keeps the invariant, places it, and adds exactly one concurrent call |
| FarmInvariant.RunKeepsValid | src/WorkerFarm.js:77-88 | `run` keeps the invariant, and an admitted call adds exactly one concurrent call |
| FarmInvariant.OnIdleKeepsValid | src/WorkerFarm.js:127-144 | the idle policy keeps the invariant |
| FarmInvariant.OnDisconnectKeepsValid | src/WorkerFarm.js:149-159 | retrying a handed-back task keeps the invariant |
| FarmInvariant.OnLeaveKeepsValid | src/WorkerFarm.js:171-177 | removing a worker keeps the invariant |
| FarmInvariant.HandleMessageKeepsValid | src/TaskWorker.js:101-120 | any message from any worker keeps the invariant |
| FarmInvariant.HandleDisconnectKeepsValid | src/WorkerFarm.js:54 | a worker's disconnect keeps the invariant |
| FarmInvariant.HandleLeaveKeepsValid | src/WorkerFarm.js:55 | a worker's leave keeps the invariant |
| FarmInvariant.ApplyKeepsValid | src/WorkerFarm.js:34-177 | every operation and event keeps the invariant and the configuration; none clears `closing` |
| FarmInvariant.ReachableIsValid | src/WorkerFarm.js:34-177 | after any sequence of operations and events the farm is well-formed: never more than `maxConcurrentWorkers` workers, and no task is held or queued twice; once closing, it stays closing |
| FarmScenarios.FifoAssignment | src/WorkerFarm.js:127-139 | with no layoff pending, the i-th worker to go idle receives the i-th queued task, and those tasks leave the queue |
| FarmScenarios.SubmitWhileBusy | src/WorkerFarm.js:77-125 | calls made while every worker is busy, and all admitted by `maxConcurrentCalls` (or with no limit), are queued behind the waiting tasks in submission order, with fresh identities and zero retries |
| FarmScenarios.QueueOrderIsSubmissionOrder | src/WorkerFarm.js:77-139 | with no layoff pending, tasks submitted while all workers are busy, and all admitted by the limit, are assigned after the tasks already queued, in submission order, as workers become idle |
| FarmScenarios.LayoffDropsQueuedTask | src/WorkerFarm.js:128-134 | with a layoff pending and a task queued, the idle worker is dismissed and the queue head is no longer held or queued anywhere |
| FarmScenarios.RunAdmitsOneBeyondLimit | src/WorkerFarm.js:81-82 | at exactly `maxConcurrentCalls` concurrent calls, a new call is admitted and the count reaches the limit plus one |
| FarmScenarios.RunBound | src/WorkerFarm.js:81-82 | `run` never raises the count of concurrent calls above the limit plus one |
| FarmScenarios.TwoCallsPassALimitOfOne | src/WorkerFarm.js:77-87 | with `maxConcurrentCalls` = 1, the first two calls on an empty farm are admitted and the third is rejected |
| FarmScenarios.FreshWorkerIsIdleForLayoffOnly | src/WorkerFarm.js:64-125 | on an empty farm, the worker just added (busy, no task) is dismissed by `layoff` and by `close`, but a task is queued rather than given to it |
| FarmScenarios.RetryBudget | src/WorkerFarm.js:149-159 | a handed-back task is rejected if and only if its retry count has reached `maxRetries`; otherwise it is retried with the count raised by one |
| FarmScenarios.UnlimitedRetries | src/WorkerFarm.js:149-159 | with no retry limit, a handed-back task is always retried |
| FarmScenarios.CloseDismissesExactlyTaskless | src/WorkerFarm.js:93-101 | `close` dismisses a worker if and only if it holds no task |
| FarmScenarios.GracefulClose | src/WorkerFarm.js:93-144 | on a farm with one worker running a task, an empty queue and no layoff pending, `close` dismisses nobody; the result is still delivered, and then the worker is dismissed |
| FarmScenarios.DestroyDismissesBusyWorker | src/WorkerFarm.js:93-112 | on a farm whose only worker runs a task, `close` dismisses nobody while `destroy` dismisses that worker at once |
| FarmScenarios.DestroyedTaskVanishes | src/HeroWorker.js:61-77 | after `destroy` and the worker's leave, the task it was running is neither held nor queued, and no effect retries or settles it |
| FarmScenarios.LaidOffWorkerSwallowsCall | src/WorkerFarm.js:64-177 | on a farm with one idle worker and an empty queue, `layoff` dismisses it, the next call is dispatched to it anyway, and after its leave that call is neither held nor queued and the only effects are `workerLeave` and `close` |
| FarmScenarios.RepeatedLayoffHitsSameWorker | src/WorkerFarm.js:64-72 | while some worker has no task, `layoff` changes no state, so a second `layoff` dismisses the same worker again and no layoff is recorded |
| FarmScenarios.AddThenLeave | src/WorkerFarm.js:43-177 | adding a worker and then having it leave restores the worker list |

## Left out

- src/Slave.js, the child side, is not part of this model. Only the shapes of its messages
  matter here, and they are inputs.
- `child_process.fork`, IPC, kill signals and EventEmitter mechanics are not modelled. They become
  effects and input events. A child's `disconnected` flag is modelled as `childConnected`.
- The one-second interval timer and `unref`. A tick is an explicit input (`Heart.Tick`).
- Promises. A call is identified by its task identity, and `resolve`/`reject` are effects.
- The CPU-count default for `maxConcurrentWorkers`, which is a configuration parameter here.
- Error message texts, apart from telling the kinds of error apart.
- Negative or fractional values of `maxCallTime`, `maxConcurrentCalls` and `maxRetries`. The model
  takes natural numbers or `Infinity`.
- `maxConcurrentWorkers` is a natural number. `Infinity`, for which `fillUp` would add workers
  forever, and negative or fractional values are not modelled.
- EventEmitter's throw on an `error` event with no listener is not modelled. Events whose
  listeners were removed are dropped.
- WorkerFarm.HandleMessage: its contract covers only the unknown-worker case. The other cases are
  stated by `WorkerFarm.HandleReady`, `WorkerFarm.HandleReply`, `WorkerFarm.HandlePing` and
  `WorkerFarm.HandleStrayReply`.
- Heart.Replay: its contract states only well-formedness and the trace length. Firing behaviour is
  stated by `Heart.AttackTimes`, `Heart.BeatThenAttacks` and `Heart.InfiniteNeverTimesOut`.
- The farm keeps its workers' state but not their hearts and heroes. The effects that stay inside a
  worker (heart beats, `init` and `run` requests, hero kills) are not passed up to the farm.
  For one worker, `WorkerUnit` carries them out on the `Heart` registry and the `HeroWorker`
  handle, and `WorkerLifecycle` delivers the hero's signals to the worker's handlers. The two steps
  are chained in the lemmas; no single function feeds a hero's signals back automatically.
- `run`'s default arguments (`args = []`, `method = null`) are not modelled as defaults; both are
  passed explicitly, `None` standing for `null`.
