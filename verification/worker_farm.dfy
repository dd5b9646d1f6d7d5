/** The pool manager: an ordered list of task workers, a FIFO queue of tasks waiting for a worker,
    a counter of pending layoffs and a `closing` flag. Every handler is a transition returning the
    new farm and the effects it performs, in order. */
module WorkerFarm {
  import opened Wrappers
  import opened Protocol
  import Seqs
  import TaskWorker

  type Worker = TaskWorker.Worker

  /** The options. `None` is the `Infinity` default of a limit; `maxConcurrentWorkers` defaults to
      the host's CPU count, which is taken as given. */
  datatype Config = Config(
    modulePath: string,
    maxConcurrentWorkers: nat,
    maxConcurrentCalls: Option<nat>,
    maxCallTime: Option<nat>,
    maxRetries: Option<nat>,
    autoStart: bool)

  datatype Farm = Farm(
    config: Config,
    workers: seq<Worker>,
    tasks: seq<Task>,
    layoffs: nat,
    closing: bool,
    nextWorkerId: WorkerId,
    nextTaskId: TaskId)

  /** Why a task's promise is rejected. */
  datatype Reason = Closing | TooManyCalls | RetriesExhausted | TaskFailed(error: Value)

  /** What `addWorker` throws. */
  datatype Fault = TooManyWorkers | FarmClosing

  /** The events the farm emits to the application. */
  datatype Signal =
    | WorkerAdd(worker: WorkerId)
    | WorkerLeave(worker: WorkerId)
    | WorkerError(worker: WorkerId, fault: TaskWorker.Fault)
    | Retry(task: TaskId)
    | Close

  /** `Dispatch(w, t)` is `w.run(t)`; `Dismiss(w)` is `w.dismiss()`; `Resolve`/`Reject` settle the
      promise `run` returned for a task; `Uncaught` is an exception escaping a worker's handler. */
  datatype Effect =
    | Dispatch(worker: WorkerId, task: Task)
    | Dismiss(worker: WorkerId)
    | Resolve(call: TaskId, result: Value)
    | Reject(call: TaskId, reason: Reason)
    | Emit(signal: Signal)
    | Uncaught(worker: WorkerId)

  datatype Step = Step(farm: Farm, effects: seq<Effect>)

  // ---------------------------------------------------------------------------------------------
  // Invariant

  /** The farm's reachable states:
      - never more workers than `maxConcurrentWorkers`;
      - workers have distinct identities below `nextWorkerId`, and each is a valid task worker;
      - every task in flight or queued has an identity below `nextTaskId`, and no identity is in
        two places: a task is held by at most one worker, or queued once, never both. */
  predicate Valid(f: Farm)
  {
    && |f.workers| <= f.config.maxConcurrentWorkers
    && WorkersValid(f.workers, f.nextWorkerId)
    && TasksValid(f)
  }

  predicate WorkersValid(ws: seq<Worker>, nextWorkerId: WorkerId)
  {
    && (forall i :: 0 <= i < |ws| ==> ws[i].id < nextWorkerId && TaskWorker.Valid(ws[i]))
    && (forall i, j :: 0 <= i < |ws| && 0 <= j < |ws| && i != j ==> ws[i].id != ws[j].id)
  }

  predicate TasksValid(f: Farm)
  {
    var ws, ts := f.workers, f.tasks;
    && (forall i :: 0 <= i < |ws| && ws[i].currentTask.Some? ==> ws[i].currentTask.value.id < f.nextTaskId)
    && (forall k :: 0 <= k < |ts| ==> ts[k].id < f.nextTaskId)
    && (forall i, j :: 0 <= i < |ws| && 0 <= j < |ws| && i != j && ws[i].currentTask.Some? && ws[j].currentTask.Some?
          ==> ws[i].currentTask.value.id != ws[j].currentTask.value.id)
    && (forall k, l :: 0 <= k < |ts| && 0 <= l < |ts| && k != l ==> ts[k].id != ts[l].id)
    && (forall i, k :: 0 <= i < |ws| && 0 <= k < |ts| && ws[i].currentTask.Some?
          ==> ws[i].currentTask.value.id != ts[k].id)
  }

  /** The task with identity `id` is held by a worker or waits in the queue. */
  predicate Placed(f: Farm, id: TaskId)
  {
    || (exists i :: 0 <= i < |f.workers| && f.workers[i].currentTask.Some? && f.workers[i].currentTask.value.id == id)
    || (exists k :: 0 <= k < |f.tasks| && f.tasks[k].id == id)
  }

  // ---------------------------------------------------------------------------------------------
  // Selection helpers

  /** Selected by `layoff` and `close`: `!w.currentTask`, the complement of what `run` counts. */
  predicate Taskless(w: Worker)
  {
    !TaskWorker.HasTask(w)
  }

  function IsWorker(wid: WorkerId): Worker -> bool
  {
    (w: Worker) => w.id == wid
  }

  function OtherThan(wid: WorkerId): Worker -> bool
  {
    (w: Worker) => w.id != wid
  }

  /** `workers.indexOf(worker)`, by identity. */
  function IndexOfWorker(ws: seq<Worker>, wid: WorkerId): (i: int)
    ensures -1 <= i < |ws|
    ensures 0 <= i ==> ws[i].id == wid
    ensures i == -1 <==> forall j :: 0 <= j < |ws| ==> ws[j].id != wid
  {
    Seqs.FindIndex(ws, IsWorker(wid))
  }

  /** In-flight plus queued calls, as `run` counts them. */
  function ConcurrentCalls(f: Farm): nat
  {
    |Seqs.Filter(f.workers, TaskWorker.HasTask)| + |f.tasks|
  }

  /** One `dismiss` per worker, in list order. */
  function DismissEach(ws: seq<Worker>): (r: seq<Effect>)
    ensures |r| == |ws|
    ensures forall i :: 0 <= i < |ws| ==> r[i] == Dismiss(ws[i].id)
  {
    if |ws| == 0 then [] else [Dismiss(ws[0].id)] + DismissEach(ws[1..])
  }

  // ---------------------------------------------------------------------------------------------
  // Construction and growth

  function Empty(config: Config): (f: Farm)
    ensures Valid(f) && f.workers == [] && f.tasks == [] && !f.closing && f.layoffs == 0
  {
    Farm(config, [], [], 0, false, 0, 0)
  }

  /** `addWorker()`: throws when the farm is full (checked first) or closing; otherwise appends
      exactly one new worker, which starts busy and without a task, and emits `workerAdd`. */
  function AddWorker(f: Farm): (r: Result<Step, Fault>)
    ensures |f.workers| >= f.config.maxConcurrentWorkers ==> r == Failure(TooManyWorkers)
    ensures |f.workers| < f.config.maxConcurrentWorkers && f.closing ==> r == Failure(FarmClosing)
    ensures |f.workers| < f.config.maxConcurrentWorkers && !f.closing ==>
      && r.Success?
      && var w := TaskWorker.New(f.nextWorkerId, f.config.modulePath, f.config.maxCallTime).worker;
      && r.value.farm == f.(workers := f.workers + [w], nextWorkerId := f.nextWorkerId + 1)
      && r.value.effects == [Emit(WorkerAdd(w.id))]
      && (Valid(f) ==> forall i :: 0 <= i < |f.workers| ==> f.workers[i].id != w.id)
    ensures r.Success? ==> |r.value.farm.workers| <= f.config.maxConcurrentWorkers
    ensures r.Success? && Valid(f) ==> Valid(r.value.farm)
  {
    if |f.workers| >= f.config.maxConcurrentWorkers then Failure(TooManyWorkers)
    else if f.closing then Failure(FarmClosing)
    else
      var w := TaskWorker.New(f.nextWorkerId, f.config.modulePath, f.config.maxCallTime).worker;
      Success(Step(f.(workers := f.workers + [w], nextWorkerId := f.nextWorkerId + 1),
                   [Emit(WorkerAdd(w.id))]))
  }

  /** A worker exactly as `addWorker` creates it. */
  predicate Fresh(f: Farm, w: Worker)
  {
    && w.modulePath == f.config.modulePath && w.maxCallTime == f.config.maxCallTime
    && w.busy && w.currentTask.None? && !w.left
  }

  /** `fillUp()`: call `addWorker` until the farm holds `maxConcurrentWorkers` workers. A closing
      farm below that size throws on the first call and is left unchanged. */
  method FillUp(f: Farm) returns (r: Result<Step, Fault>)
    ensures |f.workers| >= f.config.maxConcurrentWorkers ==> r == Success(Step(f, []))
    ensures |f.workers| < f.config.maxConcurrentWorkers && f.closing ==> r == Failure(FarmClosing)
    ensures |f.workers| < f.config.maxConcurrentWorkers && !f.closing ==>
      && r.Success?
      && var g := r.value.farm;
      && |g.workers| == f.config.maxConcurrentWorkers
      && g.workers[..|f.workers|] == f.workers
      && |r.value.effects| == |g.workers| - |f.workers|
      && (forall i :: |f.workers| <= i < |g.workers| ==>
            Fresh(f, g.workers[i]) && r.value.effects[i - |f.workers|] == Emit(WorkerAdd(g.workers[i].id)))
      && g.tasks == f.tasks && g.layoffs == f.layoffs && g.closing == f.closing && g.config == f.config
    ensures r.Success? && Valid(f) ==> Valid(r.value.farm)
  {
    var cur := f;
    var effects: seq<Effect> := [];
    var i := |f.workers|;
    while i < f.config.maxConcurrentWorkers
      invariant |f.workers| < f.config.maxConcurrentWorkers ==> i <= f.config.maxConcurrentWorkers
      invariant |f.workers| >= f.config.maxConcurrentWorkers ==> cur == f && effects == []
      invariant i == |cur.workers| && |f.workers| <= i
      invariant f.closing ==> i == |f.workers|
      invariant cur.workers[..|f.workers|] == f.workers
      invariant cur.config == f.config && cur.tasks == f.tasks && cur.layoffs == f.layoffs && cur.closing == f.closing
      invariant |effects| == i - |f.workers|
      invariant forall j :: |f.workers| <= j < i ==>
        Fresh(f, cur.workers[j]) && effects[j - |f.workers|] == Emit(WorkerAdd(cur.workers[j].id))
      invariant Valid(f) ==> Valid(cur)
    {
      var a := AddWorker(cur);
      if a.Failure? {
        return Failure(a.error);
      }
      cur := a.value.farm;
      effects := effects + a.value.effects;
      i := i + 1;
    }
    return Success(Step(cur, effects));
  }

  /** The constructor: an empty farm, filled up when `autoStart` is set. */
  method Create(config: Config) returns (r: Step)
    ensures Valid(r.farm) && r.farm.tasks == [] && !r.farm.closing && r.farm.layoffs == 0
    ensures |r.farm.workers| == (if config.autoStart then config.maxConcurrentWorkers else 0)
    ensures forall i :: 0 <= i < |r.farm.workers| ==> !TaskWorker.IsIdle(r.farm.workers[i])
  {
    var f := Empty(config);
    if !config.autoStart {
      return Step(f, []);
    }
    var filled := FillUp(f);
    return filled.value;
  }

  // ---------------------------------------------------------------------------------------------
  // Shrinking and shutting down

  /** `layoff()`: dismiss the first worker without a task if there is one (it may still be busy
      starting up), otherwise remember to dismiss the next worker that goes idle. */
  function Layoff(f: Farm): (r: Step)
    ensures (exists i :: 0 <= i < |f.workers| && Taskless(f.workers[i])) ==>
      && r.farm == f
      && exists i :: 0 <= i < |f.workers| && Taskless(f.workers[i])
                   && (forall j :: 0 <= j < i ==> !Taskless(f.workers[j]))
                   && r.effects == [Dismiss(f.workers[i].id)]
    ensures (forall i :: 0 <= i < |f.workers| ==> !Taskless(f.workers[i])) ==>
      r == Step(f.(layoffs := f.layoffs + 1), [])
  {
    var i := Seqs.FindIndex(f.workers, Taskless);
    if i >= 0 then Step(f, [Dismiss(f.workers[i].id)])
    else Step(f.(layoffs := f.layoffs + 1), [])
  }

  /** `close()`: stop accepting calls and dismiss every worker that holds no task; the others are
      dismissed when they next go idle. */
  function CloseFarm(f: Farm): (r: Step)
    ensures r.farm == f.(closing := true)
    ensures r.effects == DismissEach(Seqs.Filter(f.workers, Taskless))
  {
    Step(f.(closing := true), DismissEach(Seqs.Filter(f.workers, Taskless)))
  }

  /** `destroy()`: stop accepting calls and dismiss every worker, busy or not. */
  function Destroy(f: Farm): (r: Step)
    ensures r.farm == f.(closing := true)
    ensures |r.effects| == |f.workers|
    ensures forall i :: 0 <= i < |f.workers| ==> r.effects[i] == Dismiss(f.workers[i].id)
  {
    Step(f.(closing := true), DismissEach(f.workers))
  }

  // ---------------------------------------------------------------------------------------------
  // Submitting and dispatching

  /** `_runTask(task)`: give the task to the first worker that is not busy, leaving the queue alone;
      when every worker is busy, append the task to the queue. */
  function RunTask(f: Farm, t: Task): (r: Step)
    ensures (exists i :: 0 <= i < |f.workers| && TaskWorker.IsIdle(f.workers[i])) ==>
      exists i :: 0 <= i < |f.workers| && TaskWorker.IsIdle(f.workers[i])
        && (forall j :: 0 <= j < i ==> !TaskWorker.IsIdle(f.workers[j]))
        && r.farm == f.(workers := f.workers[i := f.workers[i].(busy := true, currentTask := Some(t))])
        && r.effects == [Dispatch(f.workers[i].id, t)]
    ensures (forall i :: 0 <= i < |f.workers| ==> !TaskWorker.IsIdle(f.workers[i])) ==>
      r == Step(f.(tasks := f.tasks + [t]), [])
  {
    var i := Seqs.FindIndex(f.workers, TaskWorker.IsIdle);
    if i >= 0 then
      Step(f.(workers := f.workers[i := TaskWorker.Run(f.workers[i], t).worker]), [Dispatch(f.workers[i].id, t)])
    else Step(f.(tasks := f.tasks + [t]), [])
  }

  /** `run(args, method)`: each call gets a fresh task identity. A closing farm rejects it; so does
      one whose in-flight plus queued calls already EXCEED `maxConcurrentCalls` (strictly, so one
      call beyond the limit is admitted); otherwise a task with no retries is dispatched. */
  function Run(f: Farm, args: seq<Value>, methodName: Option<string>): (r: Step)
    ensures r.farm.config == f.config && r.farm.closing == f.closing && r.farm.layoffs == f.layoffs
    ensures r.farm.nextTaskId == f.nextTaskId + 1
    ensures f.closing ==> r.effects == [Reject(f.nextTaskId, Closing)] && r.farm.workers == f.workers && r.farm.tasks == f.tasks
    ensures !f.closing && Exceeds(ConcurrentCalls(f), f.config.maxConcurrentCalls) ==>
      r.effects == [Reject(f.nextTaskId, TooManyCalls)] && r.farm.workers == f.workers && r.farm.tasks == f.tasks
    ensures !f.closing && !Exceeds(ConcurrentCalls(f), f.config.maxConcurrentCalls) ==>
      r == RunTask(f.(nextTaskId := f.nextTaskId + 1), Task(f.nextTaskId, args, methodName, 0))
  {
    var id := f.nextTaskId;
    var f1 := f.(nextTaskId := id + 1);
    if f.closing then Step(f1, [Reject(id, Closing)])
    else if Exceeds(ConcurrentCalls(f), f.config.maxConcurrentCalls) then Step(f1, [Reject(id, TooManyCalls)])
    else RunTask(f1, Task(id, args, methodName, 0))
  }

  /** `worker.run(task)` on the worker with identity `wid`, wherever it is in the list. */
  function RunOn(f: Farm, wid: WorkerId, t: Task): (r: Step)
    ensures r.effects == [Dispatch(wid, t)]
    ensures r.farm == f.(workers := r.farm.workers)
    ensures var i := IndexOfWorker(f.workers, wid);
      r.farm.workers == if i >= 0 then f.workers[i := f.workers[i].(busy := true, currentTask := Some(t))] else f.workers
  {
    var i := IndexOfWorker(f.workers, wid);
    var ws := if i >= 0 then f.workers[i := TaskWorker.Run(f.workers[i], t).worker] else f.workers;
    Step(f.(workers := ws), [Dispatch(wid, t)])
  }

  /** `_onIdle(worker)`: the queue head is ALWAYS shifted off first. Then a pending layoff dismisses
      the worker (and the shifted task is dropped); otherwise the head, if any, runs on the worker;
      otherwise a closing farm dismisses the worker. */
  function OnIdle(f: Farm, wid: WorkerId): (r: Step)
    ensures r.farm.tasks == if |f.tasks| > 0 then f.tasks[1..] else []
    ensures r.farm.config == f.config && r.farm.closing == f.closing
    ensures r.farm.nextTaskId == f.nextTaskId && r.farm.nextWorkerId == f.nextWorkerId
    ensures f.layoffs > 0 ==>
      r.effects == [Dismiss(wid)] && r.farm.layoffs == f.layoffs - 1 && r.farm.workers == f.workers
    ensures f.layoffs == 0 && |f.tasks| > 0 ==>
      r.effects == [Dispatch(wid, f.tasks[0])] && r.farm.layoffs == 0
      && r.farm.workers == RunOn(f, wid, f.tasks[0]).farm.workers
    ensures f.layoffs == 0 && |f.tasks| == 0 ==>
      r.farm == f && r.effects == (if f.closing then [Dismiss(wid)] else [])
  {
    var head := if |f.tasks| > 0 then Some(f.tasks[0]) else None;
    var f1 := f.(tasks := if |f.tasks| > 0 then f.tasks[1..] else []);
    if f.layoffs > 0 then Step(f1.(layoffs := f.layoffs - 1), [Dismiss(wid)])
    else if head.Some? then RunOn(f1, wid, head.value)
    else if f.closing then Step(f1, [Dismiss(wid)])
    else Step(f1, [])
  }

  /** `_onDisconnect(task)`: nothing to do without a task. Otherwise its retry count goes up by one;
      past `maxRetries` it is rejected, else `retry` is emitted and it is dispatched again. */
  function OnDisconnect(f: Farm, last: Option<Task>): (r: Step)
    ensures last.None? ==> r == Step(f, [])
    ensures last.Some? && Exceeds(last.value.retries + 1, f.config.maxRetries) ==>
      r == Step(f, [Reject(last.value.id, RetriesExhausted)])
    ensures last.Some? && !Exceeds(last.value.retries + 1, f.config.maxRetries) ==>
      var again := RunTask(f, last.value.(retries := last.value.retries + 1));
      r == Step(again.farm, [Emit(Retry(last.value.id))] + again.effects)
  {
    match last
    case None => Step(f, [])
    case Some(t) =>
      var t' := t.(retries := t.retries + 1);
      if Exceeds(t'.retries, f.config.maxRetries) then Step(f, [Reject(t.id, RetriesExhausted)])
      else
        var again := RunTask(f, t');
        Step(again.farm, [Emit(Retry(t.id))] + again.effects)
  }

  /** `_onLeave(worker)`: `workers.splice(workers.indexOf(worker), 1)`, emit `workerLeave`, and
      `close` once no worker is left. */
  function OnLeave(f: Farm, wid: WorkerId): (r: Step)
    ensures r.farm == f.(workers := r.farm.workers)
    ensures r.effects == [Emit(WorkerLeave(wid))] + (if |r.farm.workers| == 0 then [Emit(Close)] else [])
    ensures |f.workers| > 0 ==> |r.farm.workers| == |f.workers| - 1
    ensures IndexOfWorker(f.workers, wid) == -1 && |f.workers| > 0 ==>
      r.farm.workers == f.workers[..|f.workers| - 1]
  {
    var ws := Seqs.SpliceOne(f.workers, IndexOfWorker(f.workers, wid));
    Step(f.(workers := ws), [Emit(WorkerLeave(wid))] + (if |ws| == 0 then [Emit(Close)] else []))
  }

  /** On a farm whose workers have distinct identities, `_onLeave` removes exactly the departing
      worker and keeps the others in their order. */
  lemma LeaveRemovesExactly(f: Farm, wid: WorkerId)
    requires WorkersValid(f.workers, f.nextWorkerId) && IndexOfWorker(f.workers, wid) >= 0
    ensures OnLeave(f, wid).farm.workers == Seqs.Filter(f.workers, OtherThan(wid))
  {
    var ws := f.workers;
    var k := IndexOfWorker(ws, wid);
    forall j | 0 <= j < |ws| && j != k
      ensures OtherThan(wid)(ws[j])
    {
      assert ws[j].id != ws[k].id;
    }
    Seqs.RemoveAtIsFilter(ws, k, OtherThan(wid));
    assert OnLeave(f, wid).farm.workers == ws[..k] + ws[k + 1..];
  }

  /** `_onWorkerError(error, worker)`: forwarded to the application. */
  function OnWorkerError(f: Farm, wid: WorkerId, fault: TaskWorker.Fault): (r: Step)
    ensures r.farm == f && r.effects == [Emit(WorkerError(wid, fault))]
  {
    Step(f, [Emit(WorkerError(wid, fault))])
  }

  // ---------------------------------------------------------------------------------------------
  // A worker's events as the farm sees them: the worker's own handler runs first, then the
  // listener `addWorker` attached to the signal it emitted.

  /** The part of a worker's effects that reaches the application: settled promises, forwarded
      errors and escaping exceptions. Heart, hero and IPC effects stay inside the worker. */
  function Surface(wid: WorkerId, es: seq<TaskWorker.Effect>): (r: seq<Effect>)
    ensures |r| <= |es|
  {
    if |es| == 0 then [] else SurfaceOne(wid, es[0]) + Surface(wid, es[1..])
  }

  function SurfaceOne(wid: WorkerId, e: TaskWorker.Effect): seq<Effect>
  {
    match e
    case Resolve(t, v) => [Resolve(t, v)]
    case Reject(t, err) => [Reject(t, TaskFailed(err))]
    case Throw => [Uncaught(wid)]
    case Emit(WorkerError(fault)) => [Emit(WorkerError(wid, fault))]
    case _ => []
  }

  lemma SurfaceTwo(wid: WorkerId, a: TaskWorker.Effect, b: TaskWorker.Effect)
    ensures Surface(wid, [a, b]) == SurfaceOne(wid, a) + SurfaceOne(wid, b)
  {
    assert [a, b][1..] == [b];
    assert [b][1..] == [];
  }

  lemma SurfaceThree(wid: WorkerId, a: TaskWorker.Effect, b: TaskWorker.Effect, c: TaskWorker.Effect)
    ensures Surface(wid, [a, b, c]) == SurfaceOne(wid, a) + SurfaceOne(wid, b) + SurfaceOne(wid, c)
  {
    assert [a, b, c][1..] == [b, c];
    SurfaceTwo(wid, b, c);
  }

  /** The worker `wid` received `msg` from its child. What follows for each kind of message is
      stated by the lemmas after this function. */
  function HandleMessage(f: Farm, wid: WorkerId, msg: Reply): (r: Step)
    ensures IndexOfWorker(f.workers, wid) == -1 ==> r == Step(f, [])
  {
    var i := IndexOfWorker(f.workers, wid);
    if i < 0 then Step(f, [])
    else
      var s := TaskWorker.OnMessage(f.workers[i], msg);
      var f1 := f.(workers := f.workers[i := s.worker]);
      var surfaced := Surface(wid, s.effects);
      if TaskWorker.Emit(TaskWorker.Idle) in s.effects then
        var idle := OnIdle(f1, wid);
        Step(idle.farm, surfaced + idle.effects)
      else
        Step(f1, surfaced)
  }

  /** The farm with worker `i` made idle by its `_onIdle`. */
  function IdleAt(f: Farm, i: nat): Farm
    requires i < |f.workers|
  {
    f.(workers := f.workers[i := f.workers[i].(busy := false, currentTask := None)])
  }

  /** `ready` from a registered worker runs the farm's idle policy on it. */
  lemma HandleReady(f: Farm, wid: WorkerId)
    requires IndexOfWorker(f.workers, wid) >= 0
    ensures var i := IndexOfWorker(f.workers, wid);
      HandleMessage(f, wid, Ready) == OnIdle(IdleAt(f, i), wid)
  {
    var i := IndexOfWorker(f.workers, wid);
    var s := TaskWorker.OnMessage(f.workers[i], Ready);
    SurfaceTwo(wid, s.effects[0], s.effects[1]);
  }

  /** `result`/`error` from a worker with a task in flight settles exactly that task with the
      payload, before the idle policy runs on the worker. */
  lemma HandleReply(f: Farm, wid: WorkerId, msg: Reply)
    requires msg.Result? || msg.Error?
    requires IndexOfWorker(f.workers, wid) >= 0
    requires f.workers[IndexOfWorker(f.workers, wid)].currentTask.Some?
    ensures var i := IndexOfWorker(f.workers, wid);
      var id := f.workers[i].currentTask.value.id;
      var idle := OnIdle(IdleAt(f, i), wid);
      HandleMessage(f, wid, msg)
        == Step(idle.farm, [if msg.Result? then Resolve(id, msg.result) else Reject(id, TaskFailed(msg.error))]
                           + idle.effects)
  {
    var i := IndexOfWorker(f.workers, wid);
    var w := f.workers[i];
    var id := w.currentTask.value.id;
    var s := TaskWorker.OnMessage(w, msg);
    var settle := if msg.Result? then TaskWorker.Resolve(id, msg.result) else TaskWorker.Reject(id, msg.error);
    assert s.effects == [TaskWorker.BeatHeart, settle, TaskWorker.Emit(TaskWorker.Idle)];
    assert s.worker == w.(busy := false, currentTask := None);
    SurfaceThree(wid, TaskWorker.BeatHeart, settle, TaskWorker.Emit(TaskWorker.Idle));
    var surfaced := if msg.Result? then Resolve(id, msg.result) else Reject(id, TaskFailed(msg.error));
    assert Surface(wid, s.effects) == [surfaced];
    assert TaskWorker.Emit(TaskWorker.Idle) in s.effects;
    var f1 := f.(workers := f.workers[i := s.worker]);
    assert f1 == IdleAt(f, i);
    var idle := OnIdle(f1, wid);
    assert HandleMessage(f, wid, msg) == Step(idle.farm, [surfaced] + idle.effects);
  }

  /** A heartbeat (or any unknown message) changes nothing at the farm. */
  lemma HandlePing(f: Farm, wid: WorkerId, msg: Reply)
    requires msg.Heartbeat? || msg.Other?
    ensures HandleMessage(f, wid, msg) == Step(f, [])
  {
    var i := IndexOfWorker(f.workers, wid);
    if i >= 0 {
      var s := TaskWorker.OnMessage(f.workers[i], msg);
      assert s.effects == [TaskWorker.BeatHeart];
      assert f.workers[i := s.worker] == f.workers;
    }
  }

  /** A `result`/`error` with no task in flight throws out of the worker's handler. */
  lemma HandleStrayReply(f: Farm, wid: WorkerId, msg: Reply)
    requires msg.Result? || msg.Error?
    requires IndexOfWorker(f.workers, wid) >= 0
    requires f.workers[IndexOfWorker(f.workers, wid)].currentTask.None?
    ensures HandleMessage(f, wid, msg) == Step(f, [Uncaught(wid)])
  {
    var i := IndexOfWorker(f.workers, wid);
    var s := TaskWorker.OnMessage(f.workers[i], msg);
    SurfaceTwo(wid, s.effects[0], s.effects[1]);
    assert f.workers[i := s.worker] == f.workers;
  }

  /** The child of worker `wid` disconnected while its listeners were attached: the worker hands
      back its task, if any, and the farm retries or rejects it. */
  function HandleDisconnect(f: Farm, wid: WorkerId): (r: Step)
    ensures IndexOfWorker(f.workers, wid) == -1 ==> r == Step(f, [])
    ensures var i := IndexOfWorker(f.workers, wid);
      0 <= i ==>
        r == OnDisconnect(f.(workers := f.workers[i := f.workers[i].(busy := true, currentTask := None)]),
                          f.workers[i].currentTask)
  {
    var i := IndexOfWorker(f.workers, wid);
    if i < 0 then Step(f, [])
    else
      var s := TaskWorker.OnDisconnect(f.workers[i]);
      var f1 := f.(workers := f.workers[i := s.worker]);
      OnDisconnect(f1, s.effects[0].signal.lastTask)
  }

  /** Worker `wid` is gone for good (its hero emitted `leave` after a dismissal). The worker's
      handler runs once; the farm then removes it. */
  function HandleLeave(f: Farm, wid: WorkerId): (r: Step)
    ensures IndexOfWorker(f.workers, wid) == -1 ==> r == Step(f, [])
    ensures var i := IndexOfWorker(f.workers, wid);
      0 <= i && f.workers[i].left ==> r == Step(f, [])
    ensures var i := IndexOfWorker(f.workers, wid);
      0 <= i && !f.workers[i].left ==> r == OnLeave(f.(workers := f.workers[i := f.workers[i].(left := true)]), wid)
  {
    var i := IndexOfWorker(f.workers, wid);
    if i < 0 then Step(f, [])
    else
      var s := TaskWorker.OnLeave(f.workers[i]);
      var f1 := f.(workers := f.workers[i := s.worker]);
      if TaskWorker.Emit(TaskWorker.Leave) in s.effects then OnLeave(f1, wid)
      else Step(f1, [])
  }
}
