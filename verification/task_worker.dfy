/** One schedulable worker: a heart and a hero composed into a machine over `busy` and
    `currentTask`. The heart and the hero are addressed through effects; the handlers below are
    the reactions to their signals. */
module TaskWorker {
  import opened Wrappers
  import opened Protocol

  /** `modulePath` and `maxCallTime` are the options the worker was built with; `left` records that
      the one-shot `leave` handler already ran. */
  datatype Worker = Worker(
    id: WorkerId,
    modulePath: string,
    maxCallTime: Option<nat>,
    busy: bool,
    currentTask: Option<Task>,
    left: bool)

  datatype Fault = HeartbeatTimeout | ChildError(error: Value)

  /** The events a worker emits to its farm. */
  datatype Signal = Idle | Disconnect(lastTask: Option<Task>) | Leave | WorkerError(fault: Fault)

  /** `Resolve`/`Reject` settle a task's promise; `Throw` is the TypeError of settling a task when
      none is in flight. */
  datatype Effect =
    | RegisterHeart(maxHP: Option<nat>)
    | StartHero
    | Send(request: Request)
    | BeatHeart
    | CloseHeart
    | KillHero
    | DismissHero
    | Resolve(task: TaskId, result: Value)
    | Reject(task: TaskId, error: Value)
    | Emit(signal: Signal)
    | Throw

  datatype Step = Step(worker: Worker, effects: seq<Effect>)

  /** A worker with a task in flight is busy. */
  predicate Valid(w: Worker)
  {
    w.currentTask.Some? ==> w.busy
  }

  /** Not available for dispatch (`_runTask` picks `!busy`). */
  predicate IsIdle(w: Worker)
  {
    !w.busy
  }

  /** Counted as idle by `layoff`/`close` (`!currentTask`), and as a concurrent call otherwise. */
  predicate HasTask(w: Worker)
  {
    w.currentTask.Some?
  }

  /** The constructor: the worker starts busy with no task, registers its heart and starts its hero. */
  function New(id: WorkerId, modulePath: string, maxCallTime: Option<nat>): (r: Step)
    ensures r.worker.id == id && r.worker.modulePath == modulePath && r.worker.maxCallTime == maxCallTime
    ensures r.worker.busy && r.worker.currentTask.None? && !r.worker.left
    ensures !IsIdle(r.worker) && !HasTask(r.worker) && Valid(r.worker)
    ensures r.effects == [RegisterHeart(maxCallTime), StartHero]
  {
    Step(Worker(id, modulePath, maxCallTime, true, None, false), [RegisterHeart(maxCallTime), StartHero])
  }

  /** `run(task)`: the worker becomes busy with `task` and sends exactly one `run` request. */
  function Run(w: Worker, task: Task): (r: Step)
    ensures r.worker == w.(busy := true, currentTask := Some(task))
    ensures r.effects == [Send(Request.Run(task.methodName, task.args))]
    ensures Valid(r.worker) && HasTask(r.worker)
  {
    Step(w.(busy := true, currentTask := Some(task)), [Send(Request.Run(task.methodName, task.args))])
  }

  /** `dismiss()`: delegated to the hero; the worker's own state is untouched. */
  function Dismiss(w: Worker): (r: Step)
    ensures r.worker == w && r.effects == [DismissHero]
  {
    Step(w, [DismissHero])
  }

  /** `_onSpawn`: initialise the new child with the module and the call timeout, then give it a full
      grace period by beating the heart. */
  function OnSpawn(w: Worker): (r: Step)
    ensures r.worker == w
    ensures r.effects == [Send(Init(w.modulePath, w.maxCallTime)), BeatHeart]
  {
    Step(w, [Send(Init(w.modulePath, w.maxCallTime)), BeatHeart])
  }

  /** `_onTimeout`: report the timeout and kill the child, without dismissing the hero. */
  function OnTimeout(w: Worker): (r: Step)
    ensures r.worker == w
    ensures r.effects == [Emit(WorkerError(HeartbeatTimeout)), KillHero]
    ensures DismissHero !in r.effects
  {
    Step(w, [Emit(WorkerError(HeartbeatTimeout)), KillHero])
  }

  /** `_onError`: forward the hero's `workerError`. */
  function OnError(w: Worker, error: Value): (r: Step)
    ensures r.worker == w && r.effects == [Emit(WorkerError(ChildError(error)))]
  {
    Step(w, [Emit(WorkerError(ChildError(error)))])
  }

  /** `_onIdle`: ready for work. */
  function GoIdle(w: Worker): (r: Step)
    ensures IsIdle(r.worker) && !HasTask(r.worker) && Valid(r.worker)
    ensures r.worker.id == w.id && r.worker.left == w.left
    ensures r.worker == w.(busy := false, currentTask := None)
    ensures r.effects == [Emit(Idle)]
  {
    Step(w.(busy := false, currentTask := None), [Emit(Idle)])
  }

  /** `_onMessage`: every message first beats the heart. `ready` makes the worker idle; `result` and
      `error` settle the task in flight with the payload and then make it idle; any other message
      does nothing more. Settling with no task in flight throws before going idle. */
  function OnMessage(w: Worker, msg: Reply): (r: Step)
    ensures |r.effects| >= 1 && r.effects[0] == BeatHeart
    ensures r.worker.id == w.id && r.worker.left == w.left
    ensures msg.Ready? ==>
      && r.effects == [BeatHeart, Emit(Idle)] && IsIdle(r.worker) && !HasTask(r.worker)
      && r.worker == w.(busy := false, currentTask := None)
    ensures (msg.Result? || msg.Error?) && w.currentTask.Some? ==>
      && IsIdle(r.worker) && !HasTask(r.worker)
      && r.worker == w.(busy := false, currentTask := None)
      && r.effects == [BeatHeart,
                       if msg.Result? then Resolve(w.currentTask.value.id, msg.result)
                       else Reject(w.currentTask.value.id, msg.error),
                       Emit(Idle)]
    ensures (msg.Result? || msg.Error?) && w.currentTask.None? ==>
      r.worker == w && r.effects == [BeatHeart, Throw]
    ensures (msg.Heartbeat? || msg.Other?) ==> r.worker == w && r.effects == [BeatHeart]
    ensures Valid(w) ==> Valid(r.worker)
  {
    var rest :=
      match msg
      case Ready => GoIdle(w)
      case Result(v) =>
        if w.currentTask.None? then Step(w, [Throw])
        else
          var idle := GoIdle(w);
          Step(idle.worker, [Resolve(w.currentTask.value.id, v)] + idle.effects)
      case Error(e) =>
        if w.currentTask.None? then Step(w, [Throw])
        else
          var idle := GoIdle(w);
          Step(idle.worker, [Reject(w.currentTask.value.id, e)] + idle.effects)
      case _ => Step(w, []);
    Step(rest.worker, [BeatHeart] + rest.effects)
  }

  /** `_onDisconnect`: the child died. The task in flight (possibly none) is handed back to the farm,
      and the worker is busy until the respawned child reports `ready`. */
  function OnDisconnect(w: Worker): (r: Step)
    ensures r.worker == w.(busy := true, currentTask := None)
    ensures r.effects == [Emit(Disconnect(w.currentTask))]
    ensures Valid(r.worker) && !IsIdle(r.worker) && !HasTask(r.worker)
  {
    Step(w.(busy := true, currentTask := None), [Emit(Disconnect(w.currentTask))])
  }

  /** `_onLeave`, registered with `once`: close the heart and emit `leave`, the first time only. */
  function OnLeave(w: Worker): (r: Step)
    ensures r.worker.left
    ensures r.worker == w.(left := true)
    ensures w.left ==> r.effects == []
    ensures !w.left ==> r.effects == [CloseHeart, Emit(Leave)]
  {
    if w.left then Step(w, []) else Step(w.(left := true), [CloseHeart, Emit(Leave)])
  }

  // ---------------------------------------------------------------------------------------------
  // Properties relating several transitions.

  /** A task handed to `run` is settled by the next `result` or `error` with exactly that reply's
      payload, and the worker is idle again; a heartbeat in between keeps it in flight. */
  lemma RunThenReply(w: Worker, task: Task, v: Value)
    ensures var busy := Run(w, task).worker;
      && OnMessage(busy, Result(v)).effects == [BeatHeart, Resolve(task.id, v), Emit(Idle)]
      && OnMessage(busy, Error(v)).effects == [BeatHeart, Reject(task.id, v), Emit(Idle)]
      && OnMessage(busy, Heartbeat).worker.currentTask == Some(task)
      && IsIdle(OnMessage(busy, Result(v)).worker)
  {
  }

  /** A task handed to `run` comes back with the next disconnect, and the worker is then neither
      dispatchable nor holding a task. */
  lemma RunThenDisconnect(w: Worker, task: Task)
    ensures var d := OnDisconnect(Run(w, task).worker);
      && d.effects == [Emit(Disconnect(Some(task)))]
      && !IsIdle(d.worker) && !HasTask(d.worker)
  {
  }
}
