/** The farm's invariant (`WorkerFarm.Valid`) is established by construction and kept by every
    event the farm reacts to; in particular the pool never grows beyond `maxConcurrentWorkers`, and a
    task is never in two places at once. */
module FarmInvariant {
  import opened Wrappers
  import opened Protocol
  import Seqs
  import TaskWorker
  import opened WorkerFarm

  /** Replacing one worker by a valid worker with the same identity keeps the invariant, provided
      the task it now holds, if any, is fresh and held nowhere else. */
  lemma SetWorkerKeepsValid(f: Farm, i: nat, w: Worker)
    requires Valid(f) && i < |f.workers|
    requires w.id == f.workers[i].id && TaskWorker.Valid(w)
    requires w.currentTask.Some? ==>
      && w.currentTask.value.id < f.nextTaskId
      && (forall j :: 0 <= j < |f.workers| && j != i && f.workers[j].currentTask.Some? ==>
            f.workers[j].currentTask.value.id != w.currentTask.value.id)
      && (forall k :: 0 <= k < |f.tasks| ==> f.tasks[k].id != w.currentTask.value.id)
    ensures Valid(f.(workers := f.workers[i := w]))
  {
  }

  /** Removing the queue head keeps the invariant and leaves the head placed nowhere. */
  lemma DropHeadKeepsValid(f: Farm)
    requires Valid(f) && |f.tasks| > 0
    ensures Valid(f.(tasks := f.tasks[1..]))
    ensures !Placed(f.(tasks := f.tasks[1..]), f.tasks[0].id)
  {
    var g := f.(tasks := f.tasks[1..]);
    forall k | 0 <= k < |g.tasks|
      ensures g.tasks[k].id != f.tasks[0].id
    {
      assert g.tasks[k] == f.tasks[k + 1];
    }
  }

  /** `_runTask` keeps the invariant for a fresh task, places it, and adds exactly one call to the
      count `run` checks. */
  lemma RunTaskKeepsValid(f: Farm, t: Task)
    requires Valid(f) && t.id < f.nextTaskId && !Placed(f, t.id)
    ensures Valid(RunTask(f, t).farm) && Placed(RunTask(f, t).farm, t.id)
    ensures ConcurrentCalls(RunTask(f, t).farm) == ConcurrentCalls(f) + 1
  {
    var i := Seqs.FindIndex(f.workers, TaskWorker.IsIdle);
    var r := RunTask(f, t);
    if i >= 0 {
      var w := f.workers[i].(busy := true, currentTask := Some(t));
      assert r.farm.workers == f.workers[i := w];
      assert f.workers[i].currentTask.None?;
      SetWorkerKeepsValid(f, i, w);
      Seqs.FilterUpdateSize(f.workers, i, w, TaskWorker.HasTask);
      assert r.farm.workers[i].currentTask.value.id == t.id;
    } else {
      assert r.farm.tasks[|f.tasks|] == t;
    }
  }

  /** `run` keeps the invariant; an admitted call is placed and counts as one more concurrent call. */
  lemma RunKeepsValid(f: Farm, args: seq<Value>, methodName: Option<string>)
    requires Valid(f)
    ensures Valid(WorkerFarm.Run(f, args, methodName).farm)
    ensures !f.closing && !Exceeds(ConcurrentCalls(f), f.config.maxConcurrentCalls) ==>
      && Placed(WorkerFarm.Run(f, args, methodName).farm, f.nextTaskId)
      && ConcurrentCalls(WorkerFarm.Run(f, args, methodName).farm) == ConcurrentCalls(f) + 1
  {
    var r := WorkerFarm.Run(f, args, methodName);
    var f1 := f.(nextTaskId := f.nextTaskId + 1);
    SameFarm(f, f1.(nextTaskId := f.nextTaskId));
    assert Valid(f1);
    if !f.closing && !Exceeds(ConcurrentCalls(f), f.config.maxConcurrentCalls) {
      var t := Task(f.nextTaskId, args, methodName, 0);
      assert !Placed(f1, t.id);
      assert ConcurrentCalls(f1) == ConcurrentCalls(f);
      RunTaskKeepsValid(f1, t);
      assert r == RunTask(f1, t);
      SameFarm(RunTask(f1, t).farm, r.farm);
    } else {
      SameFarm(f1, r.farm);
    }
  }

  /** `_onIdle` keeps the invariant, whichever branch it takes. */
  lemma OnIdleKeepsValid(f: Farm, wid: WorkerId)
    requires Valid(f)
    ensures Valid(OnIdle(f, wid).farm)
  {
    var r := OnIdle(f, wid);
    if |f.tasks| > 0 {
      var f1 := f.(tasks := f.tasks[1..]);
      DropHeadKeepsValid(f);
      if f.layoffs > 0 {
        SameFarm(f1.(layoffs := f.layoffs - 1), r.farm);
      } else {
        var head := f.tasks[0];
        var i := IndexOfWorker(f1.workers, wid);
        if i >= 0 {
          var w := f1.workers[i].(busy := true, currentTask := Some(head));
          assert !Placed(f1, head.id);
          SetWorkerKeepsValid(f1, i, w);
          SameFarm(f1.(workers := f1.workers[i := w]), r.farm);
        } else {
          SameFarm(f1, r.farm);
        }
      }
    } else if f.layoffs > 0 {
      assert f.(tasks := []) == f;
      SameFarm(f.(layoffs := f.layoffs - 1), r.farm);
    } else {
      SameFarm(f, r.farm);
    }
  }

  /** `_onDisconnect` keeps the invariant for a task that was taken out of its worker. */
  lemma OnDisconnectKeepsValid(f: Farm, last: Option<Task>)
    requires Valid(f)
    requires last.Some? ==> last.value.id < f.nextTaskId && !Placed(f, last.value.id)
    ensures Valid(OnDisconnect(f, last).farm)
  {
    var r := OnDisconnect(f, last);
    if last.Some? && !Exceeds(last.value.retries + 1, f.config.maxRetries) {
      var t := last.value.(retries := last.value.retries + 1);
      RetriedTaskKeepsValid(f, last.value, t);
      SameFarm(RunTask(f, t).farm, r.farm);
    } else {
      SameFarm(f, r.farm);
    }
  }

  /** Equal farms are equally valid; used to close a proof without unfolding the invariant. */
  lemma SameFarm(f: Farm, g: Farm)
    requires Valid(f) && f == g
    ensures Valid(g)
  {
  }

  /** A handed-back task with its retry count raised is still fresh for `_runTask`. */
  lemma RetriedTaskKeepsValid(f: Farm, task: Task, t: Task)
    requires Valid(f) && task.id < f.nextTaskId && !Placed(f, task.id)
    requires t == task.(retries := task.retries + 1)
    ensures Valid(RunTask(f, t).farm)
  {
    assert t.id == task.id;
    RunTaskKeepsValid(f, t);
  }

  /** `_onLeave` keeps the invariant: the remaining workers are the old ones minus one. */
  lemma OnLeaveKeepsValid(f: Farm, wid: WorkerId)
    requires Valid(f)
    ensures Valid(OnLeave(f, wid).farm)
  {
    var r := OnLeave(f, wid);
    var k := IndexOfWorker(f.workers, wid);
    var ws' := Seqs.SpliceOne(f.workers, k);
    assert r.farm == f.(workers := ws');
    var s := Seqs.SpliceStart(|f.workers|, k);
    if s < |f.workers| {
      RemoveWorkerKeepsValid(f, s, ws');
      SameFarm(f.(workers := ws'), r.farm);
    } else {
      SameFarm(f, r.farm);
    }
  }

  /** Dropping the worker at index `s`, keeping the others in order, keeps the invariant. */
  lemma RemoveWorkerKeepsValid(f: Farm, s: nat, ws': seq<Worker>)
    requires Valid(f) && s < |f.workers| && |ws'| == |f.workers| - 1
    requires forall j :: 0 <= j < s ==> ws'[j] == f.workers[j]
    requires forall j :: s <= j < |ws'| ==> ws'[j] == f.workers[j + 1]
    ensures Valid(f.(workers := ws'))
  {
    // Every remaining worker sits at its old index or one past it, injectively.
    forall j | 0 <= j < |ws'|
      ensures ws'[j] == f.workers[if j < s then j else j + 1]
    {
    }
  }

  /** A worker's `ready`, `result`, `error` or heartbeat, routed through the farm, keeps the invariant. */
  lemma HandleMessageKeepsValid(f: Farm, wid: WorkerId, msg: Reply)
    requires Valid(f)
    ensures Valid(HandleMessage(f, wid, msg).farm)
  {
    var i := IndexOfWorker(f.workers, wid);
    if i >= 0 {
      var s := TaskWorker.OnMessage(f.workers[i], msg);
      SetWorkerKeepsValid(f, i, s.worker);
      var f1 := f.(workers := f.workers[i := s.worker]);
      if TaskWorker.Emit(TaskWorker.Idle) in s.effects {
        OnIdleKeepsValid(f1, wid);
      }
    }
  }

  /** A worker's disconnect, routed through the farm, keeps the invariant: the task it hands back is
      held nowhere else. */
  lemma HandleDisconnectKeepsValid(f: Farm, wid: WorkerId)
    requires Valid(f)
    ensures Valid(HandleDisconnect(f, wid).farm)
  {
    var i := IndexOfWorker(f.workers, wid);
    if i >= 0 {
      var w := f.workers[i].(busy := true, currentTask := None);
      SetWorkerKeepsValid(f, i, w);
      var f1 := f.(workers := f.workers[i := w]);
      var last := f.workers[i].currentTask;
      if last.Some? {
        assert f1.workers[i].currentTask.None?;
        assert !Placed(f1, last.value.id);
      }
      OnDisconnectKeepsValid(f1, last);
    }
  }

  /** A worker's leave, routed through the farm, keeps the invariant. */
  lemma HandleLeaveKeepsValid(f: Farm, wid: WorkerId)
    requires Valid(f)
    ensures Valid(HandleLeave(f, wid).farm)
  {
    var i := IndexOfWorker(f.workers, wid);
    if i >= 0 {
      var w := f.workers[i].(left := true);
      SetWorkerKeepsValid(f, i, w);
      OnLeaveKeepsValid(f.(workers := f.workers[i := w]), wid);
    }
  }

  // ---------------------------------------------------------------------------------------------
  // Any sequence of events

  /** Everything that can happen to a farm after construction. `fillUp` is a run of `AddWorker`s. */
  datatype Event =
    | AddWorkerEvent
    | LayoffEvent
    | RunEvent(args: seq<Value>, methodName: Option<string>)
    | CloseEvent
    | DestroyEvent
    | MessageEvent(worker: WorkerId, msg: Reply)
    | DisconnectEvent(worker: WorkerId)
    | LeaveEvent(worker: WorkerId)
    | ErrorEvent(worker: WorkerId, fault: TaskWorker.Fault)

  /** One event. A throwing `addWorker` leaves the farm as it was. */
  function Apply(f: Farm, e: Event): Step
  {
    match e
    case AddWorkerEvent =>
      var a := AddWorker(f);
      if a.Success? then a.value else Step(f, [])
    case LayoffEvent => Layoff(f)
    case RunEvent(args, m) => WorkerFarm.Run(f, args, m)
    case CloseEvent => CloseFarm(f)
    case DestroyEvent => Destroy(f)
    case MessageEvent(wid, msg) => HandleMessage(f, wid, msg)
    case DisconnectEvent(wid) => HandleDisconnect(f, wid)
    case LeaveEvent(wid) => HandleLeave(f, wid)
    case ErrorEvent(wid, fault) => OnWorkerError(f, wid, fault)
  }

  /** Every event keeps the invariant, never resets `closing`, and never changes the options. */
  lemma ApplyKeepsValid(f: Farm, e: Event)
    requires Valid(f)
    ensures Valid(Apply(f, e).farm)
    ensures f.closing ==> Apply(f, e).farm.closing
    ensures Apply(f, e).farm.config == f.config
  {
    if e.AddWorkerEvent? {
      ApplyAddWorker(f, e);
    } else if e.LayoffEvent? {
      ApplyLayoff(f, e);
    } else if e.RunEvent? {
      ApplyRun(f, e);
    } else if e.MessageEvent? {
      ApplyMessage(f, e);
    } else if e.DisconnectEvent? {
      ApplyDisconnect(f, e);
    } else if e.LeaveEvent? {
      ApplyLeave(f, e);
    } else {
      ApplyShutdownOrError(f, e);
    }
  }

  lemma ApplyAddWorker(f: Farm, e: Event)
    requires Valid(f) && e.AddWorkerEvent?
    ensures Valid(Apply(f, e).farm)
    ensures f.closing ==> Apply(f, e).farm.closing
    ensures Apply(f, e).farm.config == f.config
  {
    var a := AddWorker(f);
    if a.Success? {
      SameFarm(a.value.farm, Apply(f, e).farm);
    } else {
      SameFarm(f, Apply(f, e).farm);
    }
  }

  lemma ApplyLayoff(f: Farm, e: Event)
    requires Valid(f) && e.LayoffEvent?
    ensures Valid(Apply(f, e).farm)
    ensures f.closing ==> Apply(f, e).farm.closing
    ensures Apply(f, e).farm.config == f.config
  {
    if Seqs.FindIndex(f.workers, Taskless) >= 0 {
      SameFarm(f, Apply(f, e).farm);
    } else {
      SameFarm(f.(layoffs := f.layoffs + 1), Apply(f, e).farm);
    }
  }

  lemma ApplyRun(f: Farm, e: Event)
    requires Valid(f) && e.RunEvent?
    ensures Valid(Apply(f, e).farm)
    ensures f.closing ==> Apply(f, e).farm.closing
    ensures Apply(f, e).farm.config == f.config
  {
    RunKeepsValid(f, e.args, e.methodName);
    SameFarm(WorkerFarm.Run(f, e.args, e.methodName).farm, Apply(f, e).farm);
  }

  lemma ApplyMessage(f: Farm, e: Event)
    requires Valid(f) && e.MessageEvent?
    ensures Valid(Apply(f, e).farm)
    ensures f.closing ==> Apply(f, e).farm.closing
    ensures Apply(f, e).farm.config == f.config
  {
    HandleMessageKeepsValid(f, e.worker, e.msg);
    SameFarm(HandleMessage(f, e.worker, e.msg).farm, Apply(f, e).farm);
    var i := IndexOfWorker(f.workers, e.worker);
    if i >= 0 {
      var s := TaskWorker.OnMessage(f.workers[i], e.msg);
      var f1 := f.(workers := f.workers[i := s.worker]);
      assert f1.closing == f.closing;
    }
  }

  lemma ApplyDisconnect(f: Farm, e: Event)
    requires Valid(f) && e.DisconnectEvent?
    ensures Valid(Apply(f, e).farm)
    ensures f.closing ==> Apply(f, e).farm.closing
    ensures Apply(f, e).farm.config == f.config
  {
    HandleDisconnectKeepsValid(f, e.worker);
    SameFarm(HandleDisconnect(f, e.worker).farm, Apply(f, e).farm);
  }

  lemma ApplyLeave(f: Farm, e: Event)
    requires Valid(f) && e.LeaveEvent?
    ensures Valid(Apply(f, e).farm)
    ensures f.closing ==> Apply(f, e).farm.closing
    ensures Apply(f, e).farm.config == f.config
  {
    HandleLeaveKeepsValid(f, e.worker);
    SameFarm(HandleLeave(f, e.worker).farm, Apply(f, e).farm);
  }

  lemma ApplyShutdownOrError(f: Farm, e: Event)
    requires Valid(f) && (e.CloseEvent? || e.DestroyEvent? || e.ErrorEvent?)
    ensures Valid(Apply(f, e).farm)
    ensures f.closing ==> Apply(f, e).farm.closing
    ensures Apply(f, e).farm.config == f.config
  {
    if e.ErrorEvent? {
      SameFarm(f, Apply(f, e).farm);
    } else {
      SameFarm(f.(closing := true), Apply(f, e).farm);
    }
  }

  function ApplyAll(f: Farm, es: seq<Event>): Farm
    decreases |es|
  {
    if |es| == 0 then f else ApplyAll(Apply(f, es[0]).farm, es[1..])
  }

  /** Whatever happens to a farm built from `config`, it stays valid: in particular it never holds
      more than `maxConcurrentWorkers` workers and never has a task in two places. */
  lemma {:induction false} ReachableIsValid(f: Farm, es: seq<Event>)
    requires Valid(f)
    ensures Valid(ApplyAll(f, es))
    ensures |ApplyAll(f, es).workers| <= f.config.maxConcurrentWorkers
    ensures f.closing ==> ApplyAll(f, es).closing
    decreases |es|
  {
    if |es| > 0 {
      ApplyKeepsValid(f, es[0]);
      ReachableIsValid(Apply(f, es[0]).farm, es[1..]);
    }
  }
}
