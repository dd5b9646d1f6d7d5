/** Properties of the farm's scheduling policy that span several calls: FIFO assignment, the retry
    budget, graceful versus immediate shutdown, and three behaviours of the source that are kept
    as written (see the README). */
module FarmScenarios {
  import opened Wrappers
  import opened Protocol
  import Seqs
  import TaskWorker
  import opened WorkerFarm
  import FarmInvariant

  // ---------------------------------------------------------------------------------------------
  // FIFO order

  /** Successive `_onIdle` calls for the workers `wids`, in order. */
  function IdleEach(f: Farm, wids: seq<WorkerId>): Step
    decreases |wids|
  {
    if |wids| == 0 then Step(f, [])
    else
      var first := OnIdle(f, wids[0]);
      var rest := IdleEach(first.farm, wids[1..]);
      Step(rest.farm, first.effects + rest.effects)
  }

  /** With no pending layoff, workers going idle take queued tasks strictly in queue order: the i-th
      idle worker runs the i-th queued task, and those tasks leave the queue. */
  lemma {:induction false} FifoAssignment(f: Farm, wids: seq<WorkerId>)
    requires f.layoffs == 0 && |wids| <= |f.tasks|
    ensures |IdleEach(f, wids).effects| == |wids|
    ensures forall i :: 0 <= i < |wids| ==> IdleEach(f, wids).effects[i] == Dispatch(wids[i], f.tasks[i])
    ensures IdleEach(f, wids).farm.tasks == f.tasks[|wids|..]
    decreases |wids|
  {
    if |wids| > 0 {
      var first := OnIdle(f, wids[0]);
      assert first.effects == [Dispatch(wids[0], f.tasks[0])];
      assert first.farm.tasks == f.tasks[1..];
      FifoAssignment(first.farm, wids[1..]);
      var rest := IdleEach(first.farm, wids[1..]);
      forall i | 1 <= i < |wids|
        ensures IdleEach(f, wids).effects[i] == Dispatch(wids[i], f.tasks[i])
      {
        assert IdleEach(f, wids).effects[i] == rest.effects[i - 1];
        assert wids[1..][i - 1] == wids[i];
        assert f.tasks[1..][i - 1] == f.tasks[i];
      }
      assert f.tasks[1..][|wids| - 1..] == f.tasks[|wids|..];
    }
  }

  /** `run(args, method)` for each call in order. */
  function SubmitEach(f: Farm, calls: seq<(seq<Value>, Option<string>)>): Farm
    decreases |calls|
  {
    if |calls| == 0 then f else SubmitEach(WorkerFarm.Run(f, calls[0].0, calls[0].1).farm, calls[1..])
  }

  /** `n` calls made one after another, with no worker finishing in between, all pass `run`'s
      limit check: the count before the last of them does not exceed `maxConcurrentCalls`. */
  predicate AdmitsAll(f: Farm, n: nat)
  {
    f.config.maxConcurrentCalls.Some? ==> ConcurrentCalls(f) + n <= f.config.maxConcurrentCalls.value + 1
  }

  /** Calls submitted while no worker is free, and all admitted by the limit, are queued behind
      the tasks already waiting, in submission order, each as a fresh task with no retries. */
  lemma {:induction false} SubmitWhileBusy(f: Farm, calls: seq<(seq<Value>, Option<string>)>)
    requires !f.closing && AdmitsAll(f, |calls|)
    requires forall i :: 0 <= i < |f.workers| ==> !TaskWorker.IsIdle(f.workers[i])
    ensures var g := SubmitEach(f, calls);
      && g.workers == f.workers && g.layoffs == f.layoffs
      && |g.tasks| == |f.tasks| + |calls|
      && g.tasks[..|f.tasks|] == f.tasks
      && forall i :: 0 <= i < |calls| ==>
           g.tasks[|f.tasks| + i] == Task(f.nextTaskId + i, calls[i].0, calls[i].1, 0)
    decreases |calls|
  {
    if |calls| > 0 {
      var t := Task(f.nextTaskId, calls[0].0, calls[0].1, 0);
      assert !Exceeds(ConcurrentCalls(f), f.config.maxConcurrentCalls);
      var f1 := WorkerFarm.Run(f, calls[0].0, calls[0].1).farm;
      assert f1 == f.(nextTaskId := f.nextTaskId + 1, tasks := f.tasks + [t]);
      assert ConcurrentCalls(f1) == ConcurrentCalls(f) + 1;
      SubmitWhileBusy(f1, calls[1..]);
      var g := SubmitEach(f1, calls[1..]);
      assert g.tasks[..|f.tasks|] == g.tasks[..|f1.tasks|][..|f.tasks|];
      forall i | 0 <= i < |calls|
        ensures g.tasks[|f.tasks| + i] == Task(f.nextTaskId + i, calls[i].0, calls[i].1, 0)
      {
        if i == 0 {
          assert g.tasks[..|f1.tasks|][|f.tasks|] == t;
        } else {
          assert calls[1..][i - 1] == calls[i];
        }
      }
    }
  }

  /** End to end: with no layoff pending, tasks submitted while every worker is busy (and all
      admitted) are assigned after the tasks already queued, in submission order, as workers become
      idle (assignment order, not completion order). */
  lemma QueueOrderIsSubmissionOrder(f: Farm, calls: seq<(seq<Value>, Option<string>)>, wids: seq<WorkerId>)
    requires !f.closing && AdmitsAll(f, |calls|) && f.layoffs == 0
    requires forall i :: 0 <= i < |f.workers| ==> !TaskWorker.IsIdle(f.workers[i])
    requires |wids| == |f.tasks| + |calls|
    ensures var s := IdleEach(SubmitEach(f, calls), wids);
      && |s.effects| == |wids|
      && (forall k :: 0 <= k < |f.tasks| ==> s.effects[k] == Dispatch(wids[k], f.tasks[k]))
      && (forall i :: 0 <= i < |calls| ==>
            s.effects[|f.tasks| + i] == Dispatch(wids[|f.tasks| + i], Task(f.nextTaskId + i, calls[i].0, calls[i].1, 0)))
  {
    SubmitWhileBusy(f, calls);
    var g := SubmitEach(f, calls);
    assert g.layoffs == 0 && |g.tasks| == |wids|;
    FifoAssignment(g, wids);
    var s := IdleEach(g, wids);
    forall k | 0 <= k < |f.tasks|
      ensures s.effects[k] == Dispatch(wids[k], f.tasks[k])
    {
      assert g.tasks[..|f.tasks|][k] == g.tasks[k];
    }
    forall i | 0 <= i < |calls|
      ensures s.effects[|f.tasks| + i] == Dispatch(wids[|f.tasks| + i], Task(f.nextTaskId + i, calls[i].0, calls[i].1, 0))
    {
      assert s.effects[|f.tasks| + i] == Dispatch(wids[|f.tasks| + i], g.tasks[|f.tasks| + i]);
    }
  }

  // ---------------------------------------------------------------------------------------------
  // Behaviours kept as written

  /** `_onIdle` shifts the queue before looking at pending layoffs: with a layoff pending and a
      task queued, the worker is dismissed and the shifted task is dropped, being neither run nor
      queued, nor held by any worker, nor settled. */
  lemma LayoffDropsQueuedTask(f: Farm, wid: WorkerId)
    requires Valid(f) && f.layoffs > 0 && |f.tasks| > 0
    ensures var r := OnIdle(f, wid);
      && r.effects == [Dismiss(wid)]
      && !Placed(r.farm, f.tasks[0].id)
  {
    FarmInvariant.DropHeadKeepsValid(f);
  }

  /** `run` compares the count BEFORE the new call with strict `>`: at exactly
      `maxConcurrentCalls` in-flight and queued calls it still admits the call, reaching one more
      than the limit. */
  lemma RunAdmitsOneBeyondLimit(f: Farm, args: seq<Value>, methodName: Option<string>, m: nat)
    requires Valid(f) && !f.closing && f.config.maxConcurrentCalls == Some(m)
    requires ConcurrentCalls(f) == m
    ensures var r := WorkerFarm.Run(f, args, methodName);
      && (forall i :: 0 <= i < |r.effects| ==> !r.effects[i].Reject?)
      && ConcurrentCalls(r.farm) == m + 1
  {
    FarmInvariant.RunKeepsValid(f, args, methodName);
  }

  /** ... and that is the most it lets through: `run` never takes the count above the limit plus one. */
  lemma RunBound(f: Farm, args: seq<Value>, methodName: Option<string>, m: nat)
    requires Valid(f) && f.config.maxConcurrentCalls == Some(m) && ConcurrentCalls(f) <= m + 1
    ensures ConcurrentCalls(WorkerFarm.Run(f, args, methodName).farm) <= m + 1
  {
    FarmInvariant.RunKeepsValid(f, args, methodName);
  }

  /** With `maxConcurrentCalls = 1`, two calls issued on an empty farm are both admitted; only a
      third is rejected. */
  lemma TwoCallsPassALimitOfOne(config: Config, a: seq<Value>)
    requires config.maxConcurrentCalls == Some(1)
    ensures var f0 := Empty(config);
      var r1 := WorkerFarm.Run(f0, a, None);
      var r2 := WorkerFarm.Run(r1.farm, a, None);
      var r3 := WorkerFarm.Run(r2.farm, a, None);
      && r1.effects == [] && r2.effects == []
      && r3.effects == [Reject(2, TooManyCalls)]
  {
    var f0 := Empty(config);
    assert ConcurrentCalls(f0) == 0;
    var r1 := WorkerFarm.Run(f0, a, None);
    assert r1 == RunTask(f0.(nextTaskId := 1), Task(0, a, None, 0));
    assert r1.farm.workers == [] && |r1.farm.tasks| == 1 && r1.farm.nextTaskId == 1;
    assert ConcurrentCalls(r1.farm) == 1;
    var r2 := WorkerFarm.Run(r1.farm, a, None);
    assert r2 == RunTask(r1.farm.(nextTaskId := 2), Task(1, a, None, 0));
    assert r2.farm.workers == [] && |r2.farm.tasks| == 2 && r2.farm.nextTaskId == 2;
    assert ConcurrentCalls(r2.farm) == 2;
  }

  /** `layoff`/`close` select by `!currentTask` but `_runTask` by `!busy`. A freshly added worker
      (busy, starting up, no task) is laid off at once, yet no task is ever dispatched to it. */
  lemma FreshWorkerIsIdleForLayoffOnly(f: Farm, t: Task)
    requires AddWorker(f).Success? && f.workers == []
    ensures var g := AddWorker(f).value.farm;
      && Layoff(g).effects == [Dismiss(g.workers[0].id)]
      && CloseFarm(g).effects == [Dismiss(g.workers[0].id)]
      && RunTask(g, t) == Step(g.(tasks := g.tasks + [t]), [])
  {
    var g := AddWorker(f).value.farm;
    assert Seqs.Filter(g.workers, Taskless) == g.workers;
  }

  // ---------------------------------------------------------------------------------------------
  // Retries

  /** A task handed back by a disconnect is retried, with its count raised by one, until the count
      passes `maxRetries`; with `maxRetries = m` a task created with no retries survives m
      disconnects and is rejected at the (m+1)-th. */
  lemma RetryBudget(f: Farm, t: Task, m: nat)
    requires f.config.maxRetries == Some(m)
    ensures OnDisconnect(f, Some(t)).effects[0] == Reject(t.id, RetriesExhausted) <==> t.retries >= m
    ensures t.retries < m ==>
      var again := RunTask(f, t.(retries := t.retries + 1));
      OnDisconnect(f, Some(t)) == Step(again.farm, [Emit(Retry(t.id))] + again.effects)
  {
  }

  /** With the default `Infinity`, a task is retried after every disconnect. */
  lemma UnlimitedRetries(f: Farm, t: Task)
    requires f.config.maxRetries.None?
    ensures OnDisconnect(f, Some(t)).effects[0] == Emit(Retry(t.id))
  {
  }

  // ---------------------------------------------------------------------------------------------
  // Shutdown

  /** `close` dismisses exactly the workers that hold no task, and leaves the others running. */
  lemma CloseDismissesExactlyTaskless(f: Farm, wid: WorkerId)
    requires Valid(f)
    ensures Dismiss(wid) in CloseFarm(f).effects <==>
      exists i :: 0 <= i < |f.workers| && f.workers[i].id == wid && Taskless(f.workers[i])
  {
    TasklessMembership(f.workers, wid);
  }

  lemma {:induction false} TasklessMembership(ws: seq<Worker>, wid: WorkerId)
    ensures Dismiss(wid) in DismissEach(Seqs.Filter(ws, Taskless)) <==>
      exists i :: 0 <= i < |ws| && ws[i].id == wid && Taskless(ws[i])
    decreases |ws|
  {
    if |ws| > 0 {
      TasklessMembership(ws[1..], wid);
      var head := if Taskless(ws[0]) then [ws[0]] else [];
      assert Seqs.Filter(ws, Taskless) == head + Seqs.Filter(ws[1..], Taskless);
      DismissEachConcat(head, Seqs.Filter(ws[1..], Taskless));
      if exists i :: 0 <= i < |ws| && ws[i].id == wid && Taskless(ws[i]) {
        var i :| 0 <= i < |ws| && ws[i].id == wid && Taskless(ws[i]);
        if i > 0 {
          assert ws[1..][i - 1] == ws[i];
        }
      }
      if exists i :: 0 <= i < |ws[1..]| && ws[1..][i].id == wid && Taskless(ws[1..][i]) {
        var i :| 0 <= i < |ws[1..]| && ws[1..][i].id == wid && Taskless(ws[1..][i]);
        assert ws[i + 1] == ws[1..][i];
      }
    }
  }

  lemma DismissEachConcat(a: seq<Worker>, b: seq<Worker>)
    ensures DismissEach(a + b) == DismissEach(a) + DismissEach(b)
  {
    var l, r := DismissEach(a + b), DismissEach(a) + DismissEach(b);
    assert |l| == |r|;
    forall i | 0 <= i < |l|
      ensures l[i] == r[i]
    {
      if i < |a| {
        assert (a + b)[i] == a[i];
      } else {
        assert (a + b)[i] == b[i - |a|];
      }
    }
  }

  /** Graceful close: with one worker running a task and nothing queued, `close` dismisses nobody;
      when that worker's result arrives, the task is resolved and the worker is dismissed. */
  lemma GracefulClose(f: Farm, t: Task, v: Value)
    requires Valid(f) && f.layoffs == 0 && f.tasks == [] && |f.workers| == 1
    requires f.workers[0].currentTask == Some(t)
    ensures CloseFarm(f).effects == []
    ensures var wid := f.workers[0].id;
      HandleMessage(CloseFarm(f).farm, wid, Result(v)).effects == [Resolve(t.id, v), Dismiss(wid)]
  {
    var g := CloseFarm(f).farm;
    Seqs.FilterNone(f.workers, Taskless);
    var wid := f.workers[0].id;
    assert IndexOfWorker(g.workers, wid) == 0;
    HandleReply(g, wid, Result(v));
  }

  /** Immediate shutdown: in the state where `close` dismisses nobody (one worker, running a task,
      nothing queued), `destroy` dismisses that busy worker at once. */
  lemma DestroyDismissesBusyWorker(f: Farm)
    requires |f.workers| == 1 && f.workers[0].currentTask.Some?
    ensures CloseFarm(f).effects == []
    ensures Destroy(f).effects == [Dismiss(f.workers[0].id)]
  {
    Seqs.FilterNone(f.workers, Taskless);
  }

  /** A dismissed worker's child never reports its disconnect to the worker (the hero detaches its
      listeners first), so after `destroy` the task a worker was running is never retried or
      settled: once the worker leaves, the task is gone without any effect naming it. */
  lemma DestroyedTaskVanishes(f: Farm, t: Task)
    requires Valid(f) && |f.workers| == 1 && f.tasks == [] && f.workers[0].currentTask == Some(t)
    requires !f.workers[0].left
    ensures var d := Destroy(f);
      var l := HandleLeave(d.farm, f.workers[0].id);
      && !Placed(l.farm, t.id)
      && l.effects == [Emit(WorkerLeave(f.workers[0].id)), Emit(Close)]
  {
    var d := Destroy(f);
    var wid := f.workers[0].id;
    assert IndexOfWorker(d.farm.workers, wid) == 0;
  }

  /** `layoff` (or `close`) dismisses an idle worker but leaves it in the list, not busy, until its
      child disconnects. `_runTask` selects by `!busy`, so the next call is dispatched to that
      dismissed worker; when it leaves, the call is neither held, queued, retried nor settled. */
  lemma LaidOffWorkerSwallowsCall(f: Farm, args: seq<Value>, methodName: Option<string>)
    requires Valid(f) && !f.closing && f.tasks == [] && |f.workers| == 1
    requires TaskWorker.IsIdle(f.workers[0]) && !f.workers[0].left
    ensures var wid := f.workers[0].id;
      var t := Task(f.nextTaskId, args, methodName, 0);
      var r := WorkerFarm.Run(Layoff(f).farm, args, methodName);
      var l := HandleLeave(r.farm, wid);
      && Layoff(f) == Step(f, [Dismiss(wid)])
      && r.effects == [Dispatch(wid, t)]
      && !Placed(l.farm, t.id)
      && l.effects == [Emit(WorkerLeave(wid)), Emit(Close)]
  {
    var wid := f.workers[0].id;
    assert Taskless(f.workers[0]);
    assert Seqs.FindIndex(f.workers, Taskless) == 0;
    assert ConcurrentCalls(f) == 0;
    var r := WorkerFarm.Run(f, args, methodName);
    assert Seqs.FindIndex(f.workers, TaskWorker.IsIdle) == 0;
    assert IndexOfWorker(r.farm.workers, wid) == 0;
  }

  /** `layoff` does not exclude a worker it already dismissed, which keeps its place in the list
      without a task until it leaves. So while some worker has no task, every further `layoff`
      dismisses that same worker again, and no layoff is recorded: two layoffs shrink the pool by
      one. */
  lemma RepeatedLayoffHitsSameWorker(f: Farm)
    requires exists i :: 0 <= i < |f.workers| && Taskless(f.workers[i])
    ensures Layoff(f).farm == f
    ensures Layoff(Layoff(f).farm) == Layoff(f)
    ensures |Layoff(f).effects| == 1
  {
  }

  /** Adding a worker and having it leave again restores the worker list. */
  lemma AddThenLeave(f: Farm)
    requires Valid(f) && AddWorker(f).Success?
    ensures var g := AddWorker(f).value.farm;
      var wid := g.workers[|f.workers|].id;
      OnLeave(g, wid).farm.workers == f.workers
  {
    var g := AddWorker(f).value.farm;
    var wid := g.workers[|f.workers|].id;
    assert IndexOfWorker(g.workers, wid) == |f.workers|;
    assert g.workers[..|f.workers|] == f.workers;
  }
}
