/** A worker together with its hero: the hero's emitted signals are delivered, in order, to the
    worker's handlers registered in its constructor. This connects what one machine does with what
    the other then sees. */
module WorkerLifecycle {
  import opened Wrappers
  import opened Protocol
  import HeroWorker
  import TaskWorker

  /** The worker's handler for each signal of its hero. */
  function OnHeroSignal(w: TaskWorker.Worker, s: HeroWorker.Signal): TaskWorker.Step
  {
    match s
    case Spawn => TaskWorker.OnSpawn(w)
    case Leave => TaskWorker.OnLeave(w)
    case Message(msg) => TaskWorker.OnMessage(w, msg)
    case Disconnect => TaskWorker.OnDisconnect(w)
    case WorkerError(e) => TaskWorker.OnError(w, e)
  }

  /** Deliver a hero's effects to the worker: each emitted signal runs its handler, and the
      handlers' effects are collected in order. Forks, sends and kills stay with the hero. */
  function Deliver(w: TaskWorker.Worker, es: seq<HeroWorker.Effect>): TaskWorker.Step
    decreases |es|
  {
    if |es| == 0 then TaskWorker.Step(w, [])
    else
      var first := if es[0].Emit? then OnHeroSignal(w, es[0].signal) else TaskWorker.Step(w, []);
      var rest := Deliver(first.worker, es[1..]);
      TaskWorker.Step(rest.worker, first.effects + rest.effects)
  }

  /** Construction: the hero's first `spawn` makes the worker send `init` with its module and call
      timeout and beat its heart; the worker stays busy, without a task, until `ready`. */
  lemma ConstructionInitialises(id: WorkerId, modulePath: string, maxCallTime: Option<nat>)
    ensures var w := TaskWorker.New(id, modulePath, maxCallTime);
      && w.effects == [TaskWorker.RegisterHeart(maxCallTime), TaskWorker.StartHero]
      && var d := Deliver(w.worker, HeroWorker.Create().effects);
      && d.effects == [TaskWorker.Send(Init(modulePath, maxCallTime)), TaskWorker.BeatHeart]
      && d.worker == w.worker
  {
    var w := TaskWorker.New(id, modulePath, maxCallTime).worker;
    assert HeroWorker.Create().effects == [HeroWorker.Fork, HeroWorker.Emit(HeroWorker.Spawn)];
    assert Deliver(w, [HeroWorker.Emit(HeroWorker.Spawn)]).effects
        == [TaskWorker.Send(Init(modulePath, maxCallTime)), TaskWorker.BeatHeart];
  }

  /** A heartbeat timeout on a live worker: the worker reports it and kills (never dismisses) its
      hero; the dead child's disconnect hands the task in flight back and the respawned child is
      initialised again, so the worker carries on without its task. */
  lemma TimeoutRecovers(w: TaskWorker.Worker, h: HeroWorker.Hero)
    requires HeroWorker.Valid(h) && h.spawns > 0 && !h.dismissed
    ensures TaskWorker.OnTimeout(w).effects
         == [TaskWorker.Emit(TaskWorker.WorkerError(TaskWorker.HeartbeatTimeout)), TaskWorker.KillHero]
    ensures var k := HeroWorker.Kill(h);
      var d := HeroWorker.OnChildDisconnect(k.hero);
      var r := Deliver(w, d.effects);
      && !d.hero.dismissed && d.hero.spawns == h.spawns + 1
      && r.effects == [TaskWorker.Emit(TaskWorker.Disconnect(w.currentTask)),
                       TaskWorker.Send(Init(w.modulePath, w.maxCallTime)), TaskWorker.BeatHeart]
      && r.worker == w.(busy := true, currentTask := None)
  {
    HeroWorker.KilledHeroRespawns(h);
    var d := HeroWorker.OnChildDisconnect(h);
    var es := [HeroWorker.Emit(HeroWorker.Disconnect), HeroWorker.Fork, HeroWorker.Emit(HeroWorker.Spawn)];
    assert d.effects == es;
    assert es[1..] == [HeroWorker.Fork, HeroWorker.Emit(HeroWorker.Spawn)];
    assert es[1..][1..] == [HeroWorker.Emit(HeroWorker.Spawn)];
  }

  /** A child error on a live worker is forwarded as the worker's `workerError`, and the hero kills
      the child, which then respawns as after a timeout. */
  lemma ChildErrorIsForwarded(w: TaskWorker.Worker, h: HeroWorker.Hero, e: Value)
    requires HeroWorker.Valid(h) && h.spawns > 0 && !h.dismissed
    ensures var s := HeroWorker.OnChildError(h, e);
      && HeroWorker.KillChild in s.effects
      && Deliver(w, s.effects) == TaskWorker.Step(w, [TaskWorker.Emit(TaskWorker.WorkerError(TaskWorker.ChildError(e)))])
  {
    var es := [HeroWorker.Emit(HeroWorker.WorkerError(e)), HeroWorker.KillChild];
    assert es[1..] == [HeroWorker.KillChild];
  }

  /** `dismiss` applied `n` times to a hero. */
  function DismissTimes(h: HeroWorker.Hero, n: nat): HeroWorker.Hero
    decreases n
  {
    if n == 0 then h else DismissTimes(HeroWorker.Dismiss(h).hero, n - 1)
  }

  lemma {:induction false} DismissTimesWaits(h: HeroWorker.Hero, n: nat)
    requires HeroWorker.Valid(h) && h.spawns > 0 && h.childConnected
    ensures var d := DismissTimes(h, n);
      && HeroWorker.Valid(d) && d.spawns == h.spawns && d.childConnected
      && d.leaveWaiters == h.leaveWaiters + n
      && (n > 0 ==> d.dismissed && !d.listenersAttached)
    decreases n
  {
    if n > 0 {
      DismissTimesWaits(HeroWorker.Dismiss(h).hero, n - 1);
    }
  }

  /** However many `leave`s the hero emits, the worker's one-shot handler reacts to the first only. */
  lemma {:induction false} DeliverLeaves(w: TaskWorker.Worker, n: nat)
    ensures var d := Deliver(w, HeroWorker.Leaves(n));
      && d.worker == (if n == 0 then w else w.(left := true))
      && d.effects == (if n == 0 || w.left then [] else [TaskWorker.CloseHeart, TaskWorker.Emit(TaskWorker.Leave)])
    decreases n
  {
    if n > 0 {
      var es := HeroWorker.Leaves(n);
      assert es[0] == HeroWorker.Emit(HeroWorker.Leave);
      assert es[1..] == HeroWorker.Leaves(n - 1);
      DeliverLeaves(w.(left := true), n - 1);
    }
  }

  /** Dismissing a live worker one or more times before its child disconnects: the worker leaves
      exactly once, closing its heart, and the hero neither reports the disconnect nor respawns. */
  lemma DismissLeavesOnce(w: TaskWorker.Worker, h: HeroWorker.Hero, n: nat)
    requires HeroWorker.Valid(h) && h.spawns > 0 && !h.dismissed && h.childConnected
    requires !w.left && n >= 1
    ensures TaskWorker.Dismiss(w).effects == [TaskWorker.DismissHero]
    ensures var d := HeroWorker.OnChildDisconnect(DismissTimes(h, n));
      && d.hero.spawns == h.spawns && !d.hero.childConnected
      && Deliver(w, d.effects) == TaskWorker.Step(w.(left := true), [TaskWorker.CloseHeart, TaskWorker.Emit(TaskWorker.Leave)])
  {
    DismissTimesWaits(h, n);
    var hn := DismissTimes(h, n);
    assert h.leaveWaiters == 0;
    var d := HeroWorker.OnChildDisconnect(hn);
    assert d.effects == HeroWorker.Leaves(n);
    DeliverLeaves(w, n);
  }
}
