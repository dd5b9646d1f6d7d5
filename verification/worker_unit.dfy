/** A task worker wired to the two objects it owns: its heart, which lives in the shared registry,
    and its hero. The worker's requests (register, beat and close the heart; start, send to, kill
    and dismiss the hero) are carried out by the `Heart` and `HeroWorker` models, and the ticker's
    `timeout` for this heart reaches the worker's `_onTimeout`. */
module WorkerUnit {
  import opened Wrappers
  import opened Protocol
  import Heart
  import HeroWorker
  import TaskWorker
  import WorkerLifecycle

  /** One worker, the shared heart registry, the identity of the worker's own heart, and its hero. */
  datatype Unit = Unit(worker: TaskWorker.Worker, hearts: Heart.Registry, heart: Heart.HeartId, hero: HeroWorker.Hero)

  /** The result of one input: the new unit, the worker's effects, and what its hero did. */
  datatype Reaction = Reaction(unit: Unit, effects: seq<TaskWorker.Effect>, hero: seq<HeroWorker.Effect>)

  /** The registry holds monitor `m` at position `i`, and no other entry has its identity. */
  predicate At(reg: Heart.Registry, i: nat, m: Heart.Monitor)
  {
    i < |reg.hearts| && reg.hearts[i] == m && CountId(reg.hearts, m.id) == 1
  }

  /** How many monitors in `hs` carry identity `id`. */
  function CountId(hs: seq<Heart.Monitor>, id: Heart.HeartId): nat
    decreases |hs|
  {
    if |hs| == 0 then 0 else (if hs[0].id == id then 1 else 0) + CountId(hs[1..], id)
  }

  /** Two distinct positions carrying `id` are counted twice. */
  lemma {:induction false} CountIdTwice(hs: seq<Heart.Monitor>, i: nat, j: nat, id: Heart.HeartId)
    requires i < |hs| && j < |hs|
    ensures hs[i].id == id && hs[j].id == id && i != j ==> CountId(hs, id) >= 2
    decreases |hs|
  {
    if i > 0 && j > 0 {
      CountIdTwice(hs[1..], i - 1, j - 1, id);
    } else if i > 0 {
      CountIdPositive(hs[1..], i - 1, id);
    } else if j > 0 {
      CountIdPositive(hs[1..], j - 1, id);
    }
  }

  lemma {:induction false} CountIdPositive(hs: seq<Heart.Monitor>, i: nat, id: Heart.HeartId)
    requires i < |hs|
    ensures hs[i].id == id ==> CountId(hs, id) > 0
    decreases |hs|
  {
    if i > 0 {
      CountIdPositive(hs[1..], i - 1, id);
    }
  }

  lemma {:induction false} CountIdSameIds(a: seq<Heart.Monitor>, b: seq<Heart.Monitor>, id: Heart.HeartId)
    requires |a| == |b| && forall j :: 0 <= j < |a| ==> a[j].id == b[j].id
    ensures CountId(a, id) == CountId(b, id)
    decreases |a|
  {
    if |a| > 0 {
      CountIdSameIds(a[1..], b[1..], id);
    }
  }

  lemma {:induction false} CountIdFresh(hs: seq<Heart.Monitor>, m: Heart.Monitor)
    requires forall j :: 0 <= j < |hs| ==> hs[j].id < m.id
    ensures CountId(hs + [m], m.id) == 1
    decreases |hs|
  {
    if |hs| == 0 {
      assert [m][1..] == [];
    } else {
      assert (hs + [m])[1..] == hs[1..] + [m];
      CountIdFresh(hs[1..], m);
    }
  }

  /** Carry out the worker's requests to its heart and hero, in order, and collect the hero's
      effects. Outward effects (settling, signals to the farm) need nothing from either and are
      skipped. Signals the hero emits are not fed back here; `WorkerLifecycle.Deliver` does that. */
  function Perform(u: Unit, es: seq<TaskWorker.Effect>): (r: (Unit, seq<HeroWorker.Effect>))
    ensures r.0.worker == u.worker
    decreases |es|
  {
    if |es| == 0 then (u, [])
    else
      var first := PerformOne(u, es[0]);
      var rest := Perform(first.0, es[1..]);
      (rest.0, first.1 + rest.1)
  }

  function PerformOne(u: Unit, e: TaskWorker.Effect): (r: (Unit, seq<HeroWorker.Effect>))
    ensures r.0.worker == u.worker
  {
    match e
    case RegisterHeart(maxHP) =>
      var g := Heart.Register(u.hearts, maxHP);
      (u.(hearts := g.registry, heart := g.heart.id), [])
    case BeatHeart => (u.(hearts := Heart.BeatById(u.hearts, u.heart)), [])
    case CloseHeart => (u.(hearts := Heart.Close(u.hearts, u.heart)), [])
    case StartHero => var s := HeroWorker.Start(u.hero); (u.(hero := s.hero), s.effects)
    case Send(req) => var s := HeroWorker.Send(u.hero, req); (u.(hero := s.hero), s.effects)
    case KillHero => var s := HeroWorker.Kill(u.hero); (u.(hero := s.hero), s.effects)
    case DismissHero => var s := HeroWorker.Dismiss(u.hero); (u.(hero := s.hero), s.effects)
    case _ => (u, [])
  }

  /** A worker handler's step, carried out on the unit. */
  function React(u: Unit, s: TaskWorker.Step): Reaction
  {
    var p := Perform(u.(worker := s.worker), s.effects);
    Reaction(p.0, s.effects, p.1)
  }

  /** `new TaskWorker(modulePath, opts)`: the constructor registers a heart and starts a hero, whose
      synchronous `spawn` runs `_onSpawn`, whose requests are carried out in turn. */
  function Construct(hearts: Heart.Registry, id: WorkerId, modulePath: string, maxCallTime: Option<nat>): Reaction
  {
    var n := TaskWorker.New(id, modulePath, maxCallTime);
    var c := React(Unit(n.worker, hearts, 0, HeroWorker.New()), n);
    var d := WorkerLifecycle.Deliver(c.unit.worker, c.hero);
    var p := React(c.unit, d);
    Reaction(p.unit, n.effects + d.effects, c.hero + p.hero)
  }

  /** Whether the ticker's attack on a heart with identity `id` emits `timeout`: the worker listens
      for its own heart only. `FiredIsTimedOut` shows this is the ticker's own report. */
  function Fired(hs: seq<Heart.Monitor>, id: Heart.HeartId): bool
    decreases |hs|
  {
    |hs| > 0 && ((hs[0].id == id && Heart.Attack(hs[0]).timeout) || Fired(hs[1..], id))
  }

  /** One run of the shared ticker, seen from this worker: every registered heart is attacked, and
      if this worker's heart emits `timeout`, `_onTimeout` runs. */
  function TickUnit(u: Unit): Reaction
  {
    var u1 := u.(hearts := Heart.Tick(u.hearts).registry);
    if Fired(u.hearts.hearts, u.heart) then React(u1, TaskWorker.OnTimeout(u.worker))
    else Reaction(u1, [], [])
  }

  /** `k` ticks with no other input in between. */
  function Ticks(u: Unit, k: nat): Reaction
    decreases k
  {
    if k == 0 then Reaction(u, [], [])
    else
      var first := TickUnit(u);
      var rest := Ticks(first.unit, k - 1);
      Reaction(rest.unit, first.effects + rest.effects, first.hero + rest.hero)
  }

  lemma PerformSingle(u: Unit, e: TaskWorker.Effect)
    ensures Perform(u, [e]) == PerformOne(u, e)
  {
    assert [e][1..] == [];
    assert PerformOne(u, e).1 + [] == PerformOne(u, e).1;
  }

  lemma PerformPair(u: Unit, a: TaskWorker.Effect, b: TaskWorker.Effect)
    ensures var x := PerformOne(u, a);
      var y := PerformOne(x.0, b);
      Perform(u, [a, b]) == (y.0, x.1 + y.1)
  {
    assert [a, b][1..] == [b];
    PerformSingle(PerformOne(u, a).0, b);
  }

  /** A first tick that does nothing to the worker or its hero can be peeled off a run of ticks. */
  lemma QuietFirst(u: Unit, k: nat)
    requires k > 0
    requires TickUnit(u).effects == [] && TickUnit(u).hero == []
    ensures Ticks(u, k) == Ticks(TickUnit(u).unit, k - 1)
  {
    var rest := Ticks(TickUnit(u).unit, k - 1);
    assert [] + rest.effects == rest.effects && [] + rest.hero == rest.hero;
  }

  // ---------------------------------------------------------------------------------------------
  // The heart inside the registry

  lemma {:induction false} FiredSomewhere(hs: seq<Heart.Monitor>, id: Heart.HeartId)
    ensures Fired(hs, id) <==> exists i :: 0 <= i < |hs| && hs[i].id == id && Heart.Attack(hs[i]).timeout
    decreases |hs|
  {
    if |hs| > 0 {
      FiredSomewhere(hs[1..], id);
      if Fired(hs[1..], id) {
        var j :| 0 <= j < |hs[1..]| && hs[1..][j].id == id && Heart.Attack(hs[1..][j]).timeout;
        assert hs[j + 1] == hs[1..][j];
      }
      if exists i :: 0 <= i < |hs| && hs[i].id == id && Heart.Attack(hs[i]).timeout {
        var i :| 0 <= i < |hs| && hs[i].id == id && Heart.Attack(hs[i]).timeout;
        if i > 0 {
          assert hs[1..][i - 1] == hs[i];
        }
      }
    }
  }

  /** The worker's own test agrees with the ticker's list of timed-out hearts. */
  lemma FiredIsTimedOut(reg: Heart.Registry, id: Heart.HeartId)
    ensures Fired(reg.hearts, id) <==> id in Heart.Tick(reg).timedOut
  {
    FiredSomewhere(reg.hearts, id);
  }

  /** One tick attacks this worker's heart once, in place, and reports this heart's timeout exactly
      when its own attack fires. */
  lemma TickAttacks(reg: Heart.Registry, i: nat, m: Heart.Monitor)
    requires At(reg, i, m)
    ensures var t := Heart.Tick(reg);
      && At(t.registry, i, Heart.Attack(m).monitor)
      && (m.id in t.timedOut <==> Heart.Attack(m).timeout)
      && (Fired(reg.hearts, m.id) <==> Heart.Attack(m).timeout)
  {
    var t := Heart.Tick(reg);
    assert t.registry.hearts[i] == Heart.Attack(m).monitor;
    CountIdSameIds(t.registry.hearts, reg.hearts, m.id);
    if m.id in t.timedOut {
      var j :| 0 <= j < |reg.hearts| && reg.hearts[j].id == m.id && Heart.Attack(reg.hearts[j]).timeout;
      CountIdTwice(reg.hearts, i, j, m.id);
    }
    FiredIsTimedOut(reg, m.id);
  }

  /** A tick whose attack on this worker's heart does not fire changes nothing but the registry. */
  lemma QuietTick(u: Unit, i: nat, m: Heart.Monitor)
    requires At(u.hearts, i, m) && m.id == u.heart
    requires !Heart.Attack(m).timeout
    ensures TickUnit(u) == Reaction(u.(hearts := Heart.Tick(u.hearts).registry), [], [])
    ensures At(TickUnit(u).unit.hearts, i, Heart.Attack(m).monitor)
  {
    TickAttacks(u.hearts, i, m);
  }

  /** A tick whose attack on this worker's heart fires runs `_onTimeout`: a `workerError` and a
      kill of the hero, carried out by the hero. */
  lemma LoudTick(u: Unit, i: nat, m: Heart.Monitor)
    requires At(u.hearts, i, m) && m.id == u.heart
    requires Heart.Attack(m).timeout
    ensures var t := TickUnit(u);
      && t.effects == [TaskWorker.Emit(TaskWorker.WorkerError(TaskWorker.HeartbeatTimeout)), TaskWorker.KillHero]
      && t.hero == HeroWorker.Kill(u.hero).effects
      && t.unit.hero == HeroWorker.Kill(u.hero).hero && t.unit.worker == u.worker
  {
    TickAttacks(u.hearts, i, m);
    var u1 := u.(hearts := Heart.Tick(u.hearts).registry);
    PerformPair(u1, TaskWorker.Emit(TaskWorker.WorkerError(TaskWorker.HeartbeatTimeout)), TaskWorker.KillHero);
  }

  /** Beating by identity refills exactly this worker's heart, in place. */
  lemma BeatByIdBeats(reg: Heart.Registry, i: nat, m: Heart.Monitor)
    requires At(reg, i, m)
    ensures At(Heart.BeatById(reg, m.id), i, Heart.Beat(m))
  {
    var r := Heart.BeatById(reg, m.id);
    assert r.hearts[i] == Heart.Beat(m);
    CountIdSameIds(r.hearts, reg.hearts, m.id);
  }

  /** The worker's `BeatHeart` request, carried out, refills its heart and touches nothing else. */
  lemma BeatUnit(u: Unit, i: nat, m: Heart.Monitor)
    requires At(u.hearts, i, m) && m.id == u.heart
    ensures var b := Perform(u, [TaskWorker.BeatHeart]);
      && b.0 == u.(hearts := Heart.BeatById(u.hearts, m.id)) && b.1 == []
      && At(b.0.hearts, i, Heart.Beat(m))
  {
    BeatByIdBeats(u.hearts, i, m);
    PerformSingle(u, TaskWorker.BeatHeart);
  }

  // ---------------------------------------------------------------------------------------------
  // Construction, liveness and departure, end to end

  /** Constructing a worker appends one full heart of capacity `maxCallTime` to the registry and
      forks one child, which is sent `init` with the module path and the call timeout. The worker is
      busy without a task, and nothing is settled. */
  lemma ConstructionWires(hearts: Heart.Registry, id: WorkerId, modulePath: string, maxCallTime: Option<nat>)
    requires Heart.RegistryValid(hearts)
    ensures var r := Construct(hearts, id, modulePath, maxCallTime);
      && r.unit.hearts.hearts == hearts.hearts + [Heart.New(hearts.nextId, maxCallTime)]
      && r.unit.heart == hearts.nextId
      && Heart.RegistryValid(r.unit.hearts)
      && At(r.unit.hearts, |hearts.hearts|, Heart.New(hearts.nextId, maxCallTime))
      && r.unit.hero == HeroWorker.Create().hero
      && r.hero == [HeroWorker.Fork, HeroWorker.Emit(HeroWorker.Spawn),
                    HeroWorker.SendToChild(Init(modulePath, maxCallTime))]
      && r.unit.worker.busy && r.unit.worker.currentTask.None? && !r.unit.worker.left
  {
    var n := TaskWorker.New(id, modulePath, maxCallTime);
    var u0 := Unit(n.worker, hearts, 0, HeroWorker.New());
    var g := Heart.Register(hearts, maxCallTime);
    assert n.effects == [TaskWorker.RegisterHeart(maxCallTime), TaskWorker.StartHero];
    PerformPair(u0, TaskWorker.RegisterHeart(maxCallTime), TaskWorker.StartHero);
    var c := React(u0, n);
    assert c.unit == Unit(n.worker, g.registry, hearts.nextId, HeroWorker.Create().hero);
    assert c.hero == [HeroWorker.Fork, HeroWorker.Emit(HeroWorker.Spawn)];
    WorkerLifecycle.ConstructionInitialises(id, modulePath, maxCallTime);
    var d := WorkerLifecycle.Deliver(c.unit.worker, c.hero);
    assert d.worker == n.worker;
    assert d.effects == [TaskWorker.Send(Init(modulePath, maxCallTime)), TaskWorker.BeatHeart];
    PerformPair(c.unit, TaskWorker.Send(Init(modulePath, maxCallTime)), TaskWorker.BeatHeart);
    var m := Heart.New(hearts.nextId, maxCallTime);
    assert g.registry.hearts == hearts.hearts + [m];
    var b := Heart.BeatById(g.registry, m.id);
    assert b.hearts == g.registry.hearts by {
      forall i | 0 <= i < |b.hearts|
        ensures b.hearts[i] == g.registry.hearts[i]
      {
        if i < |hearts.hearts| {
          assert g.registry.hearts[i] == hearts.hearts[i];
          assert hearts.hearts[i].id < m.id;
        } else {
          assert g.registry.hearts[i] == m && Heart.Beat(m) == m;
        }
      }
    }
    var p := React(c.unit, d);
    assert p.unit.hearts == b && p.unit.hero == c.unit.hero;
    assert p.hero == [HeroWorker.SendToChild(Init(modulePath, maxCallTime))];
    CountIdFresh(hearts.hearts, m);
  }

  /** While this heart's counter stays above the number of ticks, ticks do nothing to the worker or
      its hero; the counter just drops by one per tick. */
  lemma {:induction false} QuietTicks(u: Unit, i: nat, m: Heart.Monitor, h: int, k: nat)
    requires At(u.hearts, i, m) && m.id == u.heart
    requires m.healthPoint == Some(h) && k < h
    ensures var r := Ticks(u, k);
      && r.effects == [] && r.hero == []
      && r.unit.worker == u.worker && r.unit.hero == u.hero && r.unit.heart == u.heart
      && At(r.unit.hearts, i, Heart.Monitor(m.id, m.maxHP, Some(h - k)))
    decreases k
  {
    if k > 0 {
      var v := TickUnit(u).unit;
      var a := Heart.Monitor(m.id, m.maxHP, Some(h - 1));
      assert At(v.hearts, i, a) && v.worker == u.worker && v.hero == u.hero && v.heart == u.heart by {
        QuietTick(u, i, m);
      }
      assert Ticks(u, k) == Ticks(v, k - 1) by {
        QuietTick(u, i, m);
        QuietFirst(u, k);
      }
      QuietTicks(v, i, a, h - 1, k - 1);
    }
  }

  /** A worker whose child goes silent is killed by its heart: after the last beat, with a finite
      `maxCallTime` of `n`, the first `n - 1` ticks do nothing and the `n`-th reports a heartbeat
      timeout and kills (never dismisses) the hero, which signals its child. */
  lemma SilentWorkerIsKilled(u: Unit, i: nat, m: Heart.Monitor, n: nat)
    requires At(u.hearts, i, m) && m.id == u.heart
    requires m.maxHP == Some(n) && n >= 1
    requires u.hero.spawns > 0
    ensures var b := Perform(u, [TaskWorker.BeatHeart]).0;
      var q := Ticks(b, n - 1);
      var t := TickUnit(q.unit);
      && q.effects == [] && q.hero == []
      && t.effects == [TaskWorker.Emit(TaskWorker.WorkerError(TaskWorker.HeartbeatTimeout)), TaskWorker.KillHero]
      && t.hero == [HeroWorker.KillChild]
      && t.unit.hero == u.hero && t.unit.worker == u.worker
  {
    BeatUnit(u, i, m);
    FullHeartRunsOut(Perform(u, [TaskWorker.BeatHeart]).0, i, Heart.Beat(m), n);
  }

  /** From a full heart holding `n` points, `n - 1` ticks are quiet and the `n`-th kills the hero. */
  lemma FullHeartRunsOut(b: Unit, i: nat, full: Heart.Monitor, n: nat)
    requires At(b.hearts, i, full) && full.id == b.heart
    requires full.maxHP == Some(n) && full.healthPoint == Some(n) && n >= 1
    requires b.hero.spawns > 0
    ensures var q := Ticks(b, n - 1);
      var t := TickUnit(q.unit);
      && q.effects == [] && q.hero == []
      && t.effects == [TaskWorker.Emit(TaskWorker.WorkerError(TaskWorker.HeartbeatTimeout)), TaskWorker.KillHero]
      && t.hero == [HeroWorker.KillChild]
      && t.unit.hero == b.hero && t.unit.worker == b.worker
  {
    var q := Ticks(b, n - 1);
    var last := Heart.Monitor(full.id, full.maxHP, Some(1));
    assert q.effects == [] && q.hero == [] && q.unit.worker == b.worker && q.unit.hero == b.hero
      && q.unit.heart == b.heart && At(q.unit.hearts, i, last) by {
      QuietTicks(b, i, full, n, n - 1);
    }
    var t := TickUnit(q.unit);
    assert t.effects == [TaskWorker.Emit(TaskWorker.WorkerError(TaskWorker.HeartbeatTimeout)), TaskWorker.KillHero]
      && t.hero == [HeroWorker.KillChild] && t.unit.hero == q.unit.hero && t.unit.worker == q.unit.worker by {
      LoudTick(q.unit, i, last);
    }
  }

  /** With the default `Infinity` call time, ticks never reach the worker, however many there are. */
  lemma {:induction false} UnboundedHeartNeverKills(u: Unit, i: nat, m: Heart.Monitor, k: nat)
    requires At(u.hearts, i, m) && m.id == u.heart
    requires m.healthPoint.None?
    ensures var r := Ticks(u, k);
      && r.effects == [] && r.hero == [] && r.unit.worker == u.worker && r.unit.hero == u.hero
    decreases k
  {
    if k > 0 {
      QuietTick(u, i, m);
      QuietFirst(u, k);
      UnboundedHeartNeverKills(TickUnit(u).unit, i, m, k - 1);
    }
  }

  /** `run(task)` on a started worker reaches the child as exactly one `run` request carrying the
      task's method and arguments. */
  lemma RunReachesChild(u: Unit, t: Task)
    requires u.hero.spawns > 0
    ensures var r := React(u, TaskWorker.Run(u.worker, t));
      && r.hero == [HeroWorker.SendToChild(Request.Run(t.methodName, t.args))]
      && r.unit.hero == u.hero && r.unit.hearts == u.hearts
      && r.unit.worker.currentTask == Some(t)
  {
    PerformSingle(u.(worker := TaskWorker.Run(u.worker, t).worker), TaskWorker.Send(Request.Run(t.methodName, t.args)));
  }

  /** Once a worker has left, its heart is out of the registry: no later tick attacks it or reaches
      the worker. */
  lemma {:induction false} ClosedHeartIsQuiet(u: Unit, k: nat)
    requires !Heart.Registered(u.hearts, u.heart)
    ensures var r := Ticks(u, k);
      && r.effects == [] && r.hero == [] && r.unit.worker == u.worker && r.unit.hero == u.hero
    decreases k
  {
    if k > 0 {
      var t := Heart.Tick(u.hearts);
      FiredSomewhere(u.hearts.hearts, u.heart);
      var u1 := u.(hearts := t.registry);
      assert !Heart.Registered(u1.hearts, u.heart) by {
        forall i | 0 <= i < |t.registry.hearts|
          ensures t.registry.hearts[i].id != u.heart
        {
          assert t.registry.hearts[i].id == u.hearts.hearts[i].id;
        }
      }
      QuietFirst(u, k);
      ClosedHeartIsQuiet(u1, k - 1);
    }
  }

  /** A dismissed worker's departure: when its child disconnects, the hero's `leave` makes the
      worker close its heart, which leaves the registry, so no later tick can time the worker out. */
  lemma LeaveStopsTheHeart(u: Unit, k: nat)
    requires Heart.RegistryValid(u.hearts) && Heart.Registered(u.hearts, u.heart)
    requires HeroWorker.Valid(u.hero) && u.hero.spawns > 0 && !u.hero.dismissed && u.hero.childConnected
    requires !u.worker.left
    ensures var dm := React(u, TaskWorker.Dismiss(u.worker));
      var dc := HeroWorker.OnChildDisconnect(dm.unit.hero);
      var lv := React(dm.unit.(hero := dc.hero), WorkerLifecycle.Deliver(dm.unit.worker, dc.effects));
      && lv.effects == [TaskWorker.CloseHeart, TaskWorker.Emit(TaskWorker.Leave)]
      && !Heart.Registered(lv.unit.hearts, u.heart)
      && Ticks(lv.unit, k).effects == [] && Ticks(lv.unit, k).hero == []
  {
    var dm := React(u, TaskWorker.Dismiss(u.worker));
    assert dm.unit == u.(hero := HeroWorker.Dismiss(u.hero).hero);
    WorkerLifecycle.DismissLeavesOnce(u.worker, u.hero, 1);
    assert WorkerLifecycle.DismissTimes(u.hero, 1) == dm.unit.hero;
    var dc := HeroWorker.OnChildDisconnect(dm.unit.hero);
    var lv := React(dm.unit.(hero := dc.hero), WorkerLifecycle.Deliver(dm.unit.worker, dc.effects));
    Heart.CloseRemovesExactly(u.hearts, u.heart, u.heart);
    assert lv.unit.hearts == Heart.Close(u.hearts, u.heart);
    ClosedHeartIsQuiet(lv.unit, k);
  }
}
