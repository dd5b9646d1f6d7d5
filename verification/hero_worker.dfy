/** The self-respawning child handle ("heroes never die"), reduced to its policy. The forked
    process is abstract: forking, sending and killing are effects, and the child's `error`,
    `message` and `disconnect` events are inputs. Only the current child is tracked. */
module HeroWorker {
  import opened Protocol

  /** - `dismissed`: set by `dismiss`, never cleared.
      - `childConnected`: the current child's IPC channel is open (`!worker.disconnected`).
      - `listenersAttached`: the three handlers are registered on the current child.
      - `spawns`: how many children were forked; 0 before `start`, when `this.worker` is undefined.
      - `leaveWaiters`: the `once('disconnect', ...)` callbacks `dismiss` left on the current child. */
  datatype Hero = Hero(
    dismissed: bool,
    childConnected: bool,
    listenersAttached: bool,
    spawns: nat,
    leaveWaiters: nat)

  /** The events a hero emits to its owner. */
  datatype Signal = Spawn | Leave | Message(msg: Reply) | Disconnect | WorkerError(error: Value)

  /** `Throw` is the TypeError of calling into a child that was never forked. */
  datatype Effect = Fork | SendToChild(msg: Request) | KillChild | Emit(signal: Signal) | Throw

  datatype Step = Step(hero: Hero, effects: seq<Effect>)

  /** Reachable handle states:
      - listeners are attached exactly while a child exists and the handle is not dismissed;
      - attached listeners sit on a connected child;
      - leave waiters exist only on a dismissed handle whose child is still connected. */
  predicate Valid(h: Hero)
  {
    && (h.listenersAttached <==> h.spawns > 0 && !h.dismissed)
    && (h.listenersAttached ==> h.childConnected)
    && (h.spawns == 0 ==> !h.childConnected)
    && (h.leaveWaiters > 0 ==> h.dismissed && h.childConnected)
  }

  /** `new HeroWorker(workerPath)`: no child yet. */
  function New(): (h: Hero)
    ensures Valid(h) && !h.dismissed && h.spawns == 0
  {
    Hero(false, false, false, 0, 0)
  }

  /** `start()`: fork a new child that replaces the current one, attach the three listeners to it,
      then emit `spawn`. */
  function Start(h: Hero): (r: Step)
    ensures r.hero.spawns == h.spawns + 1
    ensures r.hero.childConnected && r.hero.listenersAttached
    ensures r.hero.dismissed == h.dismissed && r.hero.leaveWaiters == h.leaveWaiters
    ensures r.effects == [Fork, Emit(Spawn)]
    ensures !h.dismissed && !h.childConnected && h.leaveWaiters == 0 ==> Valid(r.hero)
  {
    Step(h.(spawns := h.spawns + 1, childConnected := true, listenersAttached := true),
         [Fork, Emit(Spawn)])
  }

  /** What a TaskWorker does on construction: `new HeroWorker(...)` immediately followed by `start()`. */
  function Create(): (r: Step)
    ensures Valid(r.hero) && !r.hero.dismissed && r.hero.spawns == 1
    ensures r.effects == [Fork, Emit(Spawn)]
  {
    Start(New())
  }

  /** `send(msg)`: forwarded to the current child; throws before the first `start`. */
  function Send(h: Hero, msg: Request): (r: Step)
    ensures r.hero == h
    ensures r.effects == if h.spawns == 0 then [Throw] else [SendToChild(msg)]
  {
    if h.spawns == 0 then Step(h, [Throw]) else Step(h, [SendToChild(msg)])
  }

  /** `kill(sig)`: signal the current child. The handle is not dismissed, so it will respawn. */
  function Kill(h: Hero): (r: Step)
    ensures r.hero == h
    ensures r.effects == if h.spawns == 0 then [Throw] else [KillChild]
  {
    if h.spawns == 0 then Step(h, [Throw]) else Step(h, [KillChild])
  }

  /** `n` emissions of `leave`. */
  function Leaves(n: nat): (r: seq<Effect>)
    ensures |r| == n
    ensures multiset(r)[Emit(Leave)] == n
    ensures forall i :: 0 <= i < n ==> r[i] == Emit(Leave)
    decreases n
  {
    if n == 0 then [] else [Emit(Leave)] + Leaves(n - 1)
  }

  /** `dismiss()`: mark dismissed, detach the listeners, kill the child, then emit `leave` now if the
      child is already disconnected, or leave a callback that emits it on the child's disconnect.
      Before any `start` the listener removal throws, after `dismissed` was already set. */
  function Dismiss(h: Hero): (r: Step)
    ensures r.hero.dismissed
    ensures h.spawns > 0 ==> !r.hero.listenersAttached
    ensures r.hero.spawns == h.spawns && r.hero.childConnected == h.childConnected
    ensures h.spawns == 0 ==> r.effects == [Throw] && r.hero.leaveWaiters == h.leaveWaiters
    ensures h.spawns > 0 && !h.childConnected ==> r.effects == [KillChild, Emit(Leave)]
    ensures h.spawns > 0 && h.childConnected ==> r.effects == [KillChild]
    ensures h.spawns > 0 ==>
      multiset(r.effects)[Emit(Leave)] + r.hero.leaveWaiters == h.leaveWaiters + 1
    ensures Valid(h) ==> Valid(r.hero)
  {
    var h1 := h.(dismissed := true);
    if h.spawns == 0 then Step(h1, [Throw])
    else
      var h2 := h1.(listenersAttached := false);
      if !h.childConnected then Step(h2, [KillChild, Emit(Leave)])
      else Step(h2.(leaveWaiters := h.leaveWaiters + 1), [KillChild])
  }

  /** The child's `message` event: re-emitted while the listeners are attached. */
  function OnChildMessage(h: Hero, msg: Reply): (r: Step)
    ensures r.hero == h
    ensures r.effects == if h.listenersAttached then [Emit(Message(msg))] else []
  {
    if h.listenersAttached then Step(h, [Emit(Message(msg))]) else Step(h, [])
  }

  /** The child's `error` event: while the listeners are attached, emit `workerError`, then kill
      the child (which leads to a disconnect and a respawn unless dismissed). */
  function OnChildError(h: Hero, error: Value): (r: Step)
    ensures r.hero == h
    ensures h.listenersAttached && Valid(h) ==> r.effects == [Emit(WorkerError(error)), KillChild]
    ensures !h.listenersAttached ==> r.effects == []
  {
    if h.listenersAttached then
      var k := Kill(h);
      Step(k.hero, [Emit(WorkerError(error))] + k.effects)
    else Step(h, [])
  }

  /** The current child's `disconnect` event. The attached handler emits `disconnect`, detaches
      itself and starts a new child unless dismissed; every callback left by `dismiss` emits
      `leave`. A child that is not connected cannot disconnect. */
  function OnChildDisconnect(h: Hero): (r: Step)
    ensures !h.childConnected ==> r == Step(h, [])
    ensures r.hero.dismissed == h.dismissed
    ensures h.childConnected ==> multiset(r.effects)[Emit(Leave)] == h.leaveWaiters && r.hero.leaveWaiters == 0
    ensures Valid(h) && h.listenersAttached ==>
      r.effects == [Emit(Disconnect), Fork, Emit(Spawn)]
      && r.hero.spawns == h.spawns + 1 && r.hero.childConnected && r.hero.listenersAttached
    ensures h.childConnected && !h.listenersAttached ==>
      r.hero.spawns == h.spawns && !r.hero.childConnected && !r.hero.listenersAttached
      && (forall i :: 0 <= i < |r.effects| ==> r.effects[i] == Emit(Leave))
    ensures Valid(h) ==> Valid(r.hero)
  {
    if !h.childConnected then Step(h, [])
    else
      var leaves := Leaves(h.leaveWaiters);
      var h1 := h.(childConnected := false, leaveWaiters := 0);
      if h.listenersAttached then
        var h2 := h1.(listenersAttached := false);
        if !h.dismissed then
          var s := Start(h2);
          Step(s.hero, [Emit(Disconnect)] + s.effects + leaves)
        else
          Step(h2, [Emit(Disconnect)] + leaves)
      else
        Step(h1, leaves)
  }

  // ---------------------------------------------------------------------------------------------
  // Properties relating several transitions.

  /** `kill` never dismisses: a killed live handle respawns on its child's disconnect, with a new
      child, listeners and a `spawn` signal. */
  lemma KilledHeroRespawns(h: Hero)
    requires Valid(h) && h.spawns > 0 && !h.dismissed
    ensures var k := Kill(h);
      && k.effects == [KillChild] && !k.hero.dismissed
      && var d := OnChildDisconnect(k.hero);
      && d.effects == [Emit(Disconnect), Fork, Emit(Spawn)]
      && d.hero.spawns == h.spawns + 1 && d.hero.childConnected && !d.hero.dismissed
  {
    var d := OnChildDisconnect(h);
    assert d.effects == [Emit(Disconnect), Fork, Emit(Spawn)] + Leaves(0);
  }

  /** Once started, a handle always has a child to write to: `send` no longer fails on a missing
      child, whether the child was since killed or the handle dismissed, and the message is handed
      to that child. What the child's channel then does with it is outside the model. */
  lemma SendAfterStart(h: Hero, msg: Request)
    ensures Send(Start(h).hero, msg).effects == [SendToChild(msg)]
    ensures Send(Kill(Start(h).hero).hero, msg).effects == [SendToChild(msg)]
    ensures Send(Dismiss(Start(h).hero).hero, msg).effects == [SendToChild(msg)]
  {
  }

  /** Dismissing a live handle whose child is still connected emits nothing yet, and the child's
      disconnect then emits exactly one `leave`, no `disconnect` and no respawn. */
  lemma DismissThenDisconnectLeavesOnce(h: Hero)
    requires Valid(h) && h.spawns > 0 && !h.dismissed && h.childConnected
    ensures var d := Dismiss(h);
      && multiset(d.effects)[Emit(Leave)] == 0
      && OnChildDisconnect(d.hero).effects == [Emit(Leave)]
      && OnChildDisconnect(d.hero).hero.spawns == h.spawns
  {
    var d := Dismiss(h);
    assert d.hero.leaveWaiters == 1;
    assert Leaves(1) == [Emit(Leave)];
  }

  /** Dismissing a live handle whose child has already disconnected emits `leave` at once. */
  lemma DismissDisconnectedLeavesNow(h: Hero)
    requires Valid(h) && h.spawns > 0 && !h.childConnected
    ensures multiset(Dismiss(h).effects)[Emit(Leave)] == 1
    ensures Dismiss(h).hero.leaveWaiters == h.leaveWaiters
  {
  }

  /** A dismissed handle is deaf: whatever its child does afterwards, no `disconnect`, `message`
      or `workerError` is emitted, nothing is forked, and it stays dismissed. */
  lemma DismissedHandleIsSilent(h: Hero, msg: Reply, error: Value)
    requires Valid(h) && h.dismissed
    ensures OnChildMessage(h, msg).effects == []
    ensures OnChildError(h, error).effects == []
    ensures var d := OnChildDisconnect(h);
      d.hero.dismissed && d.hero.spawns == h.spawns
      && forall i :: 0 <= i < |d.effects| ==> d.effects[i] == Emit(Leave)
  {
  }
}
