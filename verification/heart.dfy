/** The heartbeat monitor: a countdown of "health points" refilled by `beat` and decremented by a
    process-wide ticker. Reaching exactly zero emits `timeout`. */
module Heart {
  import opened Wrappers
  import Seqs

  type HeartId = nat

  /** One monitor. `maxHP == None` is the `Infinity` capacity; `healthPoint == None` is the
      counter's value `Infinity`, which stays `Infinity` when decremented. */
  datatype Monitor = Monitor(id: HeartId, maxHP: Option<nat>, healthPoint: Option<int>)

  /** The counter is infinite exactly when the capacity is. */
  predicate Valid(m: Monitor)
  {
    m.maxHP.None? <==> m.healthPoint.None?
  }

  /** The counter holds the full capacity. */
  predicate Full(m: Monitor)
  {
    match m.maxHP
    case None => m.healthPoint.None?
    case Some(n) => m.healthPoint == Some(n)
  }

  /** `new Heart(maxHP)`, apart from its registration: the counter starts full. */
  function New(id: HeartId, maxHP: Option<nat>): (m: Monitor)
    ensures m.id == id && m.maxHP == maxHP
    ensures Full(m) && Valid(m)
  {
    Monitor(id, maxHP, Capacity(maxHP))
  }

  function Capacity(maxHP: Option<nat>): Option<int>
  {
    match maxHP
    case None => None
    case Some(n) => Some(n)
  }

  /** `beat()`: refill the counter, whatever it held. */
  function Beat(m: Monitor): (r: Monitor)
    ensures r.id == m.id && r.maxHP == m.maxHP
    ensures Full(r) && Valid(r)
  {
    m.(healthPoint := Capacity(m.maxHP))
  }

  /** `k` consecutive beats. */
  function Beats(m: Monitor, k: nat): Monitor
    decreases k
  {
    if k == 0 then m else Beats(Beat(m), k - 1)
  }

  /** Beating any positive number of times in a row is beating once. */
  lemma {:induction false} BeatsIdempotent(m: Monitor, k: nat)
    requires k >= 1
    ensures Beats(m, k) == Beat(m)
    decreases k
  {
    if k > 1 {
      BeatsIdempotent(Beat(m), k - 1);
      assert Beat(Beat(m)) == Beat(m);
    }
  }

  datatype Attacked = Attacked(monitor: Monitor, timeout: bool)

  /** `attack()`: one tick. An infinite counter is unchanged; a finite one loses one point, and
      `timeout` is emitted exactly when the new value is 0 (`!this.healthPoint`). */
  function Attack(m: Monitor): (r: Attacked)
    ensures r.monitor.id == m.id && r.monitor.maxHP == m.maxHP
    ensures m.healthPoint.None? ==> r.monitor == m
    ensures m.healthPoint.Some? ==> r.monitor.healthPoint == Some(m.healthPoint.value - 1)
    ensures r.timeout <==> r.monitor.healthPoint == Some(0)
    ensures Valid(m) ==> Valid(r.monitor)
  {
    match m.healthPoint
    case None => Attacked(m, false)
    case Some(hp) => Attacked(m.(healthPoint := Some(hp - 1)), hp - 1 == 0)
  }

  /** The outcome of several events: the final monitor and, per event, whether it emitted `timeout`. */
  datatype Trace = Trace(monitor: Monitor, fired: seq<bool>)

  /** `k` consecutive attacks with no beat in between. The (i+1)-th attack fires exactly when the
      counter started at i+1, so a countdown fires once and then goes negative silently. */
  function AttackTimes(m: Monitor, k: nat): (r: Trace)
    ensures |r.fired| == k
    ensures r.monitor.id == m.id && r.monitor.maxHP == m.maxHP
    ensures m.healthPoint.None? ==> r.monitor == m
    ensures m.healthPoint.Some? ==> r.monitor.healthPoint == Some(m.healthPoint.value - k)
    ensures forall i :: 0 <= i < k ==> (r.fired[i] <==> m.healthPoint == Some(i + 1))
    decreases k
  {
    if k == 0 then Trace(m, [])
    else
      var a := Attack(m);
      var rest := AttackTimes(a.monitor, k - 1);
      Trace(rest.monitor, [a.timeout] + rest.fired)
  }

  /** After a beat with a finite capacity N, `timeout` fires on the N-th consecutive attack and on
      no other; every later attack leaves the counter negative. A capacity of 0 never fires. */
  lemma BeatThenAttacks(m: Monitor, n: nat, k: nat)
    requires m.maxHP == Some(n)
    ensures var t := AttackTimes(Beat(m), k);
      && (forall i :: 0 <= i < k ==> (t.fired[i] <==> i + 1 == n))
      && (k > n ==> t.monitor.healthPoint.value < 0)
  {
  }

  datatype Event = BeatEvent | AttackEvent

  /** Any interleaving of beats and attacks; beats never fire. */
  function Replay(m: Monitor, events: seq<Event>): (r: Trace)
    ensures |r.fired| == |events|
    ensures r.monitor.id == m.id && r.monitor.maxHP == m.maxHP
    ensures Valid(m) ==> Valid(r.monitor)
    decreases |events|
  {
    if |events| == 0 then Trace(m, [])
    else
      match events[0]
      case BeatEvent =>
        var rest := Replay(Beat(m), events[1..]);
        Trace(rest.monitor, [false] + rest.fired)
      case AttackEvent =>
        var a := Attack(m);
        var rest := Replay(a.monitor, events[1..]);
        Trace(rest.monitor, [a.timeout] + rest.fired)
  }

  /** With the default `Infinity` capacity, no sequence of beats and attacks ever emits `timeout`. */
  lemma {:induction false} InfiniteNeverTimesOut(m: Monitor, events: seq<Event>)
    requires Valid(m) && m.maxHP.None?
    ensures forall i :: 0 <= i < |events| ==> !Replay(m, events).fired[i]
    decreases |events|
  {
    if |events| > 0 {
      match events[0]
      case BeatEvent => InfiniteNeverTimesOut(Beat(m), events[1..]);
      case AttackEvent => InfiniteNeverTimesOut(Attack(m).monitor, events[1..]);
    }
  }

  // ---------------------------------------------------------------------------------------------
  // The shared registry (`const hearts = []`) and its ticker.

  /** The process-wide list of live monitors, in registration order, and the next fresh identity. */
  datatype Registry = Registry(hearts: seq<Monitor>, nextId: HeartId)

  function Empty(): (reg: Registry)
    ensures reg.hearts == [] && RegistryValid(reg)
  {
    Registry([], 0)
  }

  /** Registered monitors have distinct identities below `nextId`. */
  predicate RegistryValid(reg: Registry)
  {
    && (forall i :: 0 <= i < |reg.hearts| ==> reg.hearts[i].id < reg.nextId)
    && (forall i, j :: 0 <= i < |reg.hearts| && 0 <= j < |reg.hearts| && i != j ==>
          reg.hearts[i].id != reg.hearts[j].id)
  }

  predicate Registered(reg: Registry, id: HeartId)
  {
    exists i :: 0 <= i < |reg.hearts| && reg.hearts[i].id == id
  }

  /** `beat()` on the monitor with identity `id`, as the registry holds it. A closed monitor is no
      longer in the registry, so beating it changes nothing the ticker can see. */
  function BeatById(reg: Registry, id: HeartId): (r: Registry)
    ensures r.nextId == reg.nextId && |r.hearts| == |reg.hearts|
    ensures forall i :: 0 <= i < |reg.hearts| ==>
      r.hearts[i] == if reg.hearts[i].id == id then Beat(reg.hearts[i]) else reg.hearts[i]
  {
    Registry(seq(|reg.hearts|, i requires 0 <= i < |reg.hearts| =>
               if reg.hearts[i].id == id then Beat(reg.hearts[i]) else reg.hearts[i]), reg.nextId)
  }

  datatype Registration = Registration(registry: Registry, heart: Monitor)

  /** The constructor: a new full monitor with a fresh identity is appended to the registry. */
  function Register(reg: Registry, maxHP: Option<nat>): (r: Registration)
    ensures r.registry.hearts == reg.hearts + [r.heart]
    ensures r.heart.maxHP == maxHP && Full(r.heart)
    ensures RegistryValid(reg) ==> !Registered(reg, r.heart.id) && RegistryValid(r.registry)
  {
    var m := New(reg.nextId, maxHP);
    Registration(Registry(reg.hearts + [m], reg.nextId + 1), m)
  }

  function HasId(id: HeartId): Monitor -> bool
  {
    (m: Monitor) => m.id == id
  }

  function Differs(id: HeartId): Monitor -> bool
  {
    (m: Monitor) => m.id != id
  }

  /** `close()`: `hearts.splice(hearts.indexOf(this), 1)`. An unregistered monitor has index -1,
      which removes the LAST registered monitor instead. */
  function Close(reg: Registry, id: HeartId): (r: Registry)
    ensures r.nextId == reg.nextId
    ensures |reg.hearts| > 0 ==> |r.hearts| == |reg.hearts| - 1
    ensures !Registered(reg, id) && |reg.hearts| > 0 ==> r.hearts == reg.hearts[..|reg.hearts| - 1]
  {
    Registry(Seqs.SpliceOne(reg.hearts, Seqs.FindIndex(reg.hearts, HasId(id))), reg.nextId)
  }

  /** In a well-formed registry, closing a registered monitor keeps exactly the other monitors, in
      their order. */
  lemma CloseIsFilter(reg: Registry, id: HeartId)
    requires RegistryValid(reg) && Registered(reg, id)
    ensures Close(reg, id).hearts == Seqs.Filter(reg.hearts, Differs(id))
  {
    var hs := reg.hearts;
    var k := Seqs.FindIndex(hs, HasId(id));
    var i :| 0 <= i < |hs| && hs[i].id == id;
    assert HasId(id)(hs[i]);
    forall j | 0 <= j < |hs| && j != k
      ensures Differs(id)(hs[j])
    {
      assert hs[j].id != hs[k].id;
    }
    Seqs.RemoveAtIsFilter(hs, k, Differs(id));
    assert Close(reg, id).hearts == hs[..k] + hs[k + 1..];
  }

  /** Closing keeps the registry well-formed, whichever monitor the splice removes. */
  lemma CloseKeepsValid(reg: Registry, id: HeartId)
    requires RegistryValid(reg)
    ensures RegistryValid(Close(reg, id))
  {
    var hs := reg.hearts;
    var r := Close(reg, id).hearts;
    var s := Seqs.SpliceStart(|hs|, Seqs.FindIndex(hs, HasId(id)));
    if s < |hs| {
      forall j | 0 <= j < |r|
        ensures r[j] == hs[if j < s then j else j + 1]
      {
      }
    }
  }

  /** Closing a monitor removes exactly that one: it is no longer registered and every other
      monitor still is. */
  lemma CloseRemovesExactly(reg: Registry, id: HeartId, other: HeartId)
    requires RegistryValid(reg) && Registered(reg, id)
    ensures !Registered(Close(reg, id), id)
    ensures other != id ==> (Registered(Close(reg, id), other) <==> Registered(reg, other))
  {
    var k := Seqs.FindIndex(reg.hearts, HasId(id));
    var r := Close(reg, id);
    assert r.hearts == reg.hearts[..k] + reg.hearts[k + 1..];
    if other != id && Registered(reg, other) {
      var i :| 0 <= i < |reg.hearts| && reg.hearts[i].id == other;
      if i < k {
        assert r.hearts[i].id == other;
      } else {
        assert r.hearts[i - 1].id == other;
      }
    }
  }

  /** Registering a monitor and closing it again restores the registry's list. */
  lemma RegisterThenClose(reg: Registry, maxHP: Option<nat>)
    requires RegistryValid(reg)
    ensures var r := Register(reg, maxHP);
      Close(r.registry, r.heart.id).hearts == reg.hearts
  {
    var r := Register(reg, maxHP);
    var s := r.registry.hearts;
    var k := Seqs.FindIndex(s, HasId(r.heart.id));
    assert s[|reg.hearts|].id == r.heart.id;
    assert k == |reg.hearts|;
    assert s[..k] + s[k + 1..] == reg.hearts;
  }

  datatype TickResult = TickResult(registry: Registry, timedOut: seq<HeartId>)

  /** One run of the shared ticker: every registered monitor is attacked once, in order; the
      identities of those that emitted `timeout` are reported. */
  function Tick(reg: Registry): (r: TickResult)
    ensures r.registry.nextId == reg.nextId
    ensures |r.registry.hearts| == |reg.hearts|
    ensures forall i :: 0 <= i < |reg.hearts| ==> r.registry.hearts[i] == Attack(reg.hearts[i]).monitor
    ensures forall id :: id in r.timedOut <==>
      exists i :: 0 <= i < |reg.hearts| && reg.hearts[i].id == id && Attack(reg.hearts[i]).timeout
  {
    TickResult(Registry(seq(|reg.hearts|, i requires 0 <= i < |reg.hearts| => Attack(reg.hearts[i]).monitor), reg.nextId),
               TimedOut(reg.hearts))
  }

  function TimedOut(hs: seq<Monitor>): (r: seq<HeartId>)
    ensures forall id :: id in r <==>
      exists i :: 0 <= i < |hs| && hs[i].id == id && Attack(hs[i]).timeout
  {
    if |hs| == 0 then []
    else
      var rest := TimedOut(hs[1..]);
      (if Attack(hs[0]).timeout then [hs[0].id] else []) + rest
  }

  /** A closed monitor is never attacked again: the ticker neither touches nor reports it. */
  lemma ClosedHeartNeverAttacked(reg: Registry, id: HeartId)
    requires RegistryValid(reg) && Registered(reg, id)
    ensures var t := Tick(Close(reg, id));
      && id !in t.timedOut
      && forall i :: 0 <= i < |t.registry.hearts| ==> t.registry.hearts[i].id != id
  {
    CloseRemovesExactly(reg, id, id);
  }
}
