/**
 The life of the TLS proxies of one pair of caller-owned caches, as a step system.
 Every event is one uninterrupted segment of the event loop: it runs from one
 `await` to the next, and any events may interleave between two segments of the
 same coroutine.
 */
module ProxyLifecycle {
  import opened Wrappers
  import opened Breaker

  type Cam = string
  type Task = nat
  type GenId = nat

  /** What took an installed generation out of `server_cache`. */
  datatype Removal = Present | ByStop | ByTrip | ByOverwrite | ByClear

  /**
   Progress of `_fire_on_proxy_died`: `died_fired` is False exactly while Armed.
   Aborted is a trip before `server` is bound, which raises in the handler.
   */
  datatype Trip = Armed | Aborted | Closing(current: bool) | Done(current: bool)

  /** One call (`starter`) of `start_tls_proxy` that reached `asyncio.start_server`. */
  datatype Gen = Gen(cam: Cam, starter: Task, port: nat, hasCallback: bool, installed: bool, open: bool,
                     history: seq<Outcome>, counters: Counters, trip: Trip, removal: Removal, calls: nat)

  datatype StartPhase =
    | Stopping(cam: Cam, hasCallback: bool)  // waiting in stop_tls_proxy, or about to listen
    | Listening(gen: GenId)                  // the server is open, the caches are not written yet

  datatype State = State(
    portCache: map<Cam, nat>,
    serverCache: map<Cam, GenId>,
    gens: seq<Gen>,
    starts: map<Task, StartPhase>,
    sweeps: map<Task, seq<Cam>>)  // running stop_all_proxies: cameras still to stop

  datatype Event =
    | BeginStart(task: Task, cam: Cam, hasCallback: bool)
    | Listen(task: Task, port: nat)
    | ListenFails(task: Task)
    | Install(task: Task)
    | Stop(cam: Cam)
    | BeginSweep(task: Task, snapshot: seq<Cam>)
    | SweepNext(task: Task)
    | SweepClear(task: Task)
    | ConnectFailed(gen: GenId, now: real)
    | ConnectSucceeded(gen: GenId)
    | FinishTrip(gen: GenId)

  const INITIAL := State(map[], map[], [], map[], map[])

  predicate Enabled(s: State, e: Event) {
    match e
    case BeginStart(t, _, _) => t !in s.starts
    case Listen(t, _) => t in s.starts && s.starts[t].Stopping?
    case ListenFails(t) => t in s.starts && s.starts[t].Stopping?
    case Install(t) => t in s.starts && s.starts[t].Listening? && s.starts[t].gen < |s.gens|
    case Stop(_) => true
    case BeginSweep(t, snapshot) => t !in s.sweeps && (set cam | cam in snapshot) == s.serverCache.Keys
    case SweepNext(t) => t in s.sweeps && s.sweeps[t] != []
    case SweepClear(t) => t in s.sweeps && s.sweeps[t] == []
    case ConnectFailed(g, _) => g < |s.gens|
    case ConnectSucceeded(g) => g < |s.gens|
    case FinishTrip(g) => g < |s.gens| && s.gens[g].trip.Closing?
  }

  /** `server.close()` on a generation, together with the reason it left the cache. */
  function Closed(gens: seq<Gen>, g: GenId, why: Removal): seq<Gen> {
    if g < |gens| then gens[g := gens[g].(open := false, removal := why)] else gens
  }

  /** The part of `stop_tls_proxy` before `wait_closed`. */
  function Stopped(s: State, cam: Cam): State {
    s.(portCache := s.portCache - {cam},
       serverCache := s.serverCache - {cam},
       gens := if cam in s.serverCache then Closed(s.gens, s.serverCache[cam], ByStop) else s.gens)
  }

  /** The last segment of `start_tls_proxy`: both cache writes, no await between them. */
  function Installed(s: State, g: GenId): State
    requires g < |s.gens|
  {
    var cam := s.gens[g].cam;
    var gens := if cam in s.serverCache && s.serverCache[cam] < |s.gens| then
                  s.gens[s.serverCache[cam] := s.gens[s.serverCache[cam]].(removal := ByOverwrite)]
                else s.gens;
    s.(portCache := s.portCache[cam := s.gens[g].port],
       serverCache := s.serverCache[cam := g],
       gens := gens[g := gens[g].(installed := true)])
  }

  /** `port_cache.clear(); server_cache.clear()`. */
  function Cleared(s: State): State {
    s.(portCache := map[], serverCache := map[],
       gens := seq(|s.gens|, g requires 0 <= g < |s.gens| =>
         if Get(s.serverCache, s.gens[g].cam) == Some(g) then s.gens[g].(removal := ByClear) else s.gens[g]))
  }

  /** The part of `_fire_on_proxy_died` before `wait_closed`, for a generation still Armed. */
  function Tripped(s: State, g: GenId): State
    requires g < |s.gens|
  {
    var gen := s.gens[g];
    if !gen.installed then
      s.(gens := s.gens[g := gen.(trip := Aborted)])
    else if Get(s.serverCache, gen.cam) == Some(g) then
      s.(portCache := s.portCache - {gen.cam},
         serverCache := s.serverCache - {gen.cam},
         gens := s.gens[g := gen.(open := false, removal := ByTrip, trip := Closing(true))])
    else
      s.(gens := s.gens[g := gen.(open := false, trip := Closing(false))])
  }

  /** One connect outcome, booked in the closure variables of its generation. */
  function Observed(gen: Gen, o: Outcome): Gen {
    gen.(history := gen.history + [o], counters := After(gen.counters, o))
  }

  /** The except branch of `_handle_client`, up to the first await. */
  function FailureHandled(s: State, g: GenId, now: real): State
    requires g < |s.gens|
  {
    var gen := Observed(s.gens[g], Failed(now));
    var s' := s.(gens := s.gens[g := gen]);
    if Crosses(gen.counters, now) && gen.trip.Armed? then Tripped(s', g) else s'
  }

  /** The part of `_fire_on_proxy_died` after `wait_closed`. */
  function Reported(gen: Gen): Gen
    requires gen.trip.Closing?
  {
    gen.(trip := Done(gen.trip.current),
         calls := gen.calls + if gen.trip.current && gen.hasCallback then 1 else 0)
  }

  function Step(s: State, e: Event): State
    requires Enabled(s, e)
  {
    match e
    case BeginStart(t, cam, cb) =>
      (if cam in s.portCache || cam in s.serverCache then Stopped(s, cam) else s)
        .(starts := s.starts[t := Stopping(cam, cb)])
    case Listen(t, port) =>
      s.(gens := s.gens + [Gen(s.starts[t].cam, t, port, s.starts[t].hasCallback, false, true,
                               [], IDLE, Armed, Present, 0)],
         starts := s.starts[t := Listening(|s.gens|)])
    case ListenFails(t) => s.(starts := s.starts - {t})
    case Install(t) =>
      Installed(s, s.starts[t].gen).(starts := s.starts - {t})
    case Stop(cam) => Stopped(s, cam)
    case BeginSweep(t, snapshot) => s.(sweeps := s.sweeps[t := snapshot])
    case SweepNext(t) =>
      Stopped(s, s.sweeps[t][0]).(sweeps := s.sweeps[t := s.sweeps[t][1..]])
    case SweepClear(t) =>
      Cleared(s).(sweeps := s.sweeps - {t})
    case ConnectFailed(g, now) => FailureHandled(s, g, now)
    case ConnectSucceeded(g) => s.(gens := s.gens[g := Observed(s.gens[g], Connected)])
    case FinishTrip(g) => s.(gens := s.gens[g := Reported(s.gens[g])])
  }

  /** A run of the event loop from empty caches: `states[i]` is the i-th scheduling point. */
  ghost predicate IsRun(states: seq<State>, events: seq<Event>) {
    && |states| == |events| + 1
    && states[0] == INITIAL
    && forall i | 0 <= i < |events| :: Enabled(states[i], events[i]) && states[i + 1] == Step(states[i], events[i])
  }

  // ---- What holds at every scheduling point, whatever the callers do ----

  /** A cached server is an installed, open generation of that camera, cached with its own port. */
  ghost predicate EntrySound(s: State, cam: Cam)
    requires cam in s.serverCache
  {
    var g := s.serverCache[cam];
    && g < |s.gens| && s.gens[g].cam == cam && s.gens[g].installed && s.gens[g].open
    && s.gens[g].removal == Present && Get(s.portCache, cam) == Some(s.gens[g].port)
  }

  /** The callback count and the removal cause of one generation. */
  ghost predicate CallbackMatchesCause(gen: Gen) {
    && (gen.calls == if gen.trip == Done(true) && gen.hasCallback then 1 else 0)
    && (gen.removal == ByTrip <==> gen.trip == Closing(true) || gen.trip == Done(true))
    && (gen.removal == ByTrip || gen.removal == ByStop ==> !gen.open)
    && (!gen.installed ==> gen.open && gen.removal == Present && (gen.trip == Armed || gen.trip == Aborted))
  }

  /** The closure variables of one generation are a function of its connect history. */
  ghost predicate BreakerMatchesHistory(gen: Gen) {
    && gen.counters == Replay(gen.history)
    && (gen.trip.Armed? <==> !EverCrossed(gen.history))
  }

  /** A generation nothing removed is either cached or held by the start that opened it. */
  ghost predicate GenSound(s: State, g: GenId)
    requires g < |s.gens|
  {
    var gen := s.gens[g];
    && CallbackMatchesCause(gen)
    && BreakerMatchesHistory(gen)
    && (gen.installed && gen.removal == Present ==> Get(s.serverCache, gen.cam) == Some(g))
    && (!gen.installed ==> Get(s.starts, gen.starter) == Some(Listening(g)))
  }

  ghost predicate StartSound(s: State, t: Task)
    requires t in s.starts
  {
    s.starts[t].Listening? ==>
      var g := s.starts[t].gen; g < |s.gens| && !s.gens[g].installed && s.gens[g].starter == t
  }

  ghost predicate Sound(s: State) {
    && s.portCache.Keys == s.serverCache.Keys
    && (forall cam | cam in s.serverCache :: EntrySound(s, cam))
    && (forall g: nat | g < |s.gens| :: GenSound(s, g))
    && (forall t | t in s.starts :: StartSound(s, t))
  }

  lemma StoppedSound(s: State, cam: Cam)
    requires Sound(s)
    ensures Sound(Stopped(s, cam))
  {
    var s' := Stopped(s, cam);
    forall c | c in s'.serverCache ensures EntrySound(s', c) { assert EntrySound(s, c); }
    forall g: nat | g < |s'.gens| ensures GenSound(s', g) { assert GenSound(s, g); }
    forall t | t in s'.starts ensures StartSound(s', t) { assert StartSound(s, t); }
  }

  lemma InstalledSound(s: State, t: Task)
    requires Sound(s) && Enabled(s, Install(t))
    ensures Sound(Step(s, Install(t)))
  {
    var s' := Step(s, Install(t));
    assert StartSound(s, t);
    assert GenSound(s, s.starts[t].gen);
    forall c | c in s'.serverCache ensures EntrySound(s', c) {
      if c in s.serverCache { assert EntrySound(s, c); }
    }
    forall g: nat | g < |s'.gens| ensures GenSound(s', g) { InstalledGenSound(s, t, g); }
    forall u | u in s'.starts ensures StartSound(s', u) { assert StartSound(s, u); }
  }

  lemma InstalledGenSound(s: State, t: Task, g: GenId)
    requires Sound(s) && Enabled(s, Install(t)) && g < |s.gens|
    ensures GenSound(Step(s, Install(t)), g)
  {
    assert StartSound(s, t) && GenSound(s, s.starts[t].gen) && GenSound(s, g);
    var cam := s.gens[s.starts[t].gen].cam;
    if cam in s.serverCache { assert EntrySound(s, cam); }
  }

  lemma ClearedSound(s: State)
    requires Sound(s)
    ensures Sound(Cleared(s))
  {
    var s' := Cleared(s);
    forall g: nat | g < |s'.gens| ensures GenSound(s', g) { assert GenSound(s, g); }
    forall t | t in s'.starts ensures StartSound(s', t) { assert StartSound(s, t); }
  }

  lemma ListenSound(s: State, t: Task, port: nat)
    requires Sound(s) && Enabled(s, Listen(t, port))
    ensures Sound(Step(s, Listen(t, port)))
  {
    var s' := Step(s, Listen(t, port));
    forall c | c in s'.serverCache ensures EntrySound(s', c) { assert EntrySound(s, c); }
    forall g: nat | g < |s'.gens| ensures GenSound(s', g) {
      if g < |s.gens| { assert GenSound(s, g); }
    }
    forall u | u in s'.starts ensures StartSound(s', u) { assert StartSound(s, u); }
  }

  /** A change to one generation that keeps what the others and the caches rely on. */
  lemma GenUpdateSound(s: State, g: GenId, gen: Gen)
    requires Sound(s) && g < |s.gens|
    requires gen.cam == s.gens[g].cam && gen.port == s.gens[g].port && gen.starter == s.gens[g].starter
    requires gen.installed == s.gens[g].installed && gen.removal == s.gens[g].removal
    requires gen.open == s.gens[g].open || (gen.installed && gen.removal != Present)
    requires CallbackMatchesCause(gen) && BreakerMatchesHistory(gen)
    ensures Sound(s.(gens := s.gens[g := gen]))
  {
    var s' := s.(gens := s.gens[g := gen]);
    assert GenSound(s, g);
    forall c | c in s'.serverCache ensures EntrySound(s', c) { assert EntrySound(s, c); }
    forall h: nat | h < |s'.gens| ensures GenSound(s', h) { assert GenSound(s, h); }
    forall t | t in s'.starts ensures StartSound(s', t) { assert StartSound(s, t); }
  }

  lemma ObservedMatches(gen: Gen, o: Outcome)
    requires BreakerMatchesHistory(gen)
    ensures var gen' := Observed(gen, o);
            && gen'.counters == Replay(gen'.history)
            && (EverCrossed(gen'.history) <==>
                EverCrossed(gen.history) || (o.Failed? && Crosses(gen'.counters, o.at)))
  {
    assert (gen.history + [o])[..|gen.history|] == gen.history;
  }

  lemma FailureSound(s: State, g: GenId, now: real)
    requires Sound(s) && g < |s.gens|
    ensures Sound(FailureHandled(s, g, now))
  {
    assert GenSound(s, g);
    ObservedMatches(s.gens[g], Failed(now));
    var gen := Observed(s.gens[g], Failed(now));
    if Crosses(gen.counters, now) && gen.trip.Armed? {
      TrippedSound(s, g, gen);
    } else {
      GenUpdateSound(s, g, gen);
    }
  }

  /** The trip of a generation whose counters have just crossed. */
  lemma TrippedSound(s: State, g: GenId, gen: Gen)
    requires Sound(s) && g < |s.gens| && s.gens[g].trip.Armed?
    requires gen == s.gens[g].(history := gen.history, counters := gen.counters)
    requires gen.counters == Replay(gen.history) && EverCrossed(gen.history)
    ensures Sound(Tripped(s.(gens := s.gens[g := gen]), g))
  {
    assert GenSound(s, g);
    var s1 := s.(gens := s.gens[g := gen]);
    var s' := Tripped(s1, g);
    if gen.installed && Get(s.serverCache, gen.cam) == Some(g) {
      forall c | c in s'.serverCache ensures EntrySound(s', c) { assert EntrySound(s, c); }
      forall h: nat | h < |s'.gens| ensures GenSound(s', h) { assert GenSound(s, h); }
      forall t | t in s'.starts ensures StartSound(s', t) { assert StartSound(s, t); }
    } else {
      GenUpdateSound(s, g, s'.gens[g]);
      assert s'.gens == s.gens[g := s'.gens[g]];
    }
  }

  /** The waiting starts and sweeps play no part beyond the servers that starts hold. */
  lemma WaitingFrame(s: State, s': State)
    requires Sound(s) && s'.(starts := s.starts, sweeps := s.sweeps) == s
    requires forall t | t in s.starts && s.starts[t].Listening? :: Get(s'.starts, t) == Some(s.starts[t])
    requires forall t | t in s'.starts && s'.starts[t].Listening? :: t in s.starts && s.starts[t] == s'.starts[t]
    ensures Sound(s')
  {
    forall c | c in s'.serverCache ensures EntrySound(s', c) { assert EntrySound(s, c); }
    forall g: nat | g < |s'.gens| ensures GenSound(s', g) { assert GenSound(s, g); }
    forall t | t in s'.starts ensures StartSound(s', t) {
      if s'.starts[t].Listening? { assert StartSound(s, t); }
    }
  }

  /** Every segment keeps the caches, the callback bookkeeping and the breaker consistent. */
  lemma StepSound(s: State, e: Event)
    requires Sound(s) && Enabled(s, e)
    ensures Sound(Step(s, e))
  {
    match e
    case BeginStart(t, cam, _) =>
      StoppedSound(s, cam);
      WaitingFrame(if cam in s.portCache || cam in s.serverCache then Stopped(s, cam) else s, Step(s, e));
    case Listen(t, port) => ListenSound(s, t, port);
    case ListenFails(t) => WaitingFrame(s, Step(s, e));
    case Install(t) => InstalledSound(s, t);
    case Stop(cam) => StoppedSound(s, cam);
    case BeginSweep(_, _) => WaitingFrame(s, Step(s, e));
    case SweepNext(t) =>
      StoppedSound(s, s.sweeps[t][0]);
      WaitingFrame(Stopped(s, s.sweeps[t][0]), Step(s, e));
    case SweepClear(t) =>
      ClearedSound(s);
      WaitingFrame(Cleared(s), Step(s, e));
    case ConnectFailed(g, now) => FailureSound(s, g, now);
    case ConnectSucceeded(g) =>
      assert GenSound(s, g);
      ObservedMatches(s.gens[g], Connected);
      GenUpdateSound(s, g, Observed(s.gens[g], Connected));
    case FinishTrip(g) =>
      assert GenSound(s, g);
      GenUpdateSound(s, g, Reported(s.gens[g]));
  }

  lemma {:induction false} RunSound(states: seq<State>, events: seq<Event>, i: nat)
    requires IsRun(states, events) && i < |states|
    ensures Sound(states[i])
  {
    if i > 0 {
      RunSound(states, events, i - 1);
      StepSound(states[i - 1], events[i - 1]);
    }
  }
}
