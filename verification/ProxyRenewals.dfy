/**
 A trip samples whether it is current before it waits, so `on_proxy_died` may be called
 while a newer proxy of the camera is cached: exactly when that happens, and a run.
 */
module ProxyRenewals {
  import opened Wrappers
  import opened Breaker
  import opened ProxyLifecycle
  import opened ProxyOwnership
  import opened ProxyCallbacks

  /** Event `k` installs generation `h` for the camera. */
  ghost predicate InstallsAt(states: seq<State>, events: seq<Event>, k: nat, cam: Cam, h: GenId)
    requires IsRun(states, events) && k < |events|
  {
    var s, e := states[k], events[k];
    e.Install? && s.starts[e.task].gen == h && s.gens[h].cam == cam
  }

  /** A step caches a generation for a camera only by installing it. */
  lemma CachedByInstall(s: State, e: Event, cam: Cam)
    requires Enabled(s, e) && cam in Step(s, e).serverCache
    ensures Get(s.serverCache, cam) == Some(Step(s, e).serverCache[cam])
            || (e.Install? && s.starts[e.task].gen == Step(s, e).serverCache[cam]
                && s.gens[s.starts[e.task].gen].cam == cam)
  {
    match e
    case ConnectFailed(g, now) => FailureOnlyRemoves(s, g, now, cam);
    case _ =>
  }

  lemma FailureOnlyRemoves(s: State, g: GenId, now: real, cam: Cam)
    requires g < |s.gens| && cam in FailureHandled(s, g, now).serverCache
    ensures Get(s.serverCache, cam) == Some(FailureHandled(s, g, now).serverCache[cam])
  {
  }

  /** What is cached now and was not cached before was installed in between. */
  lemma {:induction false} CachedSinceInstall(states: seq<State>, events: seq<Event>, i: nat, j: nat, cam: Cam)
    requires IsRun(states, events) && i <= j < |states|
    requires cam !in states[i].serverCache && cam in states[j].serverCache
    ensures exists k: nat | i <= k < j :: InstallsAt(states, events, k, cam, states[j].serverCache[cam])
  {
    CachedByInstall(states[j - 1], events[j - 1], cam);
    if Get(states[j - 1].serverCache, cam) == Some(states[j].serverCache[cam]) {
      CachedSinceInstall(states, events, i, j - 1, cam);
    } else {
      assert InstallsAt(states, events, j - 1, cam, states[j].serverCache[cam]);
    }
  }

  /** A trip found current stays so while it waits and after it. */
  predicate TripIsCurrent(gen: Gen) { gen.trip == Closing(true) || gen.trip == Done(true) }

  lemma CurrentStep(s: State, e: Event, g: GenId)
    requires Enabled(s, e) && g < |s.gens| && TripIsCurrent(s.gens[g])
    ensures g < |Step(s, e).gens| && TripIsCurrent(Step(s, e).gens[g])
  {
    match e
    case Install(t) => OthersUntouchedByInstall(s, s.starts[t].gen, g);
    case ConnectFailed(h, now) => if h != g { OthersUntouchedByFailure(s, h, now, g); }
    case _ =>
  }

  lemma {:induction false} CurrentStays(states: seq<State>, events: seq<Event>, i: nat, j: nat, g: GenId)
    requires IsRun(states, events) && i <= j < |states| && g < |states[i].gens| && TripIsCurrent(states[i].gens[g])
    ensures g < |states[j].gens| && TripIsCurrent(states[j].gens[g])
  {
    if i < j {
      CurrentStays(states, events, i, j - 1, g);
      CurrentStep(states[j - 1], events[j - 1], g);
    }
  }

  lemma OwnTripIsCurrent(states: seq<State>, events: seq<Event>, i: nat, g: GenId)
    requires IsRun(states, events) && i < |events| && OwnTripRemoved(states, events, i, g)
    ensures g < |states[i + 1].gens| && TripIsCurrent(states[i + 1].gens[g])
  {
    RunSound(states, events, i);
    RunSound(states, events, i + 1);
    assert GenSound(states[i], g) && EntrySound(states[i], states[i].gens[g].cam);
    var h := states[i].gens[g].history;
    assert (h + [Failed(events[i].now)])[..|h|] == h;
  }

  /**
   A generation whose own trip took it out of the cache at event i calls back at event j.
   It does so beside a newer proxy of its camera if and only if an install of that camera
   lies in between whose server is still cached.
   */
  lemma CallsBackBesideNewerIffInstalledSince(states: seq<State>, events: seq<Event>, i: nat, j: nat, g: GenId)
    requires IsRun(states, events) && i < j < |events| && OwnTripRemoved(states, events, i, g)
    requires events[j] == FinishTrip(g) && states[j].gens[g].hasCallback
    ensures states[j + 1].gens[g].calls == states[j].gens[g].calls + 1
    ensures var cam := states[i].gens[g].cam;
      && states[j + 1].serverCache == states[j].serverCache
      && Get(states[j].serverCache, cam) != Some(g)
      && (cam in states[j].serverCache <==>
            exists k: nat, h: GenId | i < k < j ::
              InstallsAt(states, events, k, cam, h) && Get(states[j].serverCache, cam) == Some(h))
  {
    var cam := states[i].gens[g].cam;
    OwnTripIsCurrent(states, events, i, g);
    CurrentStays(states, events, i + 1, j, g);
    RunSound(states, events, j);
    assert GenSound(states[j], g);
    if cam in states[j].serverCache {
      assert EntrySound(states[j], cam);
      CachedSinceInstall(states, events, i + 1, j, cam);
    }
  }

  // ---- A run ----

  /** The one running server after `n` failures at time 0. */
  function Failing(cam: Cam, p: nat, n: nat): Gen {
    Fresh(cam, 0, p).(installed := true, history := seq(n, k => Failed(0.0)),
                      counters := Counters(n, if n == 0 then None else Some(0.0)))
  }

  lemma OneFailureMore(s: State, cam: Cam, p: nat, n: nat)
    requires s.gens == [Failing(cam, p, n)] && n + 1 < MAX_BURST
    ensures Step(s, ConnectFailed(0, 0.0)) == s.(gens := [Failing(cam, p, n + 1)])
  {
    assert seq(n, k => Failed(0.0)) + [Failed(0.0)] == seq(n + 1, k => Failed(0.0));
  }

  lemma {:induction false} FailsBelowTheLimit(cam: Cam, p: nat, n: nat) returns (states: seq<State>, events: seq<Event>)
    requires n < MAX_BURST
    ensures IsRun(states, events) && |events| == n + 3
    ensures states[|events|] == State(map[cam := p], map[cam := 0], [Failing(cam, p, n)], map[], map[])
  {
    if n == 0 {
      states, events := OneServerRunning(cam, p);
      assert seq(0, k => Failed(0.0)) == [];
    } else {
      states, events := FailsBelowTheLimit(cam, p, n - 1);
      OneFailureMore(states[|events|], cam, p, n - 1);
      states := Extended(states, events, ConnectFailed(0, 0.0));
      events := events + [ConnectFailed(0, 0.0)];
    }
  }

  /** The fifth failure trips the breaker and empties the cache. */
  lemma TrippedAndWaiting(cam: Cam, p: nat) returns (states: seq<State>, events: seq<Event>)
    ensures IsRun(states, events) && |events| == 8 && events[7] == ConnectFailed(0, 0.0)
    ensures Get(states[7].serverCache, cam) == Some(0)
    ensures var s := states[8];
      && s.portCache == map[] && s.serverCache == map[] && s.starts == map[] && s.sweeps == map[]
      && |s.gens| == 1 && s.gens[0].trip == Closing(true) && s.gens[0].hasCallback && s.gens[0].calls == 0
  {
    states, events := FailsBelowTheLimit(cam, p, 4);
    states := Extended(states, events, ConnectFailed(0, 0.0));
    events := events + [ConnectFailed(0, 0.0)];
  }

  /**
   For every camera and ports: the fifth failure trips the breaker, a whole start of the
   camera runs while the trip waits, and then the old generation calls back although the
   new one is cached.
   */
  lemma CallbackBesideANewerProxy(cam: Cam, p: nat, q: nat) returns (states: seq<State>, events: seq<Event>)
    ensures IsRun(states, events) && |events| == 12
    ensures events[7] == ConnectFailed(0, 0.0) && Get(states[7].serverCache, cam) == Some(0)
    ensures events[8] == BeginStart(1, cam, true) && events[10] == Install(1) && events[11] == FinishTrip(0)
    ensures states[11].serverCache == map[cam := 1] && states[12].serverCache == map[cam := 1]
    ensures |states[11].gens| == 2 && |states[12].gens| == 2
    ensures states[11].gens[0].calls == 0 && states[12].gens[0].calls == 1
  {
    var waiting, before := TrippedAndWaiting(cam, p);
    states, events := RestartInsideWait(waiting, before, cam, q);
    states := Extended(states, events, FinishTrip(0));
    events := events + [FinishTrip(0)];
  }

  lemma RestartInsideWait(states: seq<State>, events: seq<Event>, cam: Cam, q: nat)
    returns (longer: seq<State>, more: seq<Event>)
    requires IsRun(states, events)
    requires var s := states[|events|];
             s.portCache == map[] && s.serverCache == map[] && s.starts == map[] && |s.gens| == 1
    ensures IsRun(longer, more) && more == events + [BeginStart(1, cam, true), Listen(1, q), Install(1)]
    ensures longer[..|events| + 1] == states
    ensures var s := longer[|more|];
            s.serverCache == map[cam := 1] && |s.gens| == 2 && s.gens[0] == states[|events|].gens[0]
  {
    longer := Extended(states, events, BeginStart(1, cam, true));
    more := events + [BeginStart(1, cam, true)];
    longer := Extended(longer, more, Listen(1, q));
    more := more + [Listen(1, q)];
    longer := Extended(longer, more, Install(1));
    more := more + [Install(1)];
  }
}
