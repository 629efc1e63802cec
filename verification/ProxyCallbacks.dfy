/**
 `on_proxy_died` over every run of the proxy step system: how often a generation
 calls it, and what must have removed that generation first; and two runs that show
 why starts must not overlap.
 */
module ProxyCallbacks {
  import opened Wrappers
  import opened Breaker
  import opened ProxyLifecycle
  import opened ProxyOwnership

  /** Event `k` is the failure of generation `g` that crossed the threshold and took `g` out of the cache. */
  ghost predicate OwnTripRemoved(states: seq<State>, events: seq<Event>, k: nat, g: GenId)
    requires IsRun(states, events) && k < |events|
  {
    && events[k].ConnectFailed? && events[k].gen == g
    && g < |states[k].gens|
    && Get(states[k].serverCache, states[k].gens[g].cam) == Some(g)
    && states[k].gens[g].cam !in states[k + 1].serverCache
    && CrossesAtEnd(states[k].gens[g].history + [Failed(events[k].now)])
  }

  lemma RemovalByTripStep(s: State, e: Event, g: GenId)
    requires Enabled(s, e)
    requires g < |Step(s, e).gens| && Step(s, e).gens[g].removal == ByTrip
    ensures g < |s.gens|
    ensures s.gens[g].removal != ByTrip ==>
              && e.ConnectFailed? && e.gen == g
              && Get(s.serverCache, s.gens[g].cam) == Some(g)
              && s.gens[g].cam !in Step(s, e).serverCache
              && Crosses(AfterFailure(s.gens[g].counters, e.now), e.now)
  {
    match e {
      case Install(t) => OthersUntouchedByInstall(s, s.starts[t].gen, g);
      case ConnectFailed(h, now) => if h != g { OthersUntouchedByFailure(s, h, now, g); }
      case _ =>
    }
  }

  lemma OthersUntouchedByInstall(s: State, h: GenId, g: GenId)
    requires h < |s.gens|
    ensures |Installed(s, h).gens| == |s.gens|
    ensures g < |s.gens| ==>
              && Installed(s, h).gens[g].trip == s.gens[g].trip && Installed(s, h).gens[g].open == s.gens[g].open
              && (Installed(s, h).gens[g].removal == s.gens[g].removal
                  || Installed(s, h).gens[g].removal == ByOverwrite)
  {
  }

  lemma OthersUntouchedByFailure(s: State, h: GenId, now: real, g: GenId)
    requires h < |s.gens| && g != h
    ensures |FailureHandled(s, h, now).gens| == |s.gens|
    ensures g < |s.gens| ==> FailureHandled(s, h, now).gens[g] == s.gens[g]
  {
  }

  lemma {:induction false} TripRemovalHasEvent(states: seq<State>, events: seq<Event>, i: nat, g: GenId)
    requires IsRun(states, events) && i < |states| && g < |states[i].gens|
    requires states[i].gens[g].removal == ByTrip
    ensures exists k: nat | k < i :: OwnTripRemoved(states, events, k, g)
  {
    var s, e := states[i - 1], events[i - 1];
    RunSound(states, events, i - 1);
    RemovalByTripStep(s, e, g);
    if s.gens[g].removal == ByTrip {
      TripRemovalHasEvent(states, events, i - 1, g);
    } else {
      assert GenSound(s, g);
      var h := s.gens[g].history;
      assert (h + [Failed(e.now)])[..|h|] == h;
      assert OwnTripRemoved(states, events, i - 1, g);
    }
  }

  /**
   Over every run a generation calls back at most once, however many of its handlers
   cross the threshold; only if its own trip removed it from the cache; and always
   once that trip has finished waiting, when a callback was given.
   */
  lemma CallbackAtMostOnceAndOnlyAfterOwnTrip(states: seq<State>, events: seq<Event>, i: nat, g: GenId)
    requires IsRun(states, events) && i < |states| && g < |states[i].gens|
    ensures var gen := states[i].gens[g];
      && gen.calls <= 1
      && (gen.calls == 1 ==> exists k: nat | k < i :: OwnTripRemoved(states, events, k, g))
      && (gen.removal == ByTrip && gen.trip.Done? && gen.hasCallback ==> gen.calls == 1)
  {
    RunSound(states, events, i);
    assert GenSound(states[i], g);
    if states[i].gens[g].removal == ByTrip {
      TripRemovalHasEvent(states, events, i, g);
    }
  }

  /** A generation that a stop, a newer start or a clear took out of the cache. */
  predicate Superseded(gen: Gen) {
    gen.removal == ByStop || gen.removal == ByOverwrite || gen.removal == ByClear
  }

  lemma SupersededStep(s: State, e: Event, g: GenId)
    requires Sound(s) && Enabled(s, e) && g < |s.gens| && Superseded(s.gens[g])
    ensures g < |Step(s, e).gens| && Step(s, e).gens[g].removal == s.gens[g].removal
    ensures (e.ConnectFailed? || e.ConnectSucceeded? || e.FinishTrip?) && e.gen == g ==>
              && Step(s, e).portCache == s.portCache && Step(s, e).serverCache == s.serverCache
              && Step(s, e).gens == s.gens[g := Step(s, e).gens[g]]
  {
    assert GenSound(s, g);
    forall cam | cam in s.serverCache ensures EntrySound(s, cam) {}
    match e {
      case Install(t) => SupersededInstall(s, t, g);
      case ConnectFailed(h, now) => SupersededFailure(s, h, now, g);
      case _ =>
    }
  }

  lemma SupersededInstall(s: State, t: Task, g: GenId)
    requires Sound(s) && Enabled(s, Install(t)) && g < |s.gens| && Superseded(s.gens[g])
    ensures g < |Step(s, Install(t)).gens| && Step(s, Install(t)).gens[g].removal == s.gens[g].removal
  {
    assert GenSound(s, g);
    forall cam | cam in s.serverCache ensures EntrySound(s, cam) {}
  }

  lemma SupersededFailure(s: State, h: GenId, now: real, g: GenId)
    requires Sound(s) && h < |s.gens| && g < |s.gens| && Superseded(s.gens[g])
    ensures var s' := FailureHandled(s, h, now);
      && g < |s'.gens| && s'.gens[g].removal == s.gens[g].removal
      && (h == g ==> s'.portCache == s.portCache && s'.serverCache == s.serverCache
                     && s'.gens == s.gens[g := s'.gens[g]])
  {
    assert GenSound(s, g);
    if s.gens[g].cam in s.serverCache { assert EntrySound(s, s.gens[g].cam); }
  }

  /**
   Once superseded, a generation never calls back, and whatever its late handlers
   do, trips included, they leave both caches and every other generation alone.
   */
  lemma SupersededStaysSilent(states: seq<State>, events: seq<Event>, i: nat, j: nat, g: GenId)
    requires IsRun(states, events) && i <= j < |states|
    requires g < |states[i].gens| && Superseded(states[i].gens[g])
    ensures g < |states[j].gens| && Superseded(states[j].gens[g]) && states[j].gens[g].calls == 0
    ensures j < |events| && events[j].ConnectFailed? && events[j].gen == g ==>
              && states[j + 1].portCache == states[j].portCache
              && states[j + 1].serverCache == states[j].serverCache
              && states[j + 1].gens == states[j].gens[g := states[j + 1].gens[g]]
  {
    StaysSuperseded(states, events, i, j, g);
    RunSound(states, events, j);
    assert GenSound(states[j], g);
    if j < |events| {
      SupersededStep(states[j], events[j], g);
    }
  }

  lemma {:induction false} StaysSuperseded(states: seq<State>, events: seq<Event>, i: nat, j: nat, g: GenId)
    requires IsRun(states, events) && i <= j < |states|
    requires g < |states[i].gens| && Superseded(states[i].gens[g])
    ensures g < |states[j].gens| && Superseded(states[j].gens[g])
  {
    if i < j {
      StaysSuperseded(states, events, i, j - 1, g);
      RunSound(states, events, j - 1);
      SupersededStep(states[j - 1], events[j - 1], g);
    }
  }

  /** A run of failures that trips: at least five, spanning at most 30 s. */
  predicate ShortBurst(run: seq<real>) {
    |run| >= 5 && run[|run| - 1] - run[0] <= 30.0
  }

  /**
   The breaker over every run: the closure variables of each generation are those of
   its present run of failures, and it has fired exactly when at some point of its
   history at least five failures in a row spanned at most 30 s.
   */
  lemma BreakerFollowsHistory(states: seq<State>, events: seq<Event>, i: nat, g: GenId)
    requires IsRun(states, events) && i < |states| && g < |states[i].gens|
    ensures var gen := states[i].gens[g]; var run := FailureRun(gen.history);
      && gen.counters.failCount == |run|
      && gen.counters.firstFailAt == (if run == [] then None else Some(run[0]))
      && (gen.trip.Armed? <==> forall n | 0 <= n <= |gen.history| :: !ShortBurst(FailureRun(gen.history[..n])))
  {
    RunSound(states, events, i);
    assert GenSound(states[i], g);
    CountersAreTheRun(states[i].gens[g].history);
    var history := states[i].gens[g].history;
    EverCrossedAtSomePrefix(history);
    forall n | 0 <= n <= |history| ensures CrossesAtEnd(history[..n]) <==> ShortBurst(FailureRun(history[..n])) {
      TripsExactlyOnShortBursts(history[..n]);
    }
  }

  lemma {:induction false} EverCrossedAtSomePrefix(history: seq<Outcome>)
    ensures EverCrossed(history) <==> exists n | 0 <= n <= |history| :: CrossesAtEnd(history[..n])
  {
    assert history[..|history|] == history;
    if history != [] {
      var front := history[..|history| - 1];
      EverCrossedAtSomePrefix(front);
      assert forall n | 0 <= n <= |front| :: front[..n] == history[..n];
    }
  }

  // ---- A trip closes its server ----

  /** A trip starts at a failure that crosses the threshold while the generation is still armed. */
  predicate TripsAt(s: State, e: Event, g: GenId)
    requires g < |s.gens|
  {
    && e.ConnectFailed? && e.gen == g && s.gens[g].trip.Armed?
    && Crosses(AfterFailure(s.gens[g].counters, e.now), e.now)
  }

  /** In every run a trip closes its server, and will report, exactly when the caches hold or held that server. */
  lemma TripClosesIffInstalled(states: seq<State>, events: seq<Event>, i: nat, g: GenId)
    requires IsRun(states, events) && i < |events| && g < |states[i].gens| && TripsAt(states[i], events[i], g)
    ensures g < |states[i + 1].gens|
    ensures states[i + 1].gens[g].trip.Closing? && !states[i + 1].gens[g].open <==> states[i].gens[g].installed
  {
    RunSound(states, events, i);
    assert GenSound(states[i], g);
  }

  lemma FiredStep(s: State, e: Event, g: GenId)
    requires Enabled(s, e) && g < |Step(s, e).gens| && !Step(s, e).gens[g].trip.Armed?
    ensures g < |s.gens|
    ensures TripsAt(s, e, g) || !s.gens[g].trip.Armed?
    ensures !TripsAt(s, e, g) && (s.gens[g].trip.Aborted? || !s.gens[g].open) ==>
              (Step(s, e).gens[g].trip.Aborted? <==> s.gens[g].trip.Aborted?)
              && (!s.gens[g].open ==> !Step(s, e).gens[g].open)
  {
    match e
    case Install(t) => OthersUntouchedByInstall(s, s.starts[t].gen, g);
    case ConnectFailed(h, now) => if h != g { OthersUntouchedByFailure(s, h, now, g); }
    case _ =>
  }

  /** No connect fails before its server is installed: a handler cannot run that early in the event loop. */
  ghost predicate Prompt(states: seq<State>, events: seq<Event>)
    requires IsRun(states, events)
  {
    forall k | 0 <= k < |events| && events[k].ConnectFailed? ::
      events[k].gen < |states[k].gens| && states[k].gens[events[k].gen].installed
  }

  /** In such runs every breaker that has fired has closed its server, and keeps it closed. */
  lemma {:induction false} FiredMeansClosed(states: seq<State>, events: seq<Event>, i: nat, g: GenId)
    requires IsRun(states, events) && Prompt(states, events) && i < |states| && g < |states[i].gens|
    ensures !states[i].gens[g].trip.Armed? ==> !states[i].gens[g].trip.Aborted? && !states[i].gens[g].open
  {
    if i > 0 && !states[i].gens[g].trip.Armed? {
      FiredStep(states[i - 1], events[i - 1], g);
      if TripsAt(states[i - 1], events[i - 1], g) {
        TripClosesIffInstalled(states, events, i - 1, g);
      } else {
        FiredMeansClosed(states, events, i - 1, g);
      }
    }
  }

  // ---- Overlapping callers ----

  lemma Extended(states: seq<State>, events: seq<Event>, e: Event) returns (longer: seq<State>)
    requires IsRun(states, events) && Enabled(states[|events|], e)
    ensures longer == states + [Step(states[|events|], e)] && IsRun(longer, events + [e])
  {
    longer := states + [Step(states[|events|], e)];
  }

  lemma OrphanIsUnowned(states: seq<State>, events: seq<Event>, i: nat, g: GenId)
    requires IsRun(states, events) && i < |states| && g < |states[i].gens| && Orphan(states[i], g)
    ensures !Owned(states[i])
  {
    RunSound(states, events, i);
    OwnedMeansNoOrphans(states[i]);
  }

  /** Both starts have passed the stop of an existing proxy and found none. */
  lemma TwoStartsWaiting(cam: Cam) returns (states: seq<State>, events: seq<Event>)
    ensures IsRun(states, events) && events == [BeginStart(0, cam, true), BeginStart(1, cam, true)]
    ensures states[2] == State(map[], map[], [], map[0 := Stopping(cam, true), 1 := Stopping(cam, true)], map[])
  {
    states := Extended([INITIAL], [], BeginStart(0, cam, true));
    events := [BeginStart(0, cam, true)];
    states := Extended(states, events, BeginStart(1, cam, true));
    events := events + [BeginStart(1, cam, true)];
  }

  function Fresh(cam: Cam, t: Task, port: nat): Gen {
    Gen(cam, t, port, true, false, true, [], IDLE, Armed, Present, 0)
  }

  lemma TwoServersListening(cam: Cam, p: nat, q: nat) returns (states: seq<State>, events: seq<Event>)
    ensures IsRun(states, events)
    ensures events == [BeginStart(0, cam, true), BeginStart(1, cam, true), Listen(0, p), Listen(1, q)]
    ensures states[2].starts == map[0 := Stopping(cam, true), 1 := Stopping(cam, true)]
    ensures states[4] == State(map[], map[], [Fresh(cam, 0, p), Fresh(cam, 1, q)],
                               map[0 := Listening(0), 1 := Listening(1)], map[])
  {
    states, events := TwoStartsWaiting(cam);
    states := Extended(states, events, Listen(0, p));
    events := events + [Listen(0, p)];
    states := Extended(states, events, Listen(1, q));
    events := events + [Listen(1, q)];
  }

  /**
   For every camera and ports: two starts of that camera that are both under way at one
   point end with the first of their servers installed, open and named by no cache.
   */
  lemma OverlappingStartsOrphanAServer(cam: Cam, p: nat, q: nat) returns (states: seq<State>, events: seq<Event>)
    ensures IsRun(states, events) && |events| == 6
    ensures events[0] == BeginStart(0, cam, true) && events[1] == BeginStart(1, cam, true)
    ensures states[2].starts == map[0 := Stopping(cam, true), 1 := Stopping(cam, true)]
    ensures |states[6].gens| == 2 && states[6].gens[0].cam == cam && Orphan(states[6], 0)
    ensures states[6].starts == map[] && !Owned(states[6])
  {
    states, events := TwoServersListening(cam, p, q);
    states := Extended(states, events, Install(0));
    events := events + [Install(0)];
    assert states[5].serverCache == map[cam := 0] && states[5].starts == map[1 := Listening(1)];
    states := Extended(states, events, Install(1));
    events := events + [Install(1)];
    OrphanIsUnowned(states, events, 6, 0);
  }

  lemma OneServerRunning(cam: Cam, p: nat) returns (states: seq<State>, events: seq<Event>)
    ensures IsRun(states, events) && events == [BeginStart(0, cam, true), Listen(0, p), Install(0)]
    ensures states[3] == State(map[cam := p], map[cam := 0], [Fresh(cam, 0, p).(installed := true)], map[], map[])
  {
    states := Extended([INITIAL], [], BeginStart(0, cam, true));
    events := [BeginStart(0, cam, true)];
    states := Extended(states, events, Listen(0, p));
    events := events + [Listen(0, p)];
    states := Extended(states, events, Install(0));
    events := events + [Install(0)];
  }

  /** stop_all has closed the one running proxy and waits for its clients. */
  lemma StopAllWaiting(cam: Cam, p: nat) returns (states: seq<State>, events: seq<Event>)
    ensures IsRun(states, events) && |events| == 5 && events[3] == BeginSweep(0, [cam])
    ensures states[5].portCache == map[] && states[5].serverCache == map[] && |states[5].gens| == 1
    ensures states[5].starts == map[] && states[5].sweeps == map[0 := []]
  {
    states, events := OneServerRunning(cam, p);
    states := Extended(states, events, BeginSweep(0, [cam]));
    events := events + [BeginSweep(0, [cam])];
    states := Extended(states, events, SweepNext(0));
    events := events + [SweepNext(0)];
  }

  /** A whole start, run inside that wait. */
  lemma StartInsideWait(states: seq<State>, events: seq<Event>, late: Cam, q: nat)
    returns (longer: seq<State>, more: seq<Event>)
    requires IsRun(states, events)
    requires var s := states[|events|];
             s.portCache == map[] && s.serverCache == map[] && s.starts == map[] && s.sweeps == map[0 := []]
    ensures IsRun(longer, more) && more == events + [BeginStart(1, late, true), Listen(1, q), Install(1)]
    ensures var s, g := longer[|more|], |states[|events|].gens|;
      && s.serverCache == map[late := g] && s.sweeps == map[0 := []]
      && |s.gens| == g + 1 && s.gens[g] == Fresh(late, 1, q).(installed := true)
  {
    longer := Extended(states, events, BeginStart(1, late, true));
    more := events + [BeginStart(1, late, true)];
    longer := Extended(longer, more, Listen(1, q));
    more := more + [Listen(1, q)];
    longer := Extended(longer, more, Install(1));
    more := more + [Install(1)];
  }

  /**
   For every two cameras: a whole start of the second one between the first and the last
   step of a stop_all ends with its server installed, open and named by no cache.
   */
  lemma StartDuringStopAllOrphansAServer(cam: Cam, late: Cam, p: nat, q: nat)
    returns (states: seq<State>, events: seq<Event>)
    ensures IsRun(states, events) && |events| == 9
    ensures events[3] == BeginSweep(0, [cam]) && events[5] == BeginStart(1, late, true)
    ensures events[7] == Install(1) && events[8] == SweepClear(0)
    ensures |states[9].gens| == 2 && states[9].gens[1].cam == late && Orphan(states[9], 1)
    ensures states[9].serverCache == map[] && !Owned(states[9])
  {
    var waiting, before := StopAllWaiting(cam, p);
    states, events := StartInsideWait(waiting, before, late, q);
    states := Extended(states, events, SweepClear(0));
    events := events + [SweepClear(0)];
    OrphanIsUnowned(states, events, 9, 1);
  }
}
