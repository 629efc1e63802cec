/**
 Who owns the open servers, over every run of the proxy step system: exactly when
 no server is ever orphaned, and which removals may call `on_proxy_died`.
 */
module ProxyOwnership {
  import opened Wrappers
  import opened ProxyLifecycle

  function CachedServer(s: State, cam: Cam): set<GenId> {
    if cam in s.serverCache then {s.serverCache[cam]} else {}
  }

  ghost function OpenServers(s: State, cam: Cam): set<GenId> {
    set g: GenId | g < |s.gens| && s.gens[g].cam == cam && s.gens[g].open
  }

  /** Servers opened by a start that has not written the caches yet. */
  ghost function UnfinishedServers(s: State, cam: Cam): set<GenId> {
    set t | t in s.starts && s.starts[t].Listening? && s.starts[t].gen < |s.gens|
            && s.gens[s.starts[t].gen].cam == cam :: s.starts[t].gen
  }

  /** Every open server is the cached one, or is still held by a running start. */
  ghost predicate Owned(s: State) {
    forall cam: Cam :: OpenServers(s, cam) == CachedServer(s, cam) + UnfinishedServers(s, cam)
  }

  predicate Orphan(s: State, g: GenId)
    requires g < |s.gens|
  {
    s.gens[g].installed && s.gens[g].open && Get(s.serverCache, s.gens[g].cam) != Some(g)
  }

  ghost predicate NoOrphans(s: State) {
    forall g: GenId | g < |s.gens| :: !Orphan(s, g)
  }

  /** What the two unguarded cache writes would have to check to keep every server owned. */
  predicate Clean(s: State, e: Event)
    requires Enabled(s, e)
  {
    match e
    case Install(t) => s.gens[s.starts[t].gen].cam !in s.serverCache
    case SweepClear(_) => s.serverCache == map[]
    case _ => true
  }

  lemma UnfinishedAreOpen(s: State, cam: Cam)
    requires Sound(s)
    ensures forall g | g in UnfinishedServers(s, cam) :: g in OpenServers(s, cam) && !s.gens[g].installed
    ensures forall g | g in OpenServers(s, cam) && !s.gens[g].installed :: g in UnfinishedServers(s, cam)
    ensures forall g | g in CachedServer(s, cam) :: g in OpenServers(s, cam) && s.gens[g].installed
  {
    forall t | t in s.starts ensures StartSound(s, t) {}
    forall g | g in OpenServers(s, cam) ensures GenSound(s, g) {}
    forall g | g in UnfinishedServers(s, cam) ensures g in OpenServers(s, cam) { assert GenSound(s, g); }
    if cam in s.serverCache { assert EntrySound(s, cam); }
  }

  lemma OwnedMeansNoOrphans(s: State)
    requires Sound(s)
    ensures Owned(s) <==> NoOrphans(s)
  {
    forall cam: Cam
      ensures OpenServers(s, cam) == CachedServer(s, cam) + UnfinishedServers(s, cam)
              <==> forall g | g in OpenServers(s, cam) :: !Orphan(s, g)
    {
      UnfinishedAreOpen(s, cam);
    }
    if Owned(s) {
      forall g: GenId | g < |s.gens| ensures !Orphan(s, g) {
        assert s.gens[g].open ==> g in OpenServers(s, s.gens[g].cam);
      }
    }
  }

  lemma StoppedKeepsOwners(s: State, cam: Cam)
    requires Sound(s) && NoOrphans(s)
    ensures NoOrphans(Stopped(s, cam))
  {
    var s' := Stopped(s, cam);
    forall g: GenId | g < |s'.gens| ensures !Orphan(s', g) {
      assert !Orphan(s, g) && GenSound(s, g);
      if cam in s.serverCache { assert EntrySound(s, cam); }
    }
  }

  lemma InstallKeepsOwners(s: State, t: Task)
    requires Sound(s) && Enabled(s, Install(t)) && NoOrphans(s)
    ensures NoOrphans(Step(s, Install(t))) <==> Clean(s, Install(t))
  {
    var s' := Step(s, Install(t));
    var g := s.starts[t].gen;
    var cam := s.gens[g].cam;
    assert StartSound(s, t) && GenSound(s, g);
    if cam in s.serverCache {
      assert EntrySound(s, cam);
      assert Orphan(s', s.serverCache[cam]);
    } else {
      forall h: GenId | h < |s'.gens| ensures !Orphan(s', h) { assert !Orphan(s, h); }
    }
  }

  lemma ClearKeepsOwners(s: State, t: Task)
    requires Sound(s) && Enabled(s, SweepClear(t)) && NoOrphans(s)
    ensures NoOrphans(Step(s, SweepClear(t))) <==> Clean(s, SweepClear(t))
  {
    var s' := Step(s, SweepClear(t));
    if s.serverCache != map[] {
      var cam :| cam in s.serverCache;
      assert EntrySound(s, cam);
      assert Orphan(s', s.serverCache[cam]);
    } else {
      forall h: GenId | h < |s'.gens| ensures !Orphan(s', h) { assert !Orphan(s, h); }
    }
  }

  /** From a scheduling point without orphans, a segment creates one exactly when it is not clean. */
  lemma StepKeepsOwners(s: State, e: Event)
    requires Sound(s) && Enabled(s, e) && NoOrphans(s)
    ensures NoOrphans(Step(s, e)) <==> Clean(s, e)
  {
    if e.Install? {
      InstallKeepsOwners(s, e.task);
    } else if e.SweepClear? {
      ClearKeepsOwners(s, e.task);
    } else {
      var s1 := s;
      if e.BeginStart? || e.Stop? {
        StoppedKeepsOwners(s, e.cam);
        s1 := if e.Stop? || e.cam in s.portCache || e.cam in s.serverCache then Stopped(s, e.cam) else s;
      } else if e.SweepNext? {
        StoppedKeepsOwners(s, s.sweeps[e.task][0]);
        s1 := Stopped(s, s.sweeps[e.task][0]);
      }
      var s' := Step(s, e);
      forall h: GenId | h < |s'.gens| ensures !Orphan(s', h) {
        if h < |s.gens| { assert !Orphan(s1, h) && GenSound(s, h); }
      }
    }
  }

  /**
   Over every run: all open servers are owned at all scheduling points exactly when
   each install found its camera uncached and each final clear found the cache empty.
   */
  lemma {:induction false} OwnedThroughoutIffClean(states: seq<State>, events: seq<Event>)
    requires IsRun(states, events)
    ensures (forall i | 0 <= i < |states| :: Owned(states[i]))
            <==> (forall i | 0 <= i < |events| :: Clean(states[i], events[i]))
  {
    if forall i | 0 <= i < |states| :: Owned(states[i]) {
      forall i | 0 <= i < |events| ensures Clean(states[i], events[i]) {
        RunSound(states, events, i);
        RunSound(states, events, i + 1);
        assert Owned(states[i]) && Owned(states[i + 1]);
        OwnedMeansNoOrphans(states[i]);
        OwnedMeansNoOrphans(states[i + 1]);
        StepKeepsOwners(states[i], events[i]);
      }
    }
    if forall i | 0 <= i < |events| :: Clean(states[i], events[i]) {
      forall i | 0 <= i < |states| ensures Owned(states[i]) {
        CleanPrefixOwned(states, events, i);
      }
    }
  }

  lemma {:induction false} CleanPrefixOwned(states: seq<State>, events: seq<Event>, i: nat)
    requires IsRun(states, events) && i < |states|
    requires forall k | 0 <= k < i :: Clean(states[k], events[k])
    ensures NoOrphans(states[i]) && Owned(states[i])
  {
    RunSound(states, events, i);
    if i > 0 {
      CleanPrefixOwned(states, events, i - 1);
      RunSound(states, events, i - 1);
      StepKeepsOwners(states[i - 1], events[i - 1]);
    }
    OwnedMeansNoOrphans(states[i]);
  }

  // ---- Callers whose starts do not overlap ----

  function StartCam(s: State, t: Task): Option<Cam>
    requires t in s.starts
  {
    match s.starts[t]
    case Stopping(cam, _) => Some(cam)
    case Listening(g) => if g < |s.gens| then Some(s.gens[g].cam) else None
  }

  /** A start overlaps no other start of its camera and no stop_all. */
  predicate Disciplined(s: State, e: Event) {
    match e
    case BeginStart(_, cam, _) => s.sweeps == map[] && forall t | t in s.starts :: StartCam(s, t) != Some(cam)
    case BeginSweep(_, _) => s.starts == map[]
    case _ => true
  }

  /** A running start has its camera to itself. */
  ghost predicate StartApart(s: State, t: Task)
    requires t in s.starts
  {
    && StartCam(s, t).Some? && StartCam(s, t).value !in s.serverCache
    && forall u | u in s.starts && u != t :: StartCam(s, u) != StartCam(s, t)
  }

  /** A running stop_all has every cached camera still on its list, and no start beside it. */
  ghost predicate SweepCovers(s: State, t: Task)
    requires t in s.sweeps
  {
    s.starts == map[] && forall cam | cam in s.serverCache :: cam in s.sweeps[t]
  }

  ghost predicate Separated(s: State) {
    && (forall t | t in s.starts :: StartApart(s, t))
    && (forall t | t in s.sweeps :: SweepCovers(s, t))
  }

  lemma GensKeepTheirCam(s: State, e: Event)
    requires Enabled(s, e)
    ensures var s' := Step(s, e);
      |s.gens| <= |s'.gens| && forall g: GenId | g < |s.gens| :: s'.gens[g].cam == s.gens[g].cam
  {
    match e {
      case Install(t) => InstallKeepsCams(s, s.starts[t].gen);
      case ConnectFailed(g, now) => FailureKeepsCams(s, g, now);
      case _ =>
    }
  }

  lemma InstallKeepsCams(s: State, g: GenId)
    requires g < |s.gens|
    ensures |Installed(s, g).gens| == |s.gens|
    ensures forall h: GenId | h < |s.gens| :: Installed(s, g).gens[h].cam == s.gens[h].cam
  {
  }

  lemma FailureKeepsCams(s: State, g: GenId, now: real)
    requires g < |s.gens|
    ensures |FailureHandled(s, g, now).gens| == |s.gens|
    ensures forall h: GenId | h < |s.gens| :: FailureHandled(s, g, now).gens[h].cam == s.gens[h].cam
  {
  }

  /** Only an install adds a camera to the cache. */
  lemma OnlyInstallCaches(s: State, e: Event)
    requires Sound(s) && Enabled(s, e)
    ensures forall cam | cam in Step(s, e).serverCache ::
              cam in s.serverCache || (e.Install? && s.gens[s.starts[e.task].gen].cam == cam)
    ensures e.BeginStart? ==> e.cam !in Step(s, e).serverCache
  {
  }

  /** A start keeps its camera while it runs. */
  lemma StartsKeepTheirCam(s: State, e: Event)
    requires Sound(s) && Enabled(s, e)
    ensures var s' := Step(s, e);
      && (forall t | t in s'.starts && t in s.starts :: StartCam(s', t) == StartCam(s, t))
      && (forall t | t in s'.starts && t !in s.starts :: e.BeginStart? && t == e.task && StartCam(s', t) == Some(e.cam))
  {
    var s' := Step(s, e);
    GensKeepTheirCam(s, e);
    StartsMoveOn(s, e);
    forall t | t in s'.starts && t in s.starts ensures StartCam(s', t) == StartCam(s, t) {
      if s'.starts[t] == s.starts[t] { SamePhaseSameCam(s, s', t); }
    }
  }

  /** A start changes phase only by its own Listen, and appears only by its own BeginStart. */
  lemma StartsMoveOn(s: State, e: Event)
    requires Enabled(s, e)
    ensures var s' := Step(s, e);
      && (forall t | t in s'.starts && t in s.starts && s'.starts[t] != s.starts[t] ::
            e.Listen? && e.task == t && StartCam(s', t) == StartCam(s, t))
      && (forall t | t in s'.starts && t !in s.starts :: e.BeginStart? && t == e.task && StartCam(s', t) == Some(e.cam))
  {
    match e
    case ConnectFailed(g, now) => FailureKeepsStarts(s, g, now);
    case _ =>
  }

  lemma FailureKeepsStarts(s: State, g: GenId, now: real)
    requires g < |s.gens|
    ensures FailureHandled(s, g, now).starts == s.starts
  {
  }

  lemma SamePhaseSameCam(s: State, s': State, t: Task)
    requires t in s.starts && t in s'.starts && s'.starts[t] == s.starts[t] && StartSound(s, t)
    requires |s.gens| <= |s'.gens| && forall g: GenId | g < |s.gens| :: s'.gens[g].cam == s.gens[g].cam
    ensures StartCam(s', t) == StartCam(s, t)
  {
  }

  lemma SeparatedStep(s: State, e: Event)
    requires Sound(s) && Separated(s) && Enabled(s, e) && Disciplined(s, e)
    ensures Separated(Step(s, e))
  {
    var s' := Step(s, e);
    StartsKeepTheirCam(s, e);
    OnlyInstallCaches(s, e);
    StartsStayApart(s, e, s');
    forall t | t in s'.sweeps ensures SweepCovers(s', t) {
      if t in s.sweeps { assert SweepCovers(s, t); }
      if e.BeginSweep? && t == e.task {
        forall cam | cam in s.serverCache ensures cam in e.snapshot { assert cam in (set c | c in e.snapshot); }
      }
    }
  }

  lemma StartsStayApart(s: State, e: Event, s': State)
    requires Separated(s) && Enabled(s, e) && Disciplined(s, e)
    requires forall cam | cam in s'.serverCache ::
               cam in s.serverCache || (e.Install? && StartCam(s, e.task) == Some(cam))
    requires forall t | t in s'.starts && t in s.starts :: StartCam(s', t) == StartCam(s, t)
    requires forall t | t in s'.starts && t !in s.starts ::
               e.BeginStart? && t == e.task && StartCam(s', t) == Some(e.cam)
    requires e.BeginStart? ==> e.cam !in s'.serverCache
    requires e.Install? ==> e.task !in s'.starts
    ensures forall t | t in s'.starts :: StartApart(s', t)
  {
    forall t | t in s'.starts ensures StartApart(s', t) {
      if t in s.starts { assert StartApart(s, t); }
    }
  }

  lemma {:induction false} DisciplinedRunSeparated(states: seq<State>, events: seq<Event>, i: nat)
    requires IsRun(states, events) && i < |states|
    requires forall k | 0 <= k < |events| :: Disciplined(states[k], events[k])
    ensures Separated(states[i])
  {
    if i > 0 {
      DisciplinedRunSeparated(states, events, i - 1);
      RunSound(states, events, i - 1);
      SeparatedStep(states[i - 1], events[i - 1]);
    }
  }

  /**
   With starts that overlap neither each other for one camera nor stop_all: at every
   scheduling point the open servers of a camera are the cached one plus at most one
   that a running start has not installed, and the two caches have the same keys and
   hold that server's port.
   */
  lemma NonOverlappingStartsOwnEverything(states: seq<State>, events: seq<Event>, i: nat, cam: Cam)
    requires IsRun(states, events) && i < |states|
    requires forall k | 0 <= k < |events| :: Disciplined(states[k], events[k])
    ensures var s := states[i];
      && OpenServers(s, cam) == CachedServer(s, cam) + UnfinishedServers(s, cam)
      && (forall g, h | g in UnfinishedServers(s, cam) && h in UnfinishedServers(s, cam) :: g == h)
      && (UnfinishedServers(s, cam) != {} ==> CachedServer(s, cam) == {})
      && s.portCache.Keys == s.serverCache.Keys
      && (cam in s.serverCache ==> s.serverCache[cam] < |s.gens| && s.portCache[cam] == s.gens[s.serverCache[cam]].port)
  {
    forall k | 0 <= k < |events| ensures Clean(states[k], events[k]) {
      DisciplinedRunSeparated(states, events, k);
      RunSound(states, events, k);
      var s := states[k];
      if events[k].Install? { assert StartApart(s, events[k].task); }
      if events[k].SweepClear? { assert SweepCovers(s, events[k].task); }
    }
    OwnedThroughoutIffClean(states, events);
    var s := states[i];
    assert Owned(s);
    RunSound(states, events, i);
    DisciplinedRunSeparated(states, events, i);
    forall g, h | g in UnfinishedServers(s, cam) && h in UnfinishedServers(s, cam) ensures g == h {
      var t :| t in s.starts && s.starts[t] == Listening(g);
      var u :| u in s.starts && s.starts[u] == Listening(h);
      assert StartApart(s, t) && StartApart(s, u);
    }
    if UnfinishedServers(s, cam) != {} {
      var g :| g in UnfinishedServers(s, cam);
      var t :| t in s.starts && s.starts[t] == Listening(g);
      assert StartApart(s, t);
    }
    if cam in s.serverCache { assert EntrySound(s, cam); }
  }

  ghost predicate AllClosed(s: State) {
    forall g: GenId | g < |s.gens| :: !s.gens[g].open
  }

  lemma ClearingKeepsClosed(s: State)
    requires AllClosed(s)
    ensures AllClosed(Cleared(s))
  {
  }

  /** What stop_all is for: when such callers let it reach its final clear, no server of any camera is open. */
  lemma StopAllLeavesNothingOpen(states: seq<State>, events: seq<Event>, i: nat)
    requires IsRun(states, events) && i < |events| && events[i].SweepClear?
    requires forall k | 0 <= k < |events| :: Disciplined(states[k], events[k])
    ensures AllClosed(states[i])
    ensures AllClosed(states[i + 1]) && states[i + 1].portCache == map[] && states[i + 1].serverCache == map[]
  {
    var s := states[i];
    DisciplinedRunSeparated(states, events, i);
    assert SweepCovers(s, events[i].task);
    assert s.serverCache == map[] && s.starts == map[];
    forall g: GenId | g < |s.gens| ensures !s.gens[g].open {
      NonOverlappingStartsOwnEverything(states, events, i, s.gens[g].cam);
      assert g !in UnfinishedServers(s, s.gens[g].cam) && g !in CachedServer(s, s.gens[g].cam);
      assert g !in OpenServers(s, s.gens[g].cam);
    }
    RunSound(states, events, i);
    assert s.portCache == map[];
    ClearingKeepsClosed(s);
  }
}
