/**
 The proxy functions as they update their state in place: one method for each
 uninterrupted segment, proved to be the step of that segment.
 */
module ProxyTable {
  import opened Wrappers
  import opened Breaker
  import opened ProxyLifecycle

  class Proxies {
    var portCache: map<Cam, nat>
    var serverCache: map<Cam, GenId>
    var gens: seq<Gen>
    var starts: map<Task, StartPhase>
    var sweeps: map<Task, seq<Cam>>

    ghost function View(): State reads this {
      State(portCache, serverCache, gens, starts, sweeps)
    }

    ghost predicate Valid() reads this {
      Sound(View())
    }

    constructor ()
      ensures View() == INITIAL && Valid()
    {
      portCache, serverCache, gens, starts, sweeps := map[], map[], [], map[], map[];
    }

    /** `stop_tls_proxy`, up to `wait_closed`. */
    method StopTlsProxy(cam: Cam)
      requires Valid()
      modifies this
      ensures View() == Step(old(View()), Stop(cam)) && Valid()
    {
      StepSound(View(), Stop(cam));
      portCache := portCache - {cam};
      if cam in serverCache {
        var server := serverCache[cam];
        assert EntrySound(old(View()), cam);
        serverCache := serverCache - {cam};
        gens := gens[server := gens[server].(open := false, removal := ByStop)];
      }
      assert cam !in old(serverCache) ==> serverCache - {cam} == serverCache;
    }

    /** `start_tls_proxy`, first segment. */
    method BeginStartTlsProxy(t: Task, cam: Cam, hasCallback: bool)
      requires Valid() && t !in starts
      modifies this
      ensures View() == Step(old(View()), BeginStart(t, cam, hasCallback)) && Valid()
    {
      StepSound(View(), BeginStart(t, cam, hasCallback));
      if cam in portCache || cam in serverCache {
        StopTlsProxy(cam);
      }
      starts := starts[t := Stopping(cam, hasCallback)];
    }

    /** `start_tls_proxy`, once the listening socket is open: fresh closure variables. */
    method ServerListening(t: Task, port: nat)
      requires Valid() && t in starts && starts[t].Stopping?
      modifies this
      ensures View() == Step(old(View()), Listen(t, port)) && Valid()
    {
      StepSound(View(), Listen(t, port));
      var cam, hasCallback := starts[t].cam, starts[t].hasCallback;
      starts := starts[t := Listening(|gens|)];
      gens := gens + [Gen(cam, t, port, hasCallback, false, true, [], IDLE, Armed, Present, 0)];
    }

    /** `start_tls_proxy`, last segment: the two cache writes. */
    method InstallServer(t: Task) returns (port: nat)
      requires Valid() && t in starts && starts[t].Listening?
      modifies this
      ensures Enabled(old(View()), Install(t)) && View() == Step(old(View()), Install(t)) && Valid()
      ensures port == old(gens[starts[t].gen].port)
    {
      assert StartSound(View(), t);
      StepSound(View(), Install(t));
      var server := starts[t].gen;
      var cam := gens[server].cam;
      port := gens[server].port;
      portCache := portCache[cam := port];
      if cam in serverCache {
        assert EntrySound(old(View()), cam);
        gens := gens[serverCache[cam] := gens[serverCache[cam]].(removal := ByOverwrite)];
      }
      serverCache := serverCache[cam := server];
      gens := gens[server := gens[server].(installed := true)];
      starts := starts - {t};
    }

    /** The except branch of `_handle_client`, with `_fire_on_proxy_died` up to `wait_closed`. */
    method ConnectFailure(g: GenId, now: real)
      requires Valid() && g < |gens|
      modifies this
      ensures View() == Step(old(View()), ConnectFailed(g, now)) && Valid()
    {
      StepSound(View(), ConnectFailed(g, now));
      var failCount, firstFailAt := gens[g].counters.failCount, gens[g].counters.firstFailAt;
      if failCount == 0 {
        firstFailAt := Some(now);
      }
      failCount := failCount + 1;
      gens := gens[g := gens[g].(history := gens[g].history + [Failed(now)],
                                 counters := Counters(failCount, firstFailAt))];
      if failCount >= MAX_BURST && firstFailAt.Some? && now - firstFailAt.value <= BURST_WINDOW {
        if gens[g].trip.Armed? {
          FireOnProxyDied(g);
        }
      }
    }

    /** `_fire_on_proxy_died` up to `wait_closed`, for a generation that has not fired. */
    method FireOnProxyDied(g: GenId)
      requires g < |gens|
      modifies this
      ensures View() == Tripped(old(View()), g)
    {
      if !gens[g].installed {
        gens := gens[g := gens[g].(trip := Aborted)];
      } else {
        var cam := gens[g].cam;
        var isCurrent := cam in serverCache && serverCache[cam] == g;
        if isCurrent {
          serverCache := serverCache - {cam};
          portCache := portCache - {cam};
          gens := gens[g := gens[g].(removal := ByTrip)];
        }
        gens := gens[g := gens[g].(open := false, trip := Closing(isCurrent))];
      }
    }

    /** A successful upstream connect resets the burst. */
    method ConnectSuccess(g: GenId)
      requires Valid() && g < |gens|
      modifies this
      ensures View() == Step(old(View()), ConnectSucceeded(g)) && Valid()
    {
      StepSound(View(), ConnectSucceeded(g));
      gens := gens[g := gens[g].(history := gens[g].history + [Connected], counters := Counters(0, None))];
    }

    /** `_fire_on_proxy_died` after `wait_closed`: the callback, unless superseded. */
    method FinishProxyDied(g: GenId) returns (called: bool)
      requires Valid() && g < |gens| && gens[g].trip.Closing?
      modifies this
      ensures View() == Step(old(View()), FinishTrip(g)) && Valid()
      ensures called <==> gens[g].calls == old(gens[g].calls) + 1
    {
      StepSound(View(), FinishTrip(g));
      var isCurrent := gens[g].trip.current;
      gens := gens[g := gens[g].(trip := Done(isCurrent))];
      called := false;
      if isCurrent && gens[g].hasCallback {
        gens := gens[g := gens[g].(calls := gens[g].calls + 1)];
        called := true;
      }
    }

    /** `stop_all_proxies`: the snapshot of the keys. */
    method BeginStopAll(t: Task, snapshot: seq<Cam>)
      requires Valid() && t !in sweeps && (set cam | cam in snapshot) == serverCache.Keys
      modifies this
      ensures View() == Step(old(View()), BeginSweep(t, snapshot)) && Valid()
    {
      StepSound(View(), BeginSweep(t, snapshot));
      sweeps := sweeps[t := snapshot];
    }

    /** `stop_all_proxies`: one iteration of its loop. */
    method StopAllNext(t: Task)
      requires Valid() && t in sweeps && sweeps[t] != []
      modifies this
      ensures View() == Step(old(View()), SweepNext(t)) && Valid()
    {
      StepSound(View(), SweepNext(t));
      StopTlsProxy(sweeps[t][0]);
      sweeps := sweeps[t := sweeps[t][1..]];
    }

    /** `stop_all_proxies`: the two clears. */
    method StopAllClear(t: Task)
      requires Valid() && t in sweeps && sweeps[t] == []
      modifies this
      ensures View() == Step(old(View()), SweepClear(t)) && Valid()
    {
      StepSound(View(), SweepClear(t));
      gens := seq(|gens|, g requires 0 <= g < |gens| reads this =>
        if gens[g].cam in serverCache && serverCache[gens[g].cam] == g then gens[g].(removal := ByClear) else gens[g]);
      portCache := map[];
      serverCache := map[];
      sweeps := sweeps - {t};
    }
  }
}
