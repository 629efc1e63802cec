/**
 The burst-failure circuit breaker of one proxy generation: the two closure
 variables that count a run of failed upstream connects, and the independent
 reading of the same facts from the history of connect outcomes.
 */
module Breaker {
  import opened Wrappers

  const MAX_BURST: nat := 5
  const BURST_WINDOW: real := 30.0

  datatype Outcome = Failed(at: real) | Connected

  /** `first_fail_at` is None where the source holds minus infinity. */
  datatype Counters = Counters(failCount: nat, firstFailAt: Option<real>)

  const IDLE := Counters(0, None)

  function AfterFailure(c: Counters, now: real): Counters {
    Counters(c.failCount + 1, if c.failCount == 0 then Some(now) else c.firstFailAt)
  }

  /** The trip test, evaluated on the counters that already include the failure at `now`. */
  predicate Crosses(c: Counters, now: real) {
    c.failCount >= MAX_BURST && c.firstFailAt.Some? && now - c.firstFailAt.value <= BURST_WINDOW
  }

  function After(c: Counters, o: Outcome): Counters {
    match o
    case Failed(now) => AfterFailure(c, now)
    case Connected => IDLE
  }

  /** The counters a generation holds after a history of connect outcomes. */
  function Replay(history: seq<Outcome>): Counters {
    if history == [] then IDLE
    else After(Replay(history[..|history| - 1]), history[|history| - 1])
  }

  /** The times of the connect failures since the last success, oldest first. */
  function FailureRun(history: seq<Outcome>): (run: seq<real>)
    ensures |run| <= |history|
  {
    if history == [] || history[|history| - 1].Connected? then []
    else FailureRun(history[..|history| - 1]) + [history[|history| - 1].at]
  }

  /** The last outcome is a failure that meets the trip test. */
  predicate CrossesAtEnd(history: seq<Outcome>) {
    && history != []
    && history[|history| - 1].Failed?
    && Crosses(Replay(history), history[|history| - 1].at)
  }

  predicate EverCrossed(history: seq<Outcome>) {
    history != [] && (CrossesAtEnd(history) || EverCrossed(history[..|history| - 1]))
  }

  /** The clock samples of the history never go back. */
  ghost predicate Monotone(history: seq<Outcome>) {
    forall i, j | 0 <= i < j < |history| && history[i].Failed? && history[j].Failed? ::
      history[i].at <= history[j].at
  }

  lemma {:induction false} CountersAreTheRun(history: seq<Outcome>)
    ensures Replay(history).failCount == |FailureRun(history)|
    ensures Replay(history).firstFailAt ==
            if FailureRun(history) == [] then None else Some(FailureRun(history)[0])
  {
    if history != [] {
      CountersAreTheRun(history[..|history| - 1]);
    }
  }

  /** A failure trips exactly when its run holds at least five failures spanning at most 30 s. */
  lemma TripsExactlyOnShortBursts(history: seq<Outcome>)
    ensures CrossesAtEnd(history) <==>
            var run := FailureRun(history);
            |run| >= 5 && run[|run| - 1] - run[0] <= 30.0
  {
    CountersAreTheRun(history);
  }

  /** The run is the tail of the history, so a monotone clock makes it nondecreasing. */
  lemma {:induction false} RunIsTheTail(history: seq<Outcome>)
    ensures var run := FailureRun(history);
            |run| <= |history| &&
            forall i | 0 <= i < |run| :: history[|history| - |run| + i] == Failed(run[i])
  {
    if history != [] && history[|history| - 1].Failed? {
      RunIsTheTail(history[..|history| - 1]);
    }
  }

  /** Any point inside the present run of failures sees a prefix of that run. */
  lemma {:induction false} RunOfPrefix(history: seq<Outcome>, n: nat)
    requires |history| - |FailureRun(history)| <= n <= |history|
    ensures FailureRun(history[..n]) == FailureRun(history)[..n - (|history| - |FailureRun(history)|)]
  {
    RunIsTheTail(history);
    if n == |history| {
      assert history[..n] == history;
    } else {
      var front := history[..|history| - 1];
      assert FailureRun(history) == FailureRun(front) + [history[|history| - 1].at];
      assert front[..n] == history[..n];
      RunOfPrefix(front, n);
    }
  }

  lemma TripIsTheFifth(history: seq<Outcome>, n: nat)
    requires Monotone(history) && n <= |history| && CrossesAtEnd(history[..n])
    requires |history| - |FailureRun(history)| <= n
    ensures var run := FailureRun(history); |run| >= 5 && run[4] - run[0] <= 30.0
  {
    var run := FailureRun(history);
    var base := |history| - |run|;
    RunIsTheTail(history);
    RunOfPrefix(history, n);
    TripsExactlyOnShortBursts(history[..n]);
    var part := run[..n - base];
    assert history[base + 4] == Failed(run[4]);
    assert history[base + |part| - 1] == Failed(part[|part| - 1]);
  }

  /**
   The window is fixed at the first failure of a run: with a monotone clock, the
   present run has tripped at some point exactly when its fifth failure came within
   the window of its first.  A run that outlives the window before its fifth failure
   never trips, however long it goes on.
   */
  lemma RunTripsIffFifthInWindow(history: seq<Outcome>)
    requires Monotone(history)
    ensures var run := FailureRun(history);
            (exists n | |history| - |run| <= n <= |history| :: CrossesAtEnd(history[..n]))
            <==> |run| >= 5 && run[4] - run[0] <= 30.0
  {
    var run := FailureRun(history);
    var base := |history| - |run|;
    RunIsTheTail(history);
    forall n | base <= n <= |history| && CrossesAtEnd(history[..n])
      ensures |run| >= 5 && run[4] - run[0] <= 30.0
    {
      TripIsTheFifth(history, n);
    }
    if |run| >= 5 && run[4] - run[0] <= 30.0 {
      RunOfPrefix(history, base + 5);
      TripsExactlyOnShortBursts(history[..base + 5]);
    }
  }

  /** Failures at 0, 31, 32, 33, 34 and 35 s: five within 4 s, and none of them trips. */
  lemma SlowStartNeverTrips()
    ensures var history := [Failed(0.0), Failed(31.0), Failed(32.0), Failed(33.0), Failed(34.0), Failed(35.0)];
            forall n | 0 <= n <= |history| :: !CrossesAtEnd(history[..n])
  {
    var history := [Failed(0.0), Failed(31.0), Failed(32.0), Failed(33.0), Failed(34.0), Failed(35.0)];
    var times := [0.0, 31.0, 32.0, 33.0, 34.0, 35.0];
    assert history == Failures(times);
    RunOfFailures(times);
    RunTripsIffFifthInWindow(history);
  }

  function Failures(times: seq<real>): seq<Outcome> {
    seq(|times|, i requires 0 <= i < |times| => Failed(times[i]))
  }

  lemma {:induction false} RunOfFailures(times: seq<real>)
    ensures FailureRun(Failures(times)) == times
  {
    if times != [] {
      var front := times[..|times| - 1];
      RunOfFailures(front);
      assert Failures(times)[..|times| - 1] == Failures(front);
    }
  }

  /** Four failures at 0 and a fifth at any later time: the fifth trips exactly up to 30 s. */
  lemma FifthFailureTripsWithinThirtySeconds(t: real)
    ensures CrossesAtEnd([Failed(0.0), Failed(0.0), Failed(0.0), Failed(0.0), Failed(t)]) <==> t <= 30.0
  {
    var times := [0.0, 0.0, 0.0, 0.0, t];
    assert [Failed(0.0), Failed(0.0), Failed(0.0), Failed(0.0), Failed(t)] == Failures(times);
    RunOfFailures(times);
    TripsExactlyOnShortBursts(Failures(times));
  }

  /** Four failures since a success never trip, whatever came before it. */
  lemma FourFailuresNeverTrip(before: seq<Outcome>, times: seq<real>)
    requires |times| <= 4
    ensures !CrossesAtEnd((before + [Connected]) + Failures(times))
  {
    RunSinceSuccess(before, times);
    TripsExactlyOnShortBursts((before + [Connected]) + Failures(times));
  }

  lemma {:induction false} RunSinceSuccess(before: seq<Outcome>, times: seq<real>)
    ensures FailureRun((before + [Connected]) + Failures(times)) == times
  {
    var history := (before + [Connected]) + Failures(times);
    if times == [] {
      assert history == before + [Connected];
    } else {
      var front := times[..|times| - 1];
      RunSinceSuccess(before, front);
      assert history[..|history| - 1] == (before + [Connected]) + Failures(front);
    }
  }
}
