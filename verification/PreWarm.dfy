/** The retry loop that warms the encoder with an authenticated DESCRIBE. */
module PreWarm {
  import opened Wrappers
  import opened Text

  /** How one attempt goes; everything after ConnectFails has an open writer. */
  datatype Attempt =
    | ConnectFails        // open_connection raises
    | FirstFails          // the unauthenticated DESCRIBE raises or times out
    | NoChallenge         // its answer has no nonce or no realm
    | SecondFails         // the authenticated DESCRIBE raises or times out
    | Answered(ok: bool)  // its answer arrived, with or without `200 OK`

  datatype Action = Opened(attempt: nat) | Closed(attempt: nat)

  /** Number of attempts made: up to and including the first with both answers. */
  function Tried(script: nat -> Attempt, limit: nat): (n: nat)
    ensures n <= limit
    ensures forall k: nat | k < n && script(k).Answered? :: k == n - 1
    ensures n < limit ==> n > 0 && script(n - 1).Answered?
  {
    if limit == 0 then 0
    else
      var n := Tried(script, limit - 1);
      if n < limit - 1 || (n > 0 && script(n - 1).Answered?) then n else limit
  }

  /** What the first `n` attempts must log: each one that connects opens its writer and closes it before the next. */
  function Trace(script: nat -> Attempt, n: nat): seq<Action> {
    if n == 0 then []
    else Trace(script, n - 1) + if script(n - 1).ConnectFails? then [] else [Opened(n - 1), Closed(n - 1)]
  }

  /** The first attempt to receive both answers got `200 OK`. */
  ghost predicate FirstAnswerIsOk(script: nat -> Attempt, maxAttempts: int) {
    exists k: nat | k < maxAttempts :: script(k) == Answered(true) && forall j: nat | j < k :: !script(j).Answered?
  }

  lemma FirstAnswerDecides(script: nat -> Attempt, maxAttempts: int, n: nat)
    requires forall k: nat | k + 1 < n :: !script(k).Answered?
    requires n <= maxAttempts || n == 0
    requires n >= maxAttempts || (n > 0 && script(n - 1).Answered?)
    ensures FirstAnswerIsOk(script, maxAttempts) <==> n > 0 && script(n - 1) == Answered(true)
  {
    if FirstAnswerIsOk(script, maxAttempts) {
      var k: nat :| k < maxAttempts && script(k) == Answered(true) && forall j: nat | j < k :: !script(j).Answered?;
    }
  }

  // ---- What a log of the writers says ----

  /** How many connections a log opens. */
  function OpenedIn(log: seq<Action>): nat {
    if log == [] then 0 else OpenedIn(log[..|log| - 1]) + if log[|log| - 1].Opened? then 1 else 0
  }

  /** The writers a log has opened and not closed. */
  function StillOpen(log: seq<Action>): set<nat> {
    if log == [] then {}
    else
      var front := StillOpen(log[..|log| - 1]);
      match log[|log| - 1]
      case Opened(k) => front + {k}
      case Closed(k) => front - {k}
  }

  /** Never two writers open at once. */
  predicate OneAtATime(log: seq<Action>) {
    log == [] || (|StillOpen(log)| <= 1 && OneAtATime(log[..|log| - 1]))
  }

  lemma {:induction false} AtEveryPoint(log: seq<Action>, i: nat)
    requires i <= |log| && OneAtATime(log)
    ensures |StillOpen(log[..i])| <= 1
  {
    if i == |log| {
      assert log[..i] == log;
    } else {
      AtEveryPoint(log[..|log| - 1], i);
      assert log[..|log| - 1][..i] == log[..i];
    }
  }

  function WriterSet(writer: Option<nat>): set<nat> {
    match writer case None => {} case Some(k) => {k}
  }

  /** The local `writer` is what the log has open. */
  ghost predicate Tracks(log: seq<Action>, writer: Option<nat>) {
    StillOpen(log) == WriterSet(writer) && OneAtATime(log)
  }

  /** Before attempt `n`: every earlier attempt that connected has opened and closed its own writer. */
  ghost predicate Balanced(script: nat -> Attempt, n: nat, log: seq<Action>) {
    Tracks(log, None) && log == Trace(script, n)
  }

  /** Inside attempt `n`, once connected: its writer is the one that is open. */
  ghost predicate Connected(script: nat -> Attempt, n: nat, log: seq<Action>) {
    Tracks(log, Some(n)) && log == Trace(script, n) + [Opened(n)]
  }

  lemma NothingLogged(script: nat -> Attempt)
    ensures Balanced(script, 0, [])
  {
  }

  lemma AppendedFront(log: seq<Action>, a: Action)
    ensures (log + [a])[..|log|] == log
  {
  }

  lemma OneActionMore(log: seq<Action>, a: Action)
    ensures StillOpen(log + [a]) == if a.Opened? then StillOpen(log) + {a.attempt} else StillOpen(log) - {a.attempt}
    ensures OpenedIn(log + [a]) == OpenedIn(log) + if a.Opened? then 1 else 0
  {
    AppendedFront(log, a);
  }

  lemma OneAtATimeGrows(log: seq<Action>, a: Action)
    requires OneAtATime(log) && |StillOpen(log + [a])| <= 1
    ensures OneAtATime(log + [a])
  {
    AppendedFront(log, a);
  }

  lemma OpeningConnects(script: nat -> Attempt, n: nat, log: seq<Action>)
    requires Balanced(script, n, log) && !script(n).ConnectFails?
    ensures Connected(script, n, log + [Opened(n)])
  {
    OneActionMore(log, Opened(n));
    assert {} + {n} == {n};
    OneAtATimeGrows(log, Opened(n));
  }

  lemma ClosingBalances(script: nat -> Attempt, n: nat, log: seq<Action>)
    requires Connected(script, n, log) && !script(n).ConnectFails?
    ensures Balanced(script, n + 1, log + [Closed(n)])
  {
    OneActionMore(log, Closed(n));
    assert {n} - {n} == {};
    Regroup(Trace(script, n), [Opened(n)], [Closed(n)]);
    OneAtATimeGrows(log, Closed(n));
  }

  lemma FailingBalances(script: nat -> Attempt, n: nat, log: seq<Action>)
    requires Balanced(script, n, log) && script(n).ConnectFails?
    ensures Balanced(script, n + 1, log)
  {
  }

  lemma TriedIs(script: nat -> Attempt, limit: nat, n: nat)
    requires n <= limit && forall k: nat | k < n && script(k).Answered? :: k == n - 1
    requires n == limit || (n > 0 && script(n - 1).Answered?)
    ensures Tried(script, limit) == n
  {
  }

  /** `asyncio.open_connection`, when it returns. */
  method OpenConnection(ghost script: nat -> Attempt, n: nat, log: seq<Action>) returns (longer: seq<Action>)
    requires Balanced(script, n, log) && !script(n).ConnectFails?
    ensures longer == log + [Opened(n)] && Connected(script, n, longer)
  {
    OpeningConnects(script, n, log);
    longer := log + [Opened(n)];
  }

  /** `writer.close()`. */
  method CloseWriter(ghost script: nat -> Attempt, writer: nat, log: seq<Action>) returns (longer: seq<Action>)
    requires Connected(script, writer, log) && !script(writer).ConnectFails?
    ensures longer == log + [Closed(writer)] && Balanced(script, writer + 1, longer)
  {
    ClosingBalances(script, writer, log);
    longer := log + [Closed(writer)];
  }

  lemma {:induction false} AtMostOneEach(script: nat -> Attempt, n: nat)
    ensures OpenedIn(Trace(script, n)) <= n
  {
    if n > 0 {
      AtMostOneEach(script, n - 1);
      var front := Trace(script, n - 1);
      if !script(n - 1).ConnectFails? {
        assert Trace(script, n) == front + ([Opened(n - 1)] + [Closed(n - 1)]);
        OneActionMore(front, Opened(n - 1));
        OneActionMore(front + [Opened(n - 1)], Closed(n - 1));
        Regroup(front, [Opened(n - 1)], [Closed(n - 1)]);
      } else {
        assert Trace(script, n) == front;
      }
    }
  }

  function Limit(maxAttempts: int): nat { if maxAttempts < 0 then 0 else maxAttempts }

  lemma Concludes(script: nat -> Attempt, maxAttempts: int, n: nat, log: seq<Action>)
    requires n <= Limit(maxAttempts) && Balanced(script, n, log)
    requires forall k: nat | k + 1 < n :: !script(k).Answered?
    requires n >= maxAttempts || (n > 0 && script(n - 1).Answered?)
    ensures Balanced(script, Tried(script, Limit(maxAttempts)), log)
    ensures OneAtATime(log) && StillOpen(log) == {} && OpenedIn(log) <= Limit(maxAttempts)
    ensures FirstAnswerIsOk(script, maxAttempts) <==> n > 0 && script(n - 1) == Answered(true)
  {
    AtMostOneEach(script, n);
    TriedIs(script, Limit(maxAttempts), n);
    FirstAnswerDecides(script, maxAttempts, n);
  }

  /** A balanced log never has two writers open at once, leaves none open, and opens at most one for each attempt. */
  lemma WritersNeverOverlap(script: nat -> Attempt, n: nat, log: seq<Action>)
    requires Balanced(script, n, log)
    ensures forall i | 0 <= i <= |log| :: |StillOpen(log[..i])| <= 1
    ensures StillOpen(log) == {} && OpenedIn(log) <= n
  {
    forall i | 0 <= i <= |log| ensures |StillOpen(log[..i])| <= 1 { AtEveryPoint(log, i); }
    AtMostOneEach(script, n);
  }

  /** One turn of the loop either goes on, or returns the given result. */
  datatype Turn = Retry | Return(ok: bool)

  /** The body of the loop for attempt `n`, counted from 0; `last` says that no attempt is left. */
  method TryOnce(script: nat -> Attempt, n: nat, last: bool, log: seq<Action>) returns (turn: Turn, longer: seq<Action>)
    requires Balanced(script, n, log)
    ensures Balanced(script, n + 1, longer)
    ensures turn == match script(n)
                    case Answered(ok) => Return(ok)
                    case NoChallenge => if last then Return(false) else Retry
                    case _ => Retry
  {
    var writer: Option<nat> := None;
    longer := log;
    var outcome := script(n);
    if !outcome.ConnectFails? {
      longer := OpenConnection(script, n, longer);
      writer := Some(n);
      if outcome.NoChallenge? {
        longer := CloseWriter(script, writer.value, longer);
        return if last then Return(false) else Retry, longer;
      }
      if outcome.Answered? {
        longer := CloseWriter(script, writer.value, longer);
        return Return(outcome.ok), longer;
      }
    }
    // The except handler.
    if writer.Some? {
      longer := CloseWriter(script, writer.value, longer);
    } else {
      FailingBalances(script, n, longer);
    }
    turn := Retry;
  }

  /**
   `pre_warm_rtsp`; writers are numbered by their attempt, from 0, and `log` records them.
   Each of the three places that close a writer closes the one that is open, so the log is
   balanced over the attempts made: those up to the first that receives both answers, or
   all of them.  The result is the second answer of that attempt.
   */
  method PreWarmRtsp(script: nat -> Attempt, maxAttempts: int) returns (ok: bool, log: seq<Action>)
    ensures Balanced(script, Tried(script, Limit(maxAttempts)), log)
    ensures OneAtATime(log) && StillOpen(log) == {} && OpenedIn(log) <= Limit(maxAttempts)
    ensures ok <==> FirstAnswerIsOk(script, maxAttempts)
  {
    log := [];
    var attempt := 1;
    NothingLogged(script);
    while attempt < maxAttempts + 1
      invariant 1 <= attempt && attempt - 1 <= Limit(maxAttempts)
      invariant forall k: nat | k < attempt - 1 :: !script(k).Answered?
      invariant Balanced(script, attempt - 1, log)
    {
      var turn;
      turn, log := TryOnce(script, attempt - 1, attempt == maxAttempts, log);
      if turn.Return? {
        Concludes(script, maxAttempts, attempt, log);
        return turn.ok, log;
      }
      attempt := attempt + 1;
    }
    Concludes(script, maxAttempts, attempt - 1, log);
    ok := false;
  }
}
