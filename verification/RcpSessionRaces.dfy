/**
 Races of the RCP session cache: which callers must pass the shared locks for no insert
 to overwrite an entry, and which session a late failing read evicts.
 */
module RcpSessionRaces {
  import opened Wrappers
  import opened Text
  import opened TagSearch
  import opened RcpSessions
  import RcpReply

  // ---- Who must lock ----

  /** Each caller always passes the shared locks, or never does. */
  ghost predicate FollowsPolicy(events: seq<Event>, locks: Task -> bool) {
    forall i | 0 <= i < |events| && events[i].Enter? :: events[i].shared == locks(events[i].task)
  }

  predicate OverwritesAt(s: State, e: Event)
    requires Enabled(s, e)
  {
    e.Finish? && RcpSession(e.answer).Some? && s.calls[e.task].hash in s.cache
  }

  ghost predicate NeverOverwrites(states: seq<State>, events: seq<Event>)
    requires IsRun(states, events)
  {
    forall i | 0 <= i < |events| :: !OverwritesAt(states[i], events[i])
  }

  /** What a handshake result stores. */
  function InsertedEntry(s: State, e: Event): Entry
    requires Enabled(s, e) && e.Finish? && RcpSession(e.answer).Some?
  {
    Entry(RcpSession(e.answer).value, s.calls[e.task].started + 300.0)
  }

  lemma TwoCallsInFlight(t: Task, u: Task, hash: Hash, lockU: bool) returns (states: seq<State>, events: seq<Event>)
    requires t != u
    ensures IsRun(states, events) && events == [Enter(t, hash, 0.0, false), Enter(u, hash, 0.0, lockU)]
    ensures states[2].cache == map[] && states[2].clock == 0.0
    ensures states[2].calls == map[t := Call(hash, 0.0, None), u := Call(hash, 0.0, if lockU then Some(0) else None)]
  {
    states := Extended([INITIAL], [], Enter(t, hash, 0.0, false));
    events := [Enter(t, hash, 0.0, false)];
    states := Extended(states, events, Enter(u, hash, 0.0, lockU));
    events := events + [Enter(u, hash, 0.0, lockU)];
  }

  lemma FinishLeaves(s: State, t: Task, answer: OpenReply)
    requires t in s.calls
    ensures Step(s, Finish(t, answer)).calls == s.calls - {t}
  {
  }

  lemma FinishStores(s: State, t: Task, answer: OpenReply)
    requires t in s.calls && RcpSession(answer).Some?
    ensures Step(s, Finish(t, answer)).calls == s.calls - {t}
    ensures Step(s, Finish(t, answer)).cache == s.cache[s.calls[t].hash := InsertedEntry(s, Finish(t, answer))]
  {
    FinishLeaves(s, t, answer);
  }

  /**
   For every two callers of which the first passes no locks: a run with both handshakes in
   flight for one hash at the same time, in which the second insert overwrites the first,
   whether or not the second caller locks.
   */
  lemma UnsharedCallersRace(t: Task, u: Task, hash: Hash, lockU: bool, a: OpenReply, b: OpenReply)
    returns (states: seq<State>, events: seq<Event>)
    requires t != u && RcpSession(a).Some? && RcpSession(b).Some?
    ensures IsRun(states, events)
    ensures events == [Enter(t, hash, 0.0, false), Enter(u, hash, 0.0, lockU), Finish(t, a), Finish(u, b)]
    ensures t in states[2].calls && u in states[2].calls
    ensures states[2].calls[t].hash == hash && states[2].calls[u].hash == hash
    ensures states[3].cache == map[hash := Entry(RcpSession(a).value, 300.0)] && OverwritesAt(states[3], events[3])
    ensures states[4].cache == map[hash := Entry(RcpSession(b).value, 300.0)]
  {
    states, events := TwoCallsInFlight(t, u, hash, lockU);
    FinishStores(states[2], t, a);
    states := Extended(states, events, Finish(t, a));
    events := events + [Finish(t, a)];
    FinishStores(states[3], u, b);
    states := Extended(states, events, Finish(u, b));
    events := events + [Finish(u, b)];
  }

  /** A handshake answer that yields an id. */
  lemma SomeAnswer() returns (answer: OpenReply)
    ensures RcpSession(answer).Some?
  {
    var id, open, close := "1", "<sessionid>", "</sessionid>";
    answer := Answer(200, "" + (open + (id + (close + ""))));
    SessionIdIsReadIff("", open, id, close, "");
    assert REJECTED[0] == '0';
  }

  /**
   No insert overwrites a cached entry in any run of callers with these habits if and only
   if every one of them passes the shared locks.
   */
  lemma NoOverwriteIffAllLock(locks: Task -> bool)
    ensures (forall states, events | IsRun(states, events) && FollowsPolicy(events, locks) ::
               NeverOverwrites(states, events))
            <==> forall t: Task :: locks(t)
  {
    if forall t: Task :: locks(t) {
      forall states, events | IsRun(states, events) && FollowsPolicy(events, locks)
        ensures NeverOverwrites(states, events)
      {
        LockingCallersNeverOverwrite(states, events);
      }
    } else {
      var t: Task :| !locks(t);
      var u: Task := t + 1;
      var answer := SomeAnswer();
      var states, events := UnsharedCallersRace(t, u, "", locks(u), answer, answer);
      assert FollowsPolicy(events, locks);
      assert !NeverOverwrites(states, events);
    }
  }

  lemma LockingCallersNeverOverwrite(states: seq<State>, events: seq<Event>)
    requires IsRun(states, events) && AllShared(events)
    ensures NeverOverwrites(states, events)
  {
    forall i | 0 <= i < |events| ensures !OverwritesAt(states[i], events[i]) {
      if events[i].Finish? {
        InsertionsMinusRemovals(states, events, states[i].calls[events[i].task].hash, i);
      }
    }
  }

  // ---- Late failing reads ----

  /** The event that last stored an entry for the hash. */
  ghost function LastInsertion(states: seq<State>, events: seq<Event>, hash: Hash, j: nat): (k: Option<nat>)
    requires IsRun(states, events) && j <= |events|
    ensures k.Some? ==> k.value < j && InsertsAt(states[k.value], events[k.value], hash)
  {
    if j == 0 then None
    else if InsertsAt(states[j - 1], events[j - 1], hash) then Some(j - 1)
    else LastInsertion(states, events, hash, j - 1)
  }

  lemma {:induction false} CachedIsLastInserted(states: seq<State>, events: seq<Event>, hash: Hash, j: nat)
    requires IsRun(states, events) && j <= |events| && hash in states[j].cache
    ensures var k := LastInsertion(states, events, hash, j);
            k.Some? && states[j].cache[hash] == InsertedEntry(states[k.value], events[k.value])
  {
    if !InsertsAt(states[j - 1], events[j - 1], hash) {
      CachedIsLastInserted(states, events, hash, j - 1);
    }
  }

  ghost predicate NoInsertion(states: seq<State>, events: seq<Event>, hash: Hash, i: nat, j: nat)
    requires IsRun(states, events) && j <= |events|
  {
    forall k | i <= k < j :: !InsertsAt(states[k], events[k], hash)
  }

  lemma {:induction false} LastInsertionStaysIff(states: seq<State>, events: seq<Event>, hash: Hash, i: nat, j: nat)
    requires IsRun(states, events) && i <= j <= |events|
    ensures LastInsertion(states, events, hash, j) == LastInsertion(states, events, hash, i)
            <==> NoInsertion(states, events, hash, i, j)
    ensures !NoInsertion(states, events, hash, i, j) ==>
              LastInsertion(states, events, hash, j).Some? && LastInsertion(states, events, hash, j).value >= i
  {
    if i < j {
      LastInsertionStaysIff(states, events, hash, i, j - 1);
      OneEventMore(states, events, hash, i, j);
    }
  }

  lemma OneEventMore(states: seq<State>, events: seq<Event>, hash: Hash, i: nat, j: nat)
    requires IsRun(states, events) && i < j <= |events|
    ensures NoInsertion(states, events, hash, i, j) <==>
            NoInsertion(states, events, hash, i, j - 1) && !InsertsAt(states[j - 1], events[j - 1], hash)
    ensures LastInsertion(states, events, hash, j) ==
            if InsertsAt(states[j - 1], events[j - 1], hash) then Some(j - 1)
            else LastInsertion(states, events, hash, j - 1)
  {
  }

  /**
   A read took its id from the entry cached at point i, and its failure at a later point j
   finds the hash cached.  The session it evicts was stored by the same handshake as the
   one it used if and only if no handshake of that hash stored one in between; otherwise
   it evicts what the last of them stored.
   */
  lemma EvictsItsOwnSessionIffNoneStoredSince(states: seq<State>, events: seq<Event>, i: nat, j: nat,
                                              host: string, hash: Hash, id: string, reply: RcpReply.Reply)
    requires IsRun(states, events) && i <= j < |events| && '/' !in hash
    requires hash in states[i].cache && states[i].cache[hash].id == id && hash in states[j].cache
    requires events[j] == Read(RcpBase(host, hash), id, reply) && RcpReply.DropsSession(reply)
    ensures states[j + 1].cache == states[j].cache - {hash}
    ensures LastInsertion(states, events, hash, j) == LastInsertion(states, events, hash, i)
            <==> NoInsertion(states, events, hash, i, j)
    ensures NoInsertion(states, events, hash, i, j) ==>
              states[j].cache[hash] == states[i].cache[hash] && states[j].cache[hash].id == id
    ensures !NoInsertion(states, events, hash, i, j) ==>
              var k := LastInsertion(states, events, hash, j);
              && k.Some? && i <= k.value < j
              && states[j].cache[hash] == InsertedEntry(states[k.value], events[k.value])
  {
    FailingReadEvictsItsHash(states[j], host, hash, id, reply);
    CachedIsLastInserted(states, events, hash, i);
    CachedIsLastInserted(states, events, hash, j);
    LastInsertionStaysIff(states, events, hash, i, j);
  }

  const UNAUTHORIZED := RcpReply.Http(401, [])

  /** A locked call finds the cache empty, and stores what its handshake yields. */
  lemma StoredOnce(t: Task, hash: Hash, answer: OpenReply, states: seq<State>, events: seq<Event>)
    returns (longer: seq<State>, more: seq<Event>)
    requires RcpSession(answer).Some? && IsRun(states, events)
    requires var s := states[|events|]; s.cache == map[] && s.calls == map[] && s.held == {} && s.clock == 0.0
    ensures IsRun(longer, more) && more == events + [Enter(t, hash, 0.0, true), Finish(t, answer)]
    ensures longer[..|events| + 1] == states
    ensures var s := longer[|more|];
            s.cache == map[hash := Entry(RcpSession(answer).value, 300.0)]
            && s.calls == map[] && s.held == {} && s.clock == 0.0
  {
    longer := Extended(states, events, Enter(t, hash, 0.0, true));
    more := events + [Enter(t, hash, 0.0, true)];
    FinishStores(longer[|more|], t, answer);
    longer := Extended(longer, more, Finish(t, answer));
    more := more + [Finish(t, answer)];
  }

  /** A 401 on a read with the first id, behind everything so far. */
  lemma Evicted(states: seq<State>, events: seq<Event>, host: string, hash: Hash, id: string)
    returns (longer: seq<State>, more: seq<Event>)
    requires IsRun(states, events) && '/' !in hash
    ensures IsRun(longer, more) && more == events + [Read(RcpBase(host, hash), id, UNAUTHORIZED)]
    ensures longer[..|events| + 1] == states
    ensures longer[|more|] == states[|events|].(cache := states[|events|].cache - {hash})
  {
    FailingReadEvictsItsHash(states[|events|], host, hash, id, UNAUTHORIZED);
    longer := Extended(states, events, Read(RcpBase(host, hash), id, UNAUTHORIZED));
    more := events + [Read(RcpBase(host, hash), id, UNAUTHORIZED)];
  }

  /**
   With shared locks and for every hash without a slash: two reads use the session of one
   handshake and both meet a 401; between the two a second handshake stores a session, and
   the later 401 evicts that one.
   */
  lemma LateFailureEvictsANewerSession(host: string, hash: Hash, a: OpenReply, b: OpenReply)
    returns (states: seq<State>, events: seq<Event>)
    requires RcpSession(a).Some? && RcpSession(b).Some? && '/' !in hash
    ensures IsRun(states, events) && AllShared(events)
    ensures var read := Read(RcpBase(host, hash), RcpSession(a).value, UNAUTHORIZED);
            events == [Enter(0, hash, 0.0, true), Finish(0, a), read, Enter(1, hash, 0.0, true), Finish(1, b), read]
    ensures states[2].cache == map[hash := Entry(RcpSession(a).value, 300.0)]
    ensures states[5].cache == map[hash := Entry(RcpSession(b).value, 300.0)] && states[6].cache == map[]
  {
    states, events := StoredOnce(0, hash, a, [INITIAL], []);
    var states3, events3 := Evicted(states, events, host, hash, RcpSession(a).value);
    var states5, events5 := StoredOnce(1, hash, b, states3, events3);
    assert states5[2] == states3[2] == states[2];
    states, events := Evicted(states5, events5, host, hash, RcpSession(a).value);
    assert states[2] == states5[2] && states[5] == states5[5];
  }
}
