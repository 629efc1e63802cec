/**
 The RCP session cache as a step system: calls of `get_cached_rcp_session` that share
 a lock for each proxy hash, handshakes that are in flight between two awaits, and
 reads that drop entries at any time.
 */
module RcpSessions {
  import opened Wrappers
  import opened Text
  import opened TagSearch
  import RcpReply

  type Hash = string
  type Task = nat
  type LockId = nat

  const TTL: real := 300.0
  const REJECTED := "0x00000000"

  // ---- The handshake result ----

  /** The answer to the first handshake request; the acknowledgement cannot change the result. */
  datatype OpenReply = NoAnswer | Answer(status: int, text: string)

  /** Case folding of a text pattern with IGNORECASE, on the letters of `sessionid`. */
  function FoldText(c: char): char {
    if 'A' <= c <= 'Z' then c - 'A' + 'a'
    else if c == '\U{17F}' then 's'
    else if c == '\U{130}' || c == '\U{131}' then 'i'
    else c
  }

  const SESSION_ID := Tag("<sessionid>", "</sessionid>", (c: char) => !IsSpace(c), FoldText)

  /** `rcp_session`. */
  function RcpSession(reply: OpenReply): (id: Option<string>)
    ensures id.Some? ==> id.value != "" && id.value != "0x00000000"
  {
    match reply
    case NoAnswer => None
    case Answer(status, text) =>
      if status != 200 then None
      else if Search(SESSION_ID, text) == Some(REJECTED) then None
      else Search(SESSION_ID, text)
  }

  /**
   An id in a session tag, behind no earlier match, is what a handshake yields exactly
   when it is not the rejected id and its closing tag is not repeated in the same stretch
   without white space.
   */
  lemma SessionIdIsReadIff(pre: string, open: string, id: string, close: string, post: string)
    requires |open| == |SESSION_ID.open| && StartsWith(open, SESSION_ID.open, FoldText)
    requires |close| == |SESSION_ID.close| && StartsWith(close, SESSION_ID.close, FoldText)
    requires id != "" && AllOf(id, SESSION_ID.inGroup)
    requires forall i | 0 <= i < |pre| :: TagAt(SESSION_ID, pre[i..] + (open + (id + (close + post)))).None?
    ensures RcpSession(Answer(200, pre + (open + (id + (close + post))))) == Some(id)
            <==> id != "0x00000000" && ClosesOnce(SESSION_ID, id, close + post)
  {
    CapturesIffClosesOnce(SESSION_ID, open, id, close, post);
    SearchSkips(SESSION_ID, pre, open + (id + (close + post)));
  }

  // ---- The key a failing read evicts ----

  function Prepend(c: char, parts: seq<string>): (r: seq<string>)
    requires parts != []
    ensures r != []
  {
    if c == '/' then [""] + parts else [[c] + parts[0]] + parts[1..]
  }

  /** `s.split("/")`. */
  function Split(s: string): (parts: seq<string>)
    ensures parts != [] && forall p | p in parts :: '/' !in p
  {
    if s == "" then [""] else Prepend(s[0], Split(s[1..]))
  }

  /** `s.rstrip("/")`. */
  function StripSlashes(s: string): string {
    if s != "" && s[|s| - 1] == '/' then StripSlashes(s[..|s| - 1]) else s
  }

  /** The proxy hash `_drop_cached_session` reads off the request base. */
  function DropKey(rcpBase: string): Option<Hash> {
    var parts := Split(StripSlashes(rcpBase));
    if |parts| >= 2 && parts[|parts| - 1] == "rcp.xml" then Some(parts[|parts| - 2]) else None
  }

  /** The base URL the callers build. */
  function RcpBase(host: string, hash: Hash): string {
    ("https://" + host + ("/" + hash)) + ("/" + "rcp.xml")
  }

  lemma PrependAppend(c: char, p: seq<string>, q: seq<string>)
    requires p != []
    ensures Prepend(c, p + q) == Prepend(c, p) + q
  {
    assert (p + q)[1..] == p[1..] + q;
  }

  lemma {:induction false} SplitJoin(a: string, b: string)
    ensures Split(a + ("/" + b)) == Split(a) + Split(b)
  {
    if a == "" {
      assert a + ("/" + b) == "/" + b;
      assert ("/" + b)[1..] == b;
    } else {
      assert (a + ("/" + b))[1..] == a[1..] + ("/" + b);
      SplitJoin(a[1..], b);
      PrependAppend(a[0], Split(a[1..]), Split(b));
    }
  }

  lemma {:induction false} SplitWhole(s: string)
    requires '/' !in s
    ensures Split(s) == [s]
  {
    if s != "" {
      SplitWhole(s[1..]);
      assert [s[0]] + s[1..] == s;
    }
  }

  /** A read on the usual base evicts the hash it was opened for exactly when the hash has no slash. */
  lemma DropsOwnHashIffNoSlash(host: string, hash: Hash)
    ensures DropKey(RcpBase(host, hash)) == Some(hash) <==> '/' !in hash
  {
    var stem := "https://" + host + ("/" + hash);
    var base := RcpBase(host, hash);
    assert base[|base| - 1] == 'l';
    SplitJoin(stem, "rcp.xml");
    SplitWhole("rcp.xml");
    SplitJoin("https://" + host, hash);
    if '/' !in hash { SplitWhole(hash); }
    var parts := Split("https://" + host) + Split(hash);
    assert parts[|parts| - 1] == Split(hash)[|Split(hash)| - 1];
    assert Split(base)[|Split(base)| - 2] == parts[|parts| - 1];
  }

  /** A read for the hash `a/b` evicts `b` instead. */
  lemma SlashEvictsAnother(host: string)
    ensures DropKey(RcpBase(host, "a/b")) == Some("b")
  {
    var stem := "https://" + host + ("/" + "a/b");
    var base := RcpBase(host, "a/b");
    assert base[|base| - 1] == 'l';
    SplitJoin(stem, "rcp.xml");
    SplitWhole("rcp.xml");
    SplitJoin("https://" + host, "a/b");
    SplitJoin("a", "b");
    SplitWhole("b");
    assert "a" + ("/" + "b") == "a/b";
    LastOfJoin(Split("https://" + host), Split("a"), "b", "rcp.xml");
  }

  lemma LastOfJoin(front: seq<string>, mid: seq<string>, b: string, last: string)
    ensures var parts := (front + (mid + [b])) + [last];
            |parts| >= 2 && parts[|parts| - 2] == b && parts[|parts| - 1] == last
  {
  }

  // ---- The step system ----

  datatype Entry = Entry(id: string, expires: real)

  /** A call between its two segments: its clock sample, and the lock it holds, if any. */
  datatype Call = Call(hash: Hash, started: real, lock: Option<LockId>)

  datatype State = State(
    cache: map<Hash, Entry>,
    locks: map<Hash, LockId>,
    nextLock: LockId,
    held: set<LockId>,
    calls: map<Task, Call>,
    clock: real)

  datatype Event =
    | Enter(task: Task, hash: Hash, now: real, shared: bool)  // up to the handshake, or a cache hit
    | Finish(task: Task, answer: OpenReply)                   // from the handshake result to the return
    | Read(rcpBase: string, sessionId: string, reply: RcpReply.Reply)  // an rcp_read reply, on the same cache

  const INITIAL := State(map[], map[], 0, {}, map[], 0.0)

  /** `_get_rcp_session_lock`: check, then insert, with no await between. */
  function WithLock(s: State, hash: Hash): State {
    if hash in s.locks then s else s.(locks := s.locks[hash := s.nextLock], nextLock := s.nextLock + 1)
  }

  predicate Enabled(s: State, e: Event) {
    match e
    case Enter(t, hash, now, shared) =>
      t !in s.calls && s.clock <= now && (shared && hash in s.locks ==> s.locks[hash] !in s.held)
    case Finish(t, _) => t in s.calls
    case Read(_, _, _) => true
  }

  predicate Fresh(s: State, hash: Hash, now: real) {
    hash in s.cache && now < s.cache[hash].expires
  }

  function Step(s: State, e: Event): State
    requires Enabled(s, e)
  {
    match e
    case Enter(t, hash, now, shared) =>
      var s1 := (if shared then WithLock(s, hash) else s).(clock := now);
      if Fresh(s, hash, now) then s1
      else
        var lock := if shared then Some(s1.locks[hash]) else None;
        s1.(cache := s.cache - {hash},
            calls := s.calls[t := Call(hash, now, lock)],
            held := if shared then s.held + {s1.locks[hash]} else s.held)
    case Finish(t, reply) =>
      var call := s.calls[t];
      var id := RcpSession(reply);
      s.(cache := if id.Some? then s.cache[call.hash := Entry(id.value, call.started + TTL)] else s.cache,
         calls := s.calls - {t},
         held := if call.lock.Some? then s.held - {call.lock.value} else s.held)
    case Read(rcpBase, _, reply) =>
      if RcpReply.DropsSession(reply) && DropKey(rcpBase).Some?
      then s.(cache := s.cache - {DropKey(rcpBase).value}) else s
  }

  ghost predicate IsRun(states: seq<State>, events: seq<Event>) {
    && |states| == |events| + 1
    && states[0] == INITIAL
    && forall i | 0 <= i < |events| :: Enabled(states[i], events[i]) && states[i + 1] == Step(states[i], events[i])
  }

  /** Every caller passes the same `session_locks`. */
  ghost predicate AllShared(events: seq<Event>) {
    forall i | 0 <= i < |events| && events[i].Enter? :: events[i].shared
  }

  // ---- Single flight ----

  ghost predicate LocksDistinct(s: State) {
    && (forall h | h in s.locks :: s.locks[h] < s.nextLock)
    && (forall h, k | h in s.locks && k in s.locks && s.locks[h] == s.locks[k] :: h == k)
  }

  /** A call in flight holds the lock of its hash, whose entry is absent. */
  ghost predicate CallGuarded(s: State, t: Task)
    requires t in s.calls
  {
    var call := s.calls[t];
    && call.hash in s.locks && call.lock == Some(s.locks[call.hash]) && s.locks[call.hash] in s.held
    && call.hash !in s.cache
    && forall u | u in s.calls && u != t :: s.calls[u].hash != call.hash
  }

  /** A lock that is held belongs to a call in flight. */
  ghost predicate LockHasCall(s: State, l: LockId) {
    exists t :: t in s.calls && s.calls[t].lock == Some(l)
  }

  ghost predicate Guarded(s: State) {
    && LocksDistinct(s)
    && (forall t | t in s.calls :: CallGuarded(s, t))
    && (forall l | l in s.held :: LockHasCall(s, l))
  }

  lemma EnterCallGuarded(s: State, e: Event, t: Task)
    requires Guarded(s) && e.Enter? && e.shared && Enabled(s, e) && t in Step(s, e).calls
    ensures CallGuarded(Step(s, e), t)
  {
    var s' := Step(s, e);
    if t in s.calls { assert CallGuarded(s, t); }
    forall u | u in s'.calls && u != t ensures s'.calls[u].hash != s'.calls[t].hash {
      if u in s.calls { assert CallGuarded(s, u); }
    }
  }

  lemma EnterGuarded(s: State, e: Event)
    requires Guarded(s) && e.Enter? && e.shared && Enabled(s, e)
    ensures Guarded(Step(s, e))
  {
    var s' := Step(s, e);
    forall t | t in s'.calls ensures CallGuarded(s', t) { EnterCallGuarded(s, e, t); }
    forall l | l in s'.held ensures LockHasCall(s', l) { EnterHeldGuarded(s, e, l); }
  }

  lemma EnterHeldGuarded(s: State, e: Event, l: LockId)
    requires Guarded(s) && e.Enter? && e.shared && Enabled(s, e) && l in Step(s, e).held
    ensures LockHasCall(Step(s, e), l)
  {
    var s' := Step(s, e);
    if l in s.held {
      assert LockHasCall(s, l);
      var t :| t in s.calls && s.calls[t].lock == Some(l);
      assert s'.calls[t].lock == Some(l);
    } else {
      assert s'.calls[e.task].lock == Some(l);
    }
  }

  lemma FinishGuarded(s: State, e: Event)
    requires Guarded(s) && e.Finish? && Enabled(s, e)
    ensures Guarded(Step(s, e))
  {
    var s' := Step(s, e);
    assert CallGuarded(s, e.task);
    forall t | t in s'.calls ensures CallGuarded(s', t) {
      assert CallGuarded(s, t);
    }
    forall l | l in s'.held ensures LockHasCall(s', l) {
      assert LockHasCall(s, l);
      var t :| t in s.calls && s.calls[t].lock == Some(l);
      assert t != e.task && s'.calls[t].lock == Some(l);
    }
  }

  lemma ReadGuarded(s: State, e: Event)
    requires Guarded(s) && e.Read?
    ensures Guarded(Step(s, e))
  {
    var s' := Step(s, e);
    forall t | t in s'.calls ensures CallGuarded(s', t) { assert CallGuarded(s, t); }
    forall l | l in s'.held ensures LockHasCall(s', l) { assert LockHasCall(s, l); }
  }

  lemma {:induction false} RunGuarded(states: seq<State>, events: seq<Event>, i: nat)
    requires IsRun(states, events) && AllShared(events) && i < |states|
    ensures Guarded(states[i])
  {
    if i > 0 {
      RunGuarded(states, events, i - 1);
      var e := events[i - 1];
      if e.Enter? { EnterGuarded(states[i - 1], e); }
      if e.Finish? { FinishGuarded(states[i - 1], e); }
      if e.Read? { ReadGuarded(states[i - 1], e); }
    }
  }

  predicate InsertsAt(s: State, e: Event, hash: Hash)
    requires Enabled(s, e)
  {
    e.Finish? && s.calls[e.task].hash == hash && RcpSession(e.answer).Some?
  }

  /** An expired entry found by a call, or an entry dropped by a failing read. */
  predicate RemovesAt(s: State, e: Event, hash: Hash)
    requires Enabled(s, e)
  {
    hash in s.cache &&
    match e
    case Enter(_, h, now, _) => h == hash && s.cache[hash].expires <= now
    case Finish(_, _) => false
    case Read(rcpBase, _, reply) => RcpReply.DropsSession(reply) && DropKey(rcpBase) == Some(hash)
  }

  ghost function Inserts(states: seq<State>, events: seq<Event>, hash: Hash, i: nat): nat
    requires IsRun(states, events) && i <= |events|
  {
    if i == 0 then 0
    else Inserts(states, events, hash, i - 1) + if InsertsAt(states[i - 1], events[i - 1], hash) then 1 else 0
  }

  ghost function Removals(states: seq<State>, events: seq<Event>, hash: Hash, i: nat): nat
    requires IsRun(states, events) && i <= |events|
  {
    if i == 0 then 0
    else Removals(states, events, hash, i - 1) + if RemovesAt(states[i - 1], events[i - 1], hash) then 1 else 0
  }

  /**
   When all callers share the locks, at every scheduling point of every run at most one
   handshake for a hash is in flight, the hash is then uncached, and every lock that is
   held belongs to a call in flight.
   */
  lemma SingleFlight(states: seq<State>, events: seq<Event>, i: nat)
    requires IsRun(states, events) && AllShared(events) && i < |states|
    ensures var s := states[i];
      && (forall t, u | t in s.calls && u in s.calls && s.calls[t].hash == s.calls[u].hash :: t == u)
      && (forall t | t in s.calls :: s.calls[t].hash !in s.cache)
      && (forall l | l in s.held :: LockHasCall(s, l))
  {
    RunGuarded(states, events, i);
    forall t | t in states[i].calls ensures CallGuarded(states[i], t) {}
  }

  /**
   The books balance over every run: an insert never overwrites, and insertions minus
   removals of a hash is 1 if it is cached and 0 otherwise.
   */
  lemma {:induction false} InsertionsMinusRemovals(states: seq<State>, events: seq<Event>, hash: Hash, i: nat)
    requires IsRun(states, events) && AllShared(events) && i <= |events|
    ensures Inserts(states, events, hash, i) - Removals(states, events, hash, i)
            == if hash in states[i].cache then 1 else 0
    ensures i < |events| && InsertsAt(states[i], events[i], hash) ==> hash !in states[i].cache
  {
    if i > 0 {
      InsertionsMinusRemovals(states, events, hash, i - 1);
    }
    RunGuarded(states, events, i);
    if i < |events| && events[i].Finish? {
      assert CallGuarded(states[i], events[i].task);
    }
  }

  // ---- Freshness ----

  /** Event `k` is the clock sample of a call whose handshake result event `j` stored as `entry`. */
  ghost predicate StoredBy(states: seq<State>, events: seq<Event>, k: nat, j: nat, hash: Hash, entry: Entry) {
    && k < j < |events|
    && events[k].Enter? && events[j].Finish? && events[k].task == events[j].task && events[k].hash == hash
    && RcpSession(events[j].answer) == Some(entry.id)
    && entry.expires == events[k].now + 300.0
  }

  lemma {:induction false} ClockIsMonotone(states: seq<State>, events: seq<Event>, k: nat, i: nat)
    requires IsRun(states, events) && k <= i < |states|
    ensures states[k].clock <= states[i].clock
  {
    if k < i { ClockIsMonotone(states, events, k, i - 1); }
  }

  lemma {:induction false} CallWasSampled(states: seq<State>, events: seq<Event>, i: nat, t: Task)
    requires IsRun(states, events) && i < |states| && t in states[i].calls
    ensures exists k: nat | k < i :: events[k].Enter? && events[k].task == t
              && events[k].hash == states[i].calls[t].hash && events[k].now == states[i].calls[t].started
  {
    var s, e := states[i - 1], events[i - 1];
    if t in s.calls && !(e.Enter? && e.task == t) {
      CallWasSampled(states, events, i - 1, t);
    } else {
      assert e.Enter? && e.task == t;
    }
  }

  lemma {:induction false} EntryWasStored(states: seq<State>, events: seq<Event>, i: nat, hash: Hash)
    requires IsRun(states, events) && i < |states| && hash in states[i].cache
    ensures exists k: nat, j: nat :: j < i && StoredBy(states, events, k, j, hash, states[i].cache[hash])
  {
    var s, e := states[i - 1], events[i - 1];
    if InsertsAt(s, e, hash) {
      CallWasSampled(states, events, i - 1, e.task);
      var k: nat :| k < i - 1 && events[k].Enter? && events[k].task == e.task
        && events[k].hash == hash && events[k].now == s.calls[e.task].started;
      assert StoredBy(states, events, k, i - 1, hash, states[i].cache[hash]);
    } else {
      EntryWasStored(states, events, i - 1, hash);
    }
  }

  /**
   Every id served from the cache at time t was stored by a call whose clock sample t0,
   taken before its handshake, satisfies t0 <= t < t0 + 300, and is a usable id.
   */
  lemma ServedIdsAreFresh(states: seq<State>, events: seq<Event>, i: nat)
    requires IsRun(states, events) && i < |events|
    requires events[i].Enter? && Fresh(states[i], events[i].hash, events[i].now)
    ensures var entry := states[i].cache[events[i].hash];
      && entry.id != "" && entry.id != "0x00000000"
      && exists k: nat, j: nat :: j < i && StoredBy(states, events, k, j, events[i].hash, entry)
           && events[k].now <= events[i].now < events[k].now + 300.0
  {
    var hash := events[i].hash;
    EntryWasStored(states, events, i, hash);
    var k: nat, j: nat :| j < i && StoredBy(states, events, k, j, hash, states[i].cache[hash]);
    ClockIsMonotone(states, events, k + 1, i);
    assert states[k + 1].clock == events[k].now;
  }

  /** A read that meets 401, 403 or 0x0c0d leaves its hash uncached and every other entry alone. */
  lemma FailingReadEvictsItsHash(s: State, host: string, hash: Hash, id: string, reply: RcpReply.Reply)
    requires '/' !in hash
    ensures var s' := Step(s, Read(RcpBase(host, hash), id, reply));
      && s'.cache == (if RcpReply.DropsSession(reply) then s.cache - {hash} else s.cache)
      && s'.(cache := s.cache) == s
      && (reply.Http? && (reply.status == 401 || reply.status == 403) ==> s'.cache == s.cache - {hash})
      && (reply.NetworkError? || (reply.status != 200 && reply.status != 401 && reply.status != 403) ==> s' == s)
  {
    DropsOwnHashIffNoSlash(host, hash);
  }

  lemma Extended(states: seq<State>, events: seq<Event>, e: Event) returns (longer: seq<State>)
    requires IsRun(states, events) && Enabled(states[|events|], e)
    ensures longer == states + [Step(states[|events|], e)] && IsRun(longer, events + [e])
  {
    longer := states + [Step(states[|events|], e)];
  }
}
