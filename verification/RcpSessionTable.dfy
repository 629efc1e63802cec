/** The session functions as they update the cache and the lock dictionary in place. */
module RcpSessionTable {
  import opened Wrappers
  import opened RcpSessions
  import RcpReply

  class Sessions {
    var sessionCache: map<Hash, Entry>
    var sessionLocks: map<Hash, LockId>
    var nextLock: LockId
    var held: set<LockId>
    var calls: map<Task, Call>
    var clock: real

    ghost function View(): State reads this {
      State(sessionCache, sessionLocks, nextLock, held, calls, clock)
    }

    /** Lock objects are numbered as they are made. */
    predicate Valid() reads this {
      (forall l | l in held :: l < nextLock) && (forall h | h in sessionLocks :: sessionLocks[h] < nextLock)
    }

    constructor ()
      ensures View() == INITIAL && Valid()
    {
      sessionCache, sessionLocks, nextLock, held, calls, clock := map[], map[], 0, {}, map[], 0.0;
    }

    /** `_get_rcp_session_lock`. */
    method GetSessionLock(hash: Hash) returns (lock: LockId)
      requires Valid()
      modifies this
      ensures View() == WithLock(old(View()), hash) && Valid()
      ensures hash in sessionLocks && lock == sessionLocks[hash]
    {
      if hash !in sessionLocks {
        sessionLocks := sessionLocks[hash := nextLock];
        nextLock := nextLock + 1;
      }
      lock := sessionLocks[hash];
    }

    /** `get_cached_rcp_session` up to its handshake, with the lock free when it enters. */
    method BeginGet(t: Task, hash: Hash, now: real, shared: bool) returns (hit: Option<string>)
      requires Valid() && Enabled(View(), Enter(t, hash, now, shared))
      modifies this
      ensures View() == Step(old(View()), Enter(t, hash, now, shared)) && Valid()
      ensures hit == if Fresh(old(View()), hash, now) then Some(old(sessionCache)[hash].id) else None
    {
      var lock := None;
      if shared {
        var l := GetSessionLock(hash);
        lock := Some(l);
        held := held + {l};
      }
      clock := now;
      if hash in sessionCache {
        var cached := sessionCache[hash];
        if now < cached.expires {
          if lock.Some? {
            held := held - {lock.value};
            assert lock.value !in old(held);
            assert held == old(held);
          }
          return Some(cached.id);
        }
        sessionCache := sessionCache - {hash};
      }
      assert hash !in old(sessionCache) ==> sessionCache - {hash} == sessionCache;
      calls := calls[t := Call(hash, now, lock)];
      hit := None;
    }

    /** `get_cached_rcp_session` from the handshake result on; leaving releases the lock. */
    method FinishGet(t: Task, answer: OpenReply) returns (id: Option<string>)
      requires Valid() && t in calls
      modifies this
      ensures View() == Step(old(View()), Finish(t, answer)) && Valid()
      ensures id == RcpSession(answer)
    {
      var call := calls[t];
      id := RcpSession(answer);
      if id.Some? {
        sessionCache := sessionCache[call.hash := Entry(id.value, call.started + TTL)];
      }
      calls := calls - {t};
      if call.lock.Some? {
        held := held - {call.lock.value};
      }
    }

    /** `rcp_read` with `session_cache`: the payload, and the eviction of a dead session. */
    method RcpRead(rcpBase: string, sessionId: string, reply: RcpReply.Reply)
      returns (payload: Option<seq<RcpReply.Bytes.byte>>)
      requires Valid()
      modifies this`sessionCache
      ensures View() == Step(old(View()), Read(rcpBase, sessionId, reply)) && Valid()
      ensures payload == RcpReply.CloudRead(reply)
    {
      payload := RcpReply.CloudRead(reply);
      if RcpReply.DropsSession(reply) {
        var key := DropKey(rcpBase);
        if key.Some? {
          sessionCache := sessionCache - {key.value};
        }
      }
    }
  }
}
