/**
 What every kind of read reply does to the session cache, and how long a stored session
 is served, with the statuses, the error text and the lifetime spelled out.
 */
module RcpEvictions {
  import opened Wrappers
  import opened Bytes
  import opened RcpReply
  import opened RcpBodies
  import opened RcpSessions

  /** The cache without this hash, and nothing else changed. */
  function Without(s: State, hash: Hash): State { s.(cache := s.cache - {hash}) }

  /** A 401 or a 403 evicts the session of its hash, whatever the body and the id it was sent with. */
  lemma UnauthorizedReadEvicts(s: State, host: string, hash: Hash, id: string, status: int, body: seq<byte>)
    requires '/' !in hash && (status == 401 || status == 403)
    ensures Step(s, Read(RcpBase(host, hash), id, Http(status, body))) == Without(s, hash)
  {
    FailingReadEvictsItsHash(s, host, hash, id, Http(status, body));
  }

  /** A network error, and every other status that is not 200, changes nothing. */
  lemma OtherFailuresEvictNothing(s: State, rcpBase: string, id: string, reply: Reply)
    requires reply.NetworkError? || (reply.status != 200 && reply.status != 401 && reply.status != 403)
    ensures Step(s, Read(rcpBase, id, reply)) == s
  {
  }

  /** The error 0x0c0d, in any letter case and between texts without brackets, evicts the session of its hash. */
  lemma DeadSessionErrorEvicts(s: State, host: string, hash: Hash, id: string, pre: seq<byte>, open: seq<byte>,
                               code: seq<byte>, close: seq<byte>, post: seq<byte>)
    requires '/' !in hash && NoAngle(pre) && NoAngle(post)
    requires AnyCase(open, "<err>") && AnyCase(code, "0x0c0d") && AnyCase(close, "</err>")
    ensures Step(s, Read(RcpBase(host, hash), id, Http(200, pre + (open + (code + (close + post))))))
            == Without(s, hash)
  {
    DeadSessionErrorDrops(pre, open, code, close, post);
    FailingReadEvictsItsHash(s, host, hash, id, Http(200, pre + (open + (code + (close + post)))));
  }

  lemma {:induction false} SlashesAreStripped(base: string, slashes: string)
    requires (forall i | 0 <= i < |slashes| :: slashes[i] == '/') && (base == "" || base[|base| - 1] != '/')
    ensures StripSlashes(base + slashes) == base
  {
    if slashes == "" {
      assert base + slashes == base;
    } else {
      assert (base + slashes)[..|base + slashes| - 1] == base + slashes[..|slashes| - 1];
      SlashesAreStripped(base, slashes[..|slashes| - 1]);
    }
  }

  /** A base with no slash before its trailing ones names no hash. */
  lemma BareBasesEvictNothing(s: State, base: string, slashes: string, id: string, reply: Reply)
    requires '/' !in base && forall i | 0 <= i < |slashes| :: slashes[i] == '/'
    ensures Step(s, Read(base + slashes, id, reply)) == s
  {
    SlashesAreStripped(base, slashes);
    SplitWhole(base);
  }

  lemma LastPart(host: string, hash: Hash, last: string)
    requires '/' !in hash && '/' !in last
    ensures var parts := Split((host + ("/" + hash)) + ("/" + last));
      |parts| >= 2 && parts[|parts| - 1] == last && parts[|parts| - 2] == hash
  {
    SplitJoin(host + ("/" + hash), last);
    SplitJoin(host, hash);
    SplitWhole(last);
    SplitWhole(hash);
  }

  /**
   The evicted hash is the part before the last of the base, trailing slashes aside, and
   only when the last part is `rcp.xml`.
   */
  lemma OnlyRcpBasesEvict(s: State, host: string, hash: Hash, last: string, slashes: string, id: string,
                          status: int, body: seq<byte>)
    requires '/' !in hash && '/' !in last && last != "" && (status == 401 || status == 403)
    requires forall i | 0 <= i < |slashes| :: slashes[i] == '/'
    ensures Step(s, Read(((host + ("/" + hash)) + ("/" + last)) + slashes, id, Http(status, body)))
            == if last == "rcp.xml" then Without(s, hash) else s
  {
    var base := (host + ("/" + hash)) + ("/" + last);
    assert base[|base| - 1] == last[|last| - 1];
    SlashesAreStripped(base, slashes);
    LastPart(host, hash, last);
  }

  /** A 200 answer that changes anything holds the text of that error. */
  lemma OnlyTheErrorEvicts(s: State, rcpBase: string, id: string, body: seq<byte>)
    requires Step(s, Read(rcpBase, id, Http(200, body))) != s
    ensures HoldsDeadSessionError(body)
  {
    OnlyTheseDrop(Http(200, body));
  }

  /**
   A session stored by a call whose clock sample was t0 is served at t, without a new
   handshake, exactly while t < t0 + 300.
   */
  lemma StoredForFiveMinutes(s: State, t: Task, answer: OpenReply, u: Task, now: real)
    requires t in s.calls && RcpSession(answer).Some? && u !in s.calls && s.clock <= now
    ensures var stored := Step(s, Finish(t, answer));
      var enter := Enter(u, s.calls[t].hash, now, false);
      && Enabled(stored, enter)
      && (u !in Step(stored, enter).calls <==> now < s.calls[t].started + 300.0)
  {
  }
}
