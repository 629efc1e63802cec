/** What is written for an ordinary SETUP request, with every literal spelled out. */
module RelayLaws {
  import opened Wrappers
  import opened Text
  import opened SetupRewrite
  import opened Relay

  // ---- A match does not reach over a line end ----

  predicate EndsLine(a: string) { a != "" && a[|a| - 1] == '\n' }

  /** No literal of the pattern holds a line end, and what follows the line cannot continue the pattern. */
  predicate StaysInLine(p: Pattern, b: string) {
    && '\n' !in p.head && '\n' !in p.avp && '\n' !in p.port && p.avp != ""
    && b != "" && !IsSpace(b[0]) && b[0] != p.avp[0]
  }

  lemma LiteralInLine(l: string, a: string, b: string)
    requires EndsLine(a) && '\n' !in l && l <= a + b
    ensures l <= a && EndsLine(a[|l|..]) && (a + b)[|l|..] == a[|l|..] + b
  {
    var at := if |a| <= |l| then |a| - 1 else 0;
    assert at < |l| ==> l[at] == (a + b)[at];
  }

  lemma RunInLine(a: string, b: string, p: char -> bool)
    requires EndsLine(a) && !p('\n')
    ensures Run(a + b, p) == Run(a, p) && EndsLine(a[Run(a, p)..])
    ensures (a + b)[Run(a, p)..] == a[Run(a, p)..] + b
  {
    RunSplits(a, p);
    var n := Run(a, p);
    Regroup(a[..n], a[n..], b);
    RunStopsAt(a[..n], a[n..] + b, p);
  }

  lemma PortInLine(p: Pattern, a: string, b: string)
    requires EndsLine(a) && StaysInLine(p, b) && AfterPort(p, a + b).Some?
    ensures AfterPort(p, a).Some? && EndsLine(AfterPort(p, a).value)
    ensures AfterPort(p, a + b).value == AfterPort(p, a).value + b
  {
    RunInLine(a, b, IsParamChar);
    LiteralInLine(p.port, a[Run(a, IsParamChar)..], b);
  }

  lemma SpaceInLine(p: Pattern, a: string, b: string)
    requires EndsLine(a) && StaysInLine(p, b) && p.avp <= (a + b)[Run(a + b, IsSpace)..]
    ensures Run(a + b, IsSpace) == Run(a, IsSpace) < |a|
    ensures (a + b)[Run(a, IsSpace)..] == a[Run(a, IsSpace)..] + b
  {
    var n := Run(a, IsSpace);
    RunSplits(a, IsSpace);
    Regroup(a[..n], a[n..], b);
    assert (a + b)[|a|..] == b;
    if n == |a| {
      RunStopsAt(a, b, IsSpace);
    } else {
      RunStopsAt(a[..n], a[n..] + b, IsSpace);
    }
  }

  lemma AvpInLine(p: Pattern, a: string, b: string)
    requires EndsLine(a) && StaysInLine(p, b) && AfterAvp(p, a + b).Some?
    ensures AfterAvp(p, a).Some? && EndsLine(AfterAvp(p, a).value)
    ensures AfterAvp(p, a + b).value == AfterAvp(p, a).value + b
  {
    SpaceInLine(p, a, b);
    var a2 := a[Run(a, IsSpace)..];
    LiteralInLine(p.avp, a2, b);
    PortInLine(p, a2[|p.avp|..], b);
  }

  /** A match at the start of a text of whole lines lies inside it. */
  lemma MatchInLine(p: Pattern, a: string, b: string)
    requires EndsLine(a) && StaysInLine(p, b) && MatchLen(p, a + b).Some?
    ensures MatchLen(p, a).Some?
  {
    LiteralInLine(p.head, a, b);
    AvpInLine(p, a[|p.head|..], b);
    RunInLine(AfterHead(p, a).value, b, IsLineChar);
  }

  // ---- Substitution around one header ----

  lemma SkipsOne(p: Pattern, c: char, t: string, mark: string)
    requires MatchLen(p, [c] + t).None?
    ensures Rewrite(p, [c] + t, mark) == [c] + Rewrite(p, t, mark)
  {
    assert ([c] + t)[1..] == t;
  }

  ghost predicate NoneStarts(p: Pattern, front: string, t: string) {
    forall k | 0 <= k < |front| :: MatchLen(p, front[k..] + t).None?
  }

  lemma NoneStartsLater(p: Pattern, front: string, t: string)
    requires NoneStarts(p, front, t) && front != ""
    ensures NoneStarts(p, front[1..], t) && MatchLen(p, [front[0]] + (front[1..] + t)).None?
  {
    forall k | 0 <= k < |front[1..]| ensures MatchLen(p, front[1..][k..] + t).None? {
      assert front[1..][k..] == front[k + 1..];
    }
    assert front[0..] + t == [front[0]] + (front[1..] + t);
  }

  lemma {:induction false} RewriteSkips(p: Pattern, front: string, t: string, mark: string)
    requires NoneStarts(p, front, t)
    ensures Rewrite(p, front + t, mark) == front + Rewrite(p, t, mark)
  {
    if front == "" {
      assert front + t == t;
    } else {
      NoneStartsLater(p, front, t);
      RewriteSkips(p, front[1..], t, mark);
      SkipsOne(p, front[0], front[1..] + t, mark);
      HeadCut(front);
      Regroup([front[0]], front[1..], t);
      Regroup([front[0]], front[1..], Rewrite(p, t, mark));
    }
  }

  lemma LinesHoldNoMatch(p: Pattern, front: string, t: string)
    requires EndsLine(front) && StaysInLine(p, t) && MatchFree(p, front)
    ensures NoneStarts(p, front, t)
  {
    forall k: nat | k < |front| ensures MatchLen(p, front[k..] + t).None? {
      assert EndsLine(front[k..]) && MatchLen(p, front[k..]).None?;
      if MatchLen(p, front[k..] + t).Some? {
        MatchInLine(p, front[k..], t);
      }
    }
  }

  lemma LengthFrom(p: Pattern, t: string, u: string, n: nat)
    requires AfterHead(p, t) == Some(u) && Run(u, IsLineChar) == n && 0 < n && |u| <= |t|
    ensures MatchLen(p, t) == Some(|t| - |u| + n)
  {
  }

  lemma LengthBy(p: Pattern, m: string, front: string, ports: string, rest: string)
    requires m == front + ports && AfterHead(p, m + rest) == Some(ports + rest)
    requires AllOf(ports, IsLineChar) && ports != "" && (rest == "" || !IsLineChar(rest[0]))
    ensures MatchLen(p, m + rest) == Some(|m|)
  {
    RunStopsAt(ports, rest, IsLineChar);
    LengthFrom(p, m + rest, ports + rest, |ports|);
  }

  lemma HeaderLength(p: Pattern, m: string, space: string, params: string, ports: string, rest: string)
    requires Separable(p) && MatchParts(p, m, space, params, ports) && (rest == "" || !IsLineChar(rest[0]))
    ensures MatchLen(p, m + rest) == Some(|m|)
  {
    FrontPlus(p, space, params, ports);
    FrontPlus(p, space, params, ports + rest);
    Regroup(Front(p, space, params), ports, rest);
    PartsAreRead(p, space, params, ports + rest);
    LengthBy(p, m, Front(p, space, params), ports, rest);
  }

  lemma OneHeader(p: Pattern, front: string, m: string, rest: string, mark: string)
    requires EndsLine(front) && StaysInLine(p, m) && MatchFree(p, front) && MatchFree(p, rest)
    requires MatchLen(p, m + rest) == Some(|m|)
    ensures Rewrite(p, front + (m + rest), mark) == front + (mark + rest)
  {
    LinesHoldNoMatch(p, front, m + rest);
    RewriteSkips(p, front, m + rest, mark);
    MatchFreeIsFixed(p, rest, mark);
    assert (m + rest)[|m|..] == rest;
  }

  // ---- The literals ----

  lemma NoHeaderIsMatchFree(t: string)
    requires HasNoHeader(t)
    ensures MatchFree(UDP, t)
  {
    UdpIsMarked();
    HasNoHeaderIff(t);
    forall k | 0 <= k <= |t| ensures MatchLen(UDP, t[k..]).None? {
      forall n | 0 <= n <= |t[k..]| ensures !Matches(UDP, t[k..][..n]) {
        assert t[k..][..n] == t[k..k + n];
      }
      MatchIsLongest(UDP, t[k..]);
    }
  }

  lemma UdpStaysInLine(m: string)
    requires m != "" && m[0] == 'T'
    ensures StaysInLine(UDP, m)
  {
    assert '\n' !in UDP.head && '\n' !in UDP.avp && '\n' !in UDP.port;
    assert UDP.avp[0] == 'R' && !IsSpace('T');
  }

  lemma HeaderIsReplaced(front: string, m: string, space: string, params: string, ports: string, rest: string,
                         lo: nat)
    requires EndsLine(front) && HasNoHeader(front) && HasNoHeader(rest)
    requires IsHeader(m, space, params, ports) && (rest == "" || rest[0] == '\r' || rest[0] == '\n')
    ensures RewriteTransport(front + (m + rest), lo) == front + (TcpHeader(lo, lo + 1) + rest)
  {
    NoHeaderIsMatchFree(front);
    NoHeaderIsMatchFree(rest);
    HeaderIsMatched(m, space, params, ports);
    UdpIsMarked();
    HeaderLength(UDP, m, space, params, ports, rest);
    UdpStaysInLine(m);
    OneHeader(UDP, front, m, rest, Replacement(lo));
    ReplacementText(lo);
  }

  /** `word` stands at some position of `t`. */
  predicate Holds(t: string, word: string) {
    exists i | 0 <= i <= |t| :: word <= t[i..]
  }

  lemma HoldsMore(front: string, rest: string, word: string)
    requires Holds(front, word)
    ensures Holds(front + rest, word)
  {
    var i :| 0 <= i <= |front| && word <= front[i..];
    assert (front + rest)[i..] == front[i..] + rest;
  }

  /**
   An ASCII request of lines that hold `SETUP ` and no UDP transport header, then one
   header, then a line end and a rest without one: with `k` SETUP chunks before it, what is
   written is the same text with TCP transport on the channels 2k and 2k + 1 in place of
   the header.
   */
  lemma OrdinarySetupIsRewritten(u: Utf8, front: string, m: string, space: string, params: string, ports: string,
                                 rest: string, k: nat)
    requires AsciiCodec(u) && AllOf(front + (m + rest), IsAscii)
    requires Holds(front, "SETUP ") && front[|front| - 1] == '\n' && HasNoHeader(front)
    requires m == "Transport:" + (space + ("RTP/AVP" + (params + (";unicast;client_port=" + ports))))
    requires forall i | 0 <= i < |space| :: space[i] in " \t\r\n"
    requires ';' !in params && '\r' !in params && '\n' !in params
    requires ports != "" && '\r' !in ports && '\n' !in ports
    requires (rest == "" || rest[0] == '\r' || rest[0] == '\n') && HasNoHeader(rest)
    ensures ForwardedChunk(u, true, front + (m + rest), k)
            == front + (("Transport: RTP/AVP/TCP;unicast;interleaved="
                         + (Decimal(2 * k) + ("-" + Decimal(2 * k + 1)))) + rest)
    ensures HasNoHeader(ForwardedChunk(u, true, front + (m + rest), k))
  {
    var chunk := front + (m + rest);
    HoldsMore(front, m + rest, "SETUP ");
    ContainsIff(chunk, "SETUP ");
    HeaderIsReplaced(front, m, space, params, ports, rest, 2 * k);
    AsciiSetupsAreRewritten(u, chunk, k);
    ReplacementIsAscii(2 * k);
    RewriteStaysAscii(UDP, chunk, Replacement(2 * k));
  }

  /** A chunk in which `SETUP ` stands nowhere is written as it came. */
  lemma OtherChunksPass(u: Utf8, rewrite: bool, chunk: string, k: nat)
    requires !Holds(chunk, "SETUP ")
    ensures ForwardedChunk(u, rewrite, chunk, k) == chunk
  {
    ContainsIff(chunk, "SETUP ");
  }
}
