/**
 The byte relay of the proxy: the transport substitution with the literals and
 replacement text of the source, and the forwarding loop with its channel counter.
 */
module Relay {
  import opened Wrappers
  import opened Text
  import opened SetupRewrite

  const TCP := "/TCP"
  const INTERLEAVED := ";unicast;interleaved="

  /** `Transport: RTP/AVP/TCP;unicast;interleaved={lo}-{hi}`. */
  function Replacement(lo: nat): string {
    Mark(UDP, TCP, INTERLEAVED, Decimal(lo) + "-" + Decimal(lo + 1))
  }

  function Mark(p: Pattern, mid: string, key: string, digits: string): string {
    p.head + (" " + (p.avp + (mid + (key + digits))))
  }

  /** The substitution applied to one decoded chunk. */
  function RewriteTransport(text: string, lo: nat): string {
    Rewrite(UDP, text, Replacement(lo))
  }

  // ---- The replacement text cannot be taken for, or complete, a UDP header ----

  lemma UdpIsMarked()
    ensures Marked(UDP)
  {
    UdpHeadIsMarked();
    UdpAvpIsMarked();
    UdpPortIsMarked();
  }

  lemma UdpHeadIsMarked()
    ensures |UDP.head| >= 2 && UDP.head[0] == 'T' && 'T' !in UDP.head[1..]
  {
    assert UDP.head[1..] == "ransport:";
  }

  lemma UdpAvpIsMarked()
    ensures |UDP.avp| >= 3 && UDP.avp[0] == 'R' && UDP.avp[1] == 'T' && 'T' !in UDP.avp[2..]
  {
    assert UDP.avp[2..] == "P/AVP";
  }

  lemma UdpPortIsMarked()
    ensures UDP.port != "" && UDP.port[0] == ';' && 'T' !in UDP.port
  {
  }

  /** `key` differs from the port literal before either of them ends. */
  predicate Clash(p: Pattern, key: string) {
    exists i | 0 <= i < |key| :: i < |p.port| && key[i] != p.port[i]
  }

  /** The port literal would have to sit where the replacement has its own key. */
  lemma KeyHidesPort(p: Pattern, stem: string, key: string, x: string)
    requires AllOf(stem, IsParamChar) && key != "" && !IsParamChar(key[0]) && Clash(p, key)
    ensures AfterPort(p, stem + (key + x)).None?
  {
    RunStopsAt(stem, key + x, IsParamChar);
    assert (stem + (key + x))[|stem|..] == key + x;
  }

  lemma NoPortNoMatch(p: Pattern, behind: string)
    requires Separable(p) && AfterPort(p, behind).None?
    ensures MatchLen(p, p.head + (" " + (p.avp + behind))).None?
  {
    AfterAvpFinds(p, " ", behind);
    assert After(p.head, p.head + (" " + (p.avp + behind))) == Some(" " + (p.avp + behind));
  }

  /** No position of `s` can start the head literal, whatever follows `s`. */
  predicate NoHeadStart(p: Pattern, s: string)
    requires |p.head| >= 2
  {
    forall k | 0 <= k < |s| :: s[k] != p.head[0] || (k + 1 < |s| && s[k + 1] != p.head[1])
  }

  lemma NoHeadStartJoin(p: Pattern, a: string, b: string)
    requires |p.head| >= 2 && NoHeadStart(p, a) && NoHeadStart(p, b)
    ensures NoHeadStart(p, a + b)
  {
    forall k | 0 <= k < |a + b|
      ensures (a + b)[k] != p.head[0] || (k + 1 < |a + b| && (a + b)[k + 1] != p.head[1])
    {
      if k >= |a| { assert (a + b)[k] == b[k - |a|]; }
    }
  }

  lemma NoHeadNoMatch(p: Pattern, s: string, k: nat, x: string)
    requires |p.head| >= 2 && NoHeadStart(p, s) && k < |s|
    ensures MatchLen(p, s[k..] + x).None?
  {
    var t := s[k..] + x;
    assert t[0] == s[k] && (k + 1 < |s| ==> t[1] == s[k + 1]);
  }

  /** What the parts of the replacement must be for it to stay neutral. */
  ghost predicate NeutralParts(p: Pattern, mid: string, key: string, digits: string) {
    && Marked(p) && |p.avp| >= 3 && p.head[1] != p.avp[2]
    && NoHeadStart(p, p.head[1..]) && NoHeadStart(p, " ") && NoHeadStart(p, p.avp)
    && NoHeadStart(p, mid) && NoHeadStart(p, key) && NoHeadStart(p, digits)
    && AllOf(p.head, IsParamChar) && AllOf(p.avp, IsParamChar) && AllOf(mid, IsParamChar)
    && key != "" && !IsParamChar(key[0]) && Clash(p, key)
  }

  lemma MarkBefore(p: Pattern, mid: string, key: string, digits: string, x: string)
    ensures Mark(p, mid, key, digits) + x == p.head + (" " + (p.avp + (mid + (key + (digits + x)))))
    ensures Mark(p, mid, key, digits) + x == (p.head + (" " + (p.avp + mid))) + (key + (digits + x))
  {
  }

  lemma MarkIsNoMatch(p: Pattern, mid: string, key: string, digits: string, x: string)
    requires NeutralParts(p, mid, key, digits)
    ensures AfterPort(p, Mark(p, mid, key, digits) + x).None?
    ensures MatchLen(p, Mark(p, mid, key, digits) + x).None?
  {
    MarkBefore(p, mid, key, digits, x);
    KeyHidesPort(p, p.head + (" " + (p.avp + mid)), key, digits + x);
    KeyHidesPort(p, mid, key, digits + x);
    NoPortNoMatch(p, mid + (key + (digits + x)));
  }

  lemma MarkHasOneHead(p: Pattern, mid: string, key: string, digits: string)
    requires NeutralParts(p, mid, key, digits)
    ensures NoHeadStart(p, Mark(p, mid, key, digits)[1..])
  {
    NoHeadStartJoin(p, key, digits);
    NoHeadStartJoin(p, mid, key + digits);
    NoHeadStartJoin(p, p.avp, mid + (key + digits));
    var tail := " " + (p.avp + (mid + (key + digits)));
    NoHeadStartJoin(p, " ", p.avp + (mid + (key + digits)));
    NoHeadStartJoin(p, p.head[1..], tail);
    assert Mark(p, mid, key, digits)[1..] == p.head[1..] + tail;
  }

  lemma NoMatchInMark(p: Pattern, mid: string, key: string, digits: string, k: nat, x: string)
    requires NeutralParts(p, mid, key, digits) && k < |Mark(p, mid, key, digits)|
    ensures MatchLen(p, Mark(p, mid, key, digits)[k..] + x).None?
  {
    var mark := Mark(p, mid, key, digits);
    if k == 0 {
      MarkIsNoMatch(p, mid, key, digits, x);
      assert mark[0..] == mark;
    } else {
      MarkHasOneHead(p, mid, key, digits);
      NoHeadNoMatch(p, mark[1..], k - 1, x);
      assert mark[1..][k - 1..] == mark[k..];
    }
  }

  lemma MarkIsNeutral(p: Pattern, mid: string, key: string, digits: string)
    requires NeutralParts(p, mid, key, digits)
    ensures Neutral(p, Mark(p, mid, key, digits))
  {
    var mark := Mark(p, mid, key, digits);
    forall x ensures AfterPort(p, mark + x).None? { MarkIsNoMatch(p, mid, key, digits, x); }
    forall k: nat, x | k < |mark| ensures MatchLen(p, mark[k..] + x).None? { NoMatchInMark(p, mid, key, digits, k, x); }
    assert mark[0] == p.head[0] && mark[1] == p.head[1];
  }

  lemma UdpClasses()
    ensures AllOf(UDP.head, IsParamChar) && AllOf(UDP.avp, IsParamChar) && AllOf(TCP, IsParamChar)
    ensures !IsParamChar(INTERLEAVED[0])
  {
  }

  lemma NoLetterNoHead(p: Pattern, s: string)
    requires |p.head| >= 2 && p.head[0] !in s
    ensures NoHeadStart(p, s)
  {
  }

  lemma UdpHeads()
    ensures NoHeadStart(UDP, UDP.avp) && NoHeadStart(UDP, TCP) && UDP.head[1] != UDP.avp[2]
  {
  }

  lemma KeysClash()
    ensures Clash(UDP, INTERLEAVED)
  {
    assert INTERLEAVED[9] == 'i' && UDP.port[9] == 'c';
  }

  lemma ReplacementIsNeutral(lo: nat)
    ensures Neutral(UDP, Replacement(lo))
  {
    UdpIsMarked();
    UdpClasses();
    UdpHeads();
    KeysClash();
    var digits := Decimal(lo) + "-" + Decimal(lo + 1);
    assert 'T' !in INTERLEAVED;
    NoLetterNoHead(UDP, INTERLEAVED);
    NoLetterNoHead(UDP, digits);
    NoLetterNoHead(UDP, " ");
    NoLetterNoHead(UDP, UDP.head[1..]);
    MarkIsNeutral(UDP, TCP, INTERLEAVED, digits);
  }

  // ---- The channels it names ----

  /** The channel pair of a transport header: the numbers around the dash behind the equals sign. */
  function ChannelsOf(header: string): Option<(nat, nat)> {
    match Partition(header, '=')
    case None => None
    case Some((_, range)) =>
      match Partition(range, '-')
      case None => None
      case Some((first, last)) =>
        if ReadNat(first).Some? && ReadNat(last).Some? then Some((ReadNat(first).value, ReadNat(last).value)) else None
  }

  lemma ChannelsRead(stem: string, lo: nat, hi: nat)
    requires '=' !in stem
    ensures ChannelsOf(stem + ("=" + (Decimal(lo) + ("-" + Decimal(hi))))) == Some((lo, hi))
  {
    PartitionFinds(stem, '=', Decimal(lo) + ("-" + Decimal(hi)));
    PartitionFinds(Decimal(lo), '-', Decimal(hi));
    NumbersReadBack(lo, 0);
    NumbersReadBack(hi, 0);
  }

  lemma MarkStem(p: Pattern, mid: string, name: string, eq: string, digits: string)
    ensures Mark(p, mid, name + eq, digits) == (p.head + (" " + (p.avp + (mid + name)))) + (eq + digits)
  {
    Regroup(name, eq, digits);
    Regroup(mid, name, eq + digits);
    Regroup(p.avp, mid + name, eq + digits);
    Regroup(" ", p.avp + (mid + name), eq + digits);
    Regroup(p.head, " " + (p.avp + (mid + name)), eq + digits);
  }

  /** The replacement for the channel `lo` names the channels `lo` and `lo + 1`. */
  lemma ReplacementNamesItsChannels(lo: nat)
    ensures ChannelsOf(Replacement(lo)) == Some((lo, lo + 1))
  {
    var name := ";unicast;interleaved";
    assert name + "=" == INTERLEAVED;
    Regroup(Decimal(lo), "-", Decimal(lo + 1));
    MarkStem(UDP, TCP, name, "=", Decimal(lo) + "-" + Decimal(lo + 1));
    StemHasNoEquals(name);
    ChannelsRead(UDP.head + (" " + (UDP.avp + (TCP + name))), lo, lo + 1);
  }

  lemma StemHasNoEquals(name: string)
    requires '=' !in name
    ensures '=' !in UDP.head + (" " + (UDP.avp + (TCP + name)))
  {
    assert '=' !in UDP.head && '=' !in UDP.avp && '=' !in TCP;
  }

  // ---- The header and its replacement, spelled out ----

  /** The characters the pattern's white space takes, by their codes. */
  predicate IsWhite(c: char) {
    var n := c as int;
    || 9 <= n <= 13 || 28 <= n <= 32 || n == 133 || n == 160 || n == 5760
    || 8192 <= n <= 8202 || n == 8232 || n == 8233 || n == 8239 || n == 8287 || n == 12288
  }

  /** `Transport:`, white space, `RTP/AVP`, parameters, `;unicast;client_port=` and the ports. */
  predicate IsHeader(m: string, space: string, params: string, ports: string) {
    && m == "Transport:" + (space + ("RTP/AVP" + (params + (";unicast;client_port=" + ports))))
    && (forall i | 0 <= i < |space| :: IsWhite(space[i]))
    && ';' !in params && '\r' !in params && '\n' !in params
    && ports != "" && '\r' !in ports && '\n' !in ports
  }

  /** A transport header that asks for UDP. */
  ghost predicate IsUdpHeader(m: string) {
    exists space, params, ports :: IsHeader(m, space, params, ports)
  }

  lemma HeaderIsMatched(m: string, space: string, params: string, ports: string)
    ensures MatchParts(UDP, m, space, params, ports) <==> IsHeader(m, space, params, ports)
  {
    assert AllOf(space, IsSpace) <==> forall i | 0 <= i < |space| :: IsWhite(space[i]);
    assert AllOf(params, IsParamChar) <==> ';' !in params && '\r' !in params && '\n' !in params;
    assert AllOf(ports, IsLineChar) <==> '\r' !in ports && '\n' !in ports;
  }

  /** The pattern of the substitution matches exactly these headers. */
  lemma UdpHeadersAreMatched(m: string)
    ensures Matches(UDP, m) <==> IsUdpHeader(m)
  {
    forall space, params, ports
      ensures MatchParts(UDP, m, space, params, ports) <==> IsHeader(m, space, params, ports)
    {
      HeaderIsMatched(m, space, params, ports);
    }
  }

  /** What stands in the place of a header. */
  function TcpHeader(lo: nat, hi: nat): string {
    "Transport: RTP/AVP/TCP;unicast;interleaved=" + (Decimal(lo) + ("-" + Decimal(hi)))
  }

  lemma RegroupFive(a: string, b: string, c: string, d: string, e: string, x: string)
    ensures a + (b + (c + (d + (e + x)))) == (((a + b) + (c + d)) + e) + x
  {
    Regroup(d, e, x);
    Regroup(c, d + e, x);
    Regroup(b, c + (d + e), x);
    Regroup(a, b + (c + (d + e)), x);
    Regroup(c, d, e);
    Regroup(b, c + d, e);
    Regroup(a, b, c + d);
    Regroup(a, b + (c + d), e);
  }

  lemma ReplacementStart()
    ensures ((UDP.head + " ") + (UDP.avp + TCP)) + INTERLEAVED == "Transport: RTP/AVP/TCP;unicast;interleaved="
  {
    assert UDP.head + " " == "Transport: ";
    assert UDP.avp + TCP == "RTP/AVP/TCP";
    assert "Transport: " + "RTP/AVP/TCP" == "Transport: RTP/AVP/TCP";
  }

  lemma ReplacementText(lo: nat)
    ensures Replacement(lo) == TcpHeader(lo, lo + 1)
  {
    var digits := Decimal(lo) + ("-" + Decimal(lo + 1));
    Regroup(Decimal(lo), "-", Decimal(lo + 1));
    RegroupFive(UDP.head, " ", UDP.avp, TCP, INTERLEAVED, digits);
    ReplacementStart();
  }

  // ---- The substitution law ----

  lemma MatchFreeHoldsNone(p: Pattern, r: string)
    requires Separable(p) && MatchFree(p, r)
    ensures forall i, j | 0 <= i <= j <= |r| :: !Matches(p, r[i..j])
  {
    forall i, j | 0 <= i <= j <= |r| ensures !Matches(p, r[i..j]) {
      MatchIsLongest(p, r[i..]);
      assert r[i..][..j - i] == r[i..j];
    }
  }

  /** No part of `t` is a UDP transport header. */
  ghost predicate HasNoHeader(t: string) {
    forall i, j | 0 <= i <= j <= |t| :: !IsUdpHeader(t[i..j])
  }

  lemma HasNoHeaderIff(t: string)
    ensures HasNoHeader(t) <==> forall i, j | 0 <= i <= j <= |t| :: !Matches(UDP, t[i..j])
  {
    forall i, j | 0 <= i <= j <= |t| ensures Matches(UDP, t[i..j]) <==> IsUdpHeader(t[i..j]) {
      UdpHeadersAreMatched(t[i..j]);
    }
  }

  /**
   For every text and channel pair: no part of the result is a UDP transport header, and
   a second substitution with any pair changes nothing.
   */
  lemma RewriteIsFinal(t: string, lo: nat, again: nat)
    ensures HasNoHeader(RewriteTransport(t, lo))
    ensures RewriteTransport(RewriteTransport(t, lo), again) == RewriteTransport(t, lo)
  {
    UdpIsMarked();
    ReplacementIsNeutral(lo);
    RewriteLeavesNoMatch(UDP, t, Replacement(lo));
    MatchFreeIsFixed(UDP, RewriteTransport(t, lo), Replacement(again));
    MatchFreeHoldsNone(UDP, RewriteTransport(t, lo));
    HasNoHeaderIff(RewriteTransport(t, lo));
  }

  /** The result is the text with exactly the headers of a leftmost cut exchanged, the rest in order. */
  lemma RewriteKeepsTheRest(t: string, lo: nat)
    ensures var ps := Pieces(UDP, t);
      && Original(ps) == t
      && Replaced(ps, TcpHeader(lo, lo + 1)) == RewriteTransport(t, lo)
      && (forall q | q in ps && q.Hit? :: IsUdpHeader(q.text))
  {
    ReplacementText(lo);
    RewriteExchangesMatchesOnly(UDP, t, Replacement(lo));
    forall q | q in Pieces(UDP, t) && q.Hit? ensures IsUdpHeader(q.text) { UdpHeadersAreMatched(q.text); }
  }

  // ---- The forwarding loop ----

  /** `bytes.decode("utf-8", errors="replace")` and `str.encode`; byte strings hold one character per byte. */
  datatype Utf8 = Utf8(decode: string -> string, encode: string -> string)

  /** One turn of the loop: what the read gives, and whether the drain after the write succeeds. */
  datatype Read = Data(bytes: string, drains: bool) | IdleTimeout | Failure

  predicate IsSetup(bytes: string) {
    Contains(bytes, "SETUP ")
  }

  function SetupsIn(chunks: seq<string>): nat {
    if chunks == [] then 0
    else SetupsIn(chunks[..|chunks| - 1]) + if IsSetup(chunks[|chunks| - 1]) then 1 else 0
  }

  /** What is written for a chunk: the k-th SETUP chunk, from 0, gets the channels 2k and 2k + 1. */
  function ForwardedChunk(u: Utf8, rewrite: bool, chunk: string, k: nat): string {
    if rewrite && IsSetup(chunk) then u.encode(RewriteTransport(u.decode(chunk), 2 * k)) else chunk
  }

  function Forwarded(u: Utf8, rewrite: bool, chunks: seq<string>, j: nat): string
    requires j < |chunks|
  {
    ForwardedChunk(u, rewrite, chunks[j], SetupsIn(chunks[..j]))
  }

  /** Everything written for the first `j` chunks, in order. */
  function ForwardedUpTo(u: Utf8, rewrite: bool, chunks: seq<string>, j: nat): string
    requires j <= |chunks|
  {
    if j == 0 then "" else ForwardedUpTo(u, rewrite, chunks, j - 1) + Forwarded(u, rewrite, chunks, j - 1)
  }

  /** The chunks the loop forwards before it ends. */
  function Chunks(script: seq<Read>): seq<string> {
    if script == [] || !script[0].Data? || script[0].bytes == "" then []
    else if !script[0].drains then [script[0].bytes]
    else [script[0].bytes] + Chunks(script[1..])
  }

  function Concat(chunks: seq<string>): string {
    if chunks == [] then "" else Concat(chunks[..|chunks| - 1]) + chunks[|chunks| - 1]
  }

  lemma ForwardedIsStable(u: Utf8, rewrite: bool, chunks: seq<string>, more: seq<string>, j: nat)
    requires j <= |chunks|
    ensures ForwardedUpTo(u, rewrite, chunks + more, j) == ForwardedUpTo(u, rewrite, chunks, j)
  {
    if j > 0 {
      ForwardedIsStable(u, rewrite, chunks, more, j - 1);
      assert (chunks + more)[..j - 1] == chunks[..j - 1];
    }
  }

  lemma ForwardsOneMore(u: Utf8, rewrite: bool, chunks: seq<string>, chunk: string)
    ensures var more := chunks + [chunk];
      && ForwardedUpTo(u, rewrite, more, |more|)
         == ForwardedUpTo(u, rewrite, chunks, |chunks|) + ForwardedChunk(u, rewrite, chunk, SetupsIn(chunks))
      && SetupsIn(more) == SetupsIn(chunks) + if IsSetup(chunk) then 1 else 0
  {
    var more := chunks + [chunk];
    ForwardedIsStable(u, rewrite, chunks, [chunk], |chunks|);
    assert more[..|chunks|] == chunks;
  }

  // ---- ASCII chunks ----

  /** On ASCII text the codec changes nothing. */
  ghost predicate AsciiCodec(u: Utf8) {
    forall s: string | AllOf(s, IsAscii) :: u.decode(s) == s && u.encode(s) == s
  }

  lemma AsciiJoin(a: string, b: string)
    requires AllOf(a, IsAscii) && AllOf(b, IsAscii)
    ensures AllOf(a + b, IsAscii)
  {
  }

  lemma {:induction false} RewriteStaysAscii(p: Pattern, t: string, mark: string)
    requires AllOf(t, IsAscii) && AllOf(mark, IsAscii)
    ensures AllOf(Rewrite(p, t, mark), IsAscii)
    decreases |t|
  {
    if t != "" {
      match MatchLen(p, t)
      case Some(n) =>
        var rest := t[if n == 0 then 1 else n..];
        RewriteStaysAscii(p, rest, mark);
        AsciiJoin(mark, Rewrite(p, rest, mark));
      case None =>
        RewriteStaysAscii(p, t[1..], mark);
        AsciiJoin([t[0]], Rewrite(p, t[1..], mark));
    }
  }

  lemma DigitsAreAscii(n: nat)
    ensures AllOf(Decimal(n), IsAscii)
  {
    assert AllOf(Decimal(n), IsAsciiDigit);
  }

  lemma MarkIsAscii(p: Pattern, mid: string, key: string, digits: string)
    requires AllOf(p.head, IsAscii) && AllOf(p.avp, IsAscii) && AllOf(mid, IsAscii)
    requires AllOf(key, IsAscii) && AllOf(digits, IsAscii)
    ensures AllOf(Mark(p, mid, key, digits), IsAscii)
  {
    AsciiJoin(key, digits);
    AsciiJoin(mid, key + digits);
    AsciiJoin(p.avp, mid + (key + digits));
    AsciiJoin(" ", p.avp + (mid + (key + digits)));
    AsciiJoin(p.head, " " + (p.avp + (mid + (key + digits))));
  }

  lemma LiteralsAreAscii()
    ensures AllOf(UDP.head, IsAscii) && AllOf(UDP.avp, IsAscii) && AllOf(TCP, IsAscii) && AllOf(INTERLEAVED, IsAscii)
  {
  }

  lemma ReplacementIsAscii(lo: nat)
    ensures AllOf(Replacement(lo), IsAscii)
  {
    DigitsAreAscii(lo);
    DigitsAreAscii(lo + 1);
    AsciiJoin(Decimal(lo), "-");
    AsciiJoin(Decimal(lo) + "-", Decimal(lo + 1));
    LiteralsAreAscii();
    MarkIsAscii(UDP, TCP, INTERLEAVED, Decimal(lo) + "-" + Decimal(lo + 1));
  }

  /**
   What is written for an ASCII SETUP chunk: its own bytes with exactly its UDP transport
   headers exchanged, and no UDP transport header left at any place.
   */
  lemma AsciiSetupsAreRewritten(u: Utf8, chunk: string, k: nat)
    requires AsciiCodec(u) && AllOf(chunk, IsAscii) && IsSetup(chunk)
    ensures var written := ForwardedChunk(u, true, chunk, k);
      && HasNoHeader(written)
      && Original(Pieces(UDP, chunk)) == chunk
      && written == Replaced(Pieces(UDP, chunk), TcpHeader(2 * k, 2 * k + 1))
      && (forall q | q in Pieces(UDP, chunk) && q.Hit? :: IsUdpHeader(q.text))
  {
    ReplacementIsAscii(2 * k);
    RewriteStaysAscii(UDP, chunk, Replacement(2 * k));
    RewriteIsFinal(chunk, 2 * k, 2 * k);
    RewriteKeepsTheRest(chunk, 2 * k);
    assert ForwardedChunk(u, true, chunk, k) == RewriteTransport(chunk, 2 * k);
  }

  lemma ChunksStep(script: seq<Read>, i: nat)
    requires i <= |script|
    ensures Chunks(script[i..]) ==
            if i == |script| || !script[i].Data? || script[i].bytes == "" then []
            else if !script[i].drains then [script[i].bytes]
            else [script[i].bytes] + Chunks(script[i + 1..])
  {
    if i < |script| {
      assert script[i..][0] == script[i] && script[i..][1..] == script[i + 1..];
    }
  }

  /** The block of the loop that rewrites one chunk; `k` SETUP chunks came before it. */
  method RewriteChunk(u: Utf8, rewriteTransport: bool, chunk: string, counter: nat, ghost k: nat)
    returns (data: string, nextCounter: nat)
    requires counter == if rewriteTransport then 2 * k else 0
    ensures data == ForwardedChunk(u, rewriteTransport, chunk, k)
    ensures nextCounter == if rewriteTransport && IsSetup(chunk) then 2 * (k + 1) else counter
  {
    data, nextCounter := chunk, counter;
    if rewriteTransport && IsSetup(data) {
      var text := u.decode(data);
      var lo := counter;
      var hi := lo + 1;
      text := RewriteTransport(text, lo);
      nextCounter := hi + 1;
      data := u.encode(text);
    }
  }

  /** `_pipe` on a scripted peer; reads beyond the script are end of file. */
  method Pipe(u: Utf8, script: seq<Read>, rewriteTransport: bool) returns (written: string, closed: bool)
    ensures written == ForwardedUpTo(u, rewriteTransport, Chunks(script), |Chunks(script)|)
    ensures closed
  {
    var interleavedCounter := 0;
    written := "";
    var i := 0;
    ghost var all := Chunks(script);
    ghost var done: seq<string> := [];
    assert script[0..] == script && done + all == all;
    while i < |script|
      invariant 0 <= i <= |script|
      invariant all == done + Chunks(script[i..])
      invariant interleavedCounter == if rewriteTransport then 2 * SetupsIn(done) else 0
      invariant written == ForwardedUpTo(u, rewriteTransport, done, |done|)
    {
      var read := script[i];
      ChunksStep(script, i);
      if !read.Data? || read.bytes == "" {
        break;
      }
      var data;
      data, interleavedCounter := RewriteChunk(u, rewriteTransport, read.bytes, interleavedCounter, SetupsIn(done));
      ForwardsOneMore(u, rewriteTransport, done, read.bytes);
      Regroup(done, [read.bytes], Chunks(script[i + 1..]));
      done := done + [read.bytes];
      written := written + data;
      i := i + 1;
      if !read.drains {
        closed := true;
        return;
      }
    }
    ChunksStep(script, i);
    assert done + [] == done;
    closed := true;
  }

  /** Without rewriting, and for chunks without SETUP, the relay is the identity, however the stream is cut. */
  lemma {:induction false} RelayConserves(u: Utf8, rewrite: bool, chunks: seq<string>, j: nat)
    requires j <= |chunks|
    requires rewrite ==> forall i | 0 <= i < |chunks| :: !IsSetup(chunks[i])
    ensures ForwardedUpTo(u, rewrite, chunks, j) == Concat(chunks[..j])
  {
    if j > 0 {
      RelayConserves(u, rewrite, chunks, j - 1);
      assert chunks[..j][..j - 1] == chunks[..j - 1];
    }
  }

  lemma {:induction false} SetupsGrow(chunks: seq<string>, i: nat, j: nat)
    requires i < j <= |chunks| && IsSetup(chunks[i])
    ensures SetupsIn(chunks[..i]) < SetupsIn(chunks[..j])
  {
    assert chunks[..j][..j - 1] == chunks[..j - 1];
    if i < j - 1 {
      SetupsGrow(chunks, i, j - 1);
    }
  }

  /**
   Different SETUP chunks get disjoint channel pairs, and a pair fits the one-byte
   channel number exactly while at most 127 SETUP chunks came before it.
   */
  lemma ChannelPairsAreDisjoint(chunks: seq<string>, i: nat, j: nat)
    requires i < j < |chunks| && IsSetup(chunks[i]) && IsSetup(chunks[j])
    ensures var a, b := SetupsIn(chunks[..i]), SetupsIn(chunks[..j]);
            && {2 * a, 2 * a + 1} !! {2 * b, 2 * b + 1}
            && (2 * b + 1 <= 255 <==> b <= 127)
  {
    SetupsGrow(chunks, i, j);
  }
}
