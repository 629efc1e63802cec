/**
 The substitution that turns a UDP `Transport` header into TCP interleaved
 transport, as a leftmost, non-overlapping replacement over one text.
 */
module SetupRewrite {
  import opened Wrappers
  import opened Text

  /** The literals of the pattern `head \s* avp [^;\r\n]* port [^\r\n]+`. */
  datatype Pattern = Pattern(head: string, avp: string, port: string)

  const UDP := Pattern("Transport:", "RTP/AVP", ";unicast;client_port=")

  predicate IsParamChar(c: char) { c != ';' && c != '\r' && c != '\n' }
  predicate IsLineChar(c: char) { c != '\r' && c != '\n' }

  /** A text the whole pattern matches. */
  ghost predicate Matches(p: Pattern, m: string) {
    exists space, params, ports :: MatchParts(p, m, space, params, ports)
  }

  ghost predicate MatchParts(p: Pattern, m: string, space: string, params: string, ports: string) {
    && m == p.head + (space + (p.avp + (params + (p.port + ports))))
    && AllOf(space, IsSpace) && AllOf(params, IsParamChar) && AllOf(ports, IsLineChar) && ports != ""
  }

  // ---- The greedy matcher ----

  /** What follows `lit` at the start of `t`. */
  function After(lit: string, t: string): (rest: Option<string>)
    ensures rest.Some? <==> lit <= t
    ensures rest.Some? ==> t == lit + rest.value
  {
    if lit <= t then Some(t[|lit|..]) else None
  }

  /** What follows `[^;\r\n]* port`. */
  function AfterPort(p: Pattern, t: string): Option<string> {
    After(p.port, t[Run(t, IsParamChar)..])
  }

  /** What follows `\s* avp [^;\r\n]* port`. */
  function AfterAvp(p: Pattern, t: string): Option<string> {
    match After(p.avp, t[Run(t, IsSpace)..])
    case Some(u) => AfterPort(p, u)
    case None => None
  }

  function AfterHead(p: Pattern, t: string): Option<string> {
    match After(p.head, t)
    case Some(u) => AfterAvp(p, u)
    case None => None
  }

  /** Length of the match at the start of `t`. */
  function MatchLen(p: Pattern, t: string): (n: Option<nat>)
    ensures n.Some? ==> n.value <= |t|
  {
    match AfterHead(p, t)
    case None => None
    case Some(u) => if Run(u, IsLineChar) == 0 then None else Some(|t| - |u| + Run(u, IsLineChar))
  }

  /** `re.sub` over one text: scan left to right, replace each match, continue behind it. */
  function Rewrite(p: Pattern, t: string, mark: string): string
    decreases |t|
  {
    if t == "" then ""
    else
      match MatchLen(p, t)
      case Some(n) => mark + Rewrite(p, t[if n == 0 then 1 else n..], mark)
      case None => [t[0]] + Rewrite(p, t[1..], mark)
  }

  // ---- The matcher is the pattern ----

  /** What the literals must be for the parts of the pattern not to run into each other. */
  predicate Separable(p: Pattern) {
    && p.head != "" && p.avp != "" && p.port != ""
    && !IsSpace(p.avp[0]) && !IsParamChar(p.port[0])
  }

  lemma AfterPortFinds(p: Pattern, params: string, rest: string)
    requires Separable(p) && AllOf(params, IsParamChar)
    ensures AfterPort(p, params + (p.port + rest)) == Some(rest)
  {
    RunStopsAt(params, p.port + rest, IsParamChar);
    assert (params + (p.port + rest))[|params|..] == p.port + rest;
  }

  lemma AfterAvpFinds(p: Pattern, space: string, rest: string)
    requires Separable(p) && AllOf(space, IsSpace)
    ensures AfterAvp(p, space + (p.avp + rest)) == AfterPort(p, rest)
  {
    RunStopsAt(space, p.avp + rest, IsSpace);
    assert (space + (p.avp + rest))[|space|..] == p.avp + rest;
  }

  lemma AfterPortSplits(p: Pattern, t: string) returns (params: string)
    requires AfterPort(p, t).Some?
    ensures AllOf(params, IsParamChar) && t == params + (p.port + AfterPort(p, t).value)
  {
    params := t[..Run(t, IsParamChar)];
    RunSplits(t, IsParamChar);
  }

  lemma AfterAvpSplits(p: Pattern, t: string) returns (space: string, behind: string)
    requires AfterAvp(p, t).Some?
    ensures AllOf(space, IsSpace) && t == space + (p.avp + behind) && AfterPort(p, behind) == AfterAvp(p, t)
  {
    space := t[..Run(t, IsSpace)];
    behind := After(p.avp, t[Run(t, IsSpace)..]).value;
    RunSplits(t, IsSpace);
  }

  lemma MatchFinds(p: Pattern, m: string, behind: string)
    requires Separable(p) && Matches(p, m)
    ensures MatchLen(p, m + behind).Some? && MatchLen(p, m + behind).value >= |m|
  {
    var space, params, ports :| MatchParts(p, m, space, params, ports);
    var rest := ports + behind;
    FrontPlus(p, space, params, ports);
    FrontPlus(p, space, params, rest);
    Regroup(Front(p, space, params), ports, behind);
    PartsAreRead(p, space, params, rest);
    assert forall i | 0 <= i < |ports| :: rest[i] == ports[i];
  }

  lemma PartsAreRead(p: Pattern, space: string, params: string, rest: string)
    requires Separable(p) && AllOf(space, IsSpace) && AllOf(params, IsParamChar)
    ensures AfterHead(p, p.head + (space + (p.avp + (params + (p.port + rest))))) == Some(rest)
  {
    var t := space + (p.avp + (params + (p.port + rest)));
    AfterAvpFinds(p, space, params + (p.port + rest));
    AfterPortFinds(p, params, rest);
    assert After(p.head, p.head + t) == Some(t);
  }

  lemma TailCut(front: string, rest: string, n: nat)
    requires n <= |rest|
    ensures (front + rest)[..|front| + n] == front + rest[..n]
  {
  }

  /** The text of a match before its ports. */
  function Front(p: Pattern, space: string, params: string): string {
    p.head + (space + (p.avp + (params + p.port)))
  }

  lemma FrontPlus(p: Pattern, space: string, params: string, x: string)
    ensures Front(p, space, params) + x == p.head + (space + (p.avp + (params + (p.port + x))))
  {
    Regroup(params, p.port, x);
    Regroup(p.avp, params + p.port, x);
    Regroup(space, p.avp + (params + p.port), x);
    Regroup(p.head, space + (p.avp + (params + p.port)), x);
  }

  lemma HeadSplits(p: Pattern, t: string) returns (space: string, params: string)
    requires AfterHead(p, t).Some?
    ensures t == p.head + (space + (p.avp + (params + (p.port + AfterHead(p, t).value))))
    ensures AllOf(space, IsSpace) && AllOf(params, IsParamChar)
  {
    var t1 := After(p.head, t).value;
    var t2;
    space, t2 := AfterAvpSplits(p, t1);
    params := AfterPortSplits(p, t2);
  }

  lemma MatchSplits(p: Pattern, t: string)
    requires MatchLen(p, t).Some?
    ensures Matches(p, t[..MatchLen(p, t).value])
  {
    var space, params := HeadSplits(p, t);
    var rest := AfterHead(p, t).value;
    var n := Run(rest, IsLineChar);
    FrontPlus(p, space, params, rest);
    TailCut(Front(p, space, params), rest, n);
    RunSplits(rest, IsLineChar);
    FrontPlus(p, space, params, rest[..n]);
    PartsMatch(p, space, params, rest[..n], Front(p, space, params) + rest[..n]);
  }

  lemma PartsMatch(p: Pattern, space: string, params: string, ports: string, m: string)
    requires m == p.head + (space + (p.avp + (params + (p.port + ports))))
    requires AllOf(space, IsSpace) && AllOf(params, IsParamChar) && AllOf(ports, IsLineChar) && ports != ""
    ensures Matches(p, m)
  {
    assert MatchParts(p, m, space, params, ports);
  }

  lemma MatchMissesNone(p: Pattern, t: string, k: nat)
    requires Separable(p) && k <= |t| && Matches(p, t[..k])
    ensures MatchLen(p, t).Some? && k <= MatchLen(p, t).value
  {
    CutAt(t, k);
    MissesNoneOf(p, t[..k], t[k..], t);
  }

  lemma CutAt(t: string, k: nat)
    requires k <= |t|
    ensures t[..k] + t[k..] == t
  {
  }

  lemma MissesNoneOf(p: Pattern, m: string, behind: string, t: string)
    requires Separable(p) && Matches(p, m) && m + behind == t
    ensures MatchLen(p, t).Some? && |m| <= MatchLen(p, t).value
  {
    MatchFinds(p, m, behind);
  }

  /** The matcher finds the longest match of the pattern at the start, and misses none. */
  lemma MatchIsLongest(p: Pattern, t: string)
    requires Separable(p)
    ensures MatchLen(p, t).None? <==> forall k | 0 <= k <= |t| :: !Matches(p, t[..k])
    ensures MatchLen(p, t).Some? ==>
              && 0 < MatchLen(p, t).value
              && Matches(p, t[..MatchLen(p, t).value])
              && forall k | MatchLen(p, t).value < k <= |t| :: !Matches(p, t[..k])
  {
    forall k | 0 <= k <= |t| && Matches(p, t[..k])
      ensures MatchLen(p, t).Some? && k <= MatchLen(p, t).value
    {
      MatchMissesNone(p, t, k);
    }
    if MatchLen(p, t).Some? {
      MatchSplits(p, t);
      MatchIsNotEmpty(p, t[..MatchLen(p, t).value]);
    }
  }

  lemma MatchIsNotEmpty(p: Pattern, m: string)
    requires Matches(p, m)
    ensures m != ""
  {
    var space, params, ports :| MatchParts(p, m, space, params, ports);
    assert |m| >= |ports|;
  }

  // ---- What a rewrite keeps ----

  datatype Piece = Kept(c: char) | Hit(text: string)

  /** The text cut at the matches the scan replaces. */
  ghost function Pieces(p: Pattern, t: string): seq<Piece>
    decreases |t|
  {
    if t == "" then []
    else
      match MatchLen(p, t)
      case Some(n) => if n == 0 then [] else [Hit(t[..n])] + Pieces(p, t[n..])
      case None => [Kept(t[0])] + Pieces(p, t[1..])
  }

  ghost function Original(ps: seq<Piece>): string {
    if ps == [] then ""
    else (match ps[0] case Kept(c) => [c] case Hit(m) => m) + Original(ps[1..])
  }

  ghost function Replaced(ps: seq<Piece>, mark: string): string {
    if ps == [] then ""
    else (match ps[0] case Kept(c) => [c] case Hit(_) => mark) + Replaced(ps[1..], mark)
  }

  /** What a cut into pieces says of a text and of its rewriting. */
  ghost predicate Exchanged(p: Pattern, t: string, mark: string) {
    && Original(Pieces(p, t)) == t
    && Replaced(Pieces(p, t), mark) == Rewrite(p, t, mark)
    && forall q | q in Pieces(p, t) && q.Hit? :: Matches(p, q.text)
  }

  lemma PiecesCons(q: Piece, ps: seq<Piece>, mark: string)
    ensures Original([q] + ps) == (match q case Kept(c) => [c] case Hit(m) => m) + Original(ps)
    ensures Replaced([q] + ps, mark) == (match q case Kept(c) => [c] case Hit(_) => mark) + Replaced(ps, mark)
  {
    assert ([q] + ps)[1..] == ps;
  }

  lemma HitIsExchanged(p: Pattern, m: string, rest: string, t: string, mark: string)
    requires m != "" && t == m + rest && t[|m|..] == rest && t[..|m|] == m
    requires MatchLen(p, t) == Some(|m|) && Matches(p, m) && Exchanged(p, rest, mark)
    ensures Exchanged(p, t, mark)
  {
    assert Pieces(p, t) == [Hit(m)] + Pieces(p, rest);
    PiecesCons(Hit(m), Pieces(p, rest), mark);
  }

  lemma KeptStays(p: Pattern, c: char, rest: string, t: string, mark: string)
    requires t == [c] + rest && t[1..] == rest && MatchLen(p, t).None? && Exchanged(p, rest, mark)
    ensures Exchanged(p, t, mark)
  {
    assert Pieces(p, t) == [Kept(c)] + Pieces(p, rest);
    PiecesCons(Kept(c), Pieces(p, rest), mark);
  }

  lemma FirstHit(p: Pattern, t: string)
    requires MatchLen(p, t).Some?
    ensures Matches(p, t[..MatchLen(p, t).value]) && MatchLen(p, t).value > 0
  {
    MatchSplits(p, t);
    MatchIsNotEmpty(p, t[..MatchLen(p, t).value]);
  }

  lemma ExchangedFromHit(p: Pattern, t: string, n: nat, mark: string)
    requires MatchLen(p, t) == Some(n) && n > 0 && Exchanged(p, t[n..], mark)
    ensures Exchanged(p, t, mark)
  {
    FirstHit(p, t);
    CutAt(t, n);
    HitIsExchanged(p, t[..n], t[n..], t, mark);
  }

  lemma HeadCut(t: string)
    requires t != ""
    ensures t == [t[0]] + t[1..]
  {
  }

  lemma ExchangedFromKept(p: Pattern, t: string, mark: string)
    requires t != "" && MatchLen(p, t).None? && Exchanged(p, t[1..], mark)
    ensures Exchanged(p, t, mark)
  {
    HeadCut(t);
    KeptStays(p, t[0], t[1..], t, mark);
  }

  lemma {:induction false} CutIsExchanged(p: Pattern, t: string, mark: string)
    ensures Exchanged(p, t, mark)
    decreases |t|
  {
    if t != "" {
      match MatchLen(p, t)
      case Some(n) =>
        FirstHit(p, t);
        CutIsExchanged(p, t[n..], mark);
        ExchangedFromHit(p, t, n, mark);
      case None =>
        CutIsExchanged(p, t[1..], mark);
        ExchangedFromKept(p, t, mark);
    }
  }

  /** Only whole matches are exchanged: everything between them stays, in order. */
  lemma RewriteExchangesMatchesOnly(p: Pattern, t: string, mark: string)
    ensures Original(Pieces(p, t)) == t
    ensures Replaced(Pieces(p, t), mark) == Rewrite(p, t, mark)
    ensures forall q | q in Pieces(p, t) && q.Hit? :: Matches(p, q.text)
  {
    CutIsExchanged(p, t, mark);
  }

  // ---- A rewrite leaves no match ----

  ghost predicate MatchFree(p: Pattern, t: string) {
    forall k | 0 <= k <= |t| :: MatchLen(p, t[k..]).None?
  }

  /** The literals reuse the first letter of the head in one place only, and no class allows it to end a part. */
  predicate Marked(p: Pattern) {
    && Separable(p)
    && |p.head| >= 2 && |p.avp| >= 2
    && p.head[0] == 'T' && 'T' !in p.head[1..] && 'T' !in p.port
    && p.avp[0] != 'T' && p.avp[1] == 'T' && 'T' !in p.avp[2..]
  }

  /** The replacement starts like the head and completes no part of the pattern, whatever follows it. */
  ghost predicate Neutral(p: Pattern, mark: string) {
    && |mark| >= 2 && |p.head| >= 2 && |p.avp| >= 3
    && mark[0] == 'T' && mark[1] != p.avp[2]
    && (forall x :: AfterPort(p, mark + x).None?)
    && (forall k, x | 0 <= k < |mark| :: MatchLen(p, mark[k..] + x).None?)
  }

  /** One scan step over a text that starts with a kept character. */
  lemma RewriteStep(p: Pattern, t: string, mark: string)
    requires t != ""
    ensures MatchLen(p, t).None? ==>
              Rewrite(p, t, mark) == [t[0]] + Rewrite(p, t[1..], mark)
              && Rewrite(p, t, mark)[1..] == Rewrite(p, t[1..], mark)
    ensures MatchLen(p, t).Some? ==> mark <= Rewrite(p, t, mark) && p.head <= t
  {
  }

  /** A literal without a capital T that shows after rewriting was there before. */
  lemma {:induction false} LiteralReflects(p: Pattern, l: string, t: string, mark: string)
    requires mark != "" && mark[0] == 'T' && 'T' !in l
    requires l <= Rewrite(p, t, mark)
    ensures l <= t && Rewrite(p, t, mark)[|l|..] == Rewrite(p, t[|l|..], mark)
  {
    var r := Rewrite(p, t, mark);
    if l != "" {
      assert t != "";
      RewriteStep(p, t, mark);
      assert r[0] == l[0] && MatchLen(p, t).None?;
      LiteralReflects(p, l[1..], t[1..], mark);
      assert r[|l|..] == r[1..][|l| - 1..] && t[|l|..] == t[1..][|l| - 1..];
    }
  }

  lemma {:induction false} SpaceReflects(p: Pattern, t: string, mark: string)
    requires mark != "" && mark[0] == 'T' && p.head != "" && p.head[0] == 'T'
    ensures var r := Rewrite(p, t, mark);
            r[Run(r, IsSpace)..] == Rewrite(p, t[Run(t, IsSpace)..], mark)
    decreases |t|
  {
    if t != "" {
      RewriteStep(p, t, mark);
      var r := Rewrite(p, t, mark);
      if MatchLen(p, t).Some? {
        assert t[0] == 'T' && r[0] == 'T';
      } else if IsSpace(t[0]) {
        SpaceReflects(p, t[1..], mark);
        assert r[Run(r, IsSpace)..] == r[1..][Run(r[1..], IsSpace)..];
        assert t[Run(t, IsSpace)..] == t[1..][Run(t[1..], IsSpace)..];
      }
    }
  }

  lemma {:induction false} PortReflects(p: Pattern, t: string, mark: string)
    requires Marked(p) && Neutral(p, mark)
    requires AfterPort(p, Rewrite(p, t, mark)).Some?
    ensures AfterPort(p, t).Some? && AfterPort(p, Rewrite(p, t, mark)).value == Rewrite(p, AfterPort(p, t).value, mark)
    decreases |t|
  {
    var r := Rewrite(p, t, mark);
    assert t != "";
    RewriteStep(p, t, mark);
    assert MatchLen(p, t).None?;
    if IsParamChar(t[0]) {
      assert r[Run(r, IsParamChar)..] == r[1..][Run(r[1..], IsParamChar)..];
      assert t[Run(t, IsParamChar)..] == t[1..][Run(t[1..], IsParamChar)..];
      PortReflects(p, t[1..], mark);
    } else {
      LiteralReflects(p, p.port, t, mark);
    }
  }

  /** The `avp` literal: its one capital T cannot come from a replacement. */
  lemma AvpLiteralReflects(p: Pattern, t: string, mark: string)
    requires Marked(p) && Neutral(p, mark)
    requires p.avp <= Rewrite(p, t, mark)
    ensures p.avp <= t && Rewrite(p, t, mark)[|p.avp|..] == Rewrite(p, t[|p.avp|..], mark)
  {
    var r := Rewrite(p, t, mark);
    assert r[0] == p.avp[0] && r[1] == p.avp[1] && r[2] == p.avp[2];
    assert p.avp[..1] == [p.avp[0]] && p.avp[..1] <= r;
    LiteralReflects(p, p.avp[..1], t, mark);
    var t1, r1 := t[1..], r[1..];
    assert r1 == Rewrite(p, t1, mark) && r1[0] == 'T' && r1[1] == p.avp[2];
    assert t1 != "";
    RewriteStep(p, t1, mark);
    assert MatchLen(p, t1).None? && t1[0] == 'T';
    var t2, r2 := t[2..], r[2..];
    assert t1[1..] == t2 && r1[1..] == r2 && r2 == Rewrite(p, t2, mark);
    var l := p.avp[2..];
    assert l <= r2;
    LiteralReflects(p, l, t2, mark);
    assert r[|p.avp|..] == r2[|l|..] && t[|p.avp|..] == t2[|l|..];
    assert p.avp == [t[0], t[1]] + l;
  }

  lemma AvpReflects(p: Pattern, t: string, mark: string)
    requires Marked(p) && Neutral(p, mark)
    requires AfterAvp(p, Rewrite(p, t, mark)).Some?
    ensures AfterAvp(p, t).Some? && AfterAvp(p, Rewrite(p, t, mark)).value == Rewrite(p, AfterAvp(p, t).value, mark)
  {
    SpaceReflects(p, t, mark);
    var u := t[Run(t, IsSpace)..];
    AvpLiteralReflects(p, u, mark);
    PortReflects(p, u[|p.avp|..], mark);
  }

  lemma TailReflects(p: Pattern, w: string, mark: string)
    requires Marked(p) && Neutral(p, mark)
    ensures Run(w, IsLineChar) == 0 ==> Run(Rewrite(p, w, mark), IsLineChar) == 0
  {
    if w != "" {
      RewriteStep(p, w, mark);
      assert p.head <= w ==> w[0] == 'T';
    }
  }

  /** A head that shows in front of a kept character was there before. */
  lemma HeadReflects(p: Pattern, t: string, mark: string)
    requires Marked(p) && Neutral(p, mark)
    requires t != "" && MatchLen(p, t).None? && p.head <= Rewrite(p, t, mark)
    ensures p.head <= t && Rewrite(p, t, mark)[|p.head|..] == Rewrite(p, t[|p.head|..], mark)
  {
    var r := Rewrite(p, t, mark);
    var l := p.head[1..];
    RewriteStep(p, t, mark);
    assert l <= r[1..] by { assert r[..|p.head|] == p.head; }
    LiteralReflects(p, l, t[1..], mark);
    assert r[|p.head|..] == r[1..][|l|..] && t[|p.head|..] == t[1..][|l|..];
    assert p.head == [t[0]] + l;
  }

  /** Where the scan found no match, rewriting the text behind creates none. */
  lemma NoNewMatch(p: Pattern, t: string, mark: string)
    requires Marked(p) && Neutral(p, mark)
    requires t != "" && MatchLen(p, t).None?
    ensures MatchLen(p, Rewrite(p, t, mark)).None?
  {
    var r := Rewrite(p, t, mark);
    if p.head <= r {
      HeadReflects(p, t, mark);
      var u := t[|p.head|..];
      assert t == p.head + u;
      if AfterAvp(p, Rewrite(p, u, mark)).Some? {
        AvpReflects(p, u, mark);
        TailReflects(p, AfterAvp(p, u).value, mark);
        assert After(p.head, t) == Some(u);
      }
    }
  }

  lemma MatchFreeJoin(p: Pattern, front: string, rest: string)
    requires forall k | 0 <= k < |front| :: MatchLen(p, front[k..] + rest).None?
    requires MatchFree(p, rest)
    ensures MatchFree(p, front + rest)
  {
    forall k: nat | k <= |front + rest| ensures MatchLen(p, (front + rest)[k..]).None? {
      SuffixOfJoin(front, rest, k);
    }
  }

  lemma SuffixOfJoin(front: string, rest: string, k: nat)
    requires k <= |front + rest|
    ensures (front + rest)[k..] == if k < |front| then front[k..] + rest else rest[k - |front|..]
  {
  }

  /** The rewritten text holds no match of the pattern, at any position. */
  lemma {:induction false} RewriteLeavesNoMatch(p: Pattern, t: string, mark: string)
    requires Marked(p) && Neutral(p, mark)
    ensures MatchFree(p, Rewrite(p, t, mark))
    decreases |t|
  {
    if t != "" {
      if MatchLen(p, t).Some? {
        var n := MatchLen(p, t).value;
        MatchIsLongest(p, t);
        RewriteLeavesNoMatch(p, t[n..], mark);
        MatchFreeJoin(p, mark, Rewrite(p, t[n..], mark));
      } else {
        RewriteLeavesNoMatch(p, t[1..], mark);
        NoNewMatch(p, t, mark);
        assert [t[0]][0..] == [t[0]];
        MatchFreeJoin(p, [t[0]], Rewrite(p, t[1..], mark));
      }
    }
  }

  lemma {:induction false} MatchFreeIsFixed(p: Pattern, t: string, mark: string)
    requires MatchFree(p, t)
    ensures Rewrite(p, t, mark) == t
  {
    if t != "" {
      assert t[0..] == t;
      forall k | 0 <= k <= |t[1..]| ensures MatchLen(p, t[1..][k..]).None? {
        assert t[1..][k..] == t[k + 1..];
      }
      MatchFreeIsFixed(p, t[1..], mark);
    }
  }
}
