/**
 Reads a printed stream address back into the parts it was made from, as sections 3.2
 to 3.5 of RFC 3986 cut and check an address, and shows that the printed text always
 determines those parts.
 */
module AddressReader {
  import opened Wrappers
  import opened Text
  import opened Bytes
  import opened HostNames
  import opened StreamUrl

  /** What an address was printed from. */
  datatype Parts = Parts(user: seq<byte>, password: seq<byte>, host: string, port: int,
                         instance: int, audio: int, seconds: int)

  // ---- The authority ----

  /** The authority ends at the first slash, question mark or number sign. */
  predicate InAuthority(c: char) { c != '/' && c != '?' && c != '#' }

  function Authority(t: string): string { t[..Run(t, InAuthority)] }
  function BehindAuthority(t: string): string { t[Run(t, InAuthority)..] }

  function WithPort(host: string, port: string): Option<(string, int)> {
    if ReadNat(port).Some? then Some((host, ReadNat(port).value)) else None
  }

  /** A literal up to its closing bracket, a colon and the port. */
  function ReadBracketed(t: string): Option<(string, int)> {
    match Partition(t, ']')
    case None => None
    case Some((host, rest)) => if IsLiteral(host) && ":" <= rest then WithPort(host, rest[1..]) else None
  }

  /** A registered name up to the colon, and the port. */
  function ReadNamed(t: string): Option<(string, int)> {
    match Partition(t, ':')
    case None => None
    case Some((host, port)) => if IsRegName(host) then WithPort(host, port) else None
  }

  /** The host, bracketed or a registered name, and the port. */
  function ReadHostPort(a: string): Option<(string, int)> {
    if "[" <= a then ReadBracketed(a[1..]) else ReadNamed(a)
  }

  /** A host that may stand in an address the way `stream_url` prints it. */
  predicate IsHost(host: string) {
    if ':' in host then IsLiteral(host) else IsRegName(host)
  }

  // ---- The whole address ----

  function EntryOf(t: string): map<string, string> {
    match Partition(t, '=')
    case None => map[]
    case Some((key, value)) => map[key := value]
  }

  /** The dictionary of a query string; the first of two entries with one key counts. */
  function QueryOf(t: string): map<string, string>
    decreases |t|
  {
    match Partition(t, '&')
    case None => EntryOf(t)
    case Some((first, rest)) => QueryOf(rest) + EntryOf(first)
  }

  function Number(q: map<string, string>, key: string): Option<int> {
    if key in q then ReadInt(q[key]) else None
  }

  function ReadQuery(query: string): Option<(int, int, int)> {
    var q := QueryOf(query[..Run(query, (c: char) => c != '#')]);
    if Number(q, "inst").Some? && Number(q, "enableaudio").Some? && Number(q, "maxSessionDuration").Some? then
      Some((Number(q, "inst").value, Number(q, "enableaudio").value, Number(q, "maxSessionDuration").value))
    else None
  }

  /** The path must be the tunnel; its query may come in any order. */
  function ReadPath(t: string): Option<(int, int, int)> {
    match Partition(t, '?')
    case None => None
    case Some((path, query)) => if path == "/rtsp_tunnel" then ReadQuery(query) else None
  }

  function ReadUserInfo(info: string): Option<(seq<byte>, seq<byte>)> {
    match Partition(info, ':')
    case None => None
    case Some((user, password)) =>
      if Unquote(user).Some? && Unquote(password).Some? then Some((Unquote(user).value, Unquote(password).value))
      else None
  }

  function Assemble(info: Option<(seq<byte>, seq<byte>)>, hp: Option<(string, int)>,
                    path: Option<(int, int, int)>): Option<Parts>
  {
    if info.None? || hp.None? || path.None? then None
    else Some(Parts(info.value.0, info.value.1, hp.value.0, hp.value.1, path.value.0, path.value.1, path.value.2))
  }

  function ReadAddress(url: string): Option<Parts> {
    if !("rtsp://" <= url) then None
    else
      match Partition(Authority(url[7..]), '@')
      case None => None
      case Some((info, a)) =>
        Assemble(ReadUserInfo(info), ReadHostPort(a), ReadPath(BehindAuthority(url[7..])))
  }

  // ---- Hosts ----

  lemma HostChars(host: string)
    requires IsHost(host)
    ensures AllOf(HostPart(host), InAuthority) && ']' !in host && (host != "" ==> host[0] != '[')
  {
    IsHostText(host);
    HostTextStaysInside(host);
  }

  /** The characters a host can have. */
  predicate HostText(host: string) {
    forall i | 0 <= i < |host| :: IsNameChar(host[i]) || host[i] == ':' || host[i] == '%'
  }

  lemma IsHostText(host: string)
    requires IsHost(host)
    ensures HostText(host)
  {
    if ':' in host { LiteralChars(host); } else { RegNameChars(host); }
  }

  lemma HostTextStaysInside(host: string)
    requires HostText(host)
    ensures AllOf(HostPart(host), InAuthority) && ']' !in host && (host != "" ==> host[0] != '[')
  {
  }

  lemma DigitsStayInside(host: string, port: nat)
    requires AllOf(HostPart(host), InAuthority)
    ensures AllOf(HostPart(host) + (":" + Decimal(port)), InAuthority)
  {
  }

  lemma AuthorityEnds(a: string, tail: string)
    requires AllOf(a, InAuthority) && tail != "" && !InAuthority(tail[0])
    ensures Authority(a + tail) == a && BehindAuthority(a + tail) == tail
  {
    RunStopsAt(a, tail, InAuthority);
  }

  lemma WithPortReads(host: string, port: nat)
    ensures WithPort(host, Decimal(port)) == Some((host, port))
  {
    NumbersReadBack(port, 0);
  }

  lemma BracketedReads(host: string, port: string)
    requires ']' !in host && IsLiteral(host)
    ensures ReadHostPort("[" + (host + ("]" + (":" + port)))) == WithPort(host, port)
  {
    var inner := host + ("]" + (":" + port));
    PartitionFinds(host, ']', ":" + port);
    assert ("[" + inner)[1..] == inner && (":" + port)[1..] == port;
  }

  lemma PlainReads(host: string, port: string)
    requires ':' !in host && IsRegName(host) && (host != "" ==> host[0] != '[')
    ensures ReadHostPort(host + (":" + port)) == WithPort(host, port)
  {
    PartitionFinds(host, ':', port);
    assert (host + (":" + port))[0] == if host == "" then ':' else host[0];
  }

  lemma GoodHostReads(host: string, port: nat)
    requires IsHost(host)
    ensures ReadHostPort(HostPart(host) + (":" + Decimal(port))) == Some((host, port))
  {
    HostChars(host);
    WithPortReads(host, port);
    if ':' in host {
      BracketedReads(host, Decimal(port));
      Regroup(host, "]", ":" + Decimal(port));
      Regroup("[", host + "]", ":" + Decimal(port));
    } else {
      PlainReads(host, Decimal(port));
    }
  }

  lemma WithPortKeepsHost(host: string, port: string)
    requires WithPort(host, port).Some?
    ensures WithPort(host, port).value.0 == host && WithPort(host, port).value.1 >= 0
  {
  }

  /** What a read yields passed the check of its form. */
  lemma BracketedIsChecked(t: string)
    requires ReadBracketed(t).Some?
    ensures IsLiteral(ReadBracketed(t).value.0) && ReadBracketed(t).value.1 >= 0
  {
    var (host, rest) := Partition(t, ']').value;
    WithPortKeepsHost(host, rest[1..]);
  }

  lemma NamedIsChecked(t: string)
    requires ReadNamed(t).Some?
    ensures IsRegName(ReadNamed(t).value.0) && ReadNamed(t).value.1 >= 0
  {
    var (host, port) := Partition(t, ':').value;
    WithPortKeepsHost(host, port);
  }

  lemma ReadHostIsChecked(a: string)
    requires ReadHostPort(a).Some?
    ensures ReadHostPort(a).value.1 >= 0
    ensures if "[" <= a then IsLiteral(ReadHostPort(a).value.0) else IsRegName(ReadHostPort(a).value.0)
  {
    if "[" <= a { BracketedIsChecked(a[1..]); } else { NamedIsChecked(a); }
  }

  /** The authority starts as the text does. */
  lemma AuthorityStarts(t: string)
    ensures "[" <= Authority(t) <==> "[" <= t
  {
    if "[" <= t { assert InAuthority(t[0]); }
    if "[" <= Authority(t) { assert t[0] == Authority(t)[0]; }
  }

  lemma NoLiteralStartsWithABracket(host: string)
    requires "[" <= host
    ensures !IsLiteral(host)
  {
    if IsLiteral(host) { LiteralChars(host); }
  }

  lemma HostPartStarts(host: string, rest: string)
    ensures "[" <= HostPart(host) + (":" + rest) <==> ':' in host || "[" <= host
  {
    var t := HostPart(host) + (":" + rest);
    assert t[0] == if ':' in host then '[' else if host == "" then ':' else host[0];
  }

  lemma OnlyGoodHostsRead(host: string, rest: string)
    requires var r := ReadHostPort(Authority(HostPart(host) + (":" + rest))); r.Some? && r.value.0 == host
    ensures IsHost(host)
  {
    var t := HostPart(host) + (":" + rest);
    HostPartStarts(host, rest);
    AuthorityStarts(t);
    ReadHostIsChecked(Authority(t));
    if ':' !in host && "[" <= host { NoLiteralStartsWithABracket(host); }
  }

  /** The host and the port read back exactly when the host may stand there and the port is not negative. */
  lemma HostReadsBackIff(host: string, port: int, tail: string)
    requires tail != "" && !InAuthority(tail[0])
    ensures var t := HostPart(host) + (":" + (DecimalInt(port) + tail));
      && (ReadHostPort(Authority(t)) == Some((host, port)) <==> IsHost(host) && port >= 0)
      && (IsHost(host) && port >= 0 ==> BehindAuthority(t) == tail)
  {
    var t := HostPart(host) + (":" + (DecimalInt(port) + tail));
    if ReadHostPort(Authority(t)) == Some((host, port)) {
      OnlyGoodHostsRead(host, DecimalInt(port) + tail);
      ReadHostIsChecked(Authority(t));
    }
    if IsHost(host) && port >= 0 {
      HostChars(host);
      DigitsStayInside(host, port);
      Regroup(":", Decimal(port), tail);
      Regroup(HostPart(host), ":" + Decimal(port), tail);
      AuthorityEnds(HostPart(host) + (":" + Decimal(port)), tail);
      GoodHostReads(host, port);
    }
  }

  // ---- The query ----

  datatype Entry = Entry(key: string, value: string)

  function PrintEntry(e: Entry): string { e.key + ("=" + e.value) }

  function PrintQuery(es: seq<Entry>): string {
    if |es| == 0 then ""
    else if |es| == 1 then PrintEntry(es[0])
    else PrintEntry(es[0]) + ("&" + PrintQuery(es[1..]))
  }

  predicate Plain(e: Entry) { '=' !in e.key && '&' !in e.key && '&' !in e.value }

  lemma EntryReadsBack(e: Entry)
    requires Plain(e)
    ensures EntryOf(PrintEntry(e)) == map[e.key := e.value] && '&' !in PrintEntry(e)
  {
    PartitionFinds(e.key, '=', e.value);
  }

  /** The first printed entry is found under its key, and hides nothing else. */
  lemma FirstEntryCounts(e: Entry, rest: string, key: string)
    requires Plain(e)
    ensures Get(QueryOf(PrintEntry(e) + ("&" + rest)), key) ==
            if key == e.key then Some(e.value) else Get(QueryOf(rest), key)
  {
    EntryReadsBack(e);
    PartitionFinds(PrintEntry(e), '&', rest);
  }

  lemma OneEntryCounts(e: Entry)
    requires Plain(e)
    ensures Get(QueryOf(PrintEntry(e)), e.key) == Some(e.value)
  {
    EntryReadsBack(e);
  }

  /** Printed entries with distinct keys are each found under their key. */
  lemma {:induction false} QueryReadsBack(es: seq<Entry>, i: nat)
    requires i < |es| && (forall e | e in es :: Plain(e))
    requires forall j, k | 0 <= j < k < |es| :: es[j].key != es[k].key
    ensures Get(QueryOf(PrintQuery(es)), es[i].key) == Some(es[i].value)
  {
    if |es| == 1 {
      OneEntryCounts(es[0]);
    } else {
      FirstEntryCounts(es[0], PrintQuery(es[1..]), es[i].key);
      if i > 0 { QueryReadsBack(es[1..], i - 1); }
    }
  }

  lemma PrintQueryCons(e: Entry, es: seq<Entry>)
    requires es != []
    ensures PrintQuery([e] + es) == PrintEntry(e) + ("&" + PrintQuery(es))
  {
    assert ([e] + es)[1..] == es;
  }

  lemma FourPrinted(a: Entry, b: Entry, c: Entry, d: Entry)
    ensures PrintQuery([a] + ([b] + ([c] + [d])))
            == PrintEntry(a) + ("&" + (PrintEntry(b) + ("&" + (PrintEntry(c) + ("&" + PrintEntry(d))))))
  {
    PrintQueryCons(c, [d]);
    PrintQueryCons(b, [c] + [d]);
    PrintQueryCons(a, [b] + ([c] + [d]));
  }

  /** The entries of a printed address. */
  function AddressEntries(c: Connection, quality: int, audio: bool): seq<Entry> {
    [Entry("inst", DecimalInt(quality))]
    + ([Entry("enableaudio", if audio then "1" else "0")]
       + ([Entry("fmtp", "1")] + [Entry("maxSessionDuration", DecimalInt(c.maxSessionSeconds))]))
  }

  lemma OptionsArePrinted(c: Connection, quality: int, audio: bool)
    ensures PrintQuery(AddressEntries(c, quality, audio)) == ("inst=" + DecimalInt(quality)) + ("&" + Options(c, audio))
  {
    var q, a, s := DecimalInt(quality), if audio then "1" else "0", DecimalInt(c.maxSessionSeconds);
    FourPrinted(Entry("inst", q), Entry("enableaudio", a), Entry("fmtp", "1"), Entry("maxSessionDuration", s));
    Regroup("inst", "=", q);
    Regroup("enableaudio", "=", a);
    Regroup("maxSessionDuration", "=", s);
    assert "inst" + "=" == "inst=" && "enableaudio" + "=" == "enableaudio=";
    assert "fmtp" + ("=" + "1") == "fmtp=1" && "maxSessionDuration" + "=" == "maxSessionDuration=";
  }

  lemma PlainEntry(key: string, value: string)
    requires '=' !in key && '&' !in key && forall i | 0 <= i < |value| :: IsAsciiDigit(value[i]) || value[i] == '-'
    ensures Plain(Entry(key, value))
  {
  }

  lemma EntriesArePlain(c: Connection, quality: int, audio: bool)
    ensures forall e | e in AddressEntries(c, quality, audio) :: Plain(e)
  {
    PlainEntry("inst", DecimalInt(quality));
    PlainEntry("enableaudio", if audio then "1" else "0");
    PlainEntry("fmtp", "1");
    PlainEntry("maxSessionDuration", DecimalInt(c.maxSessionSeconds));
  }

  lemma KeysAreDistinct(c: Connection, quality: int, audio: bool)
    ensures var es := AddressEntries(c, quality, audio);
            |es| == 4 && forall j, k | 0 <= j < k < 4 :: es[j].key != es[k].key
  {
    var es := AddressEntries(c, quality, audio);
    assert |es[0].key| == 4 && |es[1].key| == 11 && |es[2].key| == 4 && |es[3].key| == 18;
    assert es[0].key[0] == 'i' && es[2].key[0] == 'f';
  }

  /** No number sign ends the query early. */
  lemma NeitherHas(c: char, a: string, b: string)
    requires c !in a && c !in b
    ensures c !in a + b
  {
  }

  lemma OptionsAvoid(c: char, connection: Connection, audio: bool)
    requires c == '#' || c == '/'
    ensures c !in Options(connection, audio)
  {
    var duration := DecimalInt(connection.maxSessionSeconds);
    assert c !in duration && c !in "maxSessionDuration=" && c !in "&" && c !in "fmtp=1" && c !in "enableaudio=";
    NeitherHas(c, "maxSessionDuration=", duration);
    NeitherHas(c, "&", "maxSessionDuration=" + duration);
    NeitherHas(c, "fmtp=1", "&" + ("maxSessionDuration=" + duration));
    NeitherHas(c, "&", "fmtp=1" + ("&" + ("maxSessionDuration=" + duration)));
    NeitherHas(c, "enableaudio=", if audio then "1" else "0");
    NeitherHas(c, "enableaudio=" + (if audio then "1" else "0"),
               "&" + ("fmtp=1" + ("&" + ("maxSessionDuration=" + duration))));
  }

  function PrintedQuery(c: Connection, quality: int, audio: bool): string {
    ("inst=" + DecimalInt(quality)) + ("&" + Options(c, audio))
  }

  lemma QueryAvoids(c: char, connection: Connection, quality: int, audio: bool)
    requires c == '#' || c == '/'
    ensures c !in PrintedQuery(connection, quality, audio)
  {
    OptionsAvoid(c, connection, audio);
    assert c !in DecimalInt(quality) && c !in "inst=" && c !in "&";
    NeitherHas(c, "inst=", DecimalInt(quality));
    NeitherHas(c, "&", Options(connection, audio));
    NeitherHas(c, "inst=" + DecimalInt(quality), "&" + Options(connection, audio));
  }

  lemma QueryOfAddress(c: Connection, quality: int, audio: bool)
    ensures var q := QueryOf(("inst=" + DecimalInt(quality)) + ("&" + Options(c, audio)));
      && Number(q, "inst") == Some(quality)
      && Number(q, "enableaudio") == Some(if audio then 1 else 0)
      && Number(q, "maxSessionDuration") == Some(c.maxSessionSeconds)
  {
    var es := AddressEntries(c, quality, audio);
    EntriesArePlain(c, quality, audio);
    KeysAreDistinct(c, quality, audio);
    OptionsArePrinted(c, quality, audio);
    QueryReadsBack(es, 0);
    QueryReadsBack(es, 1);
    QueryReadsBack(es, 3);
    NumbersReadBack(0, quality);
    NumbersReadBack(0, if audio then 1 else 0);
    NumbersReadBack(0, c.maxSessionSeconds);
    assert DecimalInt(1) == "1" && DecimalInt(0) == "0";
  }

  lemma WholeRun(t: string, c: char)
    requires c !in t
    ensures t[..Run(t, (x: char) => x != c)] == t
  {
  }

  lemma PathReadsBack(c: Connection, quality: int, audio: bool)
    ensures ReadPath("/rtsp_tunnel" + ("?" + PrintedQuery(c, quality, audio)))
            == Some((quality, if audio then 1 else 0, c.maxSessionSeconds))
  {
    var query := PrintedQuery(c, quality, audio);
    assert '?' !in "/rtsp_tunnel";
    PartitionFinds("/rtsp_tunnel", '?', query);
    QueryAvoids('#', c, quality, audio);
    WholeRun(query, '#');
    QueryOfAddress(c, quality, audio);
  }

  // ---- The address ----

  /** An address is its credentials, an at sign, its host, a colon, its port and its path. */
  lemma AddressShape(c: Connection, port: int, quality: int, audio: bool, host: string)
    requires 1 <= quality <= 4
    ensures Address(c, port, quality, audio, host).value ==
      UserInfo(c) + ("@" + (HostPart(host) + (":" + (DecimalInt(port)
        + ("/rtsp_tunnel" + ("?" + PrintedQuery(c, quality, audio)))))))
  {
    var tail := "?" + PrintedQuery(c, quality, audio);
    Regroup(DecimalInt(port), "/rtsp_tunnel", tail);
    Regroup(":", PortPart(port), tail);
    Regroup(HostPart(host), ":" + PortPart(port), tail);
    Regroup("@", HostPart(host) + (":" + PortPart(port)), tail);
    Regroup(UserInfo(c), "@" + (HostPart(host) + (":" + PortPart(port))), tail);
  }

  /** The credentials behind the scheme. */
  function Info(c: Connection): string { Quote(c.username) + (":" + Quote(c.password)) }

  lemma InfoReadsBack(c: Connection)
    ensures ReadUserInfo(Info(c)) == Some((c.username, c.password))
  {
    QuoteRoundTrip(c.username);
    QuoteRoundTrip(c.password);
    PartitionFinds(Quote(c.username), ':', Quote(c.password));
  }

  lemma QuotedIsPlain(raw: seq<byte>)
    ensures '@' !in Quote(raw) && AllOf(Quote(raw), InAuthority)
  {
    QuoteRoundTrip(raw);
  }

  lemma PlainJoin(user: string, password: string)
    requires '@' !in user && '@' !in password && AllOf(user, InAuthority) && AllOf(password, InAuthority)
    ensures '@' !in user + (":" + password) && AllOf(user + (":" + password), InAuthority)
  {
  }

  lemma InfoIsPlain(c: Connection)
    ensures '@' !in Info(c) && AllOf(Info(c), InAuthority)
  {
    QuotedIsPlain(c.username);
    QuotedIsPlain(c.password);
    PlainJoin(Quote(c.username), Quote(c.password));
  }

  lemma BehindScheme(t: string)
    ensures "rtsp://" <= "rtsp://" + t && ("rtsp://" + t)[7..] == t
  {
  }

  /** The authority of an address: its credentials, and what the host part reads of the rest. */
  lemma AuthorityBehindInfo(info: string, rest: string)
    requires AllOf(info, InAuthority) && '@' !in info
    ensures Partition(Authority(info + ("@" + rest)), '@') == Some((info, Authority(rest)))
    ensures BehindAuthority(info + ("@" + rest)) == BehindAuthority(rest)
  {
    Regroup(info, "@", rest);
    RunJoins(info + "@", rest, InAuthority);
    var n := Run(rest, InAuthority);
    assert ((info + "@") + rest)[..|info + "@"| + n] == (info + "@") + rest[..n];
    Regroup(info, "@", rest[..n]);
    PartitionFinds(info, '@', rest[..n]);
  }

  /** What the reader makes of credentials, host, port and path that stand one behind the other. */
  lemma ReadsInPieces(info: string, rest: string)
    requires AllOf(info, InAuthority) && '@' !in info
    ensures ReadAddress("rtsp://" + (info + ("@" + rest)))
            == Assemble(ReadUserInfo(info), ReadHostPort(Authority(rest)), ReadPath(BehindAuthority(rest)))
  {
    BehindScheme(info + ("@" + rest));
    AuthorityBehindInfo(info, rest);
  }

  lemma PartsReadBackIff(info: string, host: string, port: int, tail: string)
    requires AllOf(info, InAuthority) && '@' !in info
    requires tail != "" && !InAuthority(tail[0]) && ReadUserInfo(info).Some? && ReadPath(tail).Some?
    ensures var (user, password), (instance, audio, seconds) := ReadUserInfo(info).value, ReadPath(tail).value;
            ReadAddress("rtsp://" + (info + ("@" + (HostPart(host) + (":" + (DecimalInt(port) + tail))))))
            == Some(Parts(user, password, host, port, instance, audio, seconds))
            <==> IsHost(host) && port >= 0
  {
    ReadsInPieces(info, HostPart(host) + (":" + (DecimalInt(port) + tail)));
    HostReadsBackIff(host, port, tail);
  }

  /** The reader gets back every part the address was printed from. */
  predicate ReadsBack(c: Connection, port: int, quality: int, audio: bool, host: string)
    requires 1 <= quality <= 4
  {
    ReadAddress(Address(c, port, quality, audio, host).value)
    == Some(Parts(c.username, c.password, host, port, quality, if audio then 1 else 0, c.maxSessionSeconds))
  }

  /**
   For every credential, instance, audio flag and duration: a reader that cuts and checks
   an address by RFC 3986 gets back what was printed exactly when the host is one that
   may stand there and the port is not negative.
   */
  lemma AddressReadsBackIffHost(c: Connection, port: int, quality: int, audio: bool, host: string)
    requires 1 <= quality <= 4
    ensures ReadsBack(c, port, quality, audio, host) <==> IsHost(host) && port >= 0
  {
    var tail := "/rtsp_tunnel" + ("?" + PrintedQuery(c, quality, audio));
    AddressShape(c, port, quality, audio, host);
    Regroup("rtsp://", Info(c), "@" + (HostPart(host) + (":" + (DecimalInt(port) + tail))));
    InfoIsPlain(c);
    InfoReadsBack(c);
    PathReadsBack(c, quality, audio);
    PartsReadBackIff(Info(c), host, port, tail);
  }

  /** The default host always reads back. */
  lemma DefaultHostReadsBack(c: Connection, port: nat, quality: int, audio: bool)
    requires 1 <= quality <= 4
    ensures ReadsBack(c, port, quality, audio, "127.0.0.1")
  {
    DefaultHostIsAName();
    AddressReadsBackIffHost(c, port, quality, audio, "127.0.0.1");
  }

  /** So do the loopback address and every address of eight groups. */
  lemma Ipv6HostsReadBack(c: Connection, port: nat, quality: int, audio: bool, groups: seq<string>)
    requires 1 <= quality <= 4 && |groups| == 8 && forall g | g in groups :: IsGroup(g)
    ensures ReadsBack(c, port, quality, audio, "::1")
    ensures ReadsBack(c, port, quality, audio, Joined(groups))
  {
    LoopbackIsALiteral();
    EightGroupsAreALiteral(groups);
    AddressReadsBackIffHost(c, port, quality, audio, "::1");
    AddressReadsBackIffHost(c, port, quality, audio, Joined(groups));
  }

  /** The hosts `a/b`, `[x`, `u@h` and `a:b`, which are printed as they are, do not read back. */
  lemma DelimitersInTheHostAreLost(c: Connection, port: int, quality: int, audio: bool, host: string)
    requires 1 <= quality <= 4 && (host == "a/b" || host == "[x" || host == "u@h" || host == "a:b")
    ensures !ReadsBack(c, port, quality, audio, host)
  {
    TheseAreNoHosts();
    assert "a:b"[1] == ':';
    AddressReadsBackIffHost(c, port, quality, audio, host);
  }

  // ---- The text determines its parts ----

  lemma LastSplit(a: string, b: string, a': string, b': string, c: char)
    requires c !in b && c !in b' && a + ([c] + b) == a' + ([c] + b')
    ensures a == a' && b == b'
  {
    var t := a + ([c] + b);
    assert t[|a|] == c && t[|a'|] == c;
    assert forall i | |a| < i < |t| :: t[i] == b[i - |a| - 1] && b[i - |a| - 1] in b;
    assert forall i | |a'| < i < |t| :: t[i] == b'[i - |a'| - 1] && b'[i - |a'| - 1] in b';
    assert t[..|a|] == a && t[..|a'|] == a' && t[|a| + 1..] == b && t[|a'| + 1..] == b';
  }

  lemma HostPartIsInjective(h: string, h': string)
    requires HostPart(h) == HostPart(h')
    ensures h == h'
  {
    assert ':' in HostPart(h) <==> ':' in h by { if ':' in h { assert HostPart(h)[1..][..|h|] == h; } }
    assert ':' in HostPart(h') <==> ':' in h' by { if ':' in h' { assert HostPart(h')[1..][..|h'|] == h'; } }
    if ':' in h {
      assert h == HostPart(h)[1..][..|h|] && h' == HostPart(h')[1..][..|h'|];
      assert |HostPart(h)| == |h| + 2 && |HostPart(h')| == |h'| + 2;
    }
  }

  lemma NumbersAreInjective(i: int, j: int)
    requires DecimalInt(i) == DecimalInt(j)
    ensures i == j
  {
    NumbersReadBack(0, i);
    NumbersReadBack(0, j);
  }

  lemma QueryIsInjective(c: Connection, quality: int, audio: bool, c': Connection, quality': int, audio': bool)
    requires PrintedQuery(c, quality, audio) == PrintedQuery(c', quality', audio')
    ensures quality == quality' && audio == audio' && c.maxSessionSeconds == c'.maxSessionSeconds
  {
    QueryOfAddress(c, quality, audio);
    QueryOfAddress(c', quality', audio');
  }

  /** What stands behind the last slash. */
  function LastPart(query: string): string { "rtsp_tunnel" + ("?" + query) }

  /** An address cut at its last slash, and what stands before it cut at its last colon. */
  lemma AddressTail(host: string, port: int, query: string)
    ensures HostPart(host) + (":" + (DecimalInt(port) + ("/rtsp_tunnel" + ("?" + query))))
            == (HostPart(host) + (":" + DecimalInt(port))) + ("/" + LastPart(query))
  {
    Regroup("/", "rtsp_tunnel", "?" + query);
    assert "/" + "rtsp_tunnel" == "/rtsp_tunnel";
    Regroup(":", DecimalInt(port), "/" + LastPart(query));
    Regroup(HostPart(host), ":" + DecimalInt(port), "/" + LastPart(query));
  }

  lemma LastPartAvoids(query: string, query': string)
    requires '/' !in query && '/' !in query'
    ensures '/' !in LastPart(query) && (LastPart(query) == LastPart(query') ==> query == query')
  {
    assert '/' !in "rtsp_tunnel" && '/' !in "?";
    NeitherHas('/', "?", query);
    NeitherHas('/', "rtsp_tunnel", "?" + query);
    assert LastPart(query)[12..] == query && LastPart(query')[12..] == query';
  }

  lemma TailIsInjective(host: string, port: int, query: string, host': string, port': int, query': string)
    requires '/' !in query && '/' !in query'
    requires HostPart(host) + (":" + (DecimalInt(port) + ("/rtsp_tunnel" + ("?" + query))))
             == HostPart(host') + (":" + (DecimalInt(port') + ("/rtsp_tunnel" + ("?" + query'))))
    ensures host == host' && port == port' && query == query'
  {
    AddressTail(host, port, query);
    AddressTail(host', port', query');
    LastPartAvoids(query, query');
    LastPartAvoids(query', query);
    LastSplit(HostPart(host) + (":" + DecimalInt(port)), LastPart(query),
              HostPart(host') + (":" + DecimalInt(port')), LastPart(query'), '/');
    LastSplit(HostPart(host), DecimalInt(port), HostPart(host'), DecimalInt(port'), ':');
    HostPartIsInjective(host, host');
    NumbersAreInjective(port, port');
  }

  /** Two printed addresses are equal only if every part they were printed from is, on all hosts and ports. */
  lemma AddressIsInjective(c: Connection, port: int, quality: int, audio: bool, host: string,
                           c': Connection, port': int, quality': int, audio': bool, host': string)
    requires 1 <= quality <= 4 && 1 <= quality' <= 4
    requires Address(c, port, quality, audio, host) == Address(c', port', quality', audio', host')
    ensures c == c' && port == port' && quality == quality' && audio == audio' && host == host'
  {
    var query, query' := PrintedQuery(c, quality, audio), PrintedQuery(c', quality', audio');
    CredentialsRoundTrip(c, port, quality, audio, host);
    CredentialsRoundTrip(c', port', quality', audio', host');
    AddressShape(c, port, quality, audio, host);
    AddressShape(c', port', quality', audio', host');
    assert UserInfo(c) == UserInfo(c');
    SameFront(UserInfo(c) , HostPart(host) + (":" + (DecimalInt(port) + ("/rtsp_tunnel" + ("?" + query)))),
              HostPart(host') + (":" + (DecimalInt(port') + ("/rtsp_tunnel" + ("?" + query')))));
    QueryAvoids('/', c, quality, audio);
    QueryAvoids('/', c', quality', audio');
    TailIsInjective(host, port, query, host', port', query');
    QueryIsInjective(c, quality, audio, c', quality', audio');
  }

  lemma SameFront(front: string, t: string, t': string)
    requires front + ("@" + t) == front + ("@" + t')
    ensures t == t'
  {
    assert t == (front + ("@" + t))[|front| + 1..] && t' == (front + ("@" + t'))[|front| + 1..];
  }
}
