/**
 The RTSP address of the local proxy with percent-encoded credentials, and the
 quality switch that rewrites its stream instance.
 */
module StreamUrl {
  import opened Wrappers
  import opened Text
  import opened Bytes

  // ---- Percent-encoding (section 2.1 of RFC 3986) ----

  predicate IsUnreserved(b: byte) {
    || 0x30 <= b <= 0x39 || 0x41 <= b <= 0x5A || 0x61 <= b <= 0x7A
    || b == 0x5F || b == 0x2E || b == 0x2D || b == 0x7E
  }

  function HexChar(v: nat): (c: char)
    requires v < 16
  {
    HexDigit(v, true) as char
  }

  function QuoteByte(b: byte): string {
    if IsUnreserved(b) then [b as char] else ['%', HexChar(b / 16), HexChar(b % 16)]
  }

  /** `quote(s, safe="")` on the UTF-8 bytes of the text. */
  function Quote(raw: seq<byte>): string {
    if raw == [] then "" else QuoteByte(raw[0]) + Quote(raw[1..])
  }

  function HexCharValue(c: char): (v: nat)
    requires IsHexChar(c)
    ensures v < 16
  {
    HexValue(c as int)
  }

  /** Percent-decoding of a component; None when it is malformed. */
  function Unquote(t: string): Option<seq<byte>> {
    if t == "" then Some([])
    else if t[0] == '%' then
      if |t| >= 3 && IsHexChar(t[1]) && IsHexChar(t[2]) then
        match Unquote(t[3..])
        case Some(rest) => Some([HexCharValue(t[1]) * 16 + HexCharValue(t[2])] + rest)
        case None => None
      else None
    else if t[0] < '\U{80}' then
      match Unquote(t[1..])
      case Some(rest) => Some([t[0] as int] + rest)
      case None => None
    else None
  }

  predicate IsQuotedChar(c: char) {
    '0' <= c <= '9' || 'A' <= c <= 'Z' || 'a' <= c <= 'z' || c == '_' || c == '.' || c == '-' || c == '~' || c == '%'
  }

  lemma {:induction false} QuoteRoundTrip(raw: seq<byte>)
    ensures Unquote(Quote(raw)) == Some(raw)
    ensures AllOf(Quote(raw), IsQuotedChar)
  {
    if raw != [] {
      QuoteRoundTrip(raw[1..]);
      assert raw == [raw[0]] + raw[1..];
      var b := raw[0];
      var t := Quote(raw);
      if IsUnreserved(b) {
        assert t[1..] == Quote(raw[1..]) && t[0] == b as char && t[0] != '%';
      } else {
        assert b == b / 16 * 16 + b % 16;
        assert QuoteByte(b)[0] == '%' && |QuoteByte(b)| == 3;
        assert t[0] == '%' && t[1] == HexChar(b / 16) && t[2] == HexChar(b % 16) && t[3..] == Quote(raw[1..]);
      }
    }
  }

  // ---- The address ----

  datatype Connection = Connection(username: seq<byte>, password: seq<byte>, maxSessionSeconds: int)

  function HostPart(proxyHost: string): string {
    if ':' in proxyHost then "[" + (proxyHost + "]") else proxyHost
  }

  function UserInfo(c: Connection): string {
    "rtsp://" + (Quote(c.username) + (":" + Quote(c.password)))
  }

  function PortPart(port: int): string { DecimalInt(port) + "/rtsp_tunnel" }

  function Head(c: Connection, host: string, port: int): string {
    UserInfo(c) + ("@" + (HostPart(host) + (":" + PortPart(port))))
  }

  function Options(c: Connection, audio: bool): string {
    ("enableaudio=" + if audio then "1" else "0")
    + ("&" + ("fmtp=1" + ("&" + ("maxSessionDuration=" + DecimalInt(c.maxSessionSeconds)))))
  }

  /** `LiveConnection.stream_url`; None is the ValueError for an unknown quality instance. */
  function Address(c: Connection, port: int, quality: int, audio: bool, host: string): Option<string> {
    if quality < 1 || quality > 4 then None
    else Some(Head(c, host, port) + ("?" + (("inst=" + DecimalInt(quality)) + ("&" + Options(c, audio)))))
  }

  /** Splits the credentials off an address: the user up to the first colon, the password up to the first at sign. */
  function Credentials(url: string): Option<(seq<byte>, seq<byte>)> {
    if !("rtsp://" <= url) || Partition(url[7..], ':').None? then None
    else
      var (user, rest) := Partition(url[7..], ':').value;
      match Partition(rest, '@')
      case None => None
      case Some((password, _)) =>
        if Unquote(user).Some? && Unquote(password).Some? then Some((Unquote(user).value, Unquote(password).value))
        else None
  }

  lemma CredentialsOf(user: seq<byte>, password: seq<byte>, rest: string)
    ensures Credentials("rtsp://" + (Quote(user) + (":" + (Quote(password) + ("@" + rest))))) == Some((user, password))
  {
    var behind := Quote(password) + ("@" + rest);
    var body := Quote(user) + (":" + behind);
    QuoteRoundTrip(user);
    QuoteRoundTrip(password);
    PartitionFinds(Quote(user), ':', behind);
    PartitionFinds(Quote(password), '@', rest);
    assert ("rtsp://" + body)[7..] == body;
  }

  // ---- The quality switch ----

  /** `\d`: the ASCII digits, and other digits of the caller's Unicode tables. */
  ghost predicate DigitClass(digit: char -> bool) {
    forall c | c < '\U{80}' :: digit(c) <==> IsAsciiDigit(c)
  }

  const INST := "inst="

  /** Length of a match of `inst=\d+` at the start of `t`. */
  function InstAt(digit: char -> bool, t: string): (n: Option<nat>)
    ensures n.Some? ==> 6 <= n.value <= |t|
  {
    if INST <= t && Run(t[5..], digit) > 0 then Some(5 + Run(t[5..], digit)) else None
  }

  /** `re.sub(r"inst=\d+", "inst=4", t)`. */
  function SubInst(digit: char -> bool, t: string): (r: string)
    ensures |r| <= |t|
    decreases |t|
  {
    if t == "" then ""
    else
      match InstAt(digit, t)
      case Some(n) => "inst=4" + SubInst(digit, t[n..])
      case None => [t[0]] + SubInst(digit, t[1..])
  }

  /** `apply_quality`. */
  function ApplyQuality(digit: char -> bool, url: string, quality: string): string {
    if quality != "low" then url
    else if Contains(url, INST) then SubInst(digit, url)
    else url + ((if Contains(url, "?") then "&" else "?") + "inst=4")
  }

  /** Every instance the text names is already 4. */
  predicate NamesOnlyFour(digit: char -> bool, t: string) {
    forall k | 0 <= k <= |t| && InstAt(digit, t[k..]).Some? :: InstAt(digit, t[k..]) == Some(6) && t[k + 5] == '4'
  }

  /** A match holds no further start of a match. */
  lemma MatchHasOneStart(digit: char -> bool, t: string, k: nat)
    requires DigitClass(digit) && InstAt(digit, t).Some? && 1 <= k < InstAt(digit, t).value
    ensures InstAt(digit, t[k..]).None?
  {
    assert t[k..][0] == t[k];
    if k < 5 {
      assert t[k] == INST[k];
    } else {
      assert t[k] == t[5..][k - 5];
    }
  }

  lemma StepsOf(digit: char -> bool, t: string)
    requires t != ""
    ensures InstAt(digit, t).None? ==>
              SubInst(digit, t) == [t[0]] + SubInst(digit, t[1..]) && SubInst(digit, t)[1..] == SubInst(digit, t[1..])
    ensures InstAt(digit, t).Some? ==> SubInst(digit, t) == "inst=4" + SubInst(digit, t[InstAt(digit, t).value..])
    ensures t[0] != 'i' ==> InstAt(digit, t).None?
  {
  }

  lemma NamesTail(digit: char -> bool, t: string, n: nat)
    requires n <= |t| && NamesOnlyFour(digit, t)
    ensures NamesOnlyFour(digit, t[n..])
  {
    forall k | 0 <= k <= |t[n..]| && InstAt(digit, t[n..][k..]).Some?
      ensures InstAt(digit, t[n..][k..]) == Some(6) && t[n..][k + 5] == '4'
    {
      assert t[n..][k..] == t[n + k..];
    }
  }

  lemma NamesJoin(digit: char -> bool, front: string, t: string)
    requires NamesOnlyFour(digit, t)
    requires forall k | 0 <= k < |front| && InstAt(digit, front[k..] + t).Some? ::
               InstAt(digit, front[k..] + t) == Some(6) && (front + t)[k + 5] == '4'
    ensures NamesOnlyFour(digit, front + t)
  {
    var u := front + t;
    forall k | 0 <= k <= |u| && InstAt(digit, u[k..]).Some?
      ensures InstAt(digit, u[k..]) == Some(6) && u[k + 5] == '4'
    {
      if k < |front| {
        assert u[k..] == front[k..] + t;
      } else {
        assert u[k..] == t[k - |front|..];
      }
    }
  }

  /** Where the text starts with a match: it is left alone iff the match is `inst=4` and the rest is. */
  lemma FixedAtMatch(digit: char -> bool, t: string)
    requires InstAt(digit, t).Some?
    ensures SubInst(digit, t) == t <==>
            InstAt(digit, t).value == 6 && t[5] == '4' && SubInst(digit, t[6..]) == t[6..]
  {
    var n := InstAt(digit, t).value;
    var r := SubInst(digit, t[n..]);
    assert SubInst(digit, t) == "inst=4" + r;
    if "inst=4" + r == t {
      assert |r| == |t| - 6 && |r| <= |t[n..]|;
      assert t[5] == '4' && t[6..] == r;
    }
    if n == 6 && t[5] == '4' && r == t[6..] {
      assert t[..6] == "inst=4";
      assert t[..6] + t[6..] == t;
    }
  }

  lemma FixedAtNone(digit: char -> bool, t: string)
    requires t != "" && InstAt(digit, t).None?
    ensures SubInst(digit, t) == t <==> SubInst(digit, t[1..]) == t[1..]
  {
    StepsOf(digit, t);
    assert [t[0]] + t[1..] == t;
  }

  lemma NamesAtMatch(digit: char -> bool, t: string)
    requires DigitClass(digit) && InstAt(digit, t).Some?
    ensures NamesOnlyFour(digit, t) <==>
            InstAt(digit, t).value == 6 && t[5] == '4' && NamesOnlyFour(digit, t[6..])
  {
    assert t[0..] == t;
    if NamesOnlyFour(digit, t) {
      NamesTail(digit, t, 6);
    }
    if InstAt(digit, t).value == 6 && t[5] == '4' && NamesOnlyFour(digit, t[6..]) {
      var front, behind := t[..6], t[6..];
      assert front + behind == t;
      forall k | 0 <= k < 6 && InstAt(digit, front[k..] + behind).Some?
        ensures InstAt(digit, front[k..] + behind) == Some(6) && (front + behind)[k + 5] == '4'
      {
        assert front[k..] + behind == t[k..];
        if k > 0 { MatchHasOneStart(digit, t, k); }
      }
      NamesJoin(digit, front, behind);
    }
  }

  lemma NamesAtNone(digit: char -> bool, t: string)
    requires t != "" && InstAt(digit, t).None?
    ensures NamesOnlyFour(digit, t) <==> NamesOnlyFour(digit, t[1..])
  {
    if NamesOnlyFour(digit, t) { NamesTail(digit, t, 1); }
    if NamesOnlyFour(digit, t[1..]) {
      assert [t[0]][0..] + t[1..] == t && [t[0]] + t[1..] == t;
      NamesJoin(digit, [t[0]], t[1..]);
    }
  }

  lemma EmptyNamesNone(digit: char -> bool)
    ensures NamesOnlyFour(digit, "")
  {
    var t := "";
    assert forall k | 0 <= k <= |t| :: t[k..] == "";
  }

  /** A text that names only instance 4 is exactly one the substitution leaves alone. */
  lemma {:induction false} FixedIffNamesOnlyFour(digit: char -> bool, t: string)
    requires DigitClass(digit)
    ensures SubInst(digit, t) == t <==> NamesOnlyFour(digit, t)
    decreases |t|
  {
    if t == "" {
      EmptyNamesNone(digit);
    } else if InstAt(digit, t).Some? {
      FixedAtMatch(digit, t);
      NamesAtMatch(digit, t);
      FixedIffNamesOnlyFour(digit, t[6..]);
    } else {
      FixedAtNone(digit, t);
      NamesAtNone(digit, t);
      FixedIffNamesOnlyFour(digit, t[1..]);
    }
  }

  // ---- Idempotence ----

  lemma {:induction false} LiteralReflects(digit: char -> bool, l: string, t: string)
    requires 'i' !in l && l <= SubInst(digit, t)
    ensures l <= t && SubInst(digit, t)[|l|..] == SubInst(digit, t[|l|..])
  {
    if l != "" {
      var r := SubInst(digit, t);
      assert t != "" && r[0] == l[0];
      StepsOf(digit, t);
      assert InstAt(digit, t).None?;
      LiteralReflects(digit, l[1..], t[1..]);
      assert r[|l|..] == r[1..][|l| - 1..] && t[|l|..] == t[1..][|l| - 1..];
    }
  }

  lemma NoNewInst(digit: char -> bool, t: string)
    requires DigitClass(digit) && t != "" && InstAt(digit, t).None?
    ensures InstAt(digit, SubInst(digit, t)).None?
  {
    var r := SubInst(digit, t);
    StepsOf(digit, t);
    if INST <= r {
      assert "nst=" <= r[1..];
      LiteralReflects(digit, "nst=", t[1..]);
      var u := t[5..];
      assert t[1..][4..] == u && r[1..][4..] == r[5..];
      assert INST <= t;
      assert r[5..] == SubInst(digit, u);
      if u != "" { StepsOf(digit, u); }
    }
  }

  lemma {:induction false} SubInstNamesOnlyFour(digit: char -> bool, t: string)
    requires DigitClass(digit)
    ensures NamesOnlyFour(digit, SubInst(digit, t))
    decreases |t|
  {
    if t == "" {
      FixedIffNamesOnlyFour(digit, t);
    } else if InstAt(digit, t).Some? {
      var n := InstAt(digit, t).value;
      var u := t[n..];
      var r := SubInst(digit, u);
      SubInstNamesOnlyFour(digit, u);
      assert u != "" ==> !digit(u[0]) by { assert u != "" ==> u[0] == t[5..][n - 5]; }
      if u != "" { StepsOf(digit, u); }
      FourEndsHere(digit, r);
    } else {
      SubInstNamesOnlyFour(digit, t[1..]);
      NoNewInst(digit, t);
      StepsOf(digit, t);
      assert [t[0]][0..] == [t[0]];
      NamesJoin(digit, [t[0]], SubInst(digit, t[1..]));
    }
  }

  lemma FourMatches(digit: char -> bool, r: string)
    requires DigitClass(digit) && (r == "" || !digit(r[0]))
    ensures InstAt(digit, "inst=4" + r) == Some(6)
  {
    var t := "inst=4" + r;
    assert t[5..] == "4" + r;
    RunStopsAt("4", r, digit);
  }

  /** `inst=4` in front of a text that does not start with a digit names one more 4. */
  lemma FourEndsHere(digit: char -> bool, r: string)
    requires DigitClass(digit) && NamesOnlyFour(digit, r) && (r == "" || !digit(r[0]))
    ensures NamesOnlyFour(digit, "inst=4" + r)
    ensures InstAt(digit, "inst=4" + r) == Some(6)
  {
    var front := "inst=4";
    var t := front + r;
    FourMatches(digit, r);
    forall k | 0 <= k < 6 && InstAt(digit, front[k..] + r).Some?
      ensures InstAt(digit, front[k..] + r) == Some(6) && t[k + 5] == '4'
    {
      assert front[k..] + r == t[k..];
      if k > 0 { MatchHasOneStart(digit, t, k); } else { assert t[0..] == t; }
    }
    NamesJoin(digit, front, r);
  }

  lemma {:induction false} ContainsBehind(front: string, t: string, sub: string)
    requires Contains(t, sub)
    ensures Contains(front + t, sub)
  {
    if front == "" {
      assert front + t == t;
    } else {
      ContainsBehind(front[1..], t, sub);
      assert (front + t)[1..] == front[1..] + t;
    }
  }

  /** A text that mentions an instance still does after the substitution. */
  lemma {:induction false} SubKeepsInst(digit: char -> bool, t: string)
    requires DigitClass(digit) && Contains(t, INST)
    ensures Contains(SubInst(digit, t), INST)
    decreases |t|
  {
    var r := SubInst(digit, t);
    if InstAt(digit, t).Some? {
      assert INST <= r;
    } else if INST <= t {
      assert INST == t[..5];
      StepsOf(digit, t);
      StepsOf(digit, t[1..]);
      StepsOf(digit, t[2..]);
      StepsOf(digit, t[3..]);
      StepsOf(digit, t[4..]);
      assert t[1..][1..] == t[2..] && t[2..][1..] == t[3..] && t[3..][1..] == t[4..] && t[4..][1..] == t[5..];
      assert r == ['i'] + (['n'] + (['s'] + (['t'] + (['='] + SubInst(digit, t[5..])))));
      assert INST <= r;
    } else {
      StepsOf(digit, t);
      SubKeepsInst(digit, t[1..]);
    }
  }

  /** No match starts in `a`, or reaches into `b`, across a character the pattern cannot contain. */
  lemma InstBeforeBarrier(digit: char -> bool, a: string, c: char, b: string)
    requires c !in INST && !digit(c) && a != ""
    ensures InstAt(digit, a + ([c] + b)) == InstAt(digit, a)
  {
    var t := a + ([c] + b);
    assert t[|a|] == c;
    if INST <= t {
      assert forall i | 0 <= i < 5 :: t[i] == INST[i] && INST[i] in INST;
      assert |a| > 4;
      assert t[5..] == a[5..] + ([c] + b);
      RunSplits(a[5..], digit);
      var n := Run(a[5..], digit);
      var rest := a[5..][n..] + ([c] + b);
      assert a[5..] + ([c] + b) == a[5..][..n] + rest;
      RunStopsAt(a[5..][..n], rest, digit);
      assert INST <= a;
    }
  }

  lemma BarrierTail(a: string, c: char, b: string, n: nat)
    requires n <= |a|
    ensures (a + ([c] + b))[n..] == a[n..] + ([c] + b)
  {
  }

  lemma {:induction false} SubAcrossBarrier(digit: char -> bool, a: string, c: char, b: string)
    requires c !in INST && !digit(c)
    ensures SubInst(digit, a + ([c] + b)) == SubInst(digit, a) + ([c] + SubInst(digit, b))
    decreases |a|
  {
    var t := a + ([c] + b);
    if a == "" {
      assert t == [c] + b && t[1..] == b;
      StepsOf(digit, t);
    } else {
      InstBeforeBarrier(digit, a, c, b);
      StepsOf(digit, t);
      StepsOf(digit, a);
      if InstAt(digit, a).Some? {
        var n := InstAt(digit, a).value;
        BarrierTail(a, c, b, n);
        SubAcrossBarrier(digit, a[n..], c, b);
        Regroup("inst=4", SubInst(digit, a[n..]), [c] + SubInst(digit, b));
      } else {
        BarrierTail(a, c, b, 1);
        SubAcrossBarrier(digit, a[1..], c, b);
        Regroup([a[0]], SubInst(digit, a[1..]), [c] + SubInst(digit, b));
      }
    }
  }

  /** A text in which no `=` follows a `t` names no instance. */
  lemma {:induction false} NoInstIsFixed(digit: char -> bool, t: string)
    requires forall k | 0 < k < |t| && t[k] == '=' :: t[k - 1] != 't'
    ensures SubInst(digit, t) == t
  {
    if t != "" {
      assert !(INST <= t) by { assert INST[4] == '=' && INST[3] == 't'; }
      forall k | 0 < k < |t[1..]| && t[1..][k] == '=' ensures t[1..][k - 1] != 't' {
        assert t[k + 1] == '=';
      }
      NoInstIsFixed(digit, t[1..]);
    }
  }

  lemma {:induction false} NotContainedIsFixed(digit: char -> bool, t: string)
    requires !Contains(t, INST)
    ensures SubInst(digit, t) == t
  {
    if t != "" { NotContainedIsFixed(digit, t[1..]); }
  }

  /** On every URL and for every quality, applying the quality twice is applying it once. */
  lemma ApplyQualityIsIdempotent(digit: char -> bool, url: string, quality: string)
    requires DigitClass(digit)
    ensures ApplyQuality(digit, ApplyQuality(digit, url, quality), quality) == ApplyQuality(digit, url, quality)
  {
    if quality == "low" {
      if Contains(url, INST) {
        SubKeepsInst(digit, url);
        SubInstNamesOnlyFour(digit, url);
        FixedIffNamesOnlyFour(digit, SubInst(digit, url));
      } else {
        var sep := if Contains(url, "?") then '&' else '?';
        assert url + ([sep] + "inst=4") == ApplyQuality(digit, url, quality);
        ContainsBehind(url + [sep], "inst=4", INST);
        assert (url + [sep]) + "inst=4" == url + ([sep] + "inst=4");
        SubAcrossBarrier(digit, url, sep, "inst=4");
        NotContainedIsFixed(digit, url);
        FourEndsHere(digit, "");
        assert "inst=4" + "" == "inst=4";
        FixedIffNamesOnlyFour(digit, "");
        FixedIffNamesOnlyFour(digit, "inst=4");
        assert NamesOnlyFour(digit, "");
      }
    }
  }

  // ---- The quality switch on an address ----

  lemma NoEqualsIsFixed(digit: char -> bool, t: string)
    requires '=' !in t
    ensures SubInst(digit, t) == t
  {
    NoInstIsFixed(digit, t);
  }

  lemma SubInBrackets(digit: char -> bool, t: string, open: char, close: char)
    requires open !in INST && !digit(open) && close !in INST && !digit(close)
    ensures SubInst(digit, [open] + (t + [close])) == [open] + (SubInst(digit, t) + [close])
  {
    SubAcrossBarrier(digit, t, close, "");
    assert [close] + "" == [close];
    var inner := t + [close];
    SubAcrossBarrier(digit, "", open, inner);
    assert "" + ([open] + inner) == [open] + inner;
    assert "" + ([open] + SubInst(digit, inner)) == [open] + SubInst(digit, inner);
  }

  lemma HostPartSub(digit: char -> bool, host: string)
    requires DigitClass(digit)
    ensures SubInst(digit, HostPart(host)) ==
            (if ':' in host then "[" + (SubInst(digit, host) + "]") else SubInst(digit, host))
  {
    if ':' in host {
      SubInBrackets(digit, host, '[', ']');
    }
  }

  lemma Cancel(x: string, y: string, w: string, z: string)
    ensures x + (y + z) == x + (w + z) <==> y == w
  {
    if x + (y + z) == x + (w + z) {
      assert y + z == (x + (y + z))[|x|..] && w + z == (x + (w + z))[|x|..];
      assert y == (y + z)[..|y|] && w == (w + z)[..|w|];
    }
  }

  lemma QuotedHasNoEquals(c: Connection)
    ensures '=' !in UserInfo(c)
  {
    QuoteRoundTrip(c.username);
    QuoteRoundTrip(c.password);
    assert '=' !in Quote(c.username) && '=' !in Quote(c.password);
  }

  lemma HeadSub(digit: char -> bool, c: Connection, host: string, port: int)
    requires DigitClass(digit)
    ensures SubInst(digit, Head(c, host, port)) ==
            UserInfo(c) + ("@" + (SubInst(digit, HostPart(host)) + (":" + PortPart(port))))
  {
    var hp := HostPart(host);
    QuotedHasNoEquals(c);
    NoEqualsIsFixed(digit, UserInfo(c));
    assert '=' !in PortPart(port);
    NoEqualsIsFixed(digit, PortPart(port));
    SubAcrossBarrier(digit, hp, ':', PortPart(port));
    SubAcrossBarrier(digit, UserInfo(c), '@', hp + (":" + PortPart(port)));
  }

  lemma HeadIsFixedIff(digit: char -> bool, c: Connection, host: string, port: int)
    requires DigitClass(digit)
    ensures SubInst(digit, Head(c, host, port)) == Head(c, host, port) <==> NamesOnlyFour(digit, host)
  {
    HeadSub(digit, c, host, port);
    HostPartSub(digit, host);
    FixedIffNamesOnlyFour(digit, host);
    var hp, hp' := HostPart(host), SubInst(digit, HostPart(host));
    var behind := ":" + PortPart(port);
    Cancel(UserInfo(c) + "@", hp, hp', behind);
    Regroup(UserInfo(c), "@", hp + behind);
    Regroup(UserInfo(c), "@", hp' + behind);
    Cancel("[", host, SubInst(digit, host), "]");
  }

  lemma JoinIsFixed(digit: char -> bool, a: string, b: string)
    requires DigitClass(digit) && SubInst(digit, a) == a && SubInst(digit, b) == b
    ensures SubInst(digit, a + ("&" + b)) == a + ("&" + b)
  {
    SubAcrossBarrier(digit, a, '&', b);
  }

  lemma DurationIsFixed(digit: char -> bool, d: string)
    requires '=' !in d
    ensures SubInst(digit, "maxSessionDuration=" + d) == "maxSessionDuration=" + d
  {
    NoInstIsFixed(digit, "maxSessionDuration=" + d);
  }

  lemma FormatIsFixed(digit: char -> bool)
    ensures SubInst(digit, "fmtp=1") == "fmtp=1"
  {
    NoInstIsFixed(digit, "fmtp=1");
  }

  lemma AudioIsFixed(digit: char -> bool, flag: string)
    requires '=' !in flag
    ensures SubInst(digit, "enableaudio=" + flag) == "enableaudio=" + flag
  {
    NoInstIsFixed(digit, "enableaudio=" + flag);
  }

  lemma OptionsAreFixed(digit: char -> bool, c: Connection, audio: bool)
    requires DigitClass(digit)
    ensures SubInst(digit, Options(c, audio)) == Options(c, audio)
  {
    var duration := "maxSessionDuration=" + DecimalInt(c.maxSessionSeconds);
    DurationIsFixed(digit, DecimalInt(c.maxSessionSeconds));
    FormatIsFixed(digit);
    AudioIsFixed(digit, if audio then "1" else "0");
    JoinIsFixed(digit, "fmtp=1", duration);
    JoinIsFixed(digit, "enableaudio=" + (if audio then "1" else "0"), "fmtp=1" + ("&" + duration));
  }

  lemma InstanceIsReplaced(digit: char -> bool, quality: int)
    requires DigitClass(digit) && 1 <= quality <= 4
    ensures SubInst(digit, "inst=" + DecimalInt(quality)) == "inst=4"
  {
    var d := DecimalInt(quality);
    var t := "inst=" + d;
    assert t[5..] == d && d + "" == d;
    RunStopsAt(d, "", digit);
    assert t[|t|..] == "";
  }

  lemma LowQualityOf(digit: char -> bool, head: string, inst: string, opts: string)
    requires DigitClass(digit) && INST <= inst && SubInst(digit, inst) == "inst=4" && SubInst(digit, opts) == opts
    ensures ApplyQuality(digit, head + ("?" + (inst + ("&" + opts))), "low")
            == SubInst(digit, head) + ("?" + ("inst=4" + ("&" + opts)))
  {
    var tail := inst + ("&" + opts);
    assert INST <= tail;
    ContainsBehind("?", tail, INST);
    ContainsBehind(head, "?" + tail, INST);
    SubAcrossBarrier(digit, inst, '&', opts);
    SubAcrossBarrier(digit, head, '?', tail);
  }

  lemma CancelTail(x: string, y: string, z: string)
    ensures x + z == y + z <==> x == y
  {
    if x + z == y + z {
      assert x == (x + z)[..|x|] && y == (y + z)[..|y|];
    }
  }

  /**
   Printing an address and then asking for low quality is printing it for instance 4,
   for all credentials, exactly when the host does not itself name another instance.
   */
  lemma LowQualityCommutesWithPrinting(digit: char -> bool, c: Connection, port: int, quality: int, audio: bool,
                                       host: string)
    requires DigitClass(digit) && 1 <= quality <= 4
    ensures (ApplyQuality(digit, Address(c, port, quality, audio, host).value, "low")
             == Address(c, port, 4, audio, host).value)
            <==> NamesOnlyFour(digit, host)
  {
    var head, opts := Head(c, host, port), Options(c, audio);
    InstanceIsReplaced(digit, quality);
    OptionsAreFixed(digit, c, audio);
    LowQualityOf(digit, head, "inst=" + DecimalInt(quality), opts);
    assert "inst=" + DecimalInt(4) == "inst=4";
    CancelTail(SubInst(digit, head), head, "?" + ("inst=4" + ("&" + opts)));
    HeadIsFixedIff(digit, c, host, port);
  }

  /** On the host `inst=2` the two do not commute. */
  lemma HostNamingAnInstance(digit: char -> bool, c: Connection, port: int, quality: int, audio: bool)
    requires DigitClass(digit) && 1 <= quality <= 4
    ensures ApplyQuality(digit, Address(c, port, quality, audio, "inst=2").value, "low")
            != Address(c, port, 4, audio, "inst=2").value
  {
    var host := "inst=2";
    assert host[5..] == "2" && "2" + "" == "2";
    RunStopsAt("2", "", digit);
    assert host[0..] == host && InstAt(digit, host[0..]).Some? && host[5] != '4';
    assert !NamesOnlyFour(digit, host);
    LowQualityCommutesWithPrinting(digit, c, port, quality, audio, host);
  }

  /** A host without `=` names no instance, so for such hosts the two always commute. */
  lemma LowQualityOnPlainHosts(digit: char -> bool, c: Connection, port: int, quality: int, audio: bool, host: string)
    requires DigitClass(digit) && 1 <= quality <= 4 && '=' !in host
    ensures ApplyQuality(digit, Address(c, port, quality, audio, host).value, "low")
            == Address(c, port, 4, audio, host).value
  {
    NoEqualsIsFixed(digit, host);
    FixedIffNamesOnlyFour(digit, host);
    LowQualityCommutesWithPrinting(digit, c, port, quality, audio, host);
  }

  lemma UserInfoInFront(u: string, p: string, rest: string, tail: string)
    ensures ("rtsp://" + (u + (":" + p))) + ("@" + rest) + tail == "rtsp://" + (u + (":" + (p + ("@" + (rest + tail)))))
  {
    Regroup(u, ":" + p, "@" + (rest + tail));
    Regroup(":", p, "@" + (rest + tail));
    Regroup("@", rest, tail);
    Regroup("rtsp://", u + (":" + p), "@" + (rest + tail));
    Regroup("rtsp://" + (u + (":" + p)), "@" + rest, tail);
  }

  /** From every address, for every quality, the credentials split off and decode back. */
  lemma CredentialsRoundTrip(c: Connection, port: int, quality: int, audio: bool, host: string)
    requires 1 <= quality <= 4
    ensures Credentials(Address(c, port, quality, audio, host).value) == Some((c.username, c.password))
  {
    var rest := HostPart(host) + (":" + PortPart(port));
    var tail := "?" + (("inst=" + DecimalInt(quality)) + ("&" + Options(c, audio)));
    CredentialsOf(c.username, c.password, rest + tail);
    UserInfoInFront(Quote(c.username), Quote(c.password), rest, tail);
  }
}
