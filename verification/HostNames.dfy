/** The hosts of section 3.2.2 of RFC 3986: registered names and bracketed address literals. */
module HostNames {
  import opened Wrappers
  import opened Text

  // ---- Characters ----

  predicate IsUnreservedChar(c: char) {
    '0' <= c <= '9' || 'A' <= c <= 'Z' || 'a' <= c <= 'z' || c == '-' || c == '.' || c == '_' || c == '~'
  }

  predicate IsSubDelim(c: char) {
    || c == '!' || c == '$' || c == '&' || c == '\'' || c == '(' || c == ')'
    || c == '*' || c == '+' || c == ',' || c == ';' || c == '='
  }

  predicate IsNameChar(c: char) { IsUnreservedChar(c) || IsSubDelim(c) }
  predicate IsLiteralChar(c: char) { IsNameChar(c) || c == ':' }

  // ---- Registered names ----

  /** Name characters and percent-encoded bytes. */
  predicate IsRegName(t: string) {
    t == "" ||
    if t[0] == '%' then |t| >= 3 && IsHexChar(t[1]) && IsHexChar(t[2]) && IsRegName(t[3..])
    else IsNameChar(t[0]) && IsRegName(t[1..])
  }

  lemma {:induction false} RegNameChars(t: string)
    requires IsRegName(t)
    ensures forall i | 0 <= i < |t| :: IsNameChar(t[i]) || t[i] == '%'
    decreases |t|
  {
    if t != "" {
      if t[0] == '%' {
        RegNameChars(t[3..]);
        assert forall i | 3 <= i < |t| :: t[i] == t[3..][i - 3];
      } else {
        RegNameChars(t[1..]);
      }
    }
  }

  lemma {:induction false} NameCharsAreRegName(t: string)
    requires AllOf(t, IsNameChar)
    ensures IsRegName(t)
  {
    if t != "" { NameCharsAreRegName(t[1..]); }
  }

  // ---- Address literals ----

  /** The parts of a text between the separators; a text without one is its only part. */
  function PartsOf(t: string, c: char): (parts: seq<string>)
    ensures |parts| >= 1
    decreases |t|
  {
    match Partition(t, c)
    case None => [t]
    case Some((first, rest)) => [first] + PartsOf(rest, c)
  }

  /** A decimal octet without leading zeros. */
  predicate IsOctet(t: string) {
    ReadNat(t).Some? && ReadNat(t).value <= 255 && t == Decimal(ReadNat(t).value)
  }

  predicate IsIpv4(t: string) {
    var parts := PartsOf(t, '.');
    |parts| == 4 && IsOctet(parts[0]) && IsOctet(parts[1]) && IsOctet(parts[2]) && IsOctet(parts[3])
  }

  /** One group of 16 bits. */
  predicate IsGroup(t: string) { 1 <= |t| <= 4 && AllOf(t, IsHexChar) }

  /** How many groups the parts stand for; only the last may be an IPv4 address, which stands for two. */
  function GroupsIn(parts: seq<string>, ipv4AtEnd: bool): Option<nat> {
    if |parts| == 0 then Some(0)
    else if |parts| == 1 && ipv4AtEnd && IsIpv4(parts[0]) then Some(2)
    else if !IsGroup(parts[0]) then None
    else
      match GroupsIn(parts[1..], ipv4AtEnd)
      case Some(n) => Some(n + 1)
      case None => None
  }

  /** The parts of one side of the elision, which may be empty. */
  function SideGroups(t: string, ipv4AtEnd: bool): Option<nat> {
    if t == "" then Some(0) else GroupsIn(PartsOf(t, ':'), ipv4AtEnd)
  }

  /** Where the first `::` stands. */
  function Elision(t: string): (i: Option<nat>)
    ensures i.Some? ==> i.value + 2 <= |t| && t[i.value] == ':' && t[i.value + 1] == ':'
  {
    if |t| < 2 then None
    else if t[0] == ':' && t[1] == ':' then Some(0)
    else
      match Elision(t[1..])
      case Some(i) => Some(i + 1)
      case None => None
  }

  /** Eight groups, or fewer around one `::`, which stands for at least one group. */
  predicate IsIpv6(t: string) {
    match Elision(t)
    case None => SideGroups(t, true) == Some(8)
    case Some(i) =>
      var left, right := SideGroups(t[..i], false), SideGroups(t[i + 2..], true);
      left.Some? && right.Some? && left.value + right.value <= 7
  }

  /** `v`, a version in hex, a dot, and literal characters. */
  predicate IsIpvFuture(t: string) {
    && |t| >= 4 && (t[0] == 'v' || t[0] == 'V')
    && var n := Run(t[1..], IsHexChar);
       && n > 0 && n + 2 < |t| && t[n + 1] == '.' && AllOf(t[n + 2..], IsLiteralChar)
  }

  predicate IsLiteral(t: string) { IsIpv6(t) || IsIpvFuture(t) }

  // ---- Literals keep to their alphabet ----

  /** Every character is of the class or a separator. */
  ghost predicate InClass(t: string, c: char, p: char -> bool) {
    forall i | 0 <= i < |t| :: p(t[i]) || t[i] == c
  }

  ghost predicate PartsInClass(parts: seq<string>, p: char -> bool) {
    forall part | part in parts :: AllOf(part, p)
  }

  lemma ClassJoins(first: string, rest: string, c: char, p: char -> bool)
    requires AllOf(first, p) && InClass(rest, c, p)
    ensures InClass(first + ([c] + rest), c, p)
  {
  }

  lemma PartsInClassTail(parts: seq<string>, p: char -> bool)
    requires |parts| >= 1 && PartsInClass(parts, p)
    ensures AllOf(parts[0], p) && PartsInClass(parts[1..], p)
  {
    assert parts[0] in parts;
  }

  lemma {:induction false} PartsChars(t: string, c: char, p: char -> bool)
    requires PartsInClass(PartsOf(t, c), p)
    ensures InClass(t, c, p)
    decreases |t|
  {
    PartsInClassTail(PartsOf(t, c), p);
    match Partition(t, c)
    case None => assert PartsOf(t, c)[0] == t;
    case Some((first, rest)) =>
      PartitionSplits(t, c);
      assert PartsOf(t, c)[0] == first && PartsOf(t, c)[1..] == PartsOf(rest, c);
      PartsChars(rest, c, p);
      ClassJoins(first, rest, c, p);
  }

  lemma PartitionSplits(t: string, c: char)
    requires Partition(t, c).Some?
    ensures t == Partition(t, c).value.0 + ([c] + Partition(t, c).value.1)
  {
  }

  lemma OctetChars(t: string)
    requires IsOctet(t)
    ensures AllOf(t, IsNameChar)
  {
  }

  lemma Ipv4Chars(t: string)
    requires IsIpv4(t)
    ensures AllOf(t, IsLiteralChar)
  {
    var parts := PartsOf(t, '.');
    forall part | part in parts ensures AllOf(part, IsNameChar) {
      assert part == parts[0] || part == parts[1] || part == parts[2] || part == parts[3];
      OctetChars(part);
    }
    assert PartsInClass(parts, IsNameChar);
    PartsChars(t, '.', IsNameChar);
  }

  lemma {:induction false} GroupChars(parts: seq<string>, ipv4AtEnd: bool)
    requires GroupsIn(parts, ipv4AtEnd).Some?
    ensures PartsInClass(parts, IsLiteralChar)
  {
    if |parts| == 1 && ipv4AtEnd && IsIpv4(parts[0]) {
      Ipv4Chars(parts[0]);
    } else if |parts| > 0 {
      GroupChars(parts[1..], ipv4AtEnd);
      assert parts == [parts[0]] + parts[1..];
    }
  }

  lemma SideChars(t: string, ipv4AtEnd: bool)
    requires SideGroups(t, ipv4AtEnd).Some?
    ensures AllOf(t, IsLiteralChar)
  {
    if t != "" {
      GroupChars(PartsOf(t, ':'), ipv4AtEnd);
      PartsChars(t, ':', IsLiteralChar);
    }
  }

  lemma ElidedChars(left: string, right: string)
    requires AllOf(left, IsLiteralChar) && AllOf(right, IsLiteralChar)
    ensures AllOf(left + ("::" + right), IsLiteralChar)
  {
  }

  lemma AroundElision(t: string, i: nat)
    requires i + 2 <= |t| && t[i] == ':' && t[i + 1] == ':'
    ensures t == t[..i] + ("::" + t[i + 2..])
  {
  }

  lemma ElidedSidesChars(left: string, right: string)
    requires SideGroups(left, false).Some? && SideGroups(right, true).Some?
    ensures AllOf(left + ("::" + right), IsLiteralChar)
  {
    SideChars(left, false);
    SideChars(right, true);
    ElidedChars(left, right);
  }

  lemma Ipv6Chars(t: string)
    requires IsIpv6(t)
    ensures AllOf(t, IsLiteralChar)
  {
    match Elision(t)
    case None => SideChars(t, true);
    case Some(i) =>
      ElidedSidesChars(t[..i], t[i + 2..]);
      AroundElision(t, i);
  }

  lemma IpvFutureChars(t: string)
    requires IsIpvFuture(t)
    ensures AllOf(t, IsLiteralChar)
  {
    var n := Run(t[1..], IsHexChar);
    assert forall k | 1 <= k < n + 1 :: t[k] == t[1..][k - 1];
    assert forall k | n + 2 <= k < |t| :: t[k] == t[n + 2..][k - n - 2];
  }

  lemma LiteralChars(t: string)
    requires IsLiteral(t)
    ensures AllOf(t, IsLiteralChar)
  {
    if IsIpv6(t) { Ipv6Chars(t); } else { IpvFutureChars(t); }
  }

  // ---- Eight groups, and the loopback address ----

  /** The groups joined by colons. */
  function Joined(groups: seq<string>): string
    requires |groups| >= 1
  {
    if |groups| == 1 then groups[0] else groups[0] + (":" + Joined(groups[1..]))
  }

  /** What a text of such groups is to the reader. */
  ghost predicate ReadsAsGroups(t: string, groups: seq<string>) {
    && PartsOf(t, ':') == groups && GroupsIn(groups, true) == Some(|groups|)
    && Elision(t).None? && t != "" && t[0] != ':'
  }

  lemma {:induction false} JoinedParts(groups: seq<string>)
    requires |groups| >= 1 && forall g | g in groups :: IsGroup(g)
    ensures ReadsAsGroups(Joined(groups), groups)
  {
    assert IsGroup(groups[0]);
    if |groups| == 1 {
      OneGroup(groups[0]);
    } else {
      JoinedParts(groups[1..]);
      OneGroupMore(groups[0], Joined(groups[1..]), groups[1..]);
      assert groups == [groups[0]] + groups[1..];
    }
  }

  lemma OneGroupMore(g: string, rest: string, groups: seq<string>)
    requires IsGroup(g) && ReadsAsGroups(rest, groups)
    ensures ReadsAsGroups(g + (":" + rest), [g] + groups)
  {
    PartitionFinds(g, ':', rest);
    ElisionBehind(g, rest);
    assert ([g] + groups)[1..] == groups;
    assert (g + (":" + rest))[0] == g[0];
  }

  lemma OneGroup(g: string)
    requires IsGroup(g)
    ensures PartsOf(g, ':') == [g] && GroupsIn([g], true) == Some(1) && Elision(g).None?
  {
    NoDotNoIpv4(g);
    NoColonNoElision(g);
  }

  lemma NoDotNoIpv4(g: string)
    requires '.' !in g
    ensures !IsIpv4(g)
  {
  }

  lemma {:induction false} NoColonNoElision(g: string)
    requires ':' !in g
    ensures Elision(g).None?
  {
    if |g| >= 2 { NoColonNoElision(g[1..]); }
  }

  lemma {:induction false} ElisionBehind(g: string, rest: string)
    requires ':' !in g && Elision(rest).None? && rest != "" && rest[0] != ':'
    ensures Elision(g + (":" + rest)).None?
  {
    var t := g + (":" + rest);
    if g == "" {
      assert t[1..] == rest;
    } else {
      assert t[1..] == g[1..] + (":" + rest);
      ElisionBehind(g[1..], rest);
    }
  }

  /** Any eight groups of one to four hex digits are a literal, and hold a colon. */
  lemma EightGroupsAreALiteral(groups: seq<string>)
    requires |groups| == 8 && forall g | g in groups :: IsGroup(g)
    ensures IsLiteral(Joined(groups)) && ':' in Joined(groups)
  {
    JoinedParts(groups);
    assert Joined(groups)[|groups[0]|] == ':';
  }

  /** The loopback address is a literal. */
  lemma LoopbackIsALiteral()
    ensures IsLiteral("::1") && ':' in "::1"
  {
    var t := "::1";
    assert t[0] == ':' && Elision(t) == Some(0);
    assert t[..0] == "" && t[2..] == "1";
    OneGroup("1");
  }

  /** Groups of any other number, with no elision between them, are not. */
  lemma CountsMatter(groups: seq<string>)
    requires |groups| >= 1 && |groups| != 8 && forall g | g in groups :: IsGroup(g)
    ensures !IsIpv6(Joined(groups))
  {
    JoinedParts(groups);
  }

  lemma DefaultHostIsAName()
    ensures IsRegName("127.0.0.1") && ':' !in "127.0.0.1"
  {
    NameCharsAreRegName("127.0.0.1");
  }

  /** A slash, an opening bracket and an at sign belong to no name, and two groups to no literal. */
  lemma TheseAreNoHosts()
    ensures !IsRegName("a/b") && !IsRegName("[x") && !IsRegName("u@h") && !IsLiteral("a:b")
  {
    NoNameWith("a/b", 1);
    NoNameWith("[x", 0);
    NoNameWith("u@h", 1);
    CountsMatter(["a", "b"]);
    assert Joined(["a", "b"]) == "a:b";
  }

  lemma NoNameWith(t: string, i: nat)
    requires i < |t| && !IsNameChar(t[i]) && t[i] != '%'
    ensures !IsRegName(t)
  {
    if IsRegName(t) { RegNameChars(t); }
  }
}
