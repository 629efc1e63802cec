/**
 What the Digest answer says, spelled out against the challenge: the header text, the
 values a server reads from it, and the challenges the helper can read.
 */
module DigestLaws {
  import opened Wrappers
  import opened Text
  import opened DigestSyntax
  import opened Digest

  // ---- Letter case and the first entry of a list ----

  /** `t` is the word `lower`, spelled `upper` in capitals, in some mixture of the two. */
  predicate InAnyCase(t: string, lower: string, upper: string)
    requires |lower| == |upper|
  {
    |t| == |lower| && forall i | 0 <= i < |t| :: t[i] == lower[i] || t[i] == upper[i]
  }

  predicate CasePair(lower: string, upper: string) {
    && |lower| == |upper|
    && forall i | 0 <= i < |lower| :: UpperChar(lower[i]) == upper[i] && LowerChar(upper[i]) == lower[i]
  }

  lemma MappedIffAnyCase(cs: Chars, t: string, lower: string, upper: string)
    requires Faithful(cs) && AllOf(t, IsAscii) && CasePair(lower, upper)
    ensures cs.upper(t) == upper <==> InAnyCase(t, lower, upper)
    ensures cs.lower(t) == lower <==> InAnyCase(t, lower, upper)
  {
    if InAnyCase(t, lower, upper) {
      assert AsciiUpper(t) == upper && AsciiLower(t) == lower;
    }
    if AsciiUpper(t) == upper {
      forall i | 0 <= i < |t| ensures t[i] == lower[i] || t[i] == upper[i] { assert AsciiUpper(t)[i] == upper[i]; }
    }
    if AsciiLower(t) == lower {
      forall i | 0 <= i < |t| ensures t[i] == lower[i] || t[i] == upper[i] { assert AsciiLower(t)[i] == lower[i]; }
    }
  }

  predicate IsEntry(list: string, before: string, w: string, after: string, more: string) {
    && list == (before + (w + after)) + more
    && AllOf(before, IsSpace) && AllOf(after, IsSpace) && ',' !in w && (more == "" || more[0] == ',')
    && (w == "" || (!IsSpace(w[0]) && !IsSpace(w[|w| - 1])))
  }

  /** `w` is the text before the first comma without the white space around it. */
  ghost predicate FirstEntryIs(list: string, w: string) {
    exists before, after, more :: IsEntry(list, before, w, after, more)
  }

  lemma FirstEntryIsRead(cs: Chars, challenge: map<string, string>, w: string)
    requires Faithful(cs) && FirstEntryIs(if "qop" in challenge then challenge["qop"] else "", w)
    ensures QopValue(cs, challenge) == cs.lower(w)
  {
    var list := if "qop" in challenge then challenge["qop"] else "";
    var before, after, more :| IsEntry(list, before, w, after, more);
    var entry := before + (w + after);
    forall i | 0 <= i < |entry| ensures entry[i] != ',' { assert !IsSpace(','); }
    RunStopsAt(entry, more, (c: char) => c != ',');
    assert list[..|entry|] == entry;
    StripUnpads(before, w, after);
    if list == "" {
      assert AllOf("", IsAscii) && AsciiLower("") == "";
    }
  }

  // ---- The header as text ----

  function Quoted(value: string): string { "\"" + (value + "\"") }

  function CommaJoin(parts: seq<string>): string {
    if parts == [] then ""
    else if |parts| == 1 then parts[0]
    else parts[0] + (", " + CommaJoin(parts[1..]))
  }

  function Printed(items: seq<Item>): (parts: seq<string>)
    ensures |parts| == |items| && forall i | 0 <= i < |items| :: parts[i] == Print(items[i])
  {
    seq(|items|, i requires 0 <= i < |items| => Print(items[i]))
  }

  lemma {:induction false} JoinedIsPrinted(items: seq<Item>)
    ensures Join(items) == CommaJoin(Printed(items))
  {
    if |items| > 1 {
      JoinedIsPrinted(items[1..]);
      assert Printed(items)[1..] == Printed(items[1..]);
    }
  }

  lemma PrintedPair(key: string, keyIs: string, value: string)
    requires keyIs == key + "="
    ensures Print(Item(key, value, true)) == keyIs + Quoted(value)
    ensures Print(Item(key, value, false)) == keyIs + value
  {
    Regroup(key, "=", Quoted(value));
    Regroup(key, "=", value);
  }

  /** The parts every header has, then cnonce, qop and nc, and opaque. */
  function Parts(user: string, realm: string, nonce: string, uri: string, algorithm: string, response: string,
                 cnonce: string, auth: bool, opaqueValue: string): seq<string>
  {
    ["username=" + Quoted(user), "realm=" + Quoted(realm), "nonce=" + Quoted(nonce), "uri=" + Quoted(uri),
     "algorithm=" + algorithm, "response=" + Quoted(response)]
    + (if auth || algorithm == "MD5-SESS" || algorithm == "SHA-256-SESS" then ["cnonce=" + Quoted(cnonce)] else [])
    + (if auth then ["qop=auth", "nc=00000001"] else [])
    + (if opaqueValue != "" then ["opaque=" + Quoted(opaqueValue)] else [])
  }

  lemma PrintedSum(a: seq<Item>, b: seq<Item>)
    ensures Printed(a + b) == Printed(a) + Printed(b)
  {
  }

  lemma PrintedCore(user: string, realm: string, nonce: string, uri: string, algorithm: string, response: string)
    ensures Printed(Core(user, realm, nonce, uri, algorithm, response)) ==
            ["username=" + Quoted(user), "realm=" + Quoted(realm), "nonce=" + Quoted(nonce), "uri=" + Quoted(uri),
             "algorithm=" + algorithm, "response=" + Quoted(response)]
  {
    PrintedPair("username", "username=", user);
    PrintedPair("realm", "realm=", realm);
    PrintedPair("nonce", "nonce=", nonce);
    PrintedPair("uri", "uri=", uri);
    PrintedPair("algorithm", "algorithm=", algorithm);
    PrintedPair("response", "response=", response);
  }

  lemma PrintedCnonce(cnonce: string, sent: bool)
    ensures Printed(if sent then [Item("cnonce", cnonce, true)] else [])
            == if sent then ["cnonce=" + Quoted(cnonce)] else []
  {
    PrintedPair("cnonce", "cnonce=", cnonce);
  }

  lemma PrintedQop(auth: bool)
    ensures Printed(if auth then [Item("qop", "auth", false), Item("nc", NC, false)] else [])
            == if auth then ["qop=auth", "nc=00000001"] else []
  {
    PrintedPair("qop", "qop=", "auth");
    PrintedPair("nc", "nc=", "00000001");
    assert "qop=" + "auth" == "qop=auth";
    assert "nc=" + "00000001" == "nc=00000001";
  }

  lemma PrintedOpaque(value: string)
    ensures Printed(if value != "" then [Item("opaque", value, true)] else [])
            == if value != "" then ["opaque=" + Quoted(value)] else []
  {
    PrintedPair("opaque", "opaque=", value);
  }

  lemma PrintedItems(user: string, realm: string, nonce: string, uri: string, algorithm: string, response: string,
                     cnonce: string, auth: bool, opaqueValue: string)
    ensures Printed(ItemList(user, realm, nonce, uri, algorithm, response, cnonce, auth, opaqueValue))
            == Parts(user, realm, nonce, uri, algorithm, response, cnonce, auth, opaqueValue)
  {
    var base := Core(user, realm, nonce, uri, algorithm, response);
    var c := if auth || IsSess(algorithm) then [Item("cnonce", cnonce, true)] else [];
    var q := if auth then [Item("qop", "auth", false), Item("nc", NC, false)] else [];
    var o := if opaqueValue != "" then [Item("opaque", opaqueValue, true)] else [];
    PrintedCore(user, realm, nonce, uri, algorithm, response);
    PrintedCnonce(cnonce, auth || IsSess(algorithm));
    PrintedQop(auth);
    PrintedOpaque(opaqueValue);
    assert ItemList(user, realm, nonce, uri, algorithm, response, cnonce, auth, opaqueValue) == base + c + q + o;
    PrintedSum(base, c);
    PrintedSum(base + c, q);
    PrintedSum(base + c + q, o);
  }

  // ---- The answer to a challenge ----

  /** The algorithm a challenge asks for: its own in capitals, MD5 when it names none. */
  function Asked(cs: Chars, challenge: map<string, string>): string {
    match Get(challenge, "algorithm")
    case None => "MD5"
    case Some(name) => cs.upper(name)
  }

  lemma AlgorithmIsAsked(cs: Chars, challenge: map<string, string>)
    requires Faithful(cs)
    ensures Algorithm(cs, challenge) == Asked(cs, challenge)
  {
    assert AllOf("MD5", IsAscii) && AsciiUpper("MD5") == "MD5";
  }

  function OrEmpty(value: Option<string>): string { if value.Some? then value.value else "" }

  /** The header that answers a challenge, in full; `w` is the first entry of the qop list. */
  lemma HeaderInFull(cs: Chars, h: Hashes, req: Request, www: string, cnonce: string, w: string)
    requires Faithful(cs) && Parse(cs, www).Some?
    requires var challenge := Parse(cs, www).value;
      FirstEntryIs(if "qop" in challenge then challenge["qop"] else "", w)
    ensures var challenge := Parse(cs, www).value;
      Authorization(cs, h, req, www, cnonce) ==
      Some("Digest " + CommaJoin(Parts(req.user, OrEmpty(Get(challenge, "realm")), challenge["nonce"], req.uri,
                                       Asked(cs, challenge), Response(cs, h, req, challenge, cnonce), cnonce,
                                       cs.lower(w) == "auth", OrEmpty(Get(challenge, "opaque")))))
  {
    var challenge := Parse(cs, www).value;
    AlgorithmIsAsked(cs, challenge);
    FirstEntryIsRead(cs, challenge, w);
    JoinedIsPrinted(Items(cs, h, req, challenge, cnonce));
    PrintedItems(req.user, OrEmpty(Get(challenge, "realm")), challenge["nonce"], req.uri, Asked(cs, challenge),
                 Response(cs, h, req, challenge, cnonce), cnonce, cs.lower(w) == "auth",
                 OrEmpty(Get(challenge, "opaque")));
  }

  /** What the helper's own parser reads from the answer. */
  function Received(cs: Chars, h: Hashes, req: Request, www: string, cnonce: string): Option<map<string, string>> {
    match Authorization(cs, h, req, www, cnonce)
    case None => None
    case Some(header) => Parse(cs, header)
  }

  /** The challenge parses, asks for one of the four algorithms, and user and uri hold no quote. */
  ghost predicate Answerable(cs: Chars, h: Hashes, req: Request, www: string, cnonce: string) {
    && Faithful(cs) && Quotable(h, cnonce) && '"' !in req.user && '"' !in req.uri && Parse(cs, www).Some?
    && Asked(cs, Parse(cs, www).value) in ["MD5", "MD5-SESS", "SHA-256", "SHA-256-SESS"]
  }

  lemma AnswerIsRead(cs: Chars, h: Hashes, req: Request, www: string, cnonce: string)
    requires Answerable(cs, h, req, www, cnonce)
    ensures Usable(cs, Parse(cs, www).value)
    ensures Received(cs, h, req, www, cnonce) == Some(Emitted(Items(cs, h, req, Parse(cs, www).value, cnonce)))
  {
    var challenge := Parse(cs, www).value;
    AlgorithmIsAsked(cs, challenge);
    forall k | k in challenge ensures '"' !in challenge[k] { ParsedValuesHaveNoQuote(cs, www, k); }
    HeaderReadsBackIffNoQuote(cs, h, req, www, cnonce);
  }

  /** The server's own view: algorithm, realm and nonce as in the challenge it sent, the rest as received. */
  function AsSent(cs: Chars, challenge: map<string, string>, received: map<string, string>): map<string, string>
    requires "nonce" in challenge
  {
    received["algorithm" := Asked(cs, challenge)]["realm" := OrEmpty(Get(challenge, "realm"))]
            ["nonce" := challenge["nonce"]]
  }

  lemma Rewritten(d: map<string, string>, key: string, value: string)
    requires Get(d, key) == Some(value)
    ensures d[key := value] == d
  {
  }

  lemma SentIsReceived(cs: Chars, challenge: map<string, string>, d: map<string, string>)
    requires "nonce" in challenge
    requires Get(d, "algorithm") == Some(Asked(cs, challenge))
    requires Get(d, "realm") == Some(OrEmpty(Get(challenge, "realm"))) && Get(d, "nonce") == Some(challenge["nonce"])
    ensures AsSent(cs, challenge, d) == d
  {
    Rewritten(d, "algorithm", Asked(cs, challenge));
    Rewritten(d, "realm", OrEmpty(Get(challenge, "realm")));
    Rewritten(d, "nonce", challenge["nonce"]);
  }

  /**
   The header answers the challenge that was sent: it names the algorithm asked for, the
   challenge's realm and nonce, and a server that hashes by its own challenge accepts it.
   */
  lemma AnswerFitsItsChallenge(cs: Chars, h: Hashes, req: Request, www: string, cnonce: string)
    requires Answerable(cs, h, req, www, cnonce)
    ensures var challenge := Parse(cs, www).value;
      var received := Received(cs, h, req, www, cnonce);
      && received.Some?
      && Get(received.value, "algorithm") == Some(Asked(cs, challenge))
      && Get(received.value, "realm") == Some(OrEmpty(Get(challenge, "realm")))
      && Get(received.value, "nonce") == Some(challenge["nonce"])
      && Get(received.value, "username") == Some(req.user) && Get(received.value, "uri") == Some(req.uri)
      && Some(ServerResponse(h, AsSent(cs, challenge, received.value), cs.upper(req.verb), req.password))
         == Get(received.value, "response")
  {
    var challenge := Parse(cs, www).value;
    AnswerIsRead(cs, h, req, www, cnonce);
    AlgorithmIsAsked(cs, challenge);
    var received := Received(cs, h, req, www, cnonce).value;
    EmittedValues(cs, h, req, challenge, cnonce);
    ServerAgrees(cs, h, req, challenge, cnonce);
    SentIsReceived(cs, challenge, received);
  }

  lemma NotListed(items: seq<Item>, key: string)
    requires forall i | 0 <= i < |items| :: KeysDiffer(items[i].key, key)
    ensures Get(Emitted(items), key) == None
  {
    KeyIsEmitted(items, key);
  }

  lemma ListedOpaque(user: string, realm: string, nonce: string, uri: string, algorithm: string, response: string,
                     cnonce: string, auth: bool, opaqueValue: string)
    ensures var d := Emitted(ItemList(user, realm, nonce, uri, algorithm, response, cnonce, auth, opaqueValue));
      Get(d, "opaque") == (if opaqueValue != "" then Some(opaqueValue) else None)
  {
    var items := ItemList(user, realm, nonce, uri, algorithm, response, cnonce, auth, opaqueValue);
    if opaqueValue != "" {
      ItemKeysAreDistinct(user, realm, nonce, uri, algorithm, response, cnonce, auth, opaqueValue);
      assert items[|items| - 1] == Item("opaque", opaqueValue, true);
      ItemLookup(items, |items| - 1);
    } else {
      NotListed(items, "opaque");
    }
  }

  lemma UnlistedExtras(user: string, realm: string, nonce: string, uri: string, algorithm: string,
                       response: string, cnonce: string, opaqueValue: string)
    ensures var d := Emitted(ItemList(user, realm, nonce, uri, algorithm, response, cnonce, false, opaqueValue));
      Get(d, "nc") == None && (!IsSess(algorithm) ==> Get(d, "cnonce") == None)
  {
    var items := ItemList(user, realm, nonce, uri, algorithm, response, cnonce, false, opaqueValue);
    NotListed(items, "nc");
    if !IsSess(algorithm) {
      NotListed(items, "cnonce");
    }
  }

  /**
   What a header says beyond its six fixed directives: `qop` and `nc` with auth, `cnonce`
   with auth and for the -sess algorithms, and `opaque` when there is one.
   */
  ghost predicate HasExtras(d: map<string, string>, algorithm: string, cnonce: string, auth: bool,
                            opaqueValue: string)
  {
    && Get(d, "qop") == (if auth then Some("auth") else None)
    && Get(d, "nc") == (if auth then Some("00000001") else None)
    && Get(d, "cnonce")
       == (if auth || algorithm == "MD5-SESS" || algorithm == "SHA-256-SESS" then Some(cnonce) else None)
    && Get(d, "opaque") == (if opaqueValue != "" then Some(opaqueValue) else None)
  }

  lemma ListedExtras(user: string, realm: string, nonce: string, uri: string, algorithm: string, response: string,
                     cnonce: string, auth: bool, opaqueValue: string)
    ensures HasExtras(Emitted(ItemList(user, realm, nonce, uri, algorithm, response, cnonce, auth, opaqueValue)),
                      algorithm, cnonce, auth, opaqueValue)
  {
    ListedValues(user, realm, nonce, uri, algorithm, response, cnonce, auth, opaqueValue);
    ListedOpaque(user, realm, nonce, uri, algorithm, response, cnonce, auth, opaqueValue);
    UnlistedExtras(user, realm, nonce, uri, algorithm, response, cnonce, opaqueValue);
  }

  lemma ItemsHaveExtras(cs: Chars, h: Hashes, req: Request, challenge: map<string, string>, cnonce: string, w: string)
    requires Faithful(cs) && "nonce" in challenge && QopValue(cs, challenge) == cs.lower(w)
    ensures HasExtras(Emitted(Items(cs, h, req, challenge, cnonce)), Asked(cs, challenge), cnonce,
                      cs.lower(w) == "auth", OrEmpty(Get(challenge, "opaque")))
  {
    AlgorithmIsAsked(cs, challenge);
    ListedExtras(req.user, GetOr(challenge, "realm", ""), challenge["nonce"], req.uri, Asked(cs, challenge),
                 Response(cs, h, req, challenge, cnonce), cnonce, cs.lower(w) == "auth",
                 OrEmpty(Get(challenge, "opaque")));
  }

  /** The extras follow the challenge; `w` is the first entry of its qop list. */
  lemma ExtrasFollowTheChallenge(cs: Chars, h: Hashes, req: Request, www: string, cnonce: string, w: string)
    requires Answerable(cs, h, req, www, cnonce)
    requires var challenge := Parse(cs, www).value;
      FirstEntryIs(if "qop" in challenge then challenge["qop"] else "", w)
    ensures var challenge := Parse(cs, www).value;
      var received := Received(cs, h, req, www, cnonce);
      && received.Some?
      && HasExtras(received.value, Asked(cs, challenge), cnonce, cs.lower(w) == "auth",
                   OrEmpty(Get(challenge, "opaque")))
  {
    var challenge := Parse(cs, www).value;
    AnswerIsRead(cs, h, req, www, cnonce);
    FirstEntryIsRead(cs, challenge, w);
    ItemsHaveExtras(cs, h, req, challenge, cnonce, w);
  }

  /** An ASCII entry is auth, and an ASCII algorithm one of the four, whatever the case of its letters. */
  lemma NamesInAnyCase(cs: Chars, w: string)
    requires Faithful(cs) && AllOf(w, IsAscii)
    ensures cs.lower(w) == "auth" <==> InAnyCase(w, "auth", "AUTH")
    ensures cs.upper(w) == "MD5" <==> InAnyCase(w, "md5", "MD5")
    ensures cs.upper(w) == "MD5-SESS" <==> InAnyCase(w, "md5-sess", "MD5-SESS")
    ensures cs.upper(w) == "SHA-256" <==> InAnyCase(w, "sha-256", "SHA-256")
    ensures cs.upper(w) == "SHA-256-SESS" <==> InAnyCase(w, "sha-256-sess", "SHA-256-SESS")
  {
    MappedIffAnyCase(cs, w, "auth", "AUTH");
    MappedIffAnyCase(cs, w, "md5", "MD5");
    MappedIffAnyCase(cs, w, "md5-sess", "MD5-SESS");
    MappedIffAnyCase(cs, w, "sha-256", "SHA-256");
    MappedIffAnyCase(cs, w, "sha-256-sess", "SHA-256-SESS");
  }

  // ---- The scanner is the pattern ----

  /** `value` is written at the start of `body` in quotes, or as the longest run of bare characters. */
  predicate IsValueAt(cs: Chars, body: string, value: string, rest: string) {
    || (body == "\"" + (value + ("\"" + rest)) && '"' !in value)
    || (body == value + rest && value != "" && (forall i | 0 <= i < |value| :: MayBeBare(cs, value[i]))
        && (rest == "" || !MayBeBare(cs, rest[0])))
  }

  predicate MayBeBare(cs: Chars, c: char) {
    cs.isWord(c) || c == '.' || c == '/' || c == '+' || c == '=' || c == '-'
  }

  /** A word, an equals sign and a value stand at the start of `t`. */
  predicate IsDirectiveAt(cs: Chars, t: string, d: Directive) {
    IsKeyAt(cs, t, d.key) && IsValueAt(cs, t[|d.key| + 1..], d.value, d.rest)
  }

  predicate IsKeyAt(cs: Chars, t: string, key: string) {
    && key != "" && (forall i | 0 <= i < |key| :: cs.isWord(key[i]))
    && |key| < |t| && t[..|key|] == key && t[|key|] == '='
  }

  lemma ValueIsFound(cs: Chars, body: string, value: string, rest: string)
    requires Faithful(cs)
    ensures IsValueAt(cs, body, value, rest) <==> ValueAt(cs, body) == Some((value, rest))
  {
    assert !TokenChar(cs)('"');
    if body == "\"" + (value + ("\"" + rest)) && '"' !in value {
      assert AllOf(value, NotQuote);
      QuotedValueIsRead(cs, value, rest);
    } else if IsValueAt(cs, body, value, rest) {
      assert AllOf(value, TokenChar(cs)) && body[0] == value[0];
      RunStopsAt(value, rest, TokenChar(cs));
    }
    if ValueAt(cs, body) == Some((value, rest)) {
      FoundValueIsWritten(cs, body, value, rest);
    }
  }

  lemma FoundValueIsWritten(cs: Chars, body: string, value: string, rest: string)
    requires Faithful(cs) && ValueAt(cs, body) == Some((value, rest))
    ensures IsValueAt(cs, body, value, rest)
  {
    if body != "" && body[0] == '"' && Run(body[1..], NotQuote) + 1 < |body| {
      var inner := body[1..];
      var m := Run(inner, NotQuote);
      assert inner[m] == '"';
      assert inner == inner[..m] + ("\"" + inner[m + 1..]);
      assert body == "\"" + inner;
    } else {
      RunSplits(body, TokenChar(cs));
    }
  }

  lemma DirectiveBy(cs: Chars, key: string, body: string, t: string)
    requires Faithful(cs) && key != "" && AllOf(key, cs.isWord) && t == key + ("=" + body)
    ensures DirectiveAt(cs, t) == match ValueAt(cs, body)
                                  case None => None
                                  case Some((value, rest)) => Some(Directive(key, value, rest))
  {
    assert !cs.isWord('=');
    RunStopsAt(key, "=" + body, cs.isWord);
    assert t[|key|] == '=' && t[|key| + 1..] == body && t[..|key|] == key;
  }

  lemma WrittenIsFound(cs: Chars, t: string, d: Directive)
    requires Faithful(cs) && IsDirectiveAt(cs, t, d)
    ensures DirectiveAt(cs, t) == Some(d)
  {
    var body := t[|d.key| + 1..];
    assert t == d.key + ("=" + body);
    DirectiveBy(cs, d.key, body, t);
    ValueIsFound(cs, body, d.value, d.rest);
  }

  lemma FoundParts(cs: Chars, t: string, d: Directive)
    requires DirectiveAt(cs, t) == Some(d)
    ensures IsKeyAt(cs, t, d.key) && ValueAt(cs, t[|d.key| + 1..]) == Some((d.value, d.rest))
  {
    var n := Run(t, cs.isWord);
    assert d.key == t[..n] && |d.key| == n;
    assert forall i | 0 <= i < n :: d.key[i] == t[i];
  }

  lemma FoundIsWritten(cs: Chars, t: string, d: Directive)
    requires Faithful(cs) && DirectiveAt(cs, t) == Some(d)
    ensures IsDirectiveAt(cs, t, d)
  {
    FoundParts(cs, t, d);
    FoundValueIsWritten(cs, t[|d.key| + 1..], d.value, d.rest);
  }

  /** The scanner finds a directive at the start of a text exactly when one stands there. */
  lemma DirectiveIsFound(cs: Chars, t: string, d: Directive)
    requires Faithful(cs)
    ensures IsDirectiveAt(cs, t, d) <==> DirectiveAt(cs, t) == Some(d)
  {
    if IsDirectiveAt(cs, t, d) {
      WrittenIsFound(cs, t, d);
    }
    if DirectiveAt(cs, t) == Some(d) {
      FoundIsWritten(cs, t, d);
    }
  }

  /** The pairs are those of the leftmost directives in order, each key in lower case, and no others. */
  lemma ScanTakesTheLeftmost(cs: Chars, t: string, d: Directive)
    requires Faithful(cs)
    ensures IsDirectiveAt(cs, t, d) ==> Scan(cs, t) == [(cs.lower(d.key), d.value)] + Scan(cs, d.rest)
    ensures t != "" && (forall e :: !IsDirectiveAt(cs, t, e)) ==> Scan(cs, t) == Scan(cs, t[1..])
    ensures Scan(cs, "") == []
  {
    DirectiveIsFound(cs, t, d);
    ScanOfNothing(cs);
    if DirectiveAt(cs, t).Some? {
      DirectiveIsFound(cs, t, DirectiveAt(cs, t).value);
    }
  }

  // ---- The challenges the helper reads ----

  /** A directive as a server prints it: a lower case key and a quoted value or a bare token. */
  predicate IsPrintable(item: Item) {
    && item.key != "" && (forall i | 0 <= i < |item.key| :: 'a' <= item.key[i] <= 'z')
    && if item.quoted then '"' !in item.value
       else item.value != "" && forall i | 0 <= i < |item.value| :: IsBare(item.value[i])
  }

  predicate IsBare(c: char) {
    || '0' <= c <= '9' || 'A' <= c <= 'Z' || 'a' <= c <= 'z'
    || c == '_' || c == '.' || c == '/' || c == '+' || c == '=' || c == '-'
  }

  lemma PrintableIsReadable(cs: Chars, item: Item)
    requires Faithful(cs) && IsPrintable(item)
    ensures Readable(cs, item)
  {
    LowerWord(cs, item.key);
    if item.quoted {
      QuotedIsReadable(cs, item.key, item.value);
    } else {
      forall i | 0 <= i < |item.value| ensures TokenChar(cs)(item.value[i]) { assert IsBare(item.value[i]); }
    }
  }

  /** The last directive of a key decides. */
  lemma {:induction false} LastOneCounts(pairs: seq<(string, string)>, i: nat)
    requires i < |pairs| && forall j | i < j < |pairs| :: pairs[j].0 != pairs[i].0
    ensures Get(Dict(pairs), pairs[i].0) == Some(pairs[i].1)
  {
    if i < |pairs| - 1 {
      LastOneCounts(pairs[..|pairs| - 1], i);
    }
  }

  ghost predicate AllPrintable(items: seq<Item>) {
    forall item | item in items :: IsPrintable(item)
  }

  ghost predicate HasNonce(items: seq<Item>) {
    exists i | 0 <= i < |items| :: items[i].key == "nonce"
  }

  /** A scheme holds neither white space nor anything outside ASCII. */
  predicate IsScheme(scheme: string) {
    forall k | 0 <= k < |scheme| :: IsAscii(scheme[k]) && !IsSpace(scheme[k])
  }

  /** White space other than the space that ends the scheme, such as tabs. */
  predicate IsPadding(t: string) {
    forall k | 0 <= k < |t| :: IsSpace(t[k]) && t[k] != ' '
  }

  lemma SchemeIsRead(before: string, scheme: string, after: string, body: string)
    requires IsPadding(before) && IsScheme(scheme) && IsPadding(after)
    ensures var header := (before + (scheme + after)) + (" " + body);
            Strip(Scheme(header)) == scheme && Params(header) == body
  {
    forall k | 0 <= k < |scheme| ensures scheme[k] != ' ' { assert IsSpace(' '); }
    assert ' ' !in before + (scheme + after);
    SplitsAtSpace(before + (scheme + after), body);
    StripUnpads(before, scheme, after);
  }

  lemma PrintedChallenge(cs: Chars, items: seq<Item>)
    requires Faithful(cs) && AllPrintable(items)
    ensures Scan(cs, Join(items)) == Pairs(items) && ("nonce" in Emitted(items) <==> HasNonce(items))
  {
    forall item | item in items ensures Readable(cs, item) { PrintableIsReadable(cs, item); }
    PrintedItemsScanBack(cs, items);
    KeyIsEmitted(items, "nonce");
  }

  lemma DigestInAnyCase(cs: Chars, scheme: string)
    requires Faithful(cs) && IsScheme(scheme)
    ensures cs.lower(scheme) == "digest" <==> InAnyCase(scheme, "digest", "DIGEST")
  {
    assert AllOf(scheme, IsAscii);
    MappedIffAnyCase(cs, scheme, "digest", "DIGEST");
  }

  lemma ParsedBy(cs: Chars, header: string, scheme: string, pairs: seq<(string, string)>)
    requires Strip(Scheme(header)) == scheme && Scan(cs, Params(header)) == pairs
    ensures Parse(cs, header)
            == if cs.lower(scheme) == "digest" && "nonce" in Dict(pairs) then Some(Dict(pairs)) else None
  {
  }

  /**
   A challenge of any scheme, with or without padding around it, and printed directives
   parses exactly when the scheme is digest in some letter case and one directive is the
   nonce.
   */
  lemma ChallengeIsRead(cs: Chars, before: string, scheme: string, after: string, items: seq<Item>)
    requires Faithful(cs) && AllPrintable(items) && IsPadding(before) && IsScheme(scheme) && IsPadding(after)
    ensures Parse(cs, (before + (scheme + after)) + (" " + Join(items)))
            == if InAnyCase(scheme, "digest", "DIGEST") && HasNonce(items) then Some(Emitted(items)) else None
  {
    SchemeIsRead(before, scheme, after, Join(items));
    PrintedChallenge(cs, items);
    ParsedBy(cs, (before + (scheme + after)) + (" " + Join(items)), scheme, Pairs(items));
    DigestInAnyCase(cs, scheme);
  }

  /** In it the last directive of a key is the one that counts. */
  lemma LastDirectiveCounts(items: seq<Item>, i: nat)
    requires i < |items| && forall j | i < j < |items| :: items[j].key != items[i].key
    ensures Get(Emitted(items), items[i].key) == Some(items[i].value)
  {
    LastOneCounts(Pairs(items), i);
  }

  lemma DigestIsAScheme(scheme: string)
    requires InAnyCase(scheme, "digest", "DIGEST")
    ensures IsScheme(scheme)
  {
    forall k | 0 <= k < |scheme| ensures IsAscii(scheme[k]) && !IsSpace(scheme[k]) {
      assert 'A' <= "digest"[k] <= 'z' && 'A' <= "DIGEST"[k] <= 'z';
    }
  }

  lemma TrueInAnyCase(cs: Chars, value: string)
    requires Faithful(cs) && AllOf(value, IsAscii)
    ensures cs.lower(value) == "true" <==> InAnyCase(value, "true", "TRUE")
  {
    MappedIffAnyCase(cs, value, "true", "TRUE");
  }

  lemma StaleByValue(cs: Chars, www: string, value: string)
    requires Faithful(cs) && AllOf(value, IsAscii)
    requires Parse(cs, www).Some? && Get(Parse(cs, www).value, "stale") == Some(value)
    ensures IsStale(cs, www) <==> InAnyCase(value, "true", "TRUE")
  {
    TrueInAnyCase(cs, value);
  }

  /** A challenge that parses is stale exactly when its last stale directive says true in some letter case. */
  lemma StaleIffItSaysTrue(cs: Chars, scheme: string, items: seq<Item>, i: nat)
    requires Faithful(cs) && AllPrintable(items) && InAnyCase(scheme, "digest", "DIGEST") && HasNonce(items)
    requires i < |items| && items[i].key == "stale" && forall j | i < j < |items| :: items[j].key != items[i].key
    requires AllOf(items[i].value, IsAscii)
    ensures IsStale(cs, scheme + (" " + Join(items))) <==> InAnyCase(items[i].value, "true", "TRUE")
  {
    DigestIsAScheme(scheme);
    ChallengeIsRead(cs, "", scheme, "", items);
    assert "" + (scheme + "") == scheme;
    LastDirectiveCounts(items, i);
    StaleByValue(cs, scheme + (" " + Join(items)), items[i].value);
  }

  /** A challenge without a stale directive is not stale. */
  lemma NotStaleUnlessSaid(cs: Chars, www: string)
    requires Faithful(cs) && (Parse(cs, www).Some? ==> "stale" !in Parse(cs, www).value)
    ensures !IsStale(cs, www)
  {
    assert AllOf("", IsAscii) && AsciiLower("") == "";
  }
}
