/**
 The Authorization header of HTTP Digest, a server that checks it by sections 3.4.1 to
 3.4.3 of RFC 7616 (section 3.2.2.1 of RFC 2617 without qop), and the request exchange.
 */
module Digest {
  import opened Wrappers
  import opened Text
  import opened DigestSyntax

  /** The two hash functions, as hex text. */
  datatype Hashes = Hashes(md5: string -> string, sha256: string -> string)

  /** What the caller supplies; `uri` is the request target taken from the URL. */
  datatype Request = Request(verb: string, uri: string, user: string, password: string)

  function GetOr(m: map<string, string>, key: string, default: string): string {
    if key in m then m[key] else default
  }

  function Algorithm(cs: Chars, challenge: map<string, string>): string {
    cs.upper(GetOr(challenge, "algorithm", "MD5"))
  }

  predicate IsSess(algorithm: string) { algorithm == "MD5-SESS" || algorithm == "SHA-256-SESS" }

  predicate IsSupported(algorithm: string) {
    algorithm == "MD5" || algorithm == "MD5-SESS" || algorithm == "SHA-256" || algorithm == "SHA-256-SESS"
  }

  /** The first entry of the qop list, trimmed and in lower case. */
  function QopValue(cs: Chars, challenge: map<string, string>): string {
    var qop := GetOr(challenge, "qop", "");
    if qop == "" then "" else cs.lower(Strip(qop[..Run(qop, (c: char) => c != ',')]))
  }

  const NC := "00000001"

  /** The hash the helper selects by the start of the algorithm name. */
  function HashOf(h: Hashes, algorithm: string, s: string): string {
    if "SHA-256" <= algorithm then h.sha256(s) else h.md5(s)
  }

  /** `ha1` as it enters the response. */
  function KeyOf(h: Hashes, algorithm: string, user: string, realm: string, nonce: string, cnonce: string,
                 password: string): string
  {
    var ha1 := HashOf(h, algorithm, user + ":" + realm + ":" + password);
    if IsSess(algorithm) then HashOf(h, algorithm, ha1 + ":" + nonce + ":" + cnonce) else ha1
  }

  /** The response to a challenge with these values; `auth` says that qop is auth. */
  function ResponseOf(h: Hashes, algorithm: string, user: string, realm: string, nonce: string, uri: string,
                      cnonce: string, auth: bool, verb: string, password: string): string
  {
    var key := KeyOf(h, algorithm, user, realm, nonce, cnonce, password);
    var ha2 := HashOf(h, algorithm, verb + ":" + uri);
    if auth then
      HashOf(h, algorithm, key + ":" + nonce + ":" + NC + ":" + cnonce + ":" + "auth" + ":" + ha2)
    else
      HashOf(h, algorithm, key + ":" + nonce + ":" + ha2)
  }

  /** `response` as `_build_digest_header` computes it. */
  function Response(cs: Chars, h: Hashes, req: Request, challenge: map<string, string>, cnonce: string): string
    requires "nonce" in challenge
  {
    ResponseOf(h, Algorithm(cs, challenge), req.user, GetOr(challenge, "realm", ""), challenge["nonce"], req.uri,
               cnonce, QopValue(cs, challenge) == "auth", cs.upper(req.verb), req.password)
  }

  /** The directives every header has. */
  function Core(user: string, realm: string, nonce: string, uri: string, algorithm: string,
                response: string): seq<Item>
  {
    [Item("username", user, true), Item("realm", realm, true), Item("nonce", nonce, true), Item("uri", uri, true),
     Item("algorithm", algorithm, false), Item("response", response, true)]
  }

  /** The directives of a header, in the order they are appended. */
  function ItemList(user: string, realm: string, nonce: string, uri: string, algorithm: string, response: string,
                    cnonce: string, auth: bool, opaqueValue: string): seq<Item>
  {
    Core(user, realm, nonce, uri, algorithm, response)
    + (if auth || IsSess(algorithm) then [Item("cnonce", cnonce, true)] else [])
    + (if auth then [Item("qop", "auth", false), Item("nc", NC, false)] else [])
    + (if opaqueValue != "" then [Item("opaque", opaqueValue, true)] else [])
  }

  function Items(cs: Chars, h: Hashes, req: Request, challenge: map<string, string>, cnonce: string): seq<Item>
    requires "nonce" in challenge
  {
    ItemList(req.user, GetOr(challenge, "realm", ""), challenge["nonce"], req.uri, Algorithm(cs, challenge),
             Response(cs, h, req, challenge, cnonce), cnonce, QopValue(cs, challenge) == "auth",
             GetOr(challenge, "opaque", ""))
  }

  /** `_build_digest_header`. */
  method BuildDigestHeader(cs: Chars, h: Hashes, req: Request, challenge: map<string, string>, cnonce: string)
    returns (header: string)
    requires "nonce" in challenge
    ensures header == "Digest " + Join(Items(cs, h, req, challenge, cnonce))
  {
    var realm := GetOr(challenge, "realm", "");
    var nonce := challenge["nonce"];
    var opaqueValue := GetOr(challenge, "opaque", "");
    var algorithm := Algorithm(cs, challenge);
    var ha1 := HashOf(h, algorithm, req.user + ":" + realm + ":" + req.password);
    if IsSess(algorithm) {
      ha1 := HashOf(h, algorithm, ha1 + ":" + nonce + ":" + cnonce);
    }
    var ha2 := HashOf(h, algorithm, cs.upper(req.verb) + ":" + req.uri);
    var qopValue := QopValue(cs, challenge);
    var response;
    if qopValue == "auth" {
      response := HashOf(h, algorithm, ha1 + ":" + nonce + ":" + NC + ":" + cnonce + ":" + qopValue + ":" + ha2);
    } else {
      response := HashOf(h, algorithm, ha1 + ":" + nonce + ":" + ha2);
    }
    var parts := [Item("username", req.user, true), Item("realm", realm, true), Item("nonce", nonce, true),
                  Item("uri", req.uri, true), Item("algorithm", algorithm, false), Item("response", response, true)];
    assert response == Response(cs, h, req, challenge, cnonce);
    ghost var base := parts;
    if qopValue == "auth" || IsSess(algorithm) {
      parts := parts + [Item("cnonce", cnonce, true)];
    }
    ghost var withCnonce := parts;
    assert withCnonce == base
      + (if qopValue == "auth" || IsSess(algorithm) then [Item("cnonce", cnonce, true)] else []);
    if qopValue == "auth" {
      parts := parts + [Item("qop", qopValue, false)];
      parts := parts + [Item("nc", NC, false)];
    }
    assert parts == withCnonce
      + (if qopValue == "auth" then [Item("qop", "auth", false), Item("nc", NC, false)] else []);
    if opaqueValue != "" {
      parts := parts + [Item("opaque", opaqueValue, true)];
    }
    assert parts == Items(cs, h, req, challenge, cnonce);
    header := "Digest " + Join(parts);
  }

  // ---- The server's side ----

  /** The hash the algorithm name stands for. */
  function ServerHash(h: Hashes, algorithm: string, s: string): string {
    if algorithm == "SHA-256" || algorithm == "SHA-256-SESS" then h.sha256(s) else h.md5(s)
  }

  /** The hash of A1, the session key for the -sess algorithms. */
  function ServerKey(h: Hashes, d: map<string, string>, password: string): string {
    var algorithm := GetOr(d, "algorithm", "MD5");
    var a1 := ServerHash(h, algorithm, GetOr(d, "username", "") + ":" + GetOr(d, "realm", "") + ":" + password);
    if algorithm == "MD5-SESS" || algorithm == "SHA-256-SESS"
    then ServerHash(h, algorithm, a1 + ":" + GetOr(d, "nonce", "") + ":" + GetOr(d, "cnonce", "")) else a1
  }

  /** What a server recomputes from the received directives, the method and the password. */
  function ServerResponse(h: Hashes, d: map<string, string>, verb: string, password: string): string {
    var algorithm := GetOr(d, "algorithm", "MD5");
    var nonce := GetOr(d, "nonce", "");
    var cnonce := GetOr(d, "cnonce", "");
    var key := ServerKey(h, d, password);
    var a2 := ServerHash(h, algorithm, verb + ":" + GetOr(d, "uri", ""));
    if "qop" in d then
      ServerHash(h, algorithm, key + ":" + nonce + ":" + GetOr(d, "nc", "") + ":" + cnonce + ":" + d["qop"] + ":" + a2)
    else
      ServerHash(h, algorithm, key + ":" + nonce + ":" + a2)
  }

  /** Hash outputs and the random cnonce are hex text; all the proof needs is that they hold no quote. */
  ghost predicate Quotable(h: Hashes, cnonce: string) {
    && (forall s :: '"' !in h.md5(s) && '"' !in h.sha256(s))
    && '"' !in cnonce
  }

  /** The dictionary the header should be read back as. */
  function Emitted(items: seq<Item>): map<string, string> {
    Dict(Pairs(items))
  }

  lemma {:induction false} DictLooksUp(pairs: seq<(string, string)>, i: nat)
    requires i < |pairs|
    requires forall j | 0 <= j < |pairs| && j != i :: pairs[j].0 != pairs[i].0
    ensures pairs[i].0 in Dict(pairs) && Dict(pairs)[pairs[i].0] == pairs[i].1
  {
    if i < |pairs| - 1 {
      DictLooksUp(pairs[..|pairs| - 1], i);
    }
  }

  lemma {:induction false} DictKeys(pairs: seq<(string, string)>, key: string)
    ensures key in Dict(pairs) <==> exists i | 0 <= i < |pairs| :: pairs[i].0 == key
  {
    if pairs != [] {
      DictKeys(pairs[..|pairs| - 1], key);
    }
  }

  /** The keys of the header are distinct, so each item is found under its own key. */
  lemma ItemIsEmitted(items: seq<Item>, i: nat)
    requires i < |items|
    requires forall j | 0 <= j < |items| && j != i :: items[j].key != items[i].key
    ensures items[i].key in Emitted(items) && Emitted(items)[items[i].key] == items[i].value
  {
    DictLooksUp(Pairs(items), i);
  }

  lemma KeyIsEmitted(items: seq<Item>, key: string)
    ensures key in Emitted(items) <==> exists i | 0 <= i < |items| :: items[i].key == key
  {
    DictKeys(Pairs(items), key);
    if i :| 0 <= i < |items| && items[i].key == key {
      assert Pairs(items)[i].0 == key;
    }
    if i :| 0 <= i < |items| && Pairs(items)[i].0 == key {
      assert items[i].key == key;
    }
  }

  // ---- The header is readable and verifiable ----

  lemma LowerWord(cs: Chars, k: string)
    requires Faithful(cs) && forall i | 0 <= i < |k| :: 'a' <= k[i] <= 'z'
    ensures AllOf(k, cs.isWord) && cs.lower(k) == k
  {
    assert AllOf(k, IsAscii);
    assert AsciiLower(k) == k;
  }

  lemma QuotedIsReadable(cs: Chars, k: string, value: string)
    requires Faithful(cs) && k != "" && forall i | 0 <= i < |k| :: 'a' <= k[i] <= 'z'
    ensures Readable(cs, Item(k, value, true)) <==> '"' !in value
  {
    LowerWord(cs, k);
    assert AllOf(value, NotQuote) <==> '"' !in value;
  }

  lemma TokenIsReadable(cs: Chars, k: string, value: string)
    requires Faithful(cs) && k != "" && forall i | 0 <= i < |k| :: 'a' <= k[i] <= 'z'
    requires value != "" && forall i | 0 <= i < |value| :: IsAsciiWord(value[i]) || value[i] == '-'
    ensures Readable(cs, Item(k, value, false))
  {
    LowerWord(cs, k);
    forall i | 0 <= i < |value| ensures TokenChar(cs)(value[i]) {
      assert IsAscii(value[i]);
    }
  }

  /** A challenge whose values a scan produced, with an algorithm the helper supports. */
  ghost predicate Usable(cs: Chars, challenge: map<string, string>) {
    && "nonce" in challenge
    && (forall k | k in challenge :: '"' !in challenge[k])
    && IsSupported(Algorithm(cs, challenge))
  }

  lemma AlgorithmIsToken(cs: Chars, algorithm: string)
    requires Faithful(cs) && IsSupported(algorithm)
    ensures Readable(cs, Item("algorithm", algorithm, false))
  {
    TokenIsReadable(cs, "algorithm", algorithm);
  }

  ghost predicate AllReadable(cs: Chars, items: seq<Item>) {
    forall item | item in items :: Readable(cs, item)
  }

  lemma CredentialsAreReadable(cs: Chars, user: string, realm: string, nonce: string, uri: string)
    requires Faithful(cs) && '"' !in user && '"' !in realm && '"' !in nonce && '"' !in uri
    ensures AllReadable(cs, [Item("username", user, true), Item("realm", realm, true),
                             Item("nonce", nonce, true), Item("uri", uri, true)])
  {
    QuotedIsReadable(cs, "username", user);
    QuotedIsReadable(cs, "realm", realm);
    QuotedIsReadable(cs, "nonce", nonce);
    QuotedIsReadable(cs, "uri", uri);
  }

  lemma ProofIsReadable(cs: Chars, algorithm: string, response: string, cnonce: string, opaqueValue: string)
    requires Faithful(cs) && IsSupported(algorithm)
    requires '"' !in response && '"' !in cnonce && '"' !in opaqueValue
    ensures AllReadable(cs, [Item("algorithm", algorithm, false), Item("response", response, true),
                             Item("cnonce", cnonce, true), Item("opaque", opaqueValue, true)])
  {
    AlgorithmIsToken(cs, algorithm);
    QuotedIsReadable(cs, "response", response);
    QuotedIsReadable(cs, "cnonce", cnonce);
    QuotedIsReadable(cs, "opaque", opaqueValue);
    assert forall item | item in [Item("algorithm", algorithm, false), Item("response", response, true),
                                  Item("cnonce", cnonce, true), Item("opaque", opaqueValue, true)] ::
      Readable(cs, item);
  }

  lemma QopIsReadable(cs: Chars)
    requires Faithful(cs)
    ensures AllReadable(cs, [Item("qop", "auth", false), Item("nc", NC, false)])
  {
    TokenIsReadable(cs, "qop", "auth");
    TokenIsReadable(cs, "nc", NC);
  }

  /** Every item of a list is one of its nine possible items. */
  lemma ItemListMembers(user: string, realm: string, nonce: string, uri: string, algorithm: string,
                        response: string, cnonce: string, auth: bool, opaqueValue: string, item: Item)
    requires item in ItemList(user, realm, nonce, uri, algorithm, response, cnonce, auth, opaqueValue)
    ensures || item in [Item("username", user, true), Item("realm", realm, true),
                        Item("nonce", nonce, true), Item("uri", uri, true)]
            || item in [Item("algorithm", algorithm, false), Item("response", response, true),
                        Item("cnonce", cnonce, true), Item("opaque", opaqueValue, true)]
            || item in [Item("qop", "auth", false), Item("nc", NC, false)]
  {
  }

  lemma ItemsAreReadable(cs: Chars, h: Hashes, req: Request, challenge: map<string, string>, cnonce: string)
    requires Faithful(cs) && Usable(cs, challenge) && Quotable(h, cnonce)
    requires '"' !in req.user && '"' !in req.uri
    ensures forall item | item in Items(cs, h, req, challenge, cnonce) :: Readable(cs, item)
  {
    var response := Response(cs, h, req, challenge, cnonce);
    ResponseHasNoQuote(cs, h, req, challenge, cnonce);
    var realm, opaqueValue := GetOr(challenge, "realm", ""), GetOr(challenge, "opaque", "");
    CredentialsAreReadable(cs, req.user, realm, challenge["nonce"], req.uri);
    ProofIsReadable(cs, Algorithm(cs, challenge), response, cnonce, opaqueValue);
    QopIsReadable(cs);
    ListIsReadable(cs, req.user, realm, challenge["nonce"], req.uri, Algorithm(cs, challenge), response, cnonce,
                   QopValue(cs, challenge) == "auth", opaqueValue);
  }

  lemma ResponseHasNoQuote(cs: Chars, h: Hashes, req: Request, challenge: map<string, string>, cnonce: string)
    requires "nonce" in challenge && Quotable(h, cnonce)
    ensures '"' !in Response(cs, h, req, challenge, cnonce)
  {
  }

  lemma ListIsReadable(cs: Chars, user: string, realm: string, nonce: string, uri: string, algorithm: string,
                       response: string, cnonce: string, auth: bool, opaqueValue: string)
    requires AllReadable(cs, [Item("username", user, true), Item("realm", realm, true),
                              Item("nonce", nonce, true), Item("uri", uri, true)])
    requires AllReadable(cs, [Item("algorithm", algorithm, false), Item("response", response, true),
                              Item("cnonce", cnonce, true), Item("opaque", opaqueValue, true)])
    requires AllReadable(cs, [Item("qop", "auth", false), Item("nc", NC, false)])
    ensures AllReadable(cs, ItemList(user, realm, nonce, uri, algorithm, response, cnonce, auth, opaqueValue))
  {
    forall item | item in ItemList(user, realm, nonce, uri, algorithm, response, cnonce, auth, opaqueValue)
      ensures Readable(cs, item)
    {
      ItemListMembers(user, realm, nonce, uri, algorithm, response, cnonce, auth, opaqueValue, item);
    }
  }

  lemma SplitsAtSpace(scheme: string, body: string)
    requires ' ' !in scheme
    ensures Scheme(scheme + (" " + body)) == scheme && Params(scheme + (" " + body)) == body
  {
    var header := scheme + (" " + body);
    RunStopsAt(scheme, " " + body, (c: char) => c != ' ');
    assert header[..|scheme|] == scheme && header[|scheme| + 1..] == body;
  }

  lemma SchemeIsDigest(cs: Chars)
    requires Faithful(cs)
    ensures cs.lower(Strip("Digest")) == "digest"
  {
    NothingToStrip("Digest");
    assert AsciiLower("Digest") == "digest";
  }

  lemma NothingToStrip(t: string)
    requires t != "" && !IsSpace(t[0]) && !IsSpace(t[|t| - 1])
    ensures Strip(t) == t
  {
    assert t[0..] == t;
  }

  /** The header text splits at its first space into the scheme and the printed items. */
  lemma HeaderSplits(cs: Chars, body: string)
    requires Faithful(cs)
    ensures Params("Digest " + body) == body && cs.lower(Strip(Scheme("Digest " + body))) == "digest"
  {
    SplitsAtSpace("Digest", body);
    SchemeIsDigest(cs);
    Regroup("Digest", " ", body);
    assert "Digest" + " " == "Digest ";
  }

  /** Distinct keys differ in length or first letter. */
  predicate KeysDiffer(a: string, b: string) {
    a != "" && b != "" && (|a| != |b| || a[0] != b[0])
  }

  ghost predicate DistinctKeys(items: seq<Item>) {
    forall i, j | 0 <= i < j < |items| :: KeysDiffer(items[i].key, items[j].key)
  }

  ghost predicate KeysApart(a: seq<Item>, b: seq<Item>) {
    forall i, j | 0 <= i < |a| && 0 <= j < |b| :: KeysDiffer(a[i].key, b[j].key)
  }

  lemma JoinedKeys(a: seq<Item>, b: seq<Item>)
    requires DistinctKeys(a) && DistinctKeys(b) && KeysApart(a, b)
    ensures DistinctKeys(a + b)
  {
  }

  lemma KeysApartFromBoth(a: seq<Item>, b: seq<Item>, c: seq<Item>)
    requires KeysApart(a, c) && KeysApart(b, c)
    ensures KeysApart(a + b, c)
  {
  }

  lemma CoreKeys(user: string, realm: string, nonce: string, uri: string, algorithm: string, response: string)
    ensures DistinctKeys(Core(user, realm, nonce, uri, algorithm, response))
  {
  }

  lemma CoreKeysAreTheirOwn(user: string, realm: string, nonce: string, uri: string, algorithm: string,
                            response: string, item: Item)
    requires item.key in ["cnonce", "qop", "nc", "opaque"]
    ensures KeysApart(Core(user, realm, nonce, uri, algorithm, response), [item])
  {
  }

  /** Appending any of the four optional items keeps the keys distinct. */
  lemma ExtraKeys(base: seq<Item>, c: Item, q: Item, n: Item, o: Item, auth: bool, sess: bool, hasOpaque: bool)
    requires DistinctKeys(base)
    requires KeysApart(base, [c]) && KeysApart(base, [q]) && KeysApart(base, [n]) && KeysApart(base, [o])
    requires KeysDiffer(c.key, q.key) && KeysDiffer(c.key, n.key) && KeysDiffer(c.key, o.key)
    requires KeysDiffer(q.key, n.key) && KeysDiffer(q.key, o.key) && KeysDiffer(n.key, o.key)
    ensures DistinctKeys(((base + (if auth || sess then [c] else [])) + (if auth then [q, n] else []))
                         + if hasOpaque then [o] else [])
  {
    var cs := if auth || sess then [c] else [];
    var qs := if auth then [q, n] else [];
    var os := if hasOpaque then [o] else [];
    JoinedKeys(base, cs);
    assert forall i | 0 <= i < |base| :: KeysDiffer(base[i].key, [q][0].key) && KeysDiffer(base[i].key, [n][0].key);
    KeysApartFromBoth(base, cs, qs);
    JoinedKeys(base + cs, qs);
    KeysApartFromBoth(base, cs, os);
    assert KeysApart(qs, os);
    KeysApartFromBoth(base + cs, qs, os);
    JoinedKeys((base + cs) + qs, os);
  }

  lemma ItemKeysAreDistinct(user: string, realm: string, nonce: string, uri: string, algorithm: string,
                            response: string, cnonce: string, auth: bool, opaqueValue: string)
    ensures DistinctKeys(ItemList(user, realm, nonce, uri, algorithm, response, cnonce, auth, opaqueValue))
  {
    var base := Core(user, realm, nonce, uri, algorithm, response);
    var c, q := Item("cnonce", cnonce, true), Item("qop", "auth", false);
    var n, o := Item("nc", NC, false), Item("opaque", opaqueValue, true);
    CoreKeys(user, realm, nonce, uri, algorithm, response);
    CoreKeysAreTheirOwn(user, realm, nonce, uri, algorithm, response, c);
    CoreKeysAreTheirOwn(user, realm, nonce, uri, algorithm, response, q);
    CoreKeysAreTheirOwn(user, realm, nonce, uri, algorithm, response, n);
    CoreKeysAreTheirOwn(user, realm, nonce, uri, algorithm, response, o);
    ExtraKeys(base, c, q, n, o, auth, IsSess(algorithm), opaqueValue != "");
  }

  lemma ItemLookup(items: seq<Item>, i: nat)
    requires i < |items| && DistinctKeys(items)
    ensures items[i].key in Emitted(items) && Emitted(items)[items[i].key] == items[i].value
  {
    forall j | 0 <= j < |items| && j != i ensures items[j].key != items[i].key {
      assert KeysDiffer(items[if i < j then i else j].key, items[if i < j then j else i].key);
    }
    ItemIsEmitted(items, i);
  }

  lemma ListedValues(user: string, realm: string, nonce: string, uri: string, algorithm: string,
                     response: string, cnonce: string, auth: bool, opaqueValue: string)
    ensures var d := Emitted(ItemList(user, realm, nonce, uri, algorithm, response, cnonce, auth, opaqueValue));
      && Get(d, "username") == Some(user) && Get(d, "realm") == Some(realm) && Get(d, "nonce") == Some(nonce)
      && Get(d, "uri") == Some(uri) && Get(d, "algorithm") == Some(algorithm) && Get(d, "response") == Some(response)
      && (auth || IsSess(algorithm) ==> Get(d, "cnonce") == Some(cnonce))
      && Get(d, "qop") == (if auth then Some("auth") else None)
      && (auth ==> Get(d, "nc") == Some(NC))
  {
    var items := ItemList(user, realm, nonce, uri, algorithm, response, cnonce, auth, opaqueValue);
    ItemKeysAreDistinct(user, realm, nonce, uri, algorithm, response, cnonce, auth, opaqueValue);
    assert items[0] == Item("username", user, true) && items[1] == Item("realm", realm, true);
    assert items[2] == Item("nonce", nonce, true) && items[3] == Item("uri", uri, true);
    assert items[4] == Item("algorithm", algorithm, false) && items[5] == Item("response", response, true);
    ItemLookup(items, 0);
    ItemLookup(items, 1);
    ItemLookup(items, 2);
    ItemLookup(items, 3);
    ItemLookup(items, 4);
    ItemLookup(items, 5);
    if auth || IsSess(algorithm) {
      assert items[6] == Item("cnonce", cnonce, true);
      ItemLookup(items, 6);
    }
    if auth {
      assert items[7] == Item("qop", "auth", false) && items[8] == Item("nc", NC, false);
      ItemLookup(items, 7);
      ItemLookup(items, 8);
    } else {
      KeyIsEmitted(items, "qop");
      assert forall i | 0 <= i < |items| :: KeysDiffer(items[i].key, "qop");
    }
  }

  /** The received dictionary holds what the header was made from, and qop exactly when it entered the hash. */
  lemma EmittedValues(cs: Chars, h: Hashes, req: Request, challenge: map<string, string>, cnonce: string)
    requires "nonce" in challenge
    ensures var d := Emitted(Items(cs, h, req, challenge, cnonce));
      var auth := QopValue(cs, challenge) == "auth";
      && Get(d, "username") == Some(req.user) && Get(d, "realm") == Some(GetOr(challenge, "realm", ""))
      && Get(d, "nonce") == Some(challenge["nonce"]) && Get(d, "uri") == Some(req.uri)
      && Get(d, "algorithm") == Some(Algorithm(cs, challenge))
      && Get(d, "response") == Some(Response(cs, h, req, challenge, cnonce))
      && (auth || IsSess(Algorithm(cs, challenge)) ==> Get(d, "cnonce") == Some(cnonce))
      && Get(d, "qop") == (if auth then Some("auth") else None)
      && (auth ==> Get(d, "nc") == Some(NC))
  {
    ListedValues(req.user, GetOr(challenge, "realm", ""), challenge["nonce"], req.uri, Algorithm(cs, challenge),
                 Response(cs, h, req, challenge, cnonce), cnonce, QopValue(cs, challenge) == "auth",
                 GetOr(challenge, "opaque", ""));
  }

  lemma SameHash(h: Hashes, algorithm: string, s: string)
    requires IsSupported(algorithm)
    ensures ServerHash(h, algorithm, s) == HashOf(h, algorithm, s)
  {
    if algorithm == "SHA-256-SESS" {
      assert "SHA-256-SESS"[..7] == "SHA-256";
    } else if algorithm == "MD5-SESS" {
      assert algorithm[0] == 'M';
    }
  }

  /** From those values the server reaches the same response. */
  lemma ServerAgrees(cs: Chars, h: Hashes, req: Request, challenge: map<string, string>, cnonce: string)
    requires Usable(cs, challenge)
    ensures var d := Emitted(Items(cs, h, req, challenge, cnonce));
            ServerResponse(h, d, cs.upper(req.verb), req.password) == Response(cs, h, req, challenge, cnonce)
  {
    EmittedValues(cs, h, req, challenge, cnonce);
    ServerRecomputes(h, Emitted(Items(cs, h, req, challenge, cnonce)), Algorithm(cs, challenge), req.user,
                     GetOr(challenge, "realm", ""), challenge["nonce"], req.uri, cnonce,
                     QopValue(cs, challenge) == "auth", cs.upper(req.verb), req.password);
  }

  /** From directives with these values the server reaches the response the helper computes. */
  lemma ServerRecomputes(h: Hashes, d: map<string, string>, algorithm: string, user: string, realm: string,
                         nonce: string, uri: string, cnonce: string, auth: bool, verb: string, password: string)
    requires IsSupported(algorithm)
    requires Get(d, "username") == Some(user) && Get(d, "realm") == Some(realm) && Get(d, "nonce") == Some(nonce)
    requires Get(d, "uri") == Some(uri) && Get(d, "algorithm") == Some(algorithm)
    requires auth || IsSess(algorithm) ==> Get(d, "cnonce") == Some(cnonce)
    requires Get(d, "qop") == (if auth then Some("auth") else None) && (auth ==> Get(d, "nc") == Some(NC))
    ensures ServerResponse(h, d, verb, password)
            == ResponseOf(h, algorithm, user, realm, nonce, uri, cnonce, auth, verb, password)
  {
    SameKey(h, d, algorithm, user, realm, nonce, cnonce, password);
    var key := KeyOf(h, algorithm, user, realm, nonce, cnonce, password);
    var ha2 := HashOf(h, algorithm, verb + ":" + uri);
    SameHash(h, algorithm, verb + ":" + uri);
    if auth {
      SameHash(h, algorithm, key + ":" + nonce + ":" + NC + ":" + cnonce + ":" + "auth" + ":" + ha2);
    } else {
      SameHash(h, algorithm, key + ":" + nonce + ":" + ha2);
    }
  }

  lemma SameKey(h: Hashes, d: map<string, string>, algorithm: string, user: string, realm: string,
                nonce: string, cnonce: string, password: string)
    requires IsSupported(algorithm) && Get(d, "algorithm") == Some(algorithm)
    requires Get(d, "username") == Some(user) && Get(d, "realm") == Some(realm) && Get(d, "nonce") == Some(nonce)
    requires IsSess(algorithm) ==> Get(d, "cnonce") == Some(cnonce)
    ensures ServerKey(h, d, password) == KeyOf(h, algorithm, user, realm, nonce, cnonce, password)
  {
    var a1 := user + ":" + realm + ":" + password;
    SameHash(h, algorithm, a1);
    SameHash(h, algorithm, HashOf(h, algorithm, a1) + ":" + nonce + ":" + cnonce);
  }

  /**
   For every challenge header the helper parses and whose algorithm it supports, and any
   qop list: reading the built header back gives exactly the emitted directives if and
   only if neither the user nor the uri contains a quote.
   */
  lemma HeaderReadsBackIffNoQuote(cs: Chars, h: Hashes, req: Request, www: string, cnonce: string)
    requires Faithful(cs) && Quotable(h, cnonce)
    requires Parse(cs, www).Some? && IsSupported(Algorithm(cs, Parse(cs, www).value))
    ensures var items := Items(cs, h, req, Parse(cs, www).value, cnonce);
            Parse(cs, "Digest " + Join(items)) == Some(Emitted(items)) <==> '"' !in req.user && '"' !in req.uri
  {
    var challenge := Parse(cs, www).value;
    var items := Items(cs, h, req, challenge, cnonce);
    var header := "Digest " + Join(items);
    forall k | k in challenge ensures '"' !in challenge[k] { ParsedValuesHaveNoQuote(cs, www, k); }
    HeaderSplits(cs, Join(items));
    EmittedValues(cs, h, req, challenge, cnonce);
    if '"' !in req.user && '"' !in req.uri {
      ItemsAreReadable(cs, h, req, challenge, cnonce);
      PrintedItemsScanBack(cs, items);
    }
    if Parse(cs, header) == Some(Emitted(items)) {
      ParsedValuesHaveNoQuote(cs, header, "username");
      ParsedValuesHaveNoQuote(cs, header, "uri");
    }
  }

  /** The user `a"b` is never what a reader of the header gets, whatever the challenge. */
  lemma QuotedUserIsMisread(cs: Chars, h: Hashes, req: Request, www: string, cnonce: string)
    requires Faithful(cs) && Quotable(h, cnonce) && req.user == "a\"b"
    requires Parse(cs, www).Some? && IsSupported(Algorithm(cs, Parse(cs, www).value))
    ensures var items := Items(cs, h, req, Parse(cs, www).value, cnonce);
      var received := Parse(cs, "Digest " + Join(items));
      && received != Some(Emitted(items))
      && (received.Some? ==> Get(received.value, "username") != Some(req.user))
  {
    var header := "Digest " + Join(Items(cs, h, req, Parse(cs, www).value, cnonce));
    assert req.user[1] == '"';
    HeaderReadsBackIffNoQuote(cs, h, req, www, cnonce);
    if Parse(cs, header).Some? && "username" in Parse(cs, header).value {
      ParsedValuesHaveNoQuote(cs, header, "username");
    }
  }

  /**
   A server that reads the header back accepts it: the response it recomputes is the one
   it received, and the algorithm it recomputes it by is the one its challenge named.
   */
  lemma DigestIsVerifiable(cs: Chars, h: Hashes, req: Request, www: string, cnonce: string)
    requires Faithful(cs) && Quotable(h, cnonce)
    requires Parse(cs, www).Some? && IsSupported(Algorithm(cs, Parse(cs, www).value))
    requires '"' !in req.user && '"' !in req.uri
    ensures var received := Parse(cs, "Digest " + Join(Items(cs, h, req, Parse(cs, www).value, cnonce)));
      && received.Some? && "response" in received.value
      && ServerResponse(h, received.value, cs.upper(req.verb), req.password) == received.value["response"]
      && GetOr(received.value, "nonce", "") == Parse(cs, www).value["nonce"]
      && GetOr(received.value, "algorithm", "") == cs.upper(GetOr(Parse(cs, www).value, "algorithm", "MD5"))
  {
    var challenge := Parse(cs, www).value;
    HeaderReadsBackIffNoQuote(cs, h, req, www, cnonce);
    forall k | k in challenge ensures '"' !in challenge[k] { ParsedValuesHaveNoQuote(cs, www, k); }
    ServerAgrees(cs, h, req, challenge, cnonce);
    EmittedValues(cs, h, req, challenge, cnonce);
  }

  /** An absent algorithm, or one of the four names in any letter case, is supported. */
  lemma SupportedChallenges(cs: Chars, challenge: map<string, string>)
    requires Faithful(cs)
    requires "algorithm" in challenge ==>
               AllOf(challenge["algorithm"], IsAscii) && IsSupported(AsciiUpper(challenge["algorithm"]))
    ensures IsSupported(Algorithm(cs, challenge))
  {
    assert AllOf("MD5", IsAscii) && AsciiUpper("MD5") == "MD5";
  }

  // ---- The exchange ----

  datatype Reply = Reply(status: int, www: string)

  /** The response the caller gets, or the ValueError of an unusable challenge. */
  datatype Result = Answered(reply: Reply) | BadChallenge

  /** The Authorization header that answers a challenge; None when the challenge does not parse. */
  function Authorization(cs: Chars, h: Hashes, req: Request, www: string, cnonce: string): Option<string> {
    match Parse(cs, www)
    case None => None
    case Some(challenge) => Some("Digest " + Join(Items(cs, h, req, challenge, cnonce)))
  }

  predicate IsStale(cs: Chars, www: string) {
    Parse(cs, www).Some? && cs.lower(GetOr(Parse(cs, www).value, "stale", "")) == "true"
  }

  /** Parse a challenge and build the header that answers it. */
  method Authorize(cs: Chars, h: Hashes, req: Request, www: string, cnonce: string) returns (header: Option<string>)
    ensures header == Authorization(cs, h, req, www, cnonce)
  {
    var challenge := ParseDigestChallenge(cs, www);
    header := None;
    if challenge.Some? {
      var text := BuildDigestHeader(cs, h, req, challenge.value, cnonce);
      header := Some(text);
    }
  }

  method ChallengeIsStale(cs: Chars, www: string) returns (stale: bool)
    ensures stale == IsStale(cs, www)
  {
    var challenge := ParseDigestChallenge(cs, www);
    stale := challenge.Some? && cs.lower(GetOr(challenge.value, "stale", "")) == "true";
  }

  /** Request `k` answers the challenge of the 401 just before it. */
  ghost predicate AnswersChallenge(cs: Chars, h: Hashes, req: Request, before: Reply, cnonce: string,
                                   sent: Option<string>)
  {
    before.status == 401 && sent.Some? && sent == Authorization(cs, h, req, before.www, cnonce)
  }

  /**
   `async_digest_request` against a server that answers the k-th request; `sent` holds
   the Authorization header of each request.  `cnonces` are the random client nonces.
   At most three requests; each further one answers the 401 before it, the third only a
   stale one; and the caller gets the answer to the last request, unless a 401 carried
   no usable challenge.  An unauthenticated 401 is never handed out.
   */
  method DigestRequest(cs: Chars, h: Hashes, req: Request, server: (nat, Option<string>) -> Reply,
                       cnonces: nat -> string)
    returns (result: Result, sent: seq<Option<string>>)
    ensures 1 <= |sent| <= 3 && sent[0] == None
    ensures |sent| >= 2 ==> AnswersChallenge(cs, h, req, server(0, sent[0]), cnonces(0), sent[1])
    ensures |sent| == 3 ==> AnswersChallenge(cs, h, req, server(1, sent[1]), cnonces(1), sent[2])
    ensures |sent| == 3 ==> result.Answered? && IsStale(cs, server(1, sent[1]).www)
    ensures |sent| == 2 ==>
              server(1, sent[1]).status != 401 || !IsStale(cs, server(1, sent[1]).www) || server(1, sent[1]).www == ""
    ensures result.Answered? ==> result.reply == server(|sent| - 1, sent[|sent| - 1])
    ensures result.Answered? && result.reply.status == 401 ==> |sent| >= 2
    ensures result.BadChallenge? <==>
              var last := server(|sent| - 1, sent[|sent| - 1]);
              && |sent| <= 2 && last.status == 401
              && (if last.www == "" then |sent| == 1 else Parse(cs, last.www).None?)
  {
    sent := [None];
    var first := server(0, None);
    if first.status != 401 {
      return Answered(first), sent;
    }
    if first.www == "" {
      return BadChallenge, sent;
    }
    var header := Authorize(cs, h, req, first.www, cnonces(0));
    if header.None? {
      return BadChallenge, sent;
    }
    sent := [None, header];
    var second := server(1, header);
    if second.status == 401 && second.www != "" {
      var header2 := Authorize(cs, h, req, second.www, cnonces(1));
      if header2.None? {
        return BadChallenge, sent;
      }
      var stale := ChallengeIsStale(cs, second.www);
      if stale {
        sent := [None, header, header2];
        return Answered(server(2, header2)), sent;
      }
    }
    result := Answered(second);
  }
}
