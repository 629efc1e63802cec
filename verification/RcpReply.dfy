/**
 How the cloud read and the direct LAN read turn one HTTP reply into payload bytes,
 and which replies make the cloud read drop the cached session.
 */
module RcpReply {
  import opened Wrappers
  import opened Text
  import opened Bytes
  import opened TagSearch

  datatype Reply = NetworkError | Http(status: int, body: seq<byte>)

  /** A read returns bytes or None, or lets the ValueError of `bytes.fromhex` escape. */
  datatype ReadResult = Returns(payload: Option<seq<byte>>) | RaisesValueError

  function Fold(b: byte): byte {
    if 0x41 <= b <= 0x5A then b + 0x20 else b
  }

  /** `\S` in a byte pattern. */
  predicate IsNonSpace(b: byte) { !(9 <= b <= 13 || b == 32) }

  const ERR := Tag(Ascii("<err>"), Ascii("</err>"), IsNonSpace, Fold)
  const STR := Tag(Ascii("<str>"), Ascii("</str>"), IsHexDigit, Fold)
  const PAYLOAD := Tag(Ascii("<payload>"), Ascii("</payload>"), IsHexDigit, Fold)

  /** The hex text both reads capture: the str tag first, else the payload tag. */
  function Captured(body: seq<byte>): (h: Option<seq<byte>>)
    ensures h.Some? ==> |h.value| > 0 && forall i | 0 <= i < |h.value| :: IsHexDigit(h.value[i])
  {
    if Search(STR, body).Some? then Search(STR, body) else Search(PAYLOAD, body)
  }

  /** A body that is neither an error nor a captured payload: raw bytes unless it looks like XML. */
  function RawBody(body: seq<byte>): Option<seq<byte>> {
    if |body| > 0 && body[0] != 0x3C then Some(body) else None
  }

  /** `rcp_local_read`. */
  function LocalRead(reply: Reply): ReadResult {
    match reply
    case NetworkError => Returns(None)
    case Http(status, body) =>
      if status != 200 then Returns(None)
      else if Search(ERR, body).Some? then Returns(None)
      else
        match Captured(body)
        case None => Returns(RawBody(body))
        case Some(h) => if FromHex(h).Some? then Returns(FromHex(h)) else RaisesValueError
  }

  /** `rcp_read`, which also catches the ValueError. */
  function CloudRead(reply: Reply): Option<seq<byte>> {
    match reply
    case NetworkError => None
    case Http(status, body) =>
      if status != 200 then None
      else if Search(ERR, body).Some? then None
      else
        match Captured(body)
        case None => RawBody(body)
        case Some(h) => FromHex(h)
  }

  /** `rcp_read` drops the cached session on 401, 403 and on the error 0x0c0d. */
  predicate DropsSession(reply: Reply) {
    reply.Http? &&
    (reply.status == 401 || reply.status == 403 ||
     (reply.status == 200 && Search(ERR, reply.body).Some? &&
      var code := Search(ERR, reply.body).value;
      |code| == 6 && StartsWith(code, Ascii("0x0c0d"), Fold)))
  }

  /** A 200 answer without an error whose captured hex has odd length. */
  predicate IsOddHex(reply: Reply) {
    && reply.Http? && reply.status == 200 && Search(ERR, reply.body).None?
    && Captured(reply.body).Some? && |Captured(reply.body).value| % 2 == 1
  }

  /**
   The local read raises exactly on a payload of odd hex length; there the cloud read
   returns None, and on every other reply the two agree.
   */
  lemma ReadsAgreeUnlessOddHex(reply: Reply)
    ensures LocalRead(reply).RaisesValueError? <==> IsOddHex(reply)
    ensures LocalRead(reply) == Returns(CloudRead(reply)) <==> !IsOddHex(reply)
    ensures IsOddHex(reply) ==> CloudRead(reply).None?
  {
    if reply.Http? && Captured(reply.body).Some? {
      assert FromHex(Captured(reply.body).value).None? <==> |Captured(reply.body).value| % 2 == 1;
    }
  }

  /** A successful cloud read is never empty, and comes from a reply that keeps the session. */
  lemma CloudReadIsNeverEmpty(reply: Reply)
    ensures CloudRead(reply).Some? ==> |CloudRead(reply).value| > 0 && !DropsSession(reply)
  {
    if reply.Http? && Captured(reply.body).Some? && FromHex(Captured(reply.body).value).Some? {
      assert 2 * |FromHex(Captured(reply.body).value).value| == |Captured(reply.body).value|;
    }
  }

  /** The text in any case of its ASCII letters. */
  predicate AnyCase(t: seq<byte>, lower: string)
    requires AllOf(lower, IsAscii)
  {
    |t| == |lower| && forall i | 0 <= i < |t| :: (if 65 <= t[i] <= 90 then t[i] + 32 else t[i]) == lower[i] as int
  }

  lemma AnyCaseStarts(t: seq<byte>, lower: string)
    requires AllOf(lower, IsAscii) && AnyCase(t, lower)
    ensures StartsWith(t, Ascii(lower), Fold) && |t| == |Ascii(lower)|
  {
  }

  /** The tag at a position of `pre` never matches, whatever the case of its letters. */
  ghost predicate NotBefore(tag: Tag<byte>, pre: seq<byte>, t: seq<byte>) {
    forall i | 0 <= i < |pre| :: TagAt(tag, pre[i..] + t).None?
  }

  /**
   Every non-empty byte string, sent as hex in either letter case in the str tag with no
   earlier match, is what both reads return.
   */
  lemma HexInStrRoundTrip(raw: seq<byte>, upper: bool, pre: seq<byte>, open: seq<byte>, close: seq<byte>,
                          post: seq<byte>)
    requires |raw| > 0 && AnyCase(open, "<str>") && AnyCase(close, "</str>")
    requires NotBefore(STR, pre, open + (ToHex(raw, upper) + (close + post)))
    requires Search(ERR, pre + (open + (ToHex(raw, upper) + (close + post)))).None?
    ensures var reply := Http(200, pre + (open + (ToHex(raw, upper) + (close + post))));
      CloudRead(reply) == Some(raw) && LocalRead(reply) == Returns(Some(raw))
  {
    AnyCaseStarts(open, "<str>");
    AnyCaseStarts(close, "</str>");
    HexInTag(STR, raw, upper, pre, open, close, post);
  }

  lemma PayloadTagStarts(open: seq<byte>, close: seq<byte>)
    requires AnyCase(open, "<payload>") && AnyCase(close, "</payload>")
    ensures |open| == |PAYLOAD.open| && StartsWith(open, PAYLOAD.open, Fold)
    ensures |close| == |PAYLOAD.close| && StartsWith(close, PAYLOAD.close, Fold)
  {
    AnyCaseStarts(open, "<payload>");
    AnyCaseStarts(close, "</payload>");
  }

  /** The same in the payload tag, when no str tag matches. */
  lemma HexInPayloadRoundTrip(raw: seq<byte>, upper: bool, pre: seq<byte>, open: seq<byte>, close: seq<byte>,
                              post: seq<byte>)
    requires |raw| > 0 && AnyCase(open, "<payload>") && AnyCase(close, "</payload>")
    requires NotBefore(PAYLOAD, pre, open + (ToHex(raw, upper) + (close + post)))
    requires Search(ERR, pre + (open + (ToHex(raw, upper) + (close + post)))).None?
    requires Search(STR, pre + (open + (ToHex(raw, upper) + (close + post)))).None?
    ensures var reply := Http(200, pre + (open + (ToHex(raw, upper) + (close + post))));
      CloudRead(reply) == Some(raw) && LocalRead(reply) == Returns(Some(raw))
  {
    PayloadTagStarts(open, close);
    HexInTag(PAYLOAD, raw, upper, pre, open, close, post);
  }

  lemma HexInTag(tag: Tag<byte>, raw: seq<byte>, upper: bool, pre: seq<byte>, open: seq<byte>, close: seq<byte>,
                 post: seq<byte>)
    requires |raw| > 0 && (tag == STR || tag == PAYLOAD)
    requires |open| == |tag.open| && StartsWith(open, tag.open, Fold)
    requires |close| == |tag.close| && StartsWith(close, tag.close, Fold)
    requires NotBefore(tag, pre, open + (ToHex(raw, upper) + (close + post)))
    requires var body := pre + (open + (ToHex(raw, upper) + (close + post)));
             Search(ERR, body).None? && (tag == STR || Search(STR, body).None?)
    ensures var reply := Http(200, pre + (open + (ToHex(raw, upper) + (close + post))));
      CloudRead(reply) == Some(raw) && LocalRead(reply) == Returns(Some(raw))
  {
    var h := ToHex(raw, upper);
    assert tag.close[0] == 0x3C && close[0] == 0x3C;
    TagAtFinds(tag, open, h, close, post);
    SearchSkips(tag, pre, open + (h + (close + post)));
    HexRoundTrip(raw, upper);
  }

  // ---- Exactly when a tag is read ----

  /**
   An error 0x0c0d, in any letter case and behind no earlier match, drops the session
   exactly when its closing tag is not repeated in the same stretch without white space.
   */
  lemma ErrorDropsIffClosesOnce(pre: seq<byte>, open: seq<byte>, code: seq<byte>, close: seq<byte>, post: seq<byte>)
    requires AnyCase(open, "<err>") && AnyCase(code, "0x0c0d") && AnyCase(close, "</err>")
    requires NotBefore(ERR, pre, open + (code + (close + post)))
    ensures DropsSession(Http(200, pre + (open + (code + (close + post))))) <==> ClosesOnce(ERR, code, close + post)
  {
    AnyCaseStarts(code, "0x0c0d");
    AnyCaseStarts(open, "<err>");
    AnyCaseStarts(close, "</err>");
    CodeIsNonSpace(code);
    CapturesIffClosesOnce(ERR, open, code, close, post);
    SearchSkips(ERR, pre, open + (code + (close + post)));
  }

  lemma CodeIsNonSpace(code: seq<byte>)
    requires |code| == 6 && StartsWith(code, Ascii("0x0c0d"), Fold)
    ensures AllOf(code, ERR.inGroup)
  {
    var lit := Ascii("0x0c0d");
    forall i | 0 <= i < 6 ensures IsNonSpace(code[i]) { assert Fold(code[i]) == lit[i] && lit[i] >= 0x30; }
  }

  lemma SecondCloseBreaks(code: seq<byte>, close: seq<byte>)
    requires AllOf(code, ERR.inGroup) && AllOf(close, ERR.inGroup) && |close| > 0
    requires StartsWith(close, ERR.close, Fold)
    ensures !ClosesOnce(ERR, code, close + close)
  {
    var u := code + (close + close);
    RunStopsAt(u, [], ERR.inGroup);
    assert u + [] == u;
    assert u[|code| + |close|..] == close;
  }

  /** The body `<err>0x0c0d</err></err>` keeps the dead session. */
  lemma RepeatedCloseKeepsTheSession()
    ensures !DropsSession(Http(200, [] + (Ascii("<err>") + (Ascii("0x0c0d") + (Ascii("</err>") + Ascii("</err>"))))))
  {
    var code, close := Ascii("0x0c0d"), Ascii("</err>");
    CodeIsNonSpace(code);
    assert AllOf(close, IsNonSpace);
    assert AnyCase(code, "0x0c0d") && AnyCase(close, "</err>") && AnyCase(Ascii("<err>"), "<err>");
    SecondCloseBreaks(code, close);
    ErrorDropsIffClosesOnce([], Ascii("<err>"), code, close, close);
  }

  /** A tag as markup writes it. */
  ghost predicate IsMarkup(tag: Tag<byte>) {
    |tag.open| >= 2 && tag.open[0] == 0x3C && |tag.close| >= 1 && tag.close[0] == 0x3C && tag.fold == Fold
  }

  lemma TagsAreMarkup()
    ensures IsMarkup(ERR) && ERR.open[1] == 0x65
    ensures IsMarkup(STR) && STR.open[1] == 0x73
    ensures IsMarkup(PAYLOAD) && PAYLOAD.open[1] == 0x70
  {
  }

  /** No position of `s` can start the tag, whatever follows `s`. */
  ghost predicate NoStart(tag: Tag<byte>, s: seq<byte>)
    requires IsMarkup(tag)
  {
    forall i | 0 <= i < |s| :: s[i] != 0x3C || (i + 1 < |s| && Fold(s[i + 1]) != tag.open[1])
  }

  lemma NoStartJoin(tag: Tag<byte>, a: seq<byte>, b: seq<byte>)
    requires IsMarkup(tag) && NoStart(tag, a) && NoStart(tag, b)
    ensures NoStart(tag, a + b)
  {
    var t := a + b;
    forall i | 0 <= i < |t| ensures t[i] != 0x3C || (i + 1 < |t| && Fold(t[i + 1]) != tag.open[1]) {
      if i >= |a| { assert t[i] == b[i - |a|]; }
    }
  }

  lemma NoStartNotBefore(tag: Tag<byte>, pre: seq<byte>, t: seq<byte>)
    requires IsMarkup(tag) && NoStart(tag, pre)
    ensures NotBefore(tag, pre, t)
  {
    forall i | 0 <= i < |pre| ensures TagAt(tag, pre[i..] + t).None? {
      var u := pre[i..] + t;
      assert u[0] == pre[i] && (i + 1 < |pre| ==> u[1] == pre[i + 1]);
    }
  }

  lemma NoStartNoTag(tag: Tag<byte>, t: seq<byte>)
    requires IsMarkup(tag) && NoStart(tag, t)
    ensures Search(tag, t).None?
  {
    SearchFailsIffNowhere(tag, t);
    forall i | 0 <= i <= |t| ensures TagAt(tag, t[i..]).None? {
      if i < |t| - 1 { assert t[i..][0] == t[i] && t[i..][1] == t[i + 1]; }
    }
  }

  lemma StrBodyHasNoError(h: seq<byte>)
    requires AllOf(h, IsHexDigit)
    ensures Search(ERR, Ascii("<str>") + (h + (Ascii("</str>") + []))).None?
  {
    var open, close := Ascii("<str>"), Ascii("</str>");
    TagsAreMarkup();
    assert open[1] == 0x73 && close[1] == 0x2F;
    assert NoStart(ERR, open) && NoStart(ERR, close) && NoStart(ERR, h);
    NoStartJoin(ERR, close, []);
    NoStartJoin(ERR, h, close + []);
    NoStartJoin(ERR, open, h + (close + []));
    NoStartNoTag(ERR, open + (h + (close + [])));
  }

  lemma StrIsCaptured(h: seq<byte>)
    requires h != [] && AllOf(h, IsHexDigit)
    ensures Search(STR, Ascii("<str>") + (h + (Ascii("</str>") + []))) == Some(h)
  {
    assert Ascii("</str>")[0] == 0x3C;
    TagAtFinds(STR, Ascii("<str>"), h, Ascii("</str>"), []);
  }

  /** Every odd number of hex digits in the str tag makes the local read raise, and the cloud read fail. */
  lemma OddHexRaises(h: seq<byte>)
    requires |h| % 2 == 1 && AllOf(h, IsHexDigit)
    ensures var reply := Http(200, Ascii("<str>") + (h + (Ascii("</str>") + [])));
            LocalRead(reply) == RaisesValueError && CloudRead(reply) == None
  {
    StrBodyHasNoError(h);
    StrIsCaptured(h);
  }

  /** The body `<str>abc</str>`. */
  lemma ThreeHexDigitsRaise()
    ensures LocalRead(Http(200, Ascii("<str>") + (Ascii("abc") + (Ascii("</str>") + [])))) == RaisesValueError
  {
    OddHexRaises(Ascii("abc"));
  }
}
