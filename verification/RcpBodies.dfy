/**
 What the two reads make of particular replies, with every tag and status spelled out:
 the laws a reader of the protocol would check a reply against.
 */
module RcpBodies {
  import opened Wrappers
  import opened Text
  import opened Bytes
  import opened TagSearch
  import opened RcpReply

  /** No angle bracket opens anything here. */
  predicate NoAngle(s: seq<byte>) { 0x3C !in s }

  lemma NoAngleNoStart(tag: Tag<byte>, s: seq<byte>)
    requires IsMarkup(tag) && NoAngle(s)
    ensures NoStart(tag, s)
  {
  }

  /** Both reads return None. */
  predicate ReadsNothing(reply: Reply) {
    CloudRead(reply) == None && LocalRead(reply) == Returns(None)
  }

  predicate ReadsAs(reply: Reply, raw: seq<byte>) {
    CloudRead(reply) == Some(raw) && LocalRead(reply) == Returns(Some(raw))
  }

  /** Only a 200 answer is read. */
  lemma OnlyOkIsRead(reply: Reply)
    requires reply.NetworkError? || reply.status != 200
    ensures ReadsNothing(reply)
  {
  }

  lemma NoAngleNoTags(body: seq<byte>)
    requires NoAngle(body)
    ensures Search(ERR, body).None? && Search(STR, body).None? && Search(PAYLOAD, body).None?
  {
    TagsAreMarkup();
    NoAngleNoStart(ERR, body);
    NoAngleNoStart(STR, body);
    NoAngleNoStart(PAYLOAD, body);
    NoStartNoTag(ERR, body);
    NoStartNoTag(STR, body);
    NoStartNoTag(PAYLOAD, body);
  }

  /** A non-empty body without an angle bracket is the payload itself; an empty one is none. */
  lemma PlainBodyIsItself(body: seq<byte>)
    requires NoAngle(body)
    ensures if body == [] then ReadsNothing(Http(200, body)) else ReadsAs(Http(200, body), body)
  {
    NoAngleNoTags(body);
  }

  lemma NoCloseNoTag(tag: Tag<byte>, t: seq<byte>)
    requires IsMarkup(tag) && |t| >= 1 && NoAngle(t[1..])
    ensures Search(tag, t).None?
  {
    SearchFailsIffNowhere(tag, t);
    forall i | 0 <= i <= |t| ensures TagAt(tag, t[i..]).None? {
      NoCloseHere(tag, t, i);
    }
  }

  lemma NoCloseHere(tag: Tag<byte>, t: seq<byte>, i: nat)
    requires IsMarkup(tag) && |t| >= 1 && NoAngle(t[1..]) && i <= |t|
    ensures TagAt(tag, t[i..]).None?
  {
    var v := t[i..];
    if 0 < i < |t| {
      assert v[0] == t[1..][i - 1];
    } else if i == 0 && StartsWith(v, tag.open, tag.fold) {
      var u := v[|tag.open|..];
      assert forall k | 0 <= k < |u| :: u[k] == t[1..][|tag.open| + k - 1];
      forall k | 0 <= k <= |u| ensures !StartsWith(u[k..], tag.close, tag.fold) {
        if k < |u| { assert u[k..][0] == u[k]; }
      }
    }
  }

  /** A body that starts like markup and holds no closed tag is no payload. */
  lemma UnclosedMarkupIsNothing(rest: seq<byte>)
    requires NoAngle(rest)
    ensures ReadsNothing(Http(200, [0x3C] + rest))
  {
    var body: seq<byte> := [0x3C] + rest;
    assert body[1..] == rest;
    TagsAreMarkup();
    NoCloseNoTag(ERR, body);
    NoCloseNoTag(STR, body);
    NoCloseNoTag(PAYLOAD, body);
  }

  /** A text around hex digits: no position of it can start a tag with the given second letter. */
  lemma TagTextHasNoStart(tag: Tag<byte>, open: seq<byte>, h: seq<byte>, close: seq<byte>, post: seq<byte>)
    requires IsMarkup(tag) && NoStart(tag, open) && AllOf(h, IsHexDigit) && NoStart(tag, close) && NoStart(tag, post)
    ensures NoStart(tag, open + (h + (close + post)))
  {
    NoStartJoin(tag, close, post);
    assert NoStart(tag, h);
    NoStartJoin(tag, h, close + post);
    NoStartJoin(tag, open, h + (close + post));
  }

  lemma StrTagNoStart(tag: Tag<byte>, open: seq<byte>, close: seq<byte>)
    requires AnyCase(open, "<str>") && AnyCase(close, "</str>")
    requires IsMarkup(tag) && tag.open[1] != 0x73 && tag.open[1] != 0x2F
    ensures NoStart(tag, open) && NoStart(tag, close)
  {
    assert forall i | 1 <= i < 5 :: open[i] != 0x3C;
    assert forall i | 1 <= i < 6 :: close[i] != 0x3C;
    assert Fold(open[1]) == 0x73 && Fold(close[1]) == 0x2F;
  }

  lemma PayloadTagNoStart(tag: Tag<byte>, open: seq<byte>, close: seq<byte>)
    requires AnyCase(open, "<payload>") && AnyCase(close, "</payload>")
    requires IsMarkup(tag) && tag.open[1] != 0x70 && tag.open[1] != 0x2F
    ensures NoStart(tag, open) && NoStart(tag, close)
  {
    assert forall i | 1 <= i < 9 :: open[i] != 0x3C;
    assert forall i | 1 <= i < 10 :: close[i] != 0x3C;
    assert Fold(open[1]) == 0x70 && Fold(close[1]) == 0x2F;
  }

  /** Every non-empty byte string, as hex in a str tag in any letter case, between texts without brackets. */
  lemma StrIsRead(pre: seq<byte>, open: seq<byte>, raw: seq<byte>, upper: bool, close: seq<byte>, post: seq<byte>)
    requires NoAngle(pre) && AnyCase(open, "<str>") && raw != [] && AnyCase(close, "</str>") && NoAngle(post)
    ensures ReadsAs(Http(200, pre + (open + (ToHex(raw, upper) + (close + post)))), raw)
  {
    var t := open + (ToHex(raw, upper) + (close + post));
    TagsAreMarkup();
    StrTagNoStart(ERR, open, close);
    NoAngleNoStart(ERR, pre);
    NoAngleNoStart(ERR, post);
    NoAngleNoStart(STR, pre);
    TagTextHasNoStart(ERR, open, ToHex(raw, upper), close, post);
    NoStartJoin(ERR, pre, t);
    NoStartNoTag(ERR, pre + t);
    NoStartNotBefore(STR, pre, t);
    HexInStrRoundTrip(raw, upper, pre, open, close, post);
  }

  /** The same in a payload tag. */
  lemma PayloadIsRead(pre: seq<byte>, open: seq<byte>, raw: seq<byte>, upper: bool, close: seq<byte>, post: seq<byte>)
    requires NoAngle(pre) && AnyCase(open, "<payload>") && raw != [] && AnyCase(close, "</payload>") && NoAngle(post)
    ensures ReadsAs(Http(200, pre + (open + (ToHex(raw, upper) + (close + post)))), raw)
  {
    var t := open + (ToHex(raw, upper) + (close + post));
    TagsAreMarkup();
    PayloadHasNo(ERR, pre, open, ToHex(raw, upper), close, post);
    PayloadHasNo(STR, pre, open, ToHex(raw, upper), close, post);
    NoAngleNoStart(PAYLOAD, pre);
    NoStartNotBefore(PAYLOAD, pre, t);
    HexInPayloadRoundTrip(raw, upper, pre, open, close, post);
  }

  lemma PayloadHasNo(tag: Tag<byte>, pre: seq<byte>, open: seq<byte>, h: seq<byte>, close: seq<byte>, post: seq<byte>)
    requires NoAngle(pre) && AnyCase(open, "<payload>") && AllOf(h, IsHexDigit) && AnyCase(close, "</payload>")
    requires NoAngle(post) && IsMarkup(tag) && tag.open[1] != 0x70 && tag.open[1] != 0x2F
    ensures Search(tag, pre + (open + (h + (close + post)))).None?
  {
    PayloadTagNoStart(tag, open, close);
    NoAngleNoStart(tag, pre);
    NoAngleNoStart(tag, post);
    TagTextHasNoStart(tag, open, h, close, post);
    NoStartJoin(tag, pre, open + (h + (close + post)));
    NoStartNoTag(tag, pre + (open + (h + (close + post))));
  }

  /** With both tags in a body the str tag is read, even behind the other. */
  lemma StrGoesFirst(open: seq<byte>, other: seq<byte>, close: seq<byte>,
                     open2: seq<byte>, raw: seq<byte>, close2: seq<byte>, upper: bool)
    requires AnyCase(open, "<payload>") && AnyCase(close, "</payload>")
    requires AnyCase(open2, "<str>") && AnyCase(close2, "</str>") && raw != []
    ensures ReadsAs(Http(200, (open + (ToHex(other, upper) + (close + [])))
                              + (open2 + (ToHex(raw, upper) + (close2 + [])))), raw)
  {
    var pre := open + (ToHex(other, upper) + (close + []));
    var t := open2 + (ToHex(raw, upper) + (close2 + []));
    TagsAreMarkup();
    PayloadTextHasNo(ERR, open, ToHex(other, upper), close);
    PayloadTextHasNo(STR, open, ToHex(other, upper), close);
    StrTagNoStart(ERR, open2, close2);
    TagTextHasNoStart(ERR, open2, ToHex(raw, upper), close2, []);
    NoStartJoin(ERR, pre, t);
    NoStartNoTag(ERR, pre + t);
    NoStartNotBefore(STR, pre, t);
    HexInStrRoundTrip(raw, upper, pre, open2, close2, []);
  }

  lemma PayloadTextHasNo(tag: Tag<byte>, open: seq<byte>, h: seq<byte>, close: seq<byte>)
    requires AnyCase(open, "<payload>") && AllOf(h, IsHexDigit) && AnyCase(close, "</payload>")
    requires IsMarkup(tag) && tag.open[1] != 0x70 && tag.open[1] != 0x2F
    ensures NoStart(tag, open + (h + (close + [])))
  {
    PayloadTagNoStart(tag, open, close);
    TagTextHasNoStart(tag, open, h, close, []);
  }

  /** Any error in any letter case makes both reads return None, whatever payload follows it. */
  lemma ErrorIsNothing(pre: seq<byte>, open: seq<byte>, code: seq<byte>, close: seq<byte>, post: seq<byte>)
    requires NoAngle(pre) && AnyCase(open, "<err>") && AnyCase(close, "</err>")
    requires code != [] && forall i | 0 <= i < |code| :: !(9 <= code[i] <= 13) && code[i] != 32
    ensures ReadsNothing(Http(200, pre + (open + (code + (close + post)))))
  {
    TagsAreMarkup();
    AnyCaseStarts(open, "<err>");
    AnyCaseStarts(close, "</err>");
    NoAngleNoStart(ERR, pre);
    NoStartNotBefore(ERR, pre, open + (code + (close + post)));
    assert AllOf(code, ERR.inGroup);
    CapturesIffClosesOnce(ERR, open, code, close, post);
    SearchSkips(ERR, pre, open + (code + (close + post)));
  }

  // ---- Replies that end a session ----

  lemma NoAngleClosesOnce(code: seq<byte>, close: seq<byte>, post: seq<byte>)
    requires AnyCase(code, "0x0c0d") && AnyCase(close, "</err>") && NoAngle(post)
    ensures ClosesOnce(ERR, code, close + post)
  {
    TagsAreMarkup();
    var u := code + (close + post);
    forall k | |code| < k <= Run(u, ERR.inGroup) ensures !StartsWith(u[k..], ERR.close, Fold) {
      if k < |u| {
        assert u[k] != 0x3C by {
          if k < |code| + |close| {
            assert u[k] == close[k - |code|];
          } else {
            assert u[k] == post[k - |code| - |close|];
          }
        }
        assert u[k..][0] == u[k];
      }
    }
  }

  /** The error 0x0c0d in any letter case, between texts without brackets, ends the session. */
  lemma DeadSessionErrorDrops(pre: seq<byte>, open: seq<byte>, code: seq<byte>, close: seq<byte>, post: seq<byte>)
    requires NoAngle(pre) && AnyCase(open, "<err>") && AnyCase(code, "0x0c0d") && AnyCase(close, "</err>")
    requires NoAngle(post)
    ensures DropsSession(Http(200, pre + (open + (code + (close + post)))))
  {
    TagsAreMarkup();
    NoAngleNoStart(ERR, pre);
    NoStartNotBefore(ERR, pre, open + (code + (close + post)));
    NoAngleClosesOnce(code, close, post);
    ErrorDropsIffClosesOnce(pre, open, code, close, post);
  }

  predicate DeadSessionErrorAt(body: seq<byte>, i: nat) {
    i + 17 <= |body| && AnyCase(body[i..i + 17], "<err>0x0c0d</err>")
  }

  /** The text of that error stands somewhere in the body. */
  ghost predicate HoldsDeadSessionError(body: seq<byte>) {
    exists i: nat :: DeadSessionErrorAt(body, i)
  }

  lemma StartsInAnyCase(t: seq<byte>, lower: string)
    requires AllOf(lower, IsAscii) && StartsWith(t, Ascii(lower), Fold)
    ensures AnyCase(t[..|lower|], lower)
  {
  }

  lemma AnyCaseJoin(a: seq<byte>, la: string, b: seq<byte>, lb: string)
    requires AllOf(la, IsAscii) && AllOf(lb, IsAscii) && AnyCase(a, la) && AnyCase(b, lb)
    ensures AllOf(la + lb, IsAscii) && AnyCase(a + b, la + lb)
  {
  }

  lemma ErrorParts(open: seq<byte>, code: seq<byte>, close: seq<byte>)
    requires AnyCase(open, "<err>") && AnyCase(code, "0x0c0d") && AnyCase(close, "</err>")
    ensures AnyCase(open + (code + close), "<err>0x0c0d</err>")
  {
    AnyCaseJoin(code, "0x0c0d", close, "</err>");
    AnyCaseJoin(open, "<err>", code + close, "0x0c0d" + "</err>");
    assert "<err>" + ("0x0c0d" + "</err>") == "<err>0x0c0d</err>";
  }

  lemma ErrorText(t: seq<byte>, code: seq<byte>)
    requires TagAt(ERR, t) == Some(code) && |code| == 6 && StartsWith(code, Ascii("0x0c0d"), Fold)
    ensures |t| >= 17 && AnyCase(t[..17], "<err>0x0c0d</err>")
  {
    TagAtIsLongest(ERR, t);
    assert code == t[5..11];
    StartsInAnyCase(t, "<err>");
    StartsInAnyCase(code, "0x0c0d");
    assert code[..6] == code;
    StartsInAnyCase(t[11..], "</err>");
    assert t[11..][..6] == t[11..17];
    ErrorParts(t[..5], code, t[11..17]);
    assert t[..17] == t[..5] + (t[5..11] + t[11..17]);
  }

  lemma ErrorTextAt(body: seq<byte>, code: seq<byte>)
    requires Search(ERR, body) == Some(code) && |code| == 6 && StartsWith(code, Ascii("0x0c0d"), Fold)
    ensures HoldsDeadSessionError(body)
  {
    var i := SearchIsLeftmost(ERR, body);
    ErrorText(body[i..], code);
    assert body[i..][..17] == body[i..i + 17];
    assert DeadSessionErrorAt(body, i);
  }

  /** Only 401, 403 and that error end a session. */
  lemma OnlyTheseDrop(reply: Reply)
    requires DropsSession(reply)
    ensures reply.Http?
    ensures reply.status == 401 || reply.status == 403 || (reply.status == 200 && HoldsDeadSessionError(reply.body))
  {
    if reply.status == 200 {
      ErrorTextAt(reply.body, Search(ERR, reply.body).value);
    }
  }
}
