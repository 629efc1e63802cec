/** What the handshake makes of particular answers, with the session tag spelled out. */
module RcpHandshakes {
  import opened Wrappers
  import opened Text
  import opened TagSearch
  import opened RcpSessions

  /** What a letter of the tag may stand as: either case, and what IGNORECASE folds to it in a text. */
  predicate Spells(t: string, lower: string, upper: string)
    requires |lower| == |upper|
  {
    && |t| == |lower|
    && forall i | 0 <= i < |t| ::
         || t[i] == lower[i] || t[i] == upper[i] || (lower[i] == 's' && t[i] == '\U{17F}')
         || (lower[i] == 'i' && (t[i] == '\U{130}' || t[i] == '\U{131}'))
  }

  predicate Folded(lower: string, upper: string) {
    && |lower| == |upper|
    && forall i | 0 <= i < |lower| ::
         if 'a' <= lower[i] <= 'z' then upper[i] == lower[i] - 'a' + 'A'
         else upper[i] == lower[i] && !('A' <= lower[i] <= 'Z') && lower[i] < '\U{80}'
  }

  lemma SpelledIsFolded(t: string, lower: string, upper: string)
    requires Folded(lower, upper)
    ensures Spells(t, lower, upper) <==> |t| == |lower| && StartsWith(t, lower, FoldText)
  {
    if |t| == |lower| {
      forall i | 0 <= i < |t|
        ensures FoldText(t[i]) == lower[i] <==>
                || t[i] == lower[i] || t[i] == upper[i] || (lower[i] == 's' && t[i] == '\U{17F}')
                || (lower[i] == 'i' && (t[i] == '\U{130}' || t[i] == '\U{131}'))
      {
      }
    }
  }

  predicate IsOpen(t: string) { Spells(t, "<sessionid>", "<SESSIONID>") }
  predicate IsClose(t: string) { Spells(t, "</sessionid>", "</SESSIONID>") }

  lemma TagsAreSpelled(open: string, close: string)
    ensures IsOpen(open) <==> |open| == |SESSION_ID.open| && StartsWith(open, SESSION_ID.open, FoldText)
    ensures IsClose(close) <==> |close| == |SESSION_ID.close| && StartsWith(close, SESSION_ID.close, FoldText)
  {
    SpelledIsFolded(open, "<sessionid>", "<SESSIONID>");
    SpelledIsFolded(close, "</sessionid>", "</SESSIONID>");
  }

  lemma TagStartsWithAngle(t: string)
    requires t == "" || t[0] != '<'
    ensures !StartsWith(t, SESSION_ID.open, FoldText) && !StartsWith(t, SESSION_ID.close, FoldText)
  {
  }

  lemma NoAngleNoTag(pre: string, t: string)
    requires '<' !in pre
    ensures forall i | 0 <= i < |pre| :: TagAt(SESSION_ID, pre[i..] + t).None?
  {
    forall i | 0 <= i < |pre| ensures TagAt(SESSION_ID, pre[i..] + t).None? {
      TagStartsWithAngle(pre[i..] + t);
    }
  }

  lemma ClosedOnce(id: string, close: string, post: string)
    requires IsClose(close) && '<' !in post
    ensures ClosesOnce(SESSION_ID, id, close + post)
  {
    var u := id + (close + post);
    forall k | |id| < k <= Run(u, SESSION_ID.inGroup) ensures !StartsWith(u[k..], SESSION_ID.close, FoldText) {
      if k < |id| + |close| {
        CloseHasOneAngle(close, k - |id|);
        assert u[k] == close[k - |id|];
      } else if k < |u| {
        assert u[k] == post[k - |id| - |close|];
      }
      TagStartsWithAngle(u[k..]);
    }
  }

  lemma CloseHasOneAngle(close: string, i: nat)
    requires IsClose(close) && 1 <= i < |close|
    ensures close[i] != '<'
  {
    assert "</sessionid>"[i] != '<' && "</SESSIONID>"[i] != '<';
  }

  /**
   An id without white space in the session tag, in any letter case and between texts
   without `<`, is the session, unless it is 0x00000000.
   */
  lemma SessionTagIsRead(pre: string, open: string, id: string, close: string, post: string)
    requires '<' !in pre && IsOpen(open) && IsClose(close) && '<' !in post
    requires id != "" && forall i | 0 <= i < |id| :: !IsSpace(id[i])
    ensures RcpSession(Answer(200, pre + (open + (id + (close + post)))))
            == if id == "0x00000000" then None else Some(id)
  {
    TagsAreSpelled(open, close);
    NoAngleNoTag(pre, open + (id + (close + post)));
    ClosedOnce(id, close, post);
    CapturesIffClosesOnce(SESSION_ID, open, id, close, post);
    SearchSkips(SESSION_ID, pre, open + (id + (close + post)));
  }

  /** The tag with this id stands at position `i`. */
  predicate TaggedAt(text: string, i: nat, id: string) {
    && i + 11 + |id| + 12 <= |text|
    && IsOpen(text[i..i + 11]) && text[i + 11..i + 11 + |id|] == id
    && IsClose(text[i + 11 + |id|..i + 11 + |id| + 12])
  }

  lemma TaggedHere(t: string, id: string)
    requires TagAt(SESSION_ID, t) == Some(id)
    ensures TaggedAt(t, 0, id)
  {
    TagAtIsLongest(SESSION_ID, t);
    TagsAreSpelled(t[0..0 + 11], t[0 + 11 + |id|..0 + 11 + |id| + 12]);
  }

  lemma SliceBehind(t: string, i: nat, from: nat, n: nat)
    requires i + from + n <= |t|
    ensures t[i..][from..from + n] == t[i + from..i + from + n]
  {
  }

  lemma TaggedThere(text: string, i: nat, id: string)
    requires i <= |text| && TaggedAt(text[i..], 0, id)
    ensures TaggedAt(text, i, id)
  {
    SliceBehind(text, i, 0, 11);
    SliceBehind(text, i, 11, |id|);
    SliceBehind(text, i, 11 + |id|, 12);
  }

  /** A session comes from a 200 answer that holds its id in the session tag. */
  lemma SessionsAreTagged(reply: OpenReply) returns (i: nat)
    requires RcpSession(reply).Some?
    ensures reply.Answer? && reply.status == 200 && TaggedAt(reply.text, i, RcpSession(reply).value)
  {
    i := SearchIsLeftmost(SESSION_ID, reply.text);
    TaggedHere(reply.text[i..], RcpSession(reply).value);
    TaggedThere(reply.text, i, RcpSession(reply).value);
  }
}
