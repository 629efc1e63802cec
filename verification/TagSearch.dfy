/**
 The searches `<tag>(class+)</tag>` that read RCP replies: case-insensitive,
 leftmost, with a greedy group that gives characters back until the closing tag fits.
 Generic in the alphabet, since replies are searched both as bytes and as text.
 */
module TagSearch {
  import opened Wrappers
  import opened Text

  /** The closing and opening literals are written in lower case; `fold` maps a letter to lower case. */
  datatype Tag<!T> = Tag(open: seq<T>, close: seq<T>, inGroup: T -> bool, fold: T -> T)

  predicate StartsWith<T(==)>(t: seq<T>, lit: seq<T>, fold: T -> T) {
    |lit| <= |t| && forall i | 0 <= i < |lit| :: fold(t[i]) == lit[i]
  }

  /** The longest group of at most `n` characters that the closing tag follows. */
  function Group<T(==)>(tag: Tag<T>, t: seq<T>, n: nat): (len: Option<nat>)
    requires n <= |t|
    ensures len.Some? ==> 0 < len.value <= n && StartsWith(t[len.value..], tag.close, tag.fold)
    ensures forall k | (if len.Some? then len.value else 0) < k <= n :: !StartsWith(t[k..], tag.close, tag.fold)
  {
    if n == 0 then None
    else if StartsWith(t[n..], tag.close, tag.fold) then Some(n)
    else Group(tag, t, n - 1)
  }

  /** The captured group of a match at the start of `t`. */
  function TagAt<T(==)>(tag: Tag<T>, t: seq<T>): (group: Option<seq<T>>)
    ensures group.Some? ==> |group.value| > 0 && AllOf(group.value, tag.inGroup)
  {
    if !StartsWith(t, tag.open, tag.fold) then None
    else
      var u := t[|tag.open|..];
      match Group(tag, u, Run(u, tag.inGroup))
      case None => None
      case Some(n) => Some(u[..n])
  }

  /** `re.search`: the group of the leftmost match. */
  function Search<T(==)>(tag: Tag<T>, t: seq<T>): (group: Option<seq<T>>)
    ensures group.Some? ==> |group.value| > 0 && AllOf(group.value, tag.inGroup)
  {
    if TagAt(tag, t).Some? then TagAt(tag, t)
    else if |t| == 0 then None
    else Search(tag, t[1..])
  }

  /** A group that the closing tag follows, and cannot contain its first letter, is captured whole. */
  lemma TagAtFinds<T>(tag: Tag<T>, open: seq<T>, group: seq<T>, close: seq<T>, rest: seq<T>)
    requires |open| == |tag.open| && StartsWith(open, tag.open, tag.fold)
    requires |close| == |tag.close| > 0 && StartsWith(close, tag.close, tag.fold)
    requires |group| > 0 && AllOf(group, tag.inGroup) && !tag.inGroup(close[0])
    ensures TagAt(tag, open + (group + (close + rest))) == Some(group)
  {
    var t := open + (group + (close + rest));
    var u := group + (close + rest);
    assert t[|tag.open|..] == u;
    assert forall i | 0 <= i < |open| :: t[i] == open[i];
    RunStopsAt(group, close + rest, tag.inGroup);
    assert u[|group|..] == close + rest;
    assert u[..|group|] == group;
  }

  /** The leftmost match is the first position where the tag fits. */
  lemma {:induction false} SearchSkips<T>(tag: Tag<T>, pre: seq<T>, t: seq<T>)
    requires forall i | 0 <= i < |pre| :: TagAt(tag, pre[i..] + t).None?
    requires TagAt(tag, t).Some?
    ensures Search(tag, pre + t) == TagAt(tag, t)
  {
    if |pre| == 0 {
      assert pre + t == t;
    } else {
      assert pre[0..] == pre;
      assert (pre + t)[1..] == pre[1..] + t;
      forall i | 0 <= i < |pre[1..]| ensures TagAt(tag, pre[1..][i..] + t).None? {
        assert pre[1..][i..] == pre[i + 1..];
      }
      SearchSkips(tag, pre[1..], t);
    }
  }

  // ---- The matcher is the pattern ----

  /** The pattern matches at the start of `t` with a group of `g` characters. */
  predicate Fits<T(==)>(tag: Tag<T>, t: seq<T>, g: nat) {
    && StartsWith(t, tag.open, tag.fold)
    && 0 < g && |tag.open| + g <= |t|
    && AllOf(t[|tag.open|..|tag.open| + g], tag.inGroup)
    && StartsWith(t[|tag.open| + g..], tag.close, tag.fold)
  }

  /** A group of `g` characters is a group within the run of its class. */
  lemma FitsInRun<T>(tag: Tag<T>, t: seq<T>, g: nat)
    requires StartsWith(t, tag.open, tag.fold) && 0 < g && |tag.open| + g <= |t|
    ensures var u := t[|tag.open|..];
            Fits(tag, t, g) <==> g <= Run(u, tag.inGroup) && StartsWith(u[g..], tag.close, tag.fold)
  {
    var u := t[|tag.open|..];
    assert t[|tag.open|..|tag.open| + g] == u[..g];
    assert t[|tag.open| + g..] == u[g..];
    if g > Run(u, tag.inGroup) { assert u[..g][Run(u, tag.inGroup)] == u[Run(u, tag.inGroup)]; }
  }

  /** The matcher captures the longest group the pattern fits with, and misses none. */
  lemma TagAtIsLongest<T>(tag: Tag<T>, t: seq<T>)
    ensures TagAt(tag, t).None? <==> forall g: nat :: !Fits(tag, t, g)
    ensures TagAt(tag, t).Some? ==>
              var g := |TagAt(tag, t).value|;
              && Fits(tag, t, g) && TagAt(tag, t).value == t[|tag.open|..|tag.open| + g]
              && forall k: nat | k > g :: !Fits(tag, t, k)
  {
    if StartsWith(t, tag.open, tag.fold) {
      var u := t[|tag.open|..];
      var len := Group(tag, u, Run(u, tag.inGroup));
      var n := if len.Some? then len.value else 0;
      forall k: nat | k > n ensures !Fits(tag, t, k) { NoFitBeyond(tag, t, n, k); }
      if len.Some? {
        FitsInRun(tag, t, n);
        assert t[|tag.open|..|tag.open| + n] == u[..n];
      }
    }
  }

  /** No group is longer than the one the scan back from the end of the run stops at. */
  lemma NoFitBeyond<T>(tag: Tag<T>, t: seq<T>, n: nat, k: nat)
    requires StartsWith(t, tag.open, tag.fold) && k > n
    requires var u := t[|tag.open|..];
             forall i | n < i <= Run(u, tag.inGroup) :: !StartsWith(u[i..], tag.close, tag.fold)
    ensures !Fits(tag, t, k)
  {
    if |tag.open| + k <= |t| { FitsInRun(tag, t, k); }
  }

  /** The pattern fits at none of the first `n` positions. */
  ghost predicate NoneBefore<T>(tag: Tag<T>, t: seq<T>, n: nat) {
    forall j | 0 <= j < n && j <= |t| :: TagAt(tag, t[j..]).None?
  }

  lemma NoneBeforeShifts<T>(tag: Tag<T>, t: seq<T>, n: nat)
    requires |t| > 0 && TagAt(tag, t).None? && NoneBefore(tag, t[1..], n)
    ensures NoneBefore(tag, t, n + 1)
  {
    forall j | 0 <= j < n + 1 && j <= |t| ensures TagAt(tag, t[j..]).None? {
      if j == 0 {
        assert t[0..] == t;
      } else {
        assert t[1..][j - 1..] == t[j..];
      }
    }
  }

  lemma {:induction false} SearchMissesNone<T>(tag: Tag<T>, t: seq<T>)
    requires Search(tag, t).None?
    ensures NoneBefore(tag, t, |t| + 1)
  {
    if |t| == 0 {
      assert t[0..] == t;
    } else {
      SearchMissesNone(tag, t[1..]);
      NoneBeforeShifts(tag, t, |t|);
    }
  }

  /** The search captures at the first position where the pattern fits at all. */
  lemma {:induction false} SearchIsLeftmost<T>(tag: Tag<T>, t: seq<T>) returns (i: nat)
    requires Search(tag, t).Some?
    ensures i <= |t| && TagAt(tag, t[i..]) == Search(tag, t) && NoneBefore(tag, t, i)
  {
    if TagAt(tag, t).Some? {
      i := 0;
      assert t[0..] == t;
    } else {
      var k := SearchIsLeftmost(tag, t[1..]);
      NoneBeforeShifts(tag, t, k);
      assert t[1..][k..] == t[k + 1..];
      i := k + 1;
    }
  }

  /** Nothing is captured exactly when the pattern fits nowhere. */
  lemma SearchFailsIffNowhere<T>(tag: Tag<T>, t: seq<T>)
    ensures Search(tag, t).None? <==> NoneBefore(tag, t, |t| + 1)
  {
    if Search(tag, t).None? {
      SearchMissesNone(tag, t);
    } else {
      var i := SearchIsLeftmost(tag, t);
    }
  }

  /** No further closing tag starts in the run of group characters behind the group. */
  predicate ClosesOnce<T(==)>(tag: Tag<T>, group: seq<T>, behind: seq<T>) {
    var u := group + behind;
    forall k | |group| < k <= Run(u, tag.inGroup) :: !StartsWith(u[k..], tag.close, tag.fold)
  }

  /** A group whose class may run on into the closing tag is captured whole exactly when the tag closes once. */
  lemma CapturesIffClosesOnce<T>(tag: Tag<T>, open: seq<T>, group: seq<T>, close: seq<T>, rest: seq<T>)
    requires |open| == |tag.open| && StartsWith(open, tag.open, tag.fold)
    requires |close| == |tag.close| && StartsWith(close, tag.close, tag.fold)
    requires |group| > 0 && AllOf(group, tag.inGroup)
    ensures TagAt(tag, open + (group + (close + rest))).Some?
    ensures group <= TagAt(tag, open + (group + (close + rest))).value
    ensures TagAt(tag, open + (group + (close + rest))) == Some(group) <==> ClosesOnce(tag, group, close + rest)
  {
    var u := group + (close + rest);
    var t := open + u;
    assert t[|tag.open|..] == u;
    assert forall i | 0 <= i < |open| :: t[i] == open[i];
    assert u[|group|..] == close + rest;
    assert forall i | 0 <= i < |close| :: (close + rest)[i] == close[i];
    var n := Run(u, tag.inGroup);
    assert forall i | 0 <= i < |group| :: u[i] == group[i];
    assert n >= |group|;
    assert u[..|group|] == group;
    var g := Group(tag, u, n);
    assert g.Some? && g.value >= |group|;
    if g.value > |group| { assert |u[..g.value]| > |group|; }
  }
}
