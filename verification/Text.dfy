/** Scanning and printing helpers shared by the text models. */
module Text {
  import opened Wrappers

  /** Length of the longest prefix of `t` whose characters all satisfy `p`. */
  function Run<T>(t: seq<T>, p: T -> bool): (n: nat)
    ensures n <= |t|
    ensures forall i | 0 <= i < n :: p(t[i])
    ensures n < |t| ==> !p(t[n])
  {
    if |t| == 0 || !p(t[0]) then 0 else 1 + Run(t[1..], p)
  }

  predicate AllOf<T>(t: seq<T>, p: T -> bool) {
    forall i | 0 <= i < |t| :: p(t[i])
  }

  lemma RunSplits<T>(t: seq<T>, p: T -> bool)
    ensures AllOf(t[..Run(t, p)], p) && t == t[..Run(t, p)] + t[Run(t, p)..]
  {
    var n := Run(t, p);
    var front := t[..n];
    assert forall i | 0 <= i < n :: front[i] == t[i];
  }

  /** A run ends exactly at the first character outside the class. */
  lemma RunStopsAt<T>(a: seq<T>, b: seq<T>, p: T -> bool)
    requires AllOf(a, p) && (|b| == 0 || !p(b[0]))
    ensures Run(a + b, p) == |a|
  {
    assert forall i | 0 <= i < |a| :: (a + b)[i] == a[i];
    assert |b| > 0 ==> (a + b)[|a|] == b[0];
  }

  lemma RunJoins<T>(a: seq<T>, b: seq<T>, p: T -> bool)
    requires AllOf(a, p)
    ensures Run(a + b, p) == |a| + Run(b, p)
  {
    var n := Run(b, p);
    RunSplits(b, p);
    Regroup(a, b[..n], b[n..]);
    RunStopsAt(a + b[..n], b[n..], p);
  }

  lemma Regroup<T>(x: seq<T>, y: seq<T>, z: seq<T>)
    ensures x + (y + z) == (x + y) + z
  {
  }

  /** `sub in t`. */
  predicate Contains(t: string, sub: string) {
    sub <= t || (t != "" && Contains(t[1..], sub))
  }

  /** It holds exactly when `sub` stands at some position. */
  lemma {:induction false} ContainsIff(t: string, sub: string)
    ensures Contains(t, sub) <==> exists i | 0 <= i <= |t| :: sub <= t[i..]
  {
    assert t[0..] == t;
    if t != "" {
      ContainsIff(t[1..], sub);
      forall i | 1 <= i <= |t| ensures t[i..] == t[1..][i - 1..] { }
      if i :| 0 <= i <= |t[1..]| && sub <= t[1..][i..] {
        assert sub <= t[i + 1..];
      }
    }
  }

  predicate IsAscii(c: char) { c < '\U{80}' }

  predicate IsHexChar(c: char) { '0' <= c <= '9' || 'A' <= c <= 'F' || 'a' <= c <= 'f' }

  predicate IsAsciiDigit(c: char) { '0' <= c <= '9' }

  /** `str(n)` for a natural number. */
  function Decimal(n: nat): (t: string)
    ensures t != "" && AllOf(t, IsAsciiDigit)
  {
    if n < 10 then ['0' + n as char] else Decimal(n / 10) + ['0' + (n % 10) as char]
  }

  /** `str(n)` for an integer. */
  function DecimalInt(n: int): (t: string)
    ensures t != "" && forall i | 0 <= i < |t| :: IsAsciiDigit(t[i]) || t[i] == '-'
  {
    if n < 0 then "-" + Decimal(-n) else Decimal(n)
  }

  /** The number a text of decimal digits stands for. */
  function ReadNat(t: string): Option<nat> {
    if t == "" || !AllOf(t, IsAsciiDigit) then None else Some(Digits(t))
  }

  function Digits(t: string): nat
    requires AllOf(t, IsAsciiDigit)
  {
    if t == "" then 0
    else
      assert IsAsciiDigit(t[|t| - 1]);
      Digits(t[..|t| - 1]) * 10 + (t[|t| - 1] as nat - '0' as nat)
  }

  function ReadInt(t: string): Option<int> {
    if t != "" && t[0] == '-' then
      match ReadNat(t[1..])
      case Some(n) => Some(-(n as int))
      case None => None
    else
      match ReadNat(t)
      case Some(n) => Some(n)
      case None => None
  }

  lemma {:induction false} DigitsOfDecimal(n: nat)
    ensures Digits(Decimal(n)) == n
  {
    var t := Decimal(n);
    if n < 10 {
      assert t[..|t| - 1] == "";
    } else {
      DigitsOfDecimal(n / 10);
      assert t[..|t| - 1] == Decimal(n / 10);
    }
  }

  /** Printed numbers read back. */
  lemma NumbersReadBack(n: nat, i: int)
    ensures ReadNat(Decimal(n)) == Some(n)
    ensures ReadInt(DecimalInt(i)) == Some(i)
  {
    DigitsOfDecimal(n);
    DigitsOfDecimal(if i < 0 then -i else i);
    if i < 0 {
      assert DecimalInt(i)[1..] == Decimal(-i);
    } else {
      assert IsAsciiDigit(DecimalInt(i)[0]);
    }
  }

  /** The text before the first `c`, and the text behind it. */
  function Partition(t: string, c: char): (r: Option<(string, string)>)
    ensures r.Some? ==> |r.value.0| + 1 + |r.value.1| == |t| && c !in r.value.0
    ensures r.None? ==> c !in t
  {
    var n := Run(t, (x: char) => x != c);
    if n == |t| then None else Some((t[..n], t[n + 1..]))
  }

  lemma PartitionFinds(a: string, c: char, b: string)
    requires c !in a
    ensures Partition(a + ([c] + b), c) == Some((a, b))
  {
    var t := a + ([c] + b);
    RunStopsAt(a, [c] + b, (x: char) => x != c);
    assert t[..|a|] == a && t[|a| + 1..] == b;
  }

  /** `str.isspace`, the class behind `\s` in a text pattern. */
  predicate IsSpace(c: char) {
    || '\t' <= c <= '\r' || '\U{1C}' <= c <= ' ' || c == '\U{85}' || c == '\U{A0}'
    || c == '\U{1680}' || '\U{2000}' <= c <= '\U{200A}' || c == '\U{2028}' || c == '\U{2029}'
    || c == '\U{202F}' || c == '\U{205F}' || c == '\U{3000}'
  }

  function StripEnd(t: string): string {
    if t != "" && IsSpace(t[|t| - 1]) then StripEnd(t[..|t| - 1]) else t
  }

  /** `str.strip()`. */
  function Strip(t: string): string {
    StripEnd(t[Run(t, IsSpace)..])
  }

  lemma {:induction false} EndIsStripped(w: string, after: string)
    requires AllOf(after, IsSpace) && (w == "" || !IsSpace(w[|w| - 1]))
    ensures StripEnd(w + after) == w
  {
    if after == "" {
      assert w + after == w;
    } else {
      assert (w + after)[..|w + after| - 1] == w + after[..|after| - 1];
      EndIsStripped(w, after[..|after| - 1]);
    }
  }

  /** A text that neither starts nor ends with white space is what stripping leaves of its padded form. */
  lemma StripUnpads(before: string, w: string, after: string)
    requires AllOf(before, IsSpace) && AllOf(after, IsSpace)
    requires w == "" || (!IsSpace(w[0]) && !IsSpace(w[|w| - 1]))
    ensures Strip(before + (w + after)) == w
  {
    var t := before + (w + after);
    if w == "" {
      assert t == before + after;
      RunStopsAt(t, "", IsSpace);
      assert t + "" == t && t[|t|..] == "";
    } else {
      RunStopsAt(before, w + after, IsSpace);
      assert t[|before|..] == w + after;
      EndIsStripped(w, after);
    }
  }
}
