/** The file name sanitizer: a scan for `..`, a character filter, and a cut at 64. */
module Sanitizer {

  /** `[\w\-. ]`; `isWord` is the Unicode class `\w`. */
  predicate Allowed(isWord: char -> bool, c: char) {
    isWord(c) || c == '-' || c == '.' || c == ' '
  }

  /** `name.replace("..", "_")`: left to right, without overlap. */
  function ReplaceDots(s: string): string {
    if |s| >= 2 && s[0] == '.' && s[1] == '.' then "_" + ReplaceDots(s[2..])
    else if s == "" then ""
    else [s[0]] + ReplaceDots(s[1..])
  }

  /** `re.sub(r"[^\w\-. ]", "_", s)`. */
  function Filter(isWord: char -> bool, s: string): (r: string)
    ensures |r| == |s|
    ensures forall i | 0 <= i < |s| :: r[i] == if Allowed(isWord, s[i]) then s[i] else '_'
  {
    seq(|s|, i requires 0 <= i < |s| => if Allowed(isWord, s[i]) then s[i] else '_')
  }

  const LIMIT: nat := 64

  function Cut(s: string): string { if |s| <= LIMIT then s else s[..LIMIT] }

  /** `sanitize_filename`. */
  function Sanitize(isWord: char -> bool, name: string): string {
    Cut(Filter(isWord, ReplaceDots(name)))
  }

  predicate NoDoubleDot(s: string) {
    forall i | 0 <= i && i + 1 < |s| :: !(s[i] == '.' && s[i + 1] == '.')
  }

  /** A safe file name component. */
  predicate IsSafe(isWord: char -> bool, s: string) {
    |s| <= 64 && NoDoubleDot(s) && forall i | 0 <= i < |s| :: isWord(s[i]) || s[i] in "-. "
  }

  lemma {:induction false} ReplaceDotsLeavesNone(s: string)
    ensures NoDoubleDot(ReplaceDots(s))
    ensures ReplaceDots(s) != "" && ReplaceDots(s)[0] == '.' ==> s[0] == '.' && !(|s| >= 2 && s[1] == '.')
    decreases |s|
  {
    if |s| >= 2 && s[0] == '.' && s[1] == '.' {
      ReplaceDotsLeavesNone(s[2..]);
      var r := ReplaceDots(s);
      assert forall i | 1 <= i < |r| :: r[i] == ReplaceDots(s[2..])[i - 1];
    } else if s != "" {
      ReplaceDotsLeavesNone(s[1..]);
      var r := ReplaceDots(s);
      assert forall i | 1 <= i < |r| :: r[i] == ReplaceDots(s[1..])[i - 1];
    }
  }

  lemma {:induction false} ReplaceDotsKeeps(s: string)
    requires NoDoubleDot(s)
    ensures ReplaceDots(s) == s
  {
    if s != "" {
      ReplaceDotsKeeps(s[1..]);
    }
  }

  /** Every result is safe, and the safe names are exactly those that sanitizing leaves alone. */
  lemma SafeNamesAreTheFixedPoints(isWord: char -> bool, name: string)
    requires isWord('_')
    ensures IsSafe(isWord, Sanitize(isWord, name))
    ensures IsSafe(isWord, name) <==> Sanitize(isWord, name) == name
    ensures Sanitize(isWord, Sanitize(isWord, name)) == Sanitize(isWord, name)
  {
    ResultIsSafe(isWord, name);
    if IsSafe(isWord, name) { SafeIsKept(isWord, name); }
    SafeIsKept(isWord, Sanitize(isWord, name));
  }

  lemma ResultIsSafe(isWord: char -> bool, name: string)
    requires isWord('_')
    ensures IsSafe(isWord, Sanitize(isWord, name))
  {
    ReplaceDotsLeavesNone(name);
  }

  lemma SafeIsKept(isWord: char -> bool, s: string)
    requires IsSafe(isWord, s)
    ensures Sanitize(isWord, s) == s
  {
    ReplaceDotsKeeps(s);
    assert Filter(isWord, s) == s;
  }

  /** A name without `..` keeps its first 64 characters in place, each disallowed one as an underscore. */
  lemma CharactersStayInPlace(isWord: char -> bool, name: string)
    requires NoDoubleDot(name)
    ensures var r := Sanitize(isWord, name);
      && |r| == (if |name| <= 64 then |name| else 64)
      && forall i | 0 <= i < |r| ::
           r[i] == if isWord(name[i]) || name[i] in "-. " then name[i] else '_'
  {
    ReplaceDotsKeeps(name);
  }

  // ---- Runs of dots ----

  function Times(c: char, n: nat): string { seq(n, _ => c) }

  lemma {:induction false} ReplaceDotsJoins(a: string, b: string)
    requires a == "" || a[|a| - 1] != '.' || b == "" || b[0] != '.'
    ensures ReplaceDots(a + b) == ReplaceDots(a) + ReplaceDots(b)
    decreases |a|
  {
    if a == "" {
      assert a + b == b;
    } else if |a| >= 2 && a[0] == '.' && a[1] == '.' {
      assert (a + b)[2..] == a[2..] + b;
      ReplaceDotsJoins(a[2..], b);
      assert "_" + (ReplaceDots(a[2..]) + ReplaceDots(b)) == ("_" + ReplaceDots(a[2..])) + ReplaceDots(b);
    } else {
      assert (a + b)[1..] == a[1..] + b;
      ReplaceDotsJoins(a[1..], b);
      assert [a[0]] + (ReplaceDots(a[1..]) + ReplaceDots(b)) == ([a[0]] + ReplaceDots(a[1..])) + ReplaceDots(b);
    }
  }

  /** What a run of n dots becomes: an underscore for each pair, and the odd dot. */
  function Collapsed(n: nat): string { Times('_', n / 2) + if n % 2 == 1 then "." else "" }

  lemma {:induction false} DotsInPairs(n: nat)
    ensures ReplaceDots(Times('.', n)) == Collapsed(n)
  {
    if n >= 2 {
      assert Times('.', n)[2..] == Times('.', n - 2);
      assert ReplaceDots(Times('.', n)) == "_" + ReplaceDots(Times('.', n - 2));
      DotsInPairs(n - 2);
      assert Times('_', n / 2) == "_" + Times('_', (n - 2) / 2);
      assert Collapsed(n) == "_" + Collapsed(n - 2);
    } else if n == 1 {
      assert Times('.', 1)[1..] == "";
    }
  }

  /** Each disallowed character as an underscore. */
  function Shown(isWord: char -> bool, s: string): string {
    seq(|s|, i requires 0 <= i < |s| => if isWord(s[i]) || s[i] in "-. " then s[i] else '_')
  }

  lemma DotRunIn(before: string, dots: string, after: string, n: nat)
    requires NoDoubleDot(before) && NoDoubleDot(after) && dots == Times('.', n)
    requires (before == "" || before[|before| - 1] != '.') && (after == "" || after[0] != '.')
    ensures ReplaceDots(before + (dots + after)) == before + (Collapsed(n) + after)
  {
    ReplaceDotsJoins(before, dots + after);
    ReplaceDotsJoins(dots, after);
    ReplaceDotsKeeps(before);
    ReplaceDotsKeeps(after);
    DotsInPairs(n);
  }

  lemma FilterIsShown(isWord: char -> bool, s: string)
    ensures Filter(isWord, s) == Shown(isWord, s)
  {
  }

  lemma ShownJoins(isWord: char -> bool, a: string, b: string)
    ensures Shown(isWord, a + b) == Shown(isWord, a) + Shown(isWord, b)
  {
  }

  lemma CollapsedStays(isWord: char -> bool, n: nat)
    requires isWord('_')
    ensures Shown(isWord, Collapsed(n)) == Collapsed(n)
  {
  }

  /**
   A run of n dots between two texts without adjacent dots becomes n / 2 underscores,
   followed by the last dot when n is odd; what follows moves up before the cut at 64.
   */
  lemma DotRunsAreReplaced(isWord: char -> bool, before: string, n: nat, after: string)
    requires isWord('_') && NoDoubleDot(before) && NoDoubleDot(after)
    requires (before == "" || before[|before| - 1] != '.') && (after == "" || after[0] != '.')
    ensures var whole := Shown(isWord, before) + (Collapsed(n) + Shown(isWord, after));
      Sanitize(isWord, before + (Times('.', n) + after)) == if |whole| <= 64 then whole else whole[..64]
  {
    DotRunIn(before, Times('.', n), after, n);
    FilterIsShown(isWord, before + (Collapsed(n) + after));
    ShownJoins(isWord, before, Collapsed(n) + after);
    ShownJoins(isWord, Collapsed(n), after);
    CollapsedStays(isWord, n);
  }
}
