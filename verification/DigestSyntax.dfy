/**
 The directive scanner of the Digest helper, and the printer whose output it must
 read back.
 */
module DigestSyntax {
  import opened Wrappers
  import opened Text

  /** What the source takes from Unicode: the class `\w` and the two case mappings. */
  datatype Chars = Chars(isWord: char -> bool, lower: string -> string, upper: string -> string)

  predicate IsAsciiWord(c: char) { '0' <= c <= '9' || 'A' <= c <= 'Z' || 'a' <= c <= 'z' || c == '_' }
  function LowerChar(c: char): char { if 'A' <= c <= 'Z' then c - 'A' + 'a' else c }
  function UpperChar(c: char): char { if 'a' <= c <= 'z' then c - 'a' + 'A' else c }
  function AsciiUpper(s: string): string { seq(|s|, i requires 0 <= i < |s| => UpperChar(s[i])) }
  function AsciiLower(s: string): string { seq(|s|, i requires 0 <= i < |s| => LowerChar(s[i])) }

  /** On ASCII text the classes are the ASCII ones. */
  ghost predicate Faithful(cs: Chars) {
    && (forall c | IsAscii(c) :: cs.isWord(c) <==> IsAsciiWord(c))
    && (forall s: string | AllOf(s, IsAscii) :: cs.lower(s) == AsciiLower(s) && cs.upper(s) == AsciiUpper(s))
  }

  predicate NotQuote(c: char) { c != '"' }

  function TokenChar(cs: Chars): char -> bool {
    c => cs.isWord(c) || c == '.' || c == '/' || c == '+' || c == '=' || c == '-'
  }

  // ---- Scanning ----

  datatype Directive = Directive(key: string, value: string, rest: string)

  /** `"([^"]*)"|([\w./+=-]+)` at the start of `u`: the value, and the text behind it. */
  function ValueAt(cs: Chars, u: string): (v: Option<(string, string)>)
    ensures v.Some? ==> |v.value.1| <= |u|
  {
    if u != "" && u[0] == '"' && Run(u[1..], NotQuote) + 1 < |u| then
      var m := Run(u[1..], NotQuote);
      Some((u[1..][..m], u[1..][m + 1..]))
    else
      var k := Run(u, TokenChar(cs));
      if k == 0 then None else Some((u[..k], u[k..]))
  }

  /** `(\w+)=` and a value, at the start of `t`. */
  function DirectiveAt(cs: Chars, t: string): (d: Option<Directive>)
    ensures d.Some? ==> |d.value.rest| < |t|
  {
    var n := Run(t, cs.isWord);
    if n == 0 || n == |t| || t[n] != '=' then None
    else
      match ValueAt(cs, t[n + 1..])
      case None => None
      case Some((value, rest)) => Some(Directive(t[..n], value, rest))
  }

  /** The key and value pairs `re.finditer` yields, keys in lower case. */
  function Scan(cs: Chars, t: string): seq<(string, string)>
    decreases |t|
  {
    match DirectiveAt(cs, t)
    case Some(d) => [(cs.lower(d.key), d.value)] + Scan(cs, d.rest)
    case None => if t == "" then [] else Scan(cs, t[1..])
  }

  /** A dictionary filled in order: a later pair replaces an earlier one of the same key. */
  function Dict(pairs: seq<(string, string)>): map<string, string> {
    if pairs == [] then map[]
    else Dict(pairs[..|pairs| - 1])[pairs[|pairs| - 1].0 := pairs[|pairs| - 1].1]
  }

  /** The text before the first space, and the text behind it. */
  function Scheme(header: string): string { header[..Run(header, (c: char) => c != ' ')] }
  function Params(header: string): string {
    var n := Run(header, (c: char) => c != ' ');
    if n == |header| then "" else header[n + 1..]
  }

  /** `_parse_digest_challenge`; None is its ValueError. */
  function Parse(cs: Chars, header: string): (challenge: Option<map<string, string>>)
    ensures challenge.Some? ==> "nonce" in challenge.value
  {
    if cs.lower(Strip(Scheme(header))) != "digest" then None
    else
      var params := Dict(Scan(cs, Params(header)));
      if "nonce" in params then Some(params) else None
  }

  lemma DictGrows(pairs: seq<(string, string)>, pair: (string, string))
    ensures Dict(pairs + [pair]) == Dict(pairs)[pair.0 := pair.1]
  {
    assert (pairs + [pair])[..|pairs|] == pairs;
  }

  lemma ScanOfNothing(cs: Chars)
    ensures Scan(cs, "") == []
  {
    assert Run("", cs.isWord) == 0;
  }

  method ParseDigestChallenge(cs: Chars, header: string) returns (challenge: Option<map<string, string>>)
    ensures challenge == Parse(cs, header)
  {
    if cs.lower(Strip(Scheme(header))) != "digest" {
      return None;
    }
    var params: map<string, string> := map[];
    var t := Params(header);
    ghost var seen: seq<(string, string)> := [];
    assert seen + Scan(cs, t) == Scan(cs, t);
    while t != ""
      invariant seen + Scan(cs, t) == Scan(cs, Params(header))
      invariant params == Dict(seen)
      decreases |t|
    {
      var d := DirectiveAt(cs, t);
      if d.Some? {
        var pair := (cs.lower(d.value.key), d.value.value);
        params := params[pair.0 := pair.1];
        Regroup(seen, [pair], Scan(cs, d.value.rest));
        DictGrows(seen, pair);
        seen := seen + [pair];
        t := d.value.rest;
      } else {
        t := t[1..];
      }
    }
    ScanOfNothing(cs);
    assert seen + [] == seen;
    challenge := if "nonce" in params then Some(params) else None;
  }

  // ---- Values the scanner can yield ----

  lemma {:induction false} ScannedValuesHaveNoQuote(cs: Chars, t: string)
    requires Faithful(cs)
    ensures forall p | p in Scan(cs, t) :: '"' !in p.1
    decreases |t|
  {
    var d := DirectiveAt(cs, t);
    if d.Some? {
      ScannedValuesHaveNoQuote(cs, d.value.rest);
      assert !TokenChar(cs)('"');
      assert '"' !in d.value.value;
    } else if t != "" {
      ScannedValuesHaveNoQuote(cs, t[1..]);
    }
  }

  lemma {:induction false} DictTakesFromPairs(pairs: seq<(string, string)>, key: string)
    requires key in Dict(pairs)
    ensures (key, Dict(pairs)[key]) in pairs
  {
    var last := pairs[|pairs| - 1];
    if last.0 != key {
      DictTakesFromPairs(pairs[..|pairs| - 1], key);
    }
  }

  /** No value of a parsed challenge contains a quote. */
  lemma ParsedValuesHaveNoQuote(cs: Chars, header: string, key: string)
    requires Faithful(cs) && Parse(cs, header).Some? && key in Parse(cs, header).value
    ensures '"' !in Parse(cs, header).value[key]
  {
    var pairs := Scan(cs, Params(header));
    ScannedValuesHaveNoQuote(cs, Params(header));
    DictTakesFromPairs(pairs, key);
  }

  // ---- Printing ----

  datatype Item = Item(key: string, value: string, quoted: bool)

  function Print(item: Item): string {
    item.key + ("=" + if item.quoted then "\"" + (item.value + "\"") else item.value)
  }

  /** `", ".join(parts)`. */
  function Join(items: seq<Item>): string {
    if items == [] then ""
    else if |items| == 1 then Print(items[0])
    else Print(items[0]) + (", " + Join(items[1..]))
  }

  /** An item the scanner can read back. */
  ghost predicate Readable(cs: Chars, item: Item) {
    && item.key != "" && AllOf(item.key, cs.isWord) && cs.lower(item.key) == item.key
    && if item.quoted then AllOf(item.value, NotQuote) else item.value != "" && AllOf(item.value, TokenChar(cs))
  }

  lemma KeyIsRead(cs: Chars, key: string, body: string)
    requires Faithful(cs) && key != "" && AllOf(key, cs.isWord) && ValueAt(cs, body).Some?
    ensures DirectiveAt(cs, key + ("=" + body)) ==
            Some(Directive(key, ValueAt(cs, body).value.0, ValueAt(cs, body).value.1))
  {
    var t := key + ("=" + body);
    assert !cs.isWord('=');
    RunStopsAt(key, "=" + body, cs.isWord);
    assert t[|key|] == '=' && t[|key| + 1..] == body && t[..|key|] == key;
  }

  lemma QuotedValueIsRead(cs: Chars, value: string, rest: string)
    requires AllOf(value, NotQuote)
    ensures ValueAt(cs, "\"" + (value + ("\"" + rest))) == Some((value, rest))
  {
    var inner := value + ("\"" + rest);
    var u := "\"" + inner;
    assert u[1..] == inner;
    RunStopsAt(value, "\"" + rest, NotQuote);
    assert inner[..|value|] == value && inner[|value| + 1..] == rest;
  }

  lemma TokenValueIsRead(cs: Chars, value: string, rest: string)
    requires Faithful(cs) && value != "" && AllOf(value, TokenChar(cs)) && (rest == "" || rest[0] == ',')
    ensures ValueAt(cs, value + rest) == Some((value, rest))
  {
    assert !TokenChar(cs)(',') && !TokenChar(cs)('"');
    RunStopsAt(value, rest, TokenChar(cs));
    var u := value + rest;
    assert u[0] == value[0];
    assert u[..|value|] == value && u[|value|..] == rest;
  }

  lemma RegroupPrinted(key: string, eq: string, value: string, quote: string, rest: string)
    ensures (key + (eq + value)) + rest == key + (eq + (value + rest))
    ensures (key + (eq + (quote + (value + quote)))) + rest == key + (eq + (quote + (value + (quote + rest))))
  {
    Regroup(eq, value, rest);
    Regroup(key, eq + value, rest);
    Regroup(value, quote, rest);
    Regroup(quote, value + quote, rest);
    Regroup(eq, quote + (value + quote), rest);
    Regroup(key, eq + (quote + (value + quote)), rest);
  }

  lemma PrintedIsRead(cs: Chars, item: Item, rest: string)
    requires Faithful(cs) && Readable(cs, item) && (rest == "" || rest[0] == ',')
    ensures DirectiveAt(cs, Print(item) + rest) == Some(Directive(item.key, item.value, rest))
  {
    RegroupPrinted(item.key, "=", item.value, "\"", rest);
    if item.quoted {
      QuotedValueIsRead(cs, item.value, rest);
      KeyIsRead(cs, item.key, "\"" + (item.value + ("\"" + rest)));
    } else {
      TokenValueIsRead(cs, item.value, rest);
      KeyIsRead(cs, item.key, item.value + rest);
    }
  }

  function Pairs(items: seq<Item>): (pairs: seq<(string, string)>)
    ensures |pairs| == |items|
    ensures forall i | 0 <= i < |items| :: pairs[i] == (items[i].key, items[i].value)
  {
    if items == [] then [] else [(items[0].key, items[0].value)] + Pairs(items[1..])
  }

  /** The separator starts no directive. */
  lemma SeparatorIsSkipped(cs: Chars, rest: string)
    requires Faithful(cs)
    ensures Scan(cs, ", " + rest) == Scan(cs, rest)
  {
    var t := ", " + rest;
    assert !cs.isWord(t[0]) && !cs.isWord(t[1]);
    assert DirectiveAt(cs, t).None?;
    var u := t[1..];
    assert u == " " + rest && !cs.isWord(u[0]);
    assert DirectiveAt(cs, u).None?;
    assert u[1..] == rest;
  }

  /** Scanning the printed items yields exactly the items: nothing inside a value is taken for one. */
  lemma {:induction false} PrintedItemsScanBack(cs: Chars, items: seq<Item>)
    requires Faithful(cs) && forall item | item in items :: Readable(cs, item)
    ensures Scan(cs, Join(items)) == Pairs(items)
  {
    if items == [] {
      ScanOfNothing(cs);
    } else {
      var rest := if |items| == 1 then "" else ", " + Join(items[1..]);
      assert Join(items) == Print(items[0]) + rest;
      PrintedIsRead(cs, items[0], rest);
      PrintedItemsScanBack(cs, items[1..]);
      if |items| == 1 {
        assert items[1..] == [];
      } else {
        SeparatorIsSkipped(cs, Join(items[1..]));
      }
    }
  }
}
