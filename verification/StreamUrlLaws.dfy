/** The quality switch and the percent-encoding on every text, with their literals spelled out. */
module StreamUrlLaws {
  import opened Wrappers
  import opened Text
  import opened Bytes
  import opened StreamUrl

  // ---- The quality switch ----

  /** `word` stands nowhere in `t`. */
  predicate Lacks(t: string, word: string) {
    forall i | 0 <= i <= |t| :: !(word <= t[i..])
  }

  /** Every quality but low leaves the URL alone; low appends the parameter to a URL that has none. */
  lemma OtherUrlsAndQualities(digit: char -> bool, url: string, quality: string)
    ensures quality != "low" ==> ApplyQuality(digit, url, quality) == url
    ensures Lacks(url, "inst=") ==>
              ApplyQuality(digit, url, "low") == url + if '?' in url then "&inst=4" else "?inst=4"
  {
    ContainsIff(url, "inst=");
    HasMark(url);
    assert "&" + "inst=4" == "&inst=4" && "?" + "inst=4" == "?inst=4";
  }

  lemma HasMark(url: string)
    ensures Contains(url, "?") <==> '?' in url
  {
    ContainsIff(url, "?");
    if '?' in url {
      var i :| 0 <= i < |url| && url[i] == '?';
      assert "?" <= url[i..];
    }
    if i :| 0 <= i <= |url| && "?" <= url[i..] {
      assert url[i] == url[i..][0];
    }
  }

  lemma NoInstStarts(a: string, rest: string, k: nat)
    requires Lacks(a, "inst=") && "inst=" <= rest && k < |a|
    ensures !("inst=" <= a[k..] + rest)
  {
    var t := a[k..] + rest;
    if |a| - k >= 5 {
      assert t[..5] == a[k..][..5];
    } else {
      assert t[|a| - k] == rest[0] == 'i';
      assert "inst="[|a| - k] != 'i';
    }
  }

  lemma LacksTail(a: string, n: nat, word: string)
    requires Lacks(a, word) && n <= |a|
    ensures Lacks(a[n..], word)
  {
    forall i | 0 <= i <= |a[n..]| ensures !(word <= a[n..][i..]) {
      assert a[n..][i..] == a[n + i..];
    }
  }

  lemma {:induction false} SubSkips(digit: char -> bool, a: string, rest: string)
    requires Lacks(a, "inst=") && "inst=" <= rest
    ensures SubInst(digit, a + rest) == a + SubInst(digit, rest)
  {
    if a == "" {
      assert a + rest == rest;
    } else {
      NoInstStarts(a, rest, 0);
      assert a[0..] == a;
      StepsOf(digit, a + rest);
      assert (a + rest)[1..] == a[1..] + rest;
      LacksTail(a, 1, "inst=");
      SubSkips(digit, a[1..], rest);
      Regroup([a[0]], a[1..], SubInst(digit, rest));
      assert [a[0]] + a[1..] == a;
    }
  }

  lemma NamedInstance(digit: char -> bool, number: string, b: string)
    requires number != "" && AllOf(number, digit) && (b == "" || !digit(b[0]))
    ensures SubInst(digit, "inst=" + (number + b)) == "inst=4" + SubInst(digit, b)
  {
    var t := "inst=" + (number + b);
    assert t[5..] == number + b;
    RunStopsAt(number, b, digit);
    assert t[5 + |number|..] == b;
    StepsOf(digit, t);
  }

  /** A URL that names one instance gets 4 in the place of its number, and keeps the rest. */
  lemma LowQualityNamesFour(digit: char -> bool, a: string, number: string, b: string)
    requires Lacks(a, "inst=") && Lacks(b, "inst=")
    requires number != "" && AllOf(number, digit) && (b == "" || !digit(b[0]))
    ensures ApplyQuality(digit, a + ("inst=" + (number + b)), "low") == a + ("inst=4" + b)
  {
    var url := a + ("inst=" + (number + b));
    assert url[|a|..] == "inst=" + (number + b);
    ContainsIff(url, "inst=");
    SubSkips(digit, a, "inst=" + (number + b));
    NamedInstance(digit, number, b);
    ContainsIff(b, "inst=");
    NotContainedIsFixed(digit, b);
  }

  // ---- The address ----

  /** The host as it is printed. */
  function Host(host: string): string { if ':' in host then "[" + (host + "]") else host }

  lemma JoinedQuery(inst: string, q: string, audioKey: string, a: string, rest: string, d: string, all: string)
    requires all == (inst + q) + ("&" + ((audioKey + a) + ("&" + rest)))
    ensures all == inst + (q + (("&" + audioKey) + (a + ("&" + rest))))
  {
    Regroup(audioKey, a, "&" + rest);
    Regroup("&", audioKey, a + ("&" + rest));
    Regroup(inst, q, "&" + ((audioKey + a) + ("&" + rest)));
  }

  lemma QueryText(c: Connection, quality: int, audio: bool)
    ensures ("inst=" + DecimalInt(quality)) + ("&" + Options(c, audio)) ==
            "inst=" + (DecimalInt(quality) + ("&enableaudio=" + ((if audio then "1" else "0")
              + ("&fmtp=1&maxSessionDuration=" + DecimalInt(c.maxSessionSeconds)))))
  {
    var a, d := if audio then "1" else "0", DecimalInt(c.maxSessionSeconds);
    var rest := "fmtp=1" + ("&" + ("maxSessionDuration=" + d));
    Regroup("&", "maxSessionDuration=", d);
    Regroup("fmtp=1", "&" + "maxSessionDuration=", d);
    Regroup("&", "fmtp=1" + ("&" + "maxSessionDuration="), d);
    OptionLiterals();
    JoinedQuery("inst=", DecimalInt(quality), "enableaudio=", a, rest, d,
                ("inst=" + DecimalInt(quality)) + ("&" + Options(c, audio)));
  }

  lemma OptionLiterals()
    ensures "&" + "enableaudio=" == "&enableaudio="
    ensures "&" + ("fmtp=1" + ("&" + "maxSessionDuration=")) == "&fmtp=1&maxSessionDuration="
  {
    assert "fmtp=1" + ("&" + "maxSessionDuration=") == "fmtp=1&maxSessionDuration=";
  }

  lemma HeadText(c: Connection, host: string, port: int, rest: string)
    ensures Head(c, host, port) + rest ==
            "rtsp://" + (Quote(c.username) + (":" + (Quote(c.password) + ("@" + (Host(host) + (":"
              + (DecimalInt(port) + ("/rtsp_tunnel" + rest))))))))
  {
    var u, w, h, p := Quote(c.username), Quote(c.password), Host(host), DecimalInt(port);
    Regroup(p, "/rtsp_tunnel", rest);
    Regroup(":", PortPart(port), rest);
    Regroup(h, ":" + PortPart(port), rest);
    Regroup("@", h + (":" + PortPart(port)), rest);
    Regroup(UserInfo(c), "@" + (h + (":" + PortPart(port))), rest);
    var behind := "@" + (h + (":" + (PortPart(port) + rest)));
    Regroup(":", w, behind);
    Regroup(u, ":" + w, behind);
    Regroup("rtsp://", u + (":" + w), behind);
  }

  /** The whole address, for the instances 1 to 4; any other instance is refused. */
  lemma AddressInFull(c: Connection, port: int, quality: int, audio: bool, host: string)
    ensures Address(c, port, quality, audio, host) ==
            if quality < 1 || 4 < quality then None
            else Some("rtsp://" + (Quote(c.username) + (":" + (Quote(c.password) + ("@" + (Host(host) + (":"
              + (DecimalInt(port) + ("/rtsp_tunnel" + ("?" + ("inst=" + (DecimalInt(quality)
              + ("&enableaudio=" + ((if audio then "1" else "0")
              + ("&fmtp=1&maxSessionDuration=" + DecimalInt(c.maxSessionSeconds))))))))))))))))
  {
    if 1 <= quality <= 4 {
      QueryText(c, quality, audio);
      HeadText(c, host, port, "?" + (("inst=" + DecimalInt(quality)) + ("&" + Options(c, audio))));
    }
  }

  // ---- Percent-encoding ----

  /** Letters, digits and `_.-~` stand for themselves. */
  predicate StaysItself(b: byte) {
    48 <= b <= 57 || 65 <= b <= 90 || 97 <= b <= 122 || b == 95 || b == 46 || b == 45 || b == 126
  }

  /** Encoding goes byte by byte: a percent sign and two capital hex digits for every other byte. */
  lemma {:induction false} BytesAreEncodedOneByOne(a: seq<byte>, c: byte)
    ensures Quote(a + [c]) == Quote(a) + if StaysItself(c) then [c as char]
                                         else ['%', "0123456789ABCDEF"[c / 16], "0123456789ABCDEF"[c % 16]]
  {
    var q := if StaysItself(c) then [c as char] else ['%', "0123456789ABCDEF"[c / 16], "0123456789ABCDEF"[c % 16]];
    if a == [] {
      assert a + [c] == [c] && [c][1..] == [];
      assert Quote([c]) == QuoteByte(c);
    } else {
      assert (a + [c])[0] == a[0] && (a + [c])[1..] == a[1..] + [c];
      BytesAreEncodedOneByOne(a[1..], c);
      Regroup(QuoteByte(a[0]), Quote(a[1..]), q);
    }
  }
}
