/**
 What each command's payload is decoded as, byte by byte: the values, the limits and the
 payloads that are rejected, with every number spelled out.
 */
module RcpDecodeLaws {
  import opened Wrappers
  import opened Text
  import opened Bytes
  import opened RcpClock
  import opened RcpCodecs

  // ---- Envelopes, missing and short payloads ----

  /** Neither white space (tab, line feed, carriage return, space) nor `<`. */
  predicate IsPlain(b: byte) { b != 9 && b != 10 && b != 13 && b != 32 && b != 60 }

  /** Only white space bytes before position `n`, and there the end or a `<`. */
  predicate XmlLikeAt(raw: seq<byte>, n: nat) {
    && n <= |raw| && (n < |raw| ==> raw[n] == 60)
    && forall i | 0 <= i < n :: raw[i] == 9 || raw[i] == 10 || raw[i] == 13 || raw[i] == 32
  }

  lemma XmlLikeIsEnvelope(raw: seq<byte>)
    requires |raw| > 0
    ensures IsXmlEnvelope(raw) <==> exists n: nat :: XmlLikeAt(raw, n)
  {
    assert IsXmlEnvelope(raw) ==> XmlLikeAt(raw, Run(raw, IsEnvelopeSpace));
    forall n: nat | XmlLikeAt(raw, n) ensures n == Run(raw, IsEnvelopeSpace) {
      assert n < |raw| ==> !IsEnvelopeSpace(raw[n]);
    }
  }

  /** Bytes below which a payload of the command is too short. */
  function MinLength(cmd: Command): nat {
    match cmd
    case Dimmer | Privacy => 2
    case Clock => 8
    case Bitrate => 4
    case AlarmCatalog | NetworkServices => 11
    case MotionCoords => 16
    case IvaCatalog => 6
    case LanIp | ProductName | MotionZones | TlsCert => 0
  }

  predicate IsGuarded(cmd: Command) {
    cmd != LanIp && cmd != ProductName && cmd != MotionZones && cmd != TlsCert
  }

  /** A read that fails is a strike; so is, for eight of the commands, an XML envelope or a short payload. */
  lemma UnusablePayloadsAreRejected(cmd: Command, raw: seq<byte>, n: nat, up: nat -> bool)
    ensures Decode(cmd, None, up) == Rejected
    ensures IsGuarded(cmd) && (|raw| < MinLength(cmd) || XmlLikeAt(raw, n)) ==>
              Decode(cmd, Some(raw), up) == Rejected
  {
    if |raw| > 0 {
      XmlLikeIsEnvelope(raw);
    }
  }

  // ---- Numbers ----

  /** The dimmer is the second byte, when the first is 0 and it is at most 100. */
  lemma DimmerIsAPercentage(a: byte, b: byte, rest: seq<byte>, up: nat -> bool)
    ensures Decode(Dimmer, Some([a, b] + rest), up) == if a == 0 && b <= 100 then Accepted(Number(b)) else Rejected
  {
    var raw := [a, b] + rest;
    assert raw[..2] == [a, b];
    if a == 0 {
      PlainFirstByteIsNoXml(raw);
    }
  }

  /** The privacy mask is the second byte. */
  lemma PrivacyIsTheSecondByte(a: byte, b: byte, rest: seq<byte>, up: nat -> bool)
    requires IsPlain(a)
    ensures Decode(Privacy, Some([a, b] + rest), up) == Accepted(Number(b))
  {
    PlainFirstByteIsNoXml([a, b] + rest);
  }

  function WordAt(raw: seq<byte>, i: nat): nat
    requires 4 * i + 4 <= |raw|
  {
    raw[4 * i] as int * 16777216 + raw[4 * i + 1] as int * 65536 + raw[4 * i + 2] as int * 256
    + raw[4 * i + 3] as int
  }

  function WordsOf(raw: seq<byte>): seq<nat> {
    seq(|raw| / 4, i requires 0 <= i < |raw| / 4 => WordAt(raw, i))
  }

  lemma {:induction false} LadderHasTheWords(raw: seq<byte>)
    ensures LadderOf(raw) == WordsOf(raw)
  {
    if |raw| >= 4 {
      LadderHasTheWords(raw[4..]);
      forall i | 0 <= i < |raw| / 4 ensures LadderOf(raw)[i] == WordAt(raw, i) {
        if i > 0 { assert WordAt(raw[4..], i - 1) == WordAt(raw, i); }
      }
    }
  }

  /** The bitrates are the payload's 32-bit words, all of them between 100 and 50000. */
  lemma BitratesAreTheWords(raw: seq<byte>, up: nat -> bool)
    requires |raw| >= 4
    ensures Decode(Bitrate, Some(raw), up) ==
            if forall v | v in WordsOf(raw) :: 100 <= v <= 50000 then Accepted(Ladder(WordsOf(raw))) else Rejected
  {
    LadderHasTheWords(raw);
    assert WordsOf(raw)[0] in WordsOf(raw);
    if WordAt(raw, 0) <= 50000 {
      assert raw[0] == 0;
      PlainFirstByteIsNoXml(raw);
    }
  }

  // ---- The clock ----

  /** The days of a month of 1970 to 2100; of the years divisible by four only 2100 is no leap year. */
  function MonthLength(year: nat, month: nat): nat {
    if month == 2 then (if year % 4 == 0 && year != 2100 then 29 else 28)
    else if month in {4, 6, 9, 11} then 30 else 31
  }

  lemma MonthLengths(year: nat, month: nat)
    requires 1970 <= year <= 2100
    ensures DaysInMonth(year, month) == MonthLength(year, month)
  {
    if year % 100 == 0 {
      assert year == 2000 || year == 2100;
    }
  }

  /** Two bytes of year, then month, day, hour, minute, second and weekday; any real date is accepted. */
  lemma ClockIsTheDate(yh: byte, yl: byte, month: byte, day: byte, hour: byte, minute: byte, second: byte,
                       rest: seq<byte>, up: nat -> bool)
    requires |rest| >= 1
    ensures var year := yh * 256 + yl;
      Decode(Clock, Some([yh, yl, month, day, hour, minute, second] + rest), up) ==
      if && 1970 <= year <= 2100 && 1 <= month <= 12 && 1 <= day <= MonthLength(year, month)
         && hour <= 23 && minute <= 59 && second <= 59
      then Accepted(Moment(DateTime(year, month, day, hour, minute, second))) else Rejected
  {
    var raw := [yh, yl, month, day, hour, minute, second] + rest;
    var year := yh * 256 + yl;
    assert raw[..2] == [yh, yl];
    assert Fields(raw) == DateTime(year, month, day, hour, minute, second);
    ClockBranchAcceptsRealDates(raw, up);
    if 1970 <= year <= 2100 {
      MonthLengths(year, month);
    }
  }

  /** The day after a date of those years. */
  function NextDay(t: DateTime): DateTime {
    if t.day < MonthLength(t.year, t.month) then t.(day := t.day + 1)
    else if t.month < 12 then t.(month := t.month + 1, day := 1)
    else t.(year := t.year + 1, month := 1, day := 1)
  }

  /** The seconds of an offset: 86400 to the day, and the rest of the day in hours, minutes and seconds. */
  lemma SecondsAreCounted(t: DateTime)
    requires IsReal(t) && 1970 <= t.year <= 2100
    ensures Seconds(NextDay(t)) == Seconds(t) + 86400
    ensures Seconds(t) == Seconds(t.(hour := 0, minute := 0, second := 0)) + 3600 * t.hour + 60 * t.minute + t.second
  {
    MonthLengths(t.year, t.month);
    YearLength(t.year);
    assert DaysBeforeMonth(t.year, t.month + 1) == DaysBeforeMonth(t.year, t.month) + DaysInMonth(t.year, t.month);
    assert Days(NextDay(t)) == Days(t) + 1;
  }

  // ---- Texts ----

  /** White space among the ASCII bytes. */
  predicate IsBlank(b: byte) { 9 <= b <= 13 || 28 <= b <= 32 }

  /** ASCII bytes as their characters, any other byte as the replacement character. */
  function Shown(raw: seq<byte>): string {
    seq(|raw|, i requires 0 <= i < |raw| => if raw[i] < 128 then raw[i] as char else '\U{FFFD}')
  }

  lemma {:induction false} DecodedIsShown(raw: seq<byte>)
    ensures DecodeAscii(raw) == Shown(raw)
  {
    if |raw| > 0 {
      DecodedIsShown(raw[1..]);
      assert Shown(raw) == [Shown(raw)[0]] + Shown(raw[1..]);
    }
  }

  lemma {:induction false} NulsAreStripped(raw: seq<byte>, nuls: seq<byte>)
    requires (forall i | 0 <= i < |nuls| :: nuls[i] == 0) && (raw == [] || raw[|raw| - 1] != 0)
    ensures StripNuls(raw + nuls) == raw
  {
    if nuls == [] {
      assert raw + nuls == raw;
    } else {
      assert (raw + nuls)[..|raw + nuls| - 1] == raw + nuls[..|nuls| - 1];
      NulsAreStripped(raw, nuls[..|nuls| - 1]);
    }
  }

  /** A text between white space bytes, with NUL bytes at the end. */
  predicate IsPadded(raw: seq<byte>, before: seq<byte>, text: seq<byte>, after: seq<byte>, nuls: seq<byte>) {
    && raw == (before + (text + after)) + nuls
    && (forall i | 0 <= i < |before| :: IsBlank(before[i])) && (forall i | 0 <= i < |after| :: IsBlank(after[i]))
    && (forall i | 0 <= i < |nuls| :: nuls[i] == 0)
    && (text == [] || (!IsBlank(text[0]) && !IsBlank(text[|text| - 1]) && text[|text| - 1] != 0))
  }

  lemma ShownJoin(a: seq<byte>, b: seq<byte>)
    ensures Shown(a + b) == Shown(a) + Shown(b)
  {
  }

  lemma PaddingIsTrimmed(raw: seq<byte>, before: seq<byte>, text: seq<byte>, after: seq<byte>, nuls: seq<byte>)
    requires IsPadded(raw, before, text, after, nuls)
    ensures TextOf(raw) == Shown(text)
  {
    NulsAreStripped(before + (text + after), nuls);
    DecodedIsShown(before + (text + after));
    ShownJoin(before, text + after);
    ShownJoin(text, after);
    StripUnpads(Shown(before), Shown(text), Shown(after));
  }

  /** The product name is the text without its padding, unless that is empty or starts with `<`. */
  lemma ProductNameIsTrimmed(raw: seq<byte>, before: seq<byte>, text: seq<byte>, after: seq<byte>, nuls: seq<byte>,
                             up: nat -> bool)
    requires raw != [] && IsPadded(raw, before, text, after, nuls)
    ensures Decode(ProductName, Some(raw), up)
            == if text == [] || text[0] == 60 then Rejected else Accepted(Label(Shown(text)))
  {
    PaddingIsTrimmed(raw, before, text, after, nuls);
  }

  /** So is the address when it does not come as four bytes; the text 0.0.0.0 is no address. */
  lemma AddressTextIsTrimmed(raw: seq<byte>, before: seq<byte>, text: seq<byte>, after: seq<byte>, nuls: seq<byte>,
                             up: nat -> bool)
    requires raw != [] && |raw| != 4 && IsPadded(raw, before, text, after, nuls)
    ensures Decode(LanIp, Some(raw), up)
            == if text == [] || text[0] == 60 || Shown(text) == "0.0.0.0" then Rejected
               else Accepted(Label(Shown(text)))
  {
    PaddingIsTrimmed(raw, before, text, after, nuls);
  }

  lemma ZeroAddress(t: string)
    requires t == Decimal(0) + "." + Decimal(0) + "." + Decimal(0) + "." + Decimal(0)
    ensures t == "0.0.0.0"
  {
    assert Decimal(0) == "0";
  }

  lemma DifferentBytesDifferentAddress(raw: seq<byte>, other: seq<byte>)
    requires |raw| == 4 && |other| == 4 && AddressOf(raw) == AddressOf(other)
    ensures raw == other
  {
    AddressReadsBack(raw);
    AddressReadsBack(other);
    var d := DottedBytes(AddressOf(raw));
    assert d[0] == Some(raw[0] as nat) && d[1] == Some(raw[1] as nat);
    assert d[2] == Some(raw[2] as nat) && d[3] == Some(raw[3] as nat);
    assert raw == [raw[0], raw[1], raw[2], raw[3]] && other == [other[0], other[1], other[2], other[3]];
  }

  lemma StartsWithDigit(raw: seq<byte>)
    requires |raw| == 4
    ensures AddressOf(raw) != "" && AddressOf(raw)[0] != '<'
  {
    assert IsAsciiDigit(Decimal(raw[0])[0]);
    assert AddressOf(raw)[0] == Decimal(raw[0])[0];
  }

  /** Four bytes are printed with dots between them; four zeros are no address. */
  lemma AddressBytesAreDotted(a: byte, b: byte, c: byte, d: byte, up: nat -> bool)
    ensures Decode(LanIp, Some([a, b, c, d]), up)
            == if a == 0 && b == 0 && c == 0 && d == 0 then Rejected
               else Accepted(Label(Decimal(a) + "." + Decimal(b) + "." + Decimal(c) + "." + Decimal(d)))
  {
    var raw: seq<byte> := [a, b, c, d];
    var zero: seq<byte> := [0, 0, 0, 0];
    ZeroAddress(AddressOf(zero));
    StartsWithDigit(raw);
    if AddressOf(raw) == AddressOf(zero) {
      DifferentBytesDifferentAddress(raw, zero);
      assert raw[0] == 0 && raw[1] == 0 && raw[2] == 0 && raw[3] == 0;
    }
  }

  // ---- Payloads that are passed on ----

  /** A catalog or service list of more than 10 bytes is handed on whole, a certificate of more than 50. */
  lemma LongPayloadsAreHandedOn(raw: seq<byte>, up: nat -> bool)
    requires raw != []
    ensures |raw| > 10 && IsPlain(raw[0]) ==>
              && Decode(AlarmCatalog, Some(raw), up) == Accepted(Handed(raw))
              && Decode(NetworkServices, Some(raw), up) == Accepted(Handed(raw))
    ensures Decode(TlsCert, Some(raw), up) == if |raw| > 50 then Accepted(Handed(raw)) else Ignored
  {
    if IsPlain(raw[0]) {
      PlainFirstByteIsNoXml(raw);
    }
  }

  // ---- Records ----

  function ZonesIn(raw: seq<byte>): seq<seq<byte>> {
    seq(if |raw| >= 140 then 5 else |raw| / 28, z requires 0 <= z < |raw| / 28 => raw[28 * z..28 * z + 28])
  }

  /** The motion zones are the first five records of 28 bytes. */
  lemma ZonesAreTheFirstFive(raw: seq<byte>, up: nat -> bool)
    requires |raw| >= 28
    ensures Decode(MotionZones, Some(raw), up) == Accepted(Zones(ZonesIn(raw)))
  {
    var n := if |raw| >= 140 then 5 else |raw| / 28;
    forall z | 0 <= z < n ensures ZonesOf(raw, 5)[z] == ZonesIn(raw)[z] { ZonesInOrder(raw, 5, z); }
    assert ZonesOf(raw, 5) == ZonesIn(raw);
  }

  /** `tenths` of a percent stand for the word of hundredths that the bytes `a` and `b` are. */
  predicate Rounds(tenths: nat, a: byte, b: byte) {
    -5 <= 10 * tenths - (a * 256 + b) <= 5
  }

  predicate IsRectAt(r: Rect, raw: seq<byte>, i: nat)
    requires i + 8 <= |raw|
  {
    && Rounds(r.x1, raw[i], raw[i + 1]) && Rounds(r.y1, raw[i + 2], raw[i + 3])
    && Rounds(r.x2, raw[i + 4], raw[i + 5]) && Rounds(r.y2, raw[i + 6], raw[i + 7])
  }

  /** The word at `from` within the record of `n` bytes at `i`. */
  lemma WordInRecord(raw: seq<byte>, i: nat, n: nat, from: nat)
    requires from + 2 <= n && i + n <= |raw|
    ensures Word16(raw[i..i + n][from..from + 2]) == raw[i + from] as int * 256 + raw[i + from + 1] as int
  {
    var record := raw[i..i + n];
    var word := record[from..from + 2];
    assert word[0] == record[from] && word[1] == record[from + 1];
    assert record[from] == raw[i + from] && record[from + 1] == raw[i + from + 1];
  }

  lemma RectIsRead(raw: seq<byte>, i: nat, up: nat -> bool)
    requires i + 8 <= |raw|
    ensures IsRectAt(RectOf(raw[i..i + 8], up), raw, i)
  {
    WordInRecord(raw, i, 8, 0);
    WordInRecord(raw, i, 8, 2);
    WordInRecord(raw, i, 8, 4);
    WordInRecord(raw, i, 8, 6);
  }

  /** The rectangles are the records of 8 bytes in order: x1, y1, x2 and y2 as rounded words. */
  lemma RectsAreTheRecords(raw: seq<byte>, up: nat -> bool)
    requires |raw| >= 16 && IsPlain(raw[0])
    ensures var v := Decode(MotionCoords, Some(raw), up);
      && v.Accepted? && v.value.Coords? && |v.value.rects| == |raw| / 8
      && forall z | 0 <= z < |raw| / 8 :: IsRectAt(v.value.rects[z], raw, 8 * z)
  {
    PlainFirstByteIsNoXml(raw);
    forall z | 0 <= z < |raw| / 8 ensures IsRectAt(RectsOf(raw, up)[z], raw, 8 * z) {
      CoordsInOrder(raw, up, z);
      RectIsRead(raw, 8 * z, up);
    }
  }

  /** The record of 6 bytes at `i`: id, version and flags, active when the last bit is set. */
  function ModuleAt(raw: seq<byte>, i: nat): IvaModule
    requires i + 6 <= |raw|
  {
    IvaModule(raw[i] as int * 256 + raw[i + 1] as int, raw[i + 2] as int * 256 + raw[i + 3] as int,
              raw[i + 4] as int * 256 + raw[i + 5] as int, raw[i + 5] % 2 == 1)
  }

  lemma ModuleIsRead(raw: seq<byte>, i: nat)
    requires i + 6 <= |raw|
    ensures IvaOf(raw[i..i + 6]) == ModuleAt(raw, i)
  {
    WordInRecord(raw, i, 6, 0);
    WordInRecord(raw, i, 6, 2);
    WordInRecord(raw, i, 6, 4);
    assert raw[i..i + 6][..2] == raw[i..i + 6][0..2];
  }

  function ModulesIn(raw: seq<byte>): seq<IvaModule> {
    seq(if |raw| >= 390 then 65 else |raw| / 6, i requires 0 <= i < |raw| / 6 => ModuleAt(raw, 6 * i))
  }

  lemma RecordsAreModules(raw: seq<byte>)
    ensures IvaRecords(raw)[..Min(|raw| / 6, 65)] == ModulesIn(raw)
  {
    forall i | 0 <= i < Min(|raw| / 6, 65) ensures IvaRecords(raw)[i] == ModuleAt(raw, 6 * i) {
      IvaRecordAt(raw, i);
      ModuleIsRead(raw, 6 * i);
    }
  }

  lemma {:induction false} DropKeeps(ms: seq<IvaModule>, m: IvaModule)
    ensures m in DropEmpty(ms) <==> m in ms && m.id > 0
  {
    if ms != [] {
      DropKeeps(ms[1..], m);
    }
  }

  /** The modules are the first 65 records of 6 bytes, in order, without those of id 0. */
  lemma ModulesAreTheFirst65(raw: seq<byte>, up: nat -> bool)
    requires |raw| >= 6 && IsPlain(raw[0])
    ensures Decode(IvaCatalog, Some(raw), up) == Accepted(Iva(DropEmpty(ModulesIn(raw))))
    ensures forall m :: m in DropEmpty(ModulesIn(raw)) <==> m in ModulesIn(raw) && m.id > 0
  {
    PlainFirstByteIsNoXml(raw);
    RecordsAreModules(raw);
    forall m ensures m in DropEmpty(ModulesIn(raw)) <==> m in ModulesIn(raw) && m.id > 0 {
      DropKeeps(ModulesIn(raw), m);
    }
  }
}
