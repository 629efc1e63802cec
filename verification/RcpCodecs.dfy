/**
 The payload decoders of the camera data fetch: for each command, when a payload is
 accepted and as what, and the encoders whose output they must read back.
 */
module RcpCodecs {
  import opened Wrappers
  import opened Text
  import opened Bytes
  import opened RcpClock

  datatype Command =
    | Dimmer | Privacy | Clock | LanIp | ProductName | Bitrate
    | AlarmCatalog | MotionZones | MotionCoords | TlsCert | NetworkServices | IvaCatalog

  /** Corner coordinates in tenths of a percent. */
  datatype Rect = Rect(x1: nat, y1: nat, x2: nat, y2: nat)

  datatype IvaModule = IvaModule(id: nat, version: nat, flags: nat, active: bool)

  /** A decoded field; Handed is a payload passed on to a text or certificate parser. */
  datatype Value =
    | Number(n: int)
    | Moment(at: DateTime)
    | Label(text: string)
    | Ladder(kbps: seq<nat>)
    | Zones(chunks: seq<seq<byte>>)
    | Coords(rects: seq<Rect>)
    | Iva(modules: seq<IvaModule>)
    | Handed(payload: seq<byte>)

  /** What one payload does: set the field and clear the strikes, count a strike, or neither. */
  datatype Verdict = Accepted(value: Value) | Rejected | Ignored

  // ---- XML envelopes ----

  predicate IsEnvelopeSpace(b: byte) { b == 0x0A || b == 0x0D || b == 0x09 || b == 0x20 }

  predicate IsXmlEnvelope(raw: seq<byte>) {
    |raw| > 0 &&
    var n := Run(raw, IsEnvelopeSpace);
    n == |raw| || raw[n] == 0x3C
  }

  /** A payload whose first byte is neither white space nor `<` is never taken for XML. */
  lemma PlainFirstByteIsNoXml(raw: seq<byte>)
    requires |raw| > 0 && !IsEnvelopeSpace(raw[0]) && raw[0] != 0x3C
    ensures !IsXmlEnvelope(raw)
  {
  }

  // ---- Motion coordinates ----

  /** `round(x / 100, 1)` in tenths; `up` says which way each tie goes. */
  function Tenths(x: nat, up: nat -> bool): nat {
    var q := x / 10;
    if x % 10 > 5 || (x % 10 == 5 && up(x)) then q + 1 else q
  }

  function RectOf(record: seq<byte>, up: nat -> bool): Rect
    requires |record| == 8
  {
    Rect(Tenths(Word16(record[0..2]), up), Tenths(Word16(record[2..4]), up),
         Tenths(Word16(record[4..6]), up), Tenths(Word16(record[6..8]), up))
  }

  function RectsOf(raw: seq<byte>, up: nat -> bool): (r: seq<Rect>)
    ensures |r| == |raw| / 8
  {
    if |raw| < 8 then [] else [RectOf(raw[..8], up)] + RectsOf(raw[8..], up)
  }

  /** `_parse_motion_coords`. */
  method ParseMotionCoords(raw: seq<byte>, up: nat -> bool) returns (zones: seq<Rect>)
    ensures zones == RectsOf(raw, up)
  {
    zones := [];
    var n := |raw| / 8;
    for z := 0 to n
      invariant zones + RectsOf(raw[z * 8..], up) == RectsOf(raw, up)
    {
      var chunk := raw[z * 8..(z + 1) * 8];
      assert raw[z * 8..][..8] == chunk && raw[z * 8..][8..] == raw[(z + 1) * 8..];
      var x1 := Tenths(Word16(chunk[0..2]), up);
      var y1 := Tenths(Word16(chunk[2..4]), up);
      var x2 := Tenths(Word16(chunk[4..6]), up);
      var y2 := Tenths(Word16(chunk[6..8]), up);
      zones := zones + [Rect(x1, y1, x2, y2)];
    }
    assert |raw[n * 8..]| < 8;
  }

  /** Rounding errs by at most 0.05 percent and keeps the order, whatever the ties do. */
  lemma RoundingIsClose(x: nat, y: nat, up: nat -> bool)
    ensures -0.05 <= Tenths(x, up) as real / 10.0 - x as real / 100.0 <= 0.05
    ensures x <= y ==> Tenths(x, up) <= Tenths(y, up)
  {
    assert -5 <= 10 * Tenths(x, up) - x <= 5;
    var e: int := 10 * Tenths(x, up) - x;
    assert Tenths(x, up) as real / 10.0 - x as real / 100.0 == e as real / 100.0;
  }

  lemma CutJoin(a: seq<byte>, b: seq<byte>, n: nat)
    requires n <= |a|
    ensures (a + b)[..n] == a[..n] && (a + b)[n..] == a[n..] + b
  {
  }

  lemma RectsStep(raw: seq<byte>, up: nat -> bool)
    requires |raw| >= 8
    ensures RectsOf(raw, up) == [RectOf(raw[..8], up)] + RectsOf(raw[8..], up)
  {
  }

  lemma SliceBehind(raw: seq<byte>, k: nat, from: nat, n: nat)
    requires k + from + n <= |raw|
    ensures raw[k..][from..from + n] == raw[k + from..k + from + n]
  {
  }

  lemma {:induction false} CoordsJoin(a: seq<byte>, b: seq<byte>, up: nat -> bool)
    requires |a| % 8 == 0
    ensures RectsOf(a + b, up) == RectsOf(a, up) + RectsOf(b, up)
  {
    if |a| == 0 {
      assert a + b == b;
    } else {
      CoordsJoin(a[8..], b, up);
      CutJoin(a, b, 8);
      RectsStep(a, up);
      RectsStep(a + b, up);
      Regroup([RectOf(a[..8], up)], RectsOf(a[8..], up), RectsOf(b, up));
    }
  }

  /** The z-th rectangle is the z-th record: parsing keeps their order. */
  lemma {:induction false} CoordsInOrder(raw: seq<byte>, up: nat -> bool, z: nat)
    requires z < |raw| / 8
    ensures RectsOf(raw, up)[z] == RectOf(raw[z * 8..z * 8 + 8], up)
  {
    if z > 0 {
      CoordsInOrder(raw[8..], up, z - 1);
      SliceBehind(raw, 8, (z - 1) * 8, 8);
    }
  }

  // ---- IVA catalog ----

  function IvaOf(record: seq<byte>): IvaModule
    requires |record| == 6
  {
    var flags := Word16(record[4..6]);
    IvaModule(Word16(record[..2]), Word16(record[2..4]), flags, flags % 2 == 1)
  }

  function IvaRecords(raw: seq<byte>): (r: seq<IvaModule>)
    ensures |r| == |raw| / 6
  {
    if |raw| < 6 then [] else [IvaOf(raw[..6])] + IvaRecords(raw[6..])
  }

  function DropEmpty(ms: seq<IvaModule>): (r: seq<IvaModule>)
    ensures forall m | m in r :: m in ms && m.id > 0
  {
    if ms == [] then []
    else (if ms[0].id > 0 then [ms[0]] else []) + DropEmpty(ms[1..])
  }

  const IVA_LIMIT: nat := 65

  function Min(a: nat, b: nat): nat { if a < b then a else b }

  /** Decode every record, keep the first 65, then drop the empty ones. */
  function IvaModulesOf(raw: seq<byte>): seq<IvaModule> {
    DropEmpty(IvaRecords(raw)[..Min(|raw| / 6, IVA_LIMIT)])
  }

  lemma {:induction false} IvaRecordAt(raw: seq<byte>, i: nat)
    requires i < |raw| / 6
    ensures IvaRecords(raw)[i] == IvaOf(raw[i * 6..i * 6 + 6])
  {
    if i > 0 {
      IvaRecordAt(raw[6..], i - 1);
      SliceBehind(raw, 6, (i - 1) * 6, 6);
    }
  }

  lemma {:induction false} DropEmptyAppend(ms: seq<IvaModule>, m: IvaModule)
    ensures DropEmpty(ms + [m]) == DropEmpty(ms) + if m.id > 0 then [m] else []
  {
    if ms == [] {
      assert ms + [m] == [m] && [m][1..] == [];
    } else {
      var front := if ms[0].id > 0 then [ms[0]] else [];
      assert (ms + [m])[0] == ms[0] && (ms + [m])[1..] == ms[1..] + [m];
      DropEmptyAppend(ms[1..], m);
      Regroup(front, DropEmpty(ms[1..]), if m.id > 0 then [m] else []);
    }
  }

  lemma OneRecordMore(raw: seq<byte>, i: nat)
    requires i < |raw| / 6
    ensures var all := IvaRecords(raw); var m := IvaOf(raw[i * 6..i * 6 + 6]);
            DropEmpty(all[..i + 1]) == DropEmpty(all[..i]) + if m.id > 0 then [m] else []
  {
    IvaRecordAt(raw, i);
    DropEmptyPrefix(IvaRecords(raw), i);
  }

  lemma DropEmptyPrefix(all: seq<IvaModule>, i: nat)
    requires i < |all|
    ensures DropEmpty(all[..i + 1]) == DropEmpty(all[..i]) + if all[i].id > 0 then [all[i]] else []
  {
    DropEmptyAppend(all[..i], all[i]);
    assert all[..i] + [all[i]] == all[..i + 1];
  }

  /** `_parse_iva_catalog`. */
  method ParseIvaCatalog(raw: seq<byte>) returns (modules: seq<IvaModule>)
    ensures modules == IvaModulesOf(raw)
  {
    modules := [];
    var n := Min(|raw| / 6, IVA_LIMIT);
    ghost var all := IvaRecords(raw);
    for i := 0 to n
      invariant modules == DropEmpty(all[..i])
    {
      var chunk := raw[i * 6..(i + 1) * 6];
      var id := Word16(chunk[..2]);
      var version := Word16(chunk[2..4]);
      var flags := Word16(chunk[4..6]);
      OneRecordMore(raw, i);
      if id > 0 {
        modules := modules + [IvaModule(id, version, flags, flags % 2 == 1)];
      }
    }
  }

  // ---- Bitrate ladder ----

  function LadderOf(raw: seq<byte>): (r: seq<nat>)
    ensures |r| == |raw| / 4
  {
    if |raw| < 4 then [] else [Word32(raw[..4])] + LadderOf(raw[4..])
  }

  predicate IsBitrate(v: nat) { 100 <= v <= 50_000 }

  function EncodeLadder(ladder: seq<nat>): (raw: seq<byte>)
    requires forall v | v in ladder :: IsBitrate(v)
    ensures |raw| == 4 * |ladder|
  {
    if ladder == [] then []
    else
      assert IsBitrate(ladder[0]);
      Bytes32(ladder[0]) + EncodeLadder(ladder[1..])
  }

  lemma {:induction false} LadderRoundTrip(ladder: seq<nat>)
    requires forall v | v in ladder :: IsBitrate(v)
    ensures LadderOf(EncodeLadder(ladder)) == ladder
  {
    if ladder != [] {
      var raw := EncodeLadder(ladder);
      LadderRoundTrip(ladder[1..]);
      assert raw[..4] == Bytes32(ladder[0]) && raw[4..] == EncodeLadder(ladder[1..]);
    }
  }

  // ---- Motion zones ----

  function ZonesOf(raw: seq<byte>, limit: nat): (chunks: seq<seq<byte>>)
    ensures |chunks| == Min(|raw| / 28, limit)
  {
    if |raw| < 28 || limit == 0 then [] else [raw[..28]] + ZonesOf(raw[28..], limit - 1)
  }

  /** The z-th zone is the z-th record of 28 bytes, up to the limit. */
  lemma {:induction false} ZonesInOrder(raw: seq<byte>, limit: nat, z: nat)
    requires z < Min(|raw| / 28, limit)
    ensures ZonesOf(raw, limit)[z] == raw[z * 28..z * 28 + 28]
  {
    if z > 0 {
      ZonesInOrder(raw[28..], limit - 1, z - 1);
      SliceBehind(raw, 28, (z - 1) * 28, 28);
    }
  }

  // ---- Text fields ----

  /** `bytes.decode("ascii", errors="replace")`. */
  function DecodeAscii(raw: seq<byte>): (t: string)
    ensures |t| == |raw|
  {
    if |raw| == 0 then "" else [if raw[0] < 128 then raw[0] as char else '\U{FFFD}'] + DecodeAscii(raw[1..])
  }

  function StripNuls(raw: seq<byte>): seq<byte> {
    if |raw| > 0 && raw[|raw| - 1] == 0 then StripNuls(raw[..|raw| - 1]) else raw
  }

  function TextOf(raw: seq<byte>): string {
    Strip(DecodeAscii(StripNuls(raw)))
  }

  function AddressOf(raw: seq<byte>): string {
    if |raw| == 4 then
      Decimal(raw[0]) + "." + Decimal(raw[1]) + "." + Decimal(raw[2]) + "." + Decimal(raw[3])
    else TextOf(raw)
  }

  /** The four numbers of a dotted address. */
  function DottedBytes(t: string): seq<Option<nat>>
    decreases |t|
  {
    match Partition(t, '.')
    case None => [ReadNat(t)]
    case Some((first, rest)) => [ReadNat(first)] + DottedBytes(rest)
  }

  lemma DottedStep(a: nat, rest: string)
    ensures DottedBytes(Decimal(a) + ("." + rest)) == [Some(a)] + DottedBytes(rest)
  {
    PartitionFinds(Decimal(a), '.', rest);
    NumbersReadBack(a, 0);
  }

  lemma DottedEnd(a: nat)
    ensures DottedBytes(Decimal(a)) == [Some(a)]
  {
    NumbersReadBack(a, 0);
    assert '.' !in Decimal(a);
  }

  /** A four-byte address prints as its bytes in order. */
  lemma AddressReadsBack(raw: seq<byte>)
    requires |raw| == 4
    ensures DottedBytes(AddressOf(raw)) ==
            [Some(raw[0] as nat), Some(raw[1] as nat), Some(raw[2] as nat), Some(raw[3] as nat)]
  {
    var a, b, c, d := Decimal(raw[0]), Decimal(raw[1]), Decimal(raw[2]), Decimal(raw[3]);
    DottedEnd(raw[3]);
    DottedStep(raw[2], d);
    DottedStep(raw[1], c + ("." + d));
    DottedStep(raw[0], b + ("." + (c + ("." + d))));
    DottedShape(a, b, c, d, ".");
  }

  lemma DottedShape(a: string, b: string, c: string, d: string, dot: string)
    ensures a + dot + b + dot + c + dot + d == a + (dot + (b + (dot + (c + (dot + d)))))
  {
    Regroup(a + dot + b + dot + c, dot, d);
    Regroup(a + dot + b + dot, c, dot + d);
    Regroup(a + dot + b, dot, c + (dot + d));
    Regroup(a + dot, b, dot + (c + (dot + d)));
    Regroup(a, dot, b + (dot + (c + (dot + d))));
  }

  // ---- One payload of one command ----

  function Decide(condition: bool, value: Value): Verdict {
    if condition then Accepted(value) else Rejected
  }

  /** The branch of `fetch_rcp_camera_data` for one command, on what its read returned. */
  function Decode(cmd: Command, reply: Option<seq<byte>>, up: nat -> bool): Verdict {
    if reply.None? then Rejected
    else
      var raw := reply.value;
      match cmd
      case Dimmer =>
        if IsXmlEnvelope(raw) || |raw| < 2 then Rejected
        else Decide(Word16(raw[..2]) <= 100, Number(Word16(raw[..2])))
      case Privacy =>
        if IsXmlEnvelope(raw) || |raw| < 2 then Rejected else Accepted(Number(raw[1]))
      case Clock =>
        if IsXmlEnvelope(raw) || |raw| < 8 then Rejected
        else if DecodeClock(raw).Some? then Accepted(Moment(DecodeClock(raw).value)) else Rejected
      case LanIp =>
        if |raw| == 0 then Ignored
        else
          var ip := AddressOf(raw);
          Decide(ip != "" && ip != "0.0.0.0" && ip[0] != '<', Label(ip))
      case ProductName =>
        if |raw| == 0 then Ignored
        else Decide(TextOf(raw) != "" && TextOf(raw)[0] != '<', Label(TextOf(raw)))
      case Bitrate =>
        if IsXmlEnvelope(raw) || |raw| < 4 then Rejected
        else Decide(forall v | v in LadderOf(raw) :: IsBitrate(v), Ladder(LadderOf(raw)))
      case AlarmCatalog =>
        if IsXmlEnvelope(raw) || |raw| <= 10 then Rejected else Accepted(Handed(raw))
      case MotionZones =>
        if |raw| >= 28 then Accepted(Zones(ZonesOf(raw, 5))) else Ignored
      case MotionCoords =>
        if IsXmlEnvelope(raw) || |raw| < 16 then Rejected else Accepted(Coords(RectsOf(raw, up)))
      case TlsCert =>
        if |raw| > 50 then Accepted(Handed(raw)) else Ignored
      case NetworkServices =>
        if IsXmlEnvelope(raw) || |raw| <= 10 then Rejected else Accepted(Handed(raw))
      case IvaCatalog =>
        if IsXmlEnvelope(raw) || |raw| < 6 then Rejected else Accepted(Iva(IvaModulesOf(raw)))
  }

  /** A non-empty reply is passed over only when it is too short for the motion zones or the certificate. */
  lemma IgnoredIffTooShort(cmd: Command, reply: Option<seq<byte>>, up: nat -> bool)
    requires reply.Some? ==> |reply.value| > 0
    ensures Decode(cmd, reply, up) == Ignored <==>
            && reply.Some?
            && ((cmd == MotionZones && |reply.value| < 28) || (cmd == TlsCert && |reply.value| <= 50))
  {
  }

  /** Every non-empty ladder of valid bitrates, sent as big-endian words, is accepted as itself. */
  lemma LadderIsAccepted(ladder: seq<nat>, up: nat -> bool)
    requires ladder != [] && forall v | v in ladder :: IsBitrate(v)
    ensures Decode(Bitrate, Some(EncodeLadder(ladder)), up) == Accepted(Ladder(ladder))
  {
    LadderRoundTrip(ladder);
    assert ladder[0] in ladder;
    var w := Bytes32(ladder[0]);
    assert Word32(w) <= 50_000;
    assert w[0] == 0;
    assert EncodeLadder(ladder)[0] == 0;
  }

  /**
   The whole clock branch, XML guard included, accepts a payload exactly when it has 8
   bytes and its first 7 are a real date and time of the years 1970 to 2100.
   */
  lemma ClockBranchAcceptsRealDates(raw: seq<byte>, up: nat -> bool)
    ensures Decode(Clock, Some(raw), up).Accepted? <==>
            |raw| >= 8 && IsReal(Fields(raw)) && 1970 <= Fields(raw).year <= 2100
    ensures Decode(Clock, Some(raw), up).Accepted? ==>
            Decode(Clock, Some(raw), up) == Accepted(Moment(Fields(raw)))
  {
    if |raw| >= 8 {
      ClockAcceptsRealDates(raw);
      if 1970 <= Fields(raw).year <= 2100 {
        assert raw[..2][0] == raw[0] && raw[..2][1] == raw[1];
        assert raw[0] == 7 || raw[0] == 8;
        PlainFirstByteIsNoXml(raw);
      }
    }
  }

  /** `rcp_local_write_front_light`: the clamped brightness as four hex digits. */
  function FrontLightPayload(brightness: int): seq<byte> {
    var v := if brightness < 0 then 0 else if brightness > 100 then 100 else brightness;
    [HexDigit(0, false), HexDigit(0, false), HexDigit(v / 16, false), HexDigit(v % 16, false)]
  }

  /** Every brightness written by the front light encoder reads back as its clamp to 0..100. */
  lemma FrontLightReadsBack(brightness: int, up: nat -> bool)
    ensures var h := FrontLightPayload(brightness);
      && FromHex(h).Some?
      && Decode(Dimmer, FromHex(h), up)
         == Accepted(Number(if brightness < 0 then 0 else if brightness > 100 then 100 else brightness))
  {
    var v := if brightness < 0 then 0 else if brightness > 100 then 100 else brightness;
    var h := FrontLightPayload(brightness);
    var raw: seq<byte> := [0, v];
    assert raw[1..] == [v] && raw[1..][1..] == [];
    assert ToHex(raw[1..], false) == [HexDigit(v / 16, false), HexDigit(v % 16, false)];
    assert h == ToHex(raw, false);
    HexRoundTrip(raw, false);
    assert raw[..2] == raw;
  }

  // ---- Coordinates that look like XML ----

  function EncodeRect(x1: nat, y1: nat, x2: nat, y2: nat): (raw: seq<byte>)
    requires x1 < 0x1_0000 && y1 < 0x1_0000 && x2 < 0x1_0000 && y2 < 0x1_0000
    ensures |raw| == 8
  {
    Bytes16(x1) + Bytes16(y1) + Bytes16(x2) + Bytes16(y2)
  }

  /**
   A coordinate payload of at least two records is accepted exactly when it is not all
   white space bytes and its first other byte is not `<`.
   */
  lemma CoordsAcceptedIffNotXmlLike(raw: seq<byte>, up: nat -> bool)
    requires |raw| >= 16
    ensures Decode(MotionCoords, Some(raw), up).Accepted? <==>
            exists n | 0 <= n < |raw| ::
              && (forall i | 0 <= i < n :: IsEnvelopeSpace(raw[i]))
              && !IsEnvelopeSpace(raw[n]) && raw[n] != 0x3C
  {
    var n := Run(raw, IsEnvelopeSpace);
    forall m | 0 <= m < |raw| && (forall i | 0 <= i < m :: IsEnvelopeSpace(raw[i])) && !IsEnvelopeSpace(raw[m])
      ensures m == n
    {
    }
  }

  /** Two real rectangles, the first from x1 = 26.2 percent, that are taken for XML and rejected. */
  lemma RealCoordsCanBeRejected(rest: seq<byte>, up: nat -> bool)
    requires |rest| >= 8
    ensures Decode(MotionCoords, Some(EncodeRect(2620, 0, 5000, 5000) + rest), up) == Rejected
  {
    var raw := EncodeRect(2620, 0, 5000, 5000) + rest;
    var w := Bytes16(2620);
    assert Word16(w) == 2620;
    assert w[0] == 0x0A && w[1] == 0x3C;
    assert raw[0] == 0x0A && raw[1] == 0x3C;
    assert Run(raw, IsEnvelopeSpace) == 1;
  }
}
