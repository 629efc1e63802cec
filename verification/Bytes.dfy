/** Byte strings, their hexadecimal form, and the big-endian words `struct.unpack` reads. */
module Bytes {
  import opened Wrappers

  type byte = b: int | 0 <= b < 256

  /** The bytes of an ASCII literal. */
  function Ascii(s: string): seq<byte>
    requires forall i | 0 <= i < |s| :: s[i] < '\U{80}'
  {
    seq(|s|, i requires 0 <= i < |s| => s[i] as int)
  }

  predicate IsHexDigit(b: byte) {
    0x30 <= b <= 0x39 || 0x41 <= b <= 0x46 || 0x61 <= b <= 0x66
  }

  function HexValue(b: byte): (v: nat)
    requires IsHexDigit(b)
    ensures v < 16
  {
    if b <= 0x39 then b - 0x30 else if b <= 0x46 then b - 0x37 else b - 0x57
  }

  /** `bytes.fromhex` on hex digits only: raises (None) exactly on odd length. */
  function FromHex(h: seq<byte>): (r: Option<seq<byte>>)
    requires forall i | 0 <= i < |h| :: IsHexDigit(h[i])
    ensures r.None? <==> |h| % 2 == 1
    ensures r.Some? ==> 2 * |r.value| == |h|
  {
    if |h| == 0 then Some([])
    else if |h| == 1 then None
    else
      match FromHex(h[2..])
      case None => None
      case Some(rest) => Some([HexValue(h[0]) * 16 + HexValue(h[1])] + rest)
  }

  function HexDigit(v: nat, upper: bool): (b: byte)
    requires v < 16
    ensures IsHexDigit(b) && HexValue(b) == v
  {
    if v < 10 then 0x30 + v else if upper then 0x37 + v else 0x57 + v
  }

  /** `bytes.hex`, in either letter case. */
  function ToHex(raw: seq<byte>, upper: bool): (h: seq<byte>)
    ensures |h| == 2 * |raw| && forall i | 0 <= i < |h| :: IsHexDigit(h[i])
  {
    if |raw| == 0 then []
    else [HexDigit(raw[0] / 16, upper), HexDigit(raw[0] % 16, upper)] + ToHex(raw[1..], upper)
  }

  lemma {:induction false} HexRoundTrip(raw: seq<byte>, upper: bool)
    ensures FromHex(ToHex(raw, upper)) == Some(raw)
  {
    if |raw| > 0 {
      HexRoundTrip(raw[1..], upper);
      assert ToHex(raw, upper)[2..] == ToHex(raw[1..], upper);
      assert raw == [raw[0]] + raw[1..];
    }
  }

  /** `struct.unpack(">H", raw)`. */
  function Word16(raw: seq<byte>): (v: nat)
    requires |raw| == 2
    ensures v < 0x1_0000
  {
    raw[0] as int * 0x100 + raw[1] as int
  }

  /** `struct.unpack(">I", raw)`. */
  function Word32(raw: seq<byte>): (v: nat)
    requires |raw| == 4
    ensures v < 0x1_0000_0000
  {
    ((raw[0] as int * 0x100 + raw[1] as int) * 0x100 + raw[2] as int) * 0x100 + raw[3] as int
  }

  /** Quotient and remainder by 256. */
  function High(v: nat): (q: nat)
    ensures 0x100 * q <= v < 0x100 * q + 0x100
  {
    v / 0x100
  }

  function Low(v: nat): (b: byte)
    ensures v == 0x100 * High(v) + b
  {
    v - 0x100 * High(v)
  }

  /** `struct.pack(">H", v)`. */
  function Bytes16(v: nat): (raw: seq<byte>)
    requires v < 0x1_0000
    ensures |raw| == 2 && Word16(raw) == v
  {
    [High(v), Low(v)]
  }

  /** `struct.pack(">I", v)`. */
  function Bytes32(v: nat): (raw: seq<byte>)
    requires v < 0x1_0000_0000
    ensures |raw| == 4 && Word32(raw) == v
  {
    var w := High(v);
    var x := High(w);
    [High(x), Low(x), Low(w), Low(v)]
  }
}
