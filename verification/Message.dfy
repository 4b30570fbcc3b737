/**
 Decoding of frames into messages: addresses, the bit reader, and the payloads the state
 tracker uses. Speeds and headings stay the raw fields they are computed from.
 */
module Messages {
  import opened Wrappers
  import opened Gf2
  import opened BitValue
  import opened Cpr
  import opened Downlink

  // --- Addresses -------------------------------------------------------------------------

  /** A 24-bit aircraft address. */
  type Icao = a: int | 0 <= a < 0x100_0000

  function IcaoBytes(a: Icao): (b: seq<byte>)
    ensures |b| == 3
  {
    [a / 65536, a / 256 % 256, a % 256]
  }

  function IcaoFromBytes(b: seq<byte>): Icao
    requires |b| == 3
  {
    65536 * (b[0] as int) + 256 * (b[1] as int) + b[2]
  }

  function IcaoFromU24(v: nat): Option<Icao> {
    if v < 0x100_0000 then Some(v) else None
  }

  lemma SplitBytes(a: byte, b: byte, c: byte)
    ensures var v: nat := 65536 * (a as int) + 256 * (b as int) + c;
            v / 65536 == a && v / 256 % 256 == b && v % 256 == c
  {
    assert (256 * (a as int) + b) % 256 == b;
  }

  lemma JoinBytes(v: nat)
    ensures v == 65536 * (v / 65536) + 256 * (v / 256 % 256) + v % 256
  {
    assert v / 65536 == v / 256 / 256;
  }

  /** Three bytes and an address are the same thing, big end first. */
  lemma IcaoBytesInverse(a: Icao, b: seq<byte>)
    requires |b| == 3
    ensures IcaoFromBytes(IcaoBytes(a)) == a
    ensures IcaoBytes(IcaoFromBytes(b)) == b
    ensures IcaoFromBytes(b) == Value(FrameBits(b))
  {
    hide Value, FrameBits;
    JoinBytes(a);
    SplitBytes(b[0], b[1], b[2]);
    assert IcaoBytes(IcaoFromBytes(b)) == [b[0], b[1], b[2]];
    IcaoIsValue(b);
  }

  lemma IcaoIsValue(b: seq<byte>)
    requires |b| == 3
    ensures IcaoFromBytes(b) == Value(FrameBits(b))
  {
    hide Value, FrameBits;
    FrameValue([], b[0]);
    FrameValue(b[..1], b[1]);
    FrameValue(b[..2], b[2]);
    assert b[..1] == [] + [b[0]] && b[..2] == b[..1] + [b[1]] && b == b[..2] + [b[2]];
  }

  // --- Hexadecimal -------------------------------------------------------------------------

  /** The value of an ASCII hex digit, either case. */
  function HexDigit(c: byte): (d: Option<nat>)
    ensures d.Some? ==> d.value < 16
  {
    if 48 <= c <= 57 then Some(c - 48)
    else if 97 <= c <= 102 then Some(c - 97 + 10)
    else if 65 <= c <= 70 then Some(c - 65 + 10)
    else None
  }

  const UPPER := "0123456789ABCDEF"
  const LOWER := "0123456789abcdef"

  /** Each digit is read from its two characters, and written as the upper one. */
  lemma HexDigitIs(c: byte, d: nat)
    requires d < 16
    ensures HexDigit(c) == Some(d) <==> c as char == UPPER[d] || c as char == LOWER[d]
    ensures HexChar(d) as char == UPPER[d]
  {
  }

  predicate AllHex(s: seq<byte>) {
    forall k :: 0 <= k < |s| ==> HexDigit(s[k]).Some?
  }

  /** The number a string of hex digits stands for. */
  function HexValue(s: seq<byte>): (v: nat)
    requires AllHex(s)
    ensures v < Pow2(4 * |s|)
  {
    if |s| == 0 then 0
    else
      Pow2Add(4 * (|s| - 1), 4);
      Pow2Values4();
      16 * HexValue(s[..|s| - 1]) + HexDigit(s[|s| - 1]).value
  }

  lemma Pow2Values4()
    ensures Pow2(4) == 16
  {
    Pow2Values();
  }

  function HexChar(n: nat): byte
    requires n < 16
  {
    if n < 10 then 48 + n else 65 + n - 10
  }

  /** The low `k` hex digits of `a`, upper case. */
  function Hex(a: nat, k: nat): (s: seq<byte>)
    ensures |s| == k
  {
    if k == 0 then [] else Hex(a / 16, k - 1) + [HexChar(a % 16)]
  }

  lemma HexBound(a: nat, k: nat)
    requires k > 0 && a < Pow2(4 * k)
    ensures a / 16 < Pow2(4 * (k - 1))
  {
    Pow2Add(4 * (k - 1), 4);
    Pow2Values4();
  }

  lemma HexSnoc(s: seq<byte>, d: nat)
    requires AllHex(s) && d < 16
    ensures AllHex(s + [HexChar(d)]) && HexValue(s + [HexChar(d)]) == 16 * HexValue(s) + d
  {
    assert HexDigit(HexChar(d)) == Some(d);
    assert (s + [HexChar(d)])[..|s|] == s;
  }

  lemma {:induction false} HexInverse(a: nat, k: nat)
    requires a < Pow2(4 * k)
    ensures AllHex(Hex(a, k)) && HexValue(Hex(a, k)) == a
  {
    if k == 0 {
      NoBits(a);
    } else {
      HexBound(a, k);
      HexInverse(a / 16, k - 1);
      hide Pow2, AllHex, HexValue, HexChar;
      HexSnoc(Hex(a / 16, k - 1), a % 16);
    }
  }

  lemma NoBits(a: nat)
    requires a < Pow2(0)
    ensures a == 0
  {
  }

  /** An address is read exactly from six hex digits of either case. */
  method FromHex(s: seq<byte>) returns (r: Option<Icao>)
    ensures r.Some? <==> |s| == 6 && AllHex(s)
    ensures r.Some? ==> r.value == HexValue(s)
  {
    if |s| != 6 {
      return None;
    }
    var v: nat := 0;
    Pow2Values();
    for i := 0 to 6
      invariant AllHex(s[..i]) && v == HexValue(s[..i])
    {
      var d := HexDigit(s[i]);
      if d.None? {
        return None;
      }
      assert s[..i + 1][..i] == s[..i];
      v := v * 16 + d.value;
    }
    assert s[..6] == s;
    r := IcaoFromU24(v);
  }

  /** Six upper-case digits, most significant first. */
  method ToHex(a: Icao) returns (s: seq<byte>)
    ensures s == Hex(a, 6) && AllHex(s) && HexValue(s) == a
  {
    s := [];
    var rest: nat := a;
    var k := 0;
    while k < 6
      invariant 0 <= k <= 6 && Hex(a, 6) == Hex(rest, 6 - k) + s
    {
      assert Hex(rest, 6 - k) == Hex(rest / 16, 5 - k) + [HexChar(rest % 16)];
      s := [HexChar(rest % 16)] + s;
      rest := rest / 16;
      k := k + 1;
    }
    Pow2Values();
    HexInverse(a, 6);
  }

  // --- Bit reader --------------------------------------------------------------------------

  predicate InBuffer(bytes: seq<byte>, pos: nat, len: nat) {
    1 <= pos && 1 <= len <= 32 && pos - 1 + len <= 8 * |bytes|
  }

  /** The bits from index `from` up to `to`, as a number. */
  function FieldOf(a: Bits, from: nat, to: nat): (v: nat)
    requires from <= to <= |a|
    ensures v < Pow2(to - from)
  {
    Value(a[from..to])
  }

  /** The `len` bits from 1-indexed position `pos` on, as a number. */
  function BitField(bytes: seq<byte>, pos: nat, len: nat): (v: nat)
    requires InBuffer(bytes, pos, len)
    ensures v < Pow2(len)
  {
    FieldOf(FrameBits(bytes), pos - 1, pos - 1 + len)
  }

  predicate BitFlag(bytes: seq<byte>, pos: nat)
    requires InBuffer(bytes, pos, 1)
  {
    FrameBits(bytes)[pos - 1]
  }

  /** Shift right by `k`, then keep the low `len` bits. */
  function Masked(v: nat, k: nat, len: nat): nat {
    v / Pow2(k) % Pow2(len)
  }

  lemma SliceIsMasked(a: Bits, from: nat, to: nat)
    requires from <= to <= |a|
    ensures FieldOf(a, from, to) == Masked(Value(a), |a| - to, to - from)
  {
    ValueSlice(a, from, to);
  }

  /** A field is a slice of the big-endian integer that the bytes spell. */
  lemma BitsOfInteger(bytes: seq<byte>, pos: nat, len: nat)
    requires InBuffer(bytes, pos, len)
    ensures BitField(bytes, pos, len)
         == Masked(Value(FrameBits(bytes)), 8 * |bytes| - (pos - 1 + len), len)
  {
    hide FrameBits, Masked, Value, Pow2, FieldOf;
    SliceIsMasked(FrameBits(bytes), pos - 1, pos - 1 + len);
  }

  predicate IsPart(part: Bits, a: Bits, offset: nat) {
    offset + |part| <= |a| && part == a[offset..offset + |part|]
  }

  lemma MiddleOf(a: Bits, b: Bits, c: Bits)
    ensures IsPart(b, a + b + c, |a|)
  {
  }

  lemma FrameBitsMiddle(a: seq<byte>, b: seq<byte>, c: seq<byte>)
    ensures IsPart(FrameBits(b), FrameBits(a + b + c), 8 * |a|)
  {
    hide FrameBits, IsPart;
    FrameBitsConcat(a, b);
    FrameBitsConcat(a + b, c);
    MiddleOf(FrameBits(a), FrameBits(b), FrameBits(c));
  }

  lemma FrameBitsSlice(bytes: seq<byte>, first: nat, last: nat)
    requires first <= last <= |bytes|
    ensures IsPart(FrameBits(bytes[first..last]), FrameBits(bytes), 8 * first)
  {
    hide FrameBits, IsPart;
    var a, b, c := CutTwice(bytes, first, last);
    FrameBitsMiddle(a, b, c);
  }

  lemma CutTwice(bytes: seq<byte>, first: nat, last: nat) returns (a: seq<byte>, b: seq<byte>, c: seq<byte>)
    requires first <= last <= |bytes|
    ensures bytes == a + b + c && |a| == first && b == bytes[first..last]
  {
    a, b, c := bytes[..first], bytes[first..last], bytes[last..];
  }

  /** Loads the bytes the field touches, at most five, then shifts and masks. */
  method ReadBits(bytes: seq<byte>, pos: nat, len: nat) returns (v: nat)
    requires InBuffer(bytes, pos, len)
    ensures v == BitField(bytes, pos, len)
  {
    hide FrameBits, Value, IsPart, FieldOf, Masked;
    var start := pos - 1;
    var end := start + len;
    var firstByte, lastByte := start / 8, (end - 1) / 8;
    var acc: nat := 0;
    FrameValue([], 0);
    for k := firstByte to lastByte + 1
      invariant acc == Value(FrameBits(bytes[firstByte..k]))
    {
      FrameValue(bytes[firstByte..k], bytes[k]);
      assert bytes[firstByte..k] + [bytes[k]] == bytes[firstByte..k + 1];
      acc := acc * 256 + bytes[k];
    }
    var trailing := (lastByte + 1) * 8 - end;
    FrameBitsSlice(bytes, firstByte, lastByte + 1);
    FieldOfPart(FrameBits(bytes), FrameBits(bytes[firstByte..lastByte + 1]), start, end, 8 * firstByte);
    v := Masked(acc, trailing, len);
  }

  lemma FieldOfPart(a: Bits, part: Bits, from: nat, to: nat, offset: nat)
    requires IsPart(part, a, offset) && offset <= from <= to <= offset + |part|
    ensures FieldOf(a, from, to) == Masked(Value(part), offset + |part| - to, to - from)
  {
    hide Value, Masked, Pow2;
    SliceIsMasked(part, from - offset, to - offset);
    assert part[from - offset..to - offset] == a[from..to] by {
      forall k | 0 <= k < to - from
        ensures part[from - offset..to - offset][k] == a[from..to][k]
      {
        assert part[from - offset + k] == a[from + k];
      }
    }
  }

  /** Five loaded bytes always fit the 64-bit accumulator. */
  lemma LoadedBytesFit(bytes: seq<byte>, pos: nat, len: nat)
    requires InBuffer(bytes, pos, len)
    ensures (pos - 1 + len - 1) / 8 - (pos - 1) / 8 + 1 <= 5
    ensures Value(FrameBits(bytes[(pos - 1) / 8..(pos - 1 + len - 1) / 8 + 1])) < 0x1_0000_0000_0000_0000
  {
    var loaded := bytes[(pos - 1) / 8..(pos - 1 + len - 1) / 8 + 1];
    hide Value;
    LoadedBound(8 * |loaded|);
  }

  lemma LoadedBound(n: nat)
    requires n <= 40
    ensures Pow2(n) <= 0x100_0000_0000
  {
    Pow2Monotone(n, 40);
    Pow2Add(24, 16);
    Pow2Values();
  }

  // --- Payloads ----------------------------------------------------------------------------

  /** The seven bytes of a squitter's message field. */
  type Me = me: seq<byte> | |me| == 7 witness [0, 0, 0, 0, 0, 0, 0]

  datatype Identification = Identification(callsign: string, categorySet: nat, category: nat)

  datatype Altitude = BaroFeet(feet: int) | BaroGillhamFeet(feet: int) | GnssFeet(feet: int) | Unavailable

  datatype AirbornePosition = AirbornePosition(altitude: Altitude, cpr: CprPosition)

  /** Ground speed in knots and track in degrees; `None` where the message gives none. */
  datatype SurfacePosition = SurfacePosition(groundSpeedKt: Option<real>, trackDeg: Option<real>, cpr: CprPosition)

  datatype VerticalRateSource = Baro | Gnss

  /**
   In the air, ground speed as its two components in knots, or airspeed as such; on the ground,
   speed in knots and heading in degrees.
   */
  datatype VelocityKind =
    | Ground(east: int, north: int)
    | Airspeed(speedKt: nat, heading: Option<nat>, magnetic: bool)
    | Taxi(speedKt: nat, headingDeg: real)

  datatype Velocity = Velocity(kind: VelocityKind, verticalRateFpm: Option<int>, source: VerticalRateSource)

  datatype DecodeError = TruncatedFrame | UnsupportedVelocitySubtype(subtype: nat)

  datatype SquitterPayload =
    | IdentificationPayload(id: Identification)
    | AirbornePayload(airborne: AirbornePosition)
    | SurfacePayload(surface: SurfacePosition)
    | VelocityPayload(velocity: Velocity)
    | RawPayload(me: Me)

  datatype Squitter = Squitter(icao: Icao, typeCode: nat, payload: SquitterPayload, capability: nat)

  datatype Message =
    | SquitterMessage(es: Squitter)
    | AllCall(icao: Icao)
    | SurveillanceReply(frame: Frame)
    | Other(df: DownlinkFormat)

  // --- Identification ----------------------------------------------------------------------

  /** A six-bit character code; reserved codes become an underscore. */
  function CallsignChar(code: nat): char {
    if 1 <= code <= 26 then (65 + code - 1) as char
    else if code == 32 then ' '
    else if 48 <= code <= 57 then code as char
    else '_'
  }

  predicate IsPad(c: char) {
    c == ' ' || c == '_'
  }

  function Strip(s: string): (t: string)
    ensures |t| <= |s| && t == s[..|t|]
    ensures |t| > 0 ==> t[|t| - 1] != ' ' && t[|t| - 1] != '_'
    ensures forall k :: |t| <= k < |s| ==> s[k] == ' ' || s[k] == '_'
  {
    if |s| > 0 && IsPad(s[|s| - 1]) then Strip(s[..|s| - 1]) else s
  }

  /** The eight characters packed from bit 9 of the message field on. */
  function Letters(me: Me): (s: string)
    ensures |s| == 8
  {
    seq(8, k requires 0 <= k < 8 => CallsignChar(BitField(me, 9 + 6 * k, 6)))
  }

  function IdentificationOf(me: Me): Identification {
    Identification(Strip(Letters(me)), me[0] / 8, me[0] % 8)
  }

  /** The code of letter `k` in the 48 bits that follow the first byte. */
  lemma LetterAt(me: Me, bits: nat, k: nat)
    requires k < 8 && bits == Value(FrameBits(me[1..7]))
    ensures Letters(me)[k] == CallsignChar(Masked(bits, (7 - k) * 6, 6))
  {
    hide FrameBits, Value, IsPart, FieldOf, Masked;
    FrameBitsSlice(me, 1, 7);
    FieldOfPart(FrameBits(me), FrameBits(me[1..7]), 8 + 6 * k, 14 + 6 * k, 8);
  }

  /** The bytes from the second on, as one 48-bit number. */
  method LoadLetters(me: Me) returns (bits: nat)
    ensures bits == Value(FrameBits(me[1..7]))
  {
    hide FrameBits, Value;
    bits := 0;
    FrameValue([], 0);
    for k := 1 to 7
      invariant bits == Value(FrameBits(me[1..k]))
    {
      FrameValue(me[1..k], me[k]);
      assert me[1..k] + [me[k]] == me[1..k + 1];
      bits := bits * 256 + me[k];
    }
  }

  method DecodeIdentification(me: Me) returns (id: Identification)
    ensures id == IdentificationOf(me)
  {
    hide FrameBits, Value, Masked, Letters, CallsignChar;
    var bits := LoadLetters(me);
    var callsign: string := "";
    for k := 0 to 8
      invariant |callsign| == k && callsign == Letters(me)[..k]
    {
      var shift := (7 - k) * 6;
      LetterAt(me, bits, k);
      callsign := callsign + [CallsignChar(Masked(bits, shift, 6))];
    }
    while |callsign| > 0 && IsPad(callsign[|callsign| - 1])
      invariant Strip(callsign) == Strip(Letters(me))
    {
      callsign := callsign[..|callsign| - 1];
    }
    id := Identification(callsign, me[0] / 8, me[0] % 8);
  }

  // --- Positions ---------------------------------------------------------------------------

  /** A 17-bit field as a CPR coordinate. */
  function CprField(me: Me, pos: nat): Field
    requires InBuffer(me, pos, 17)
  {
    Pow2Values();
    BitField(me, pos, 17)
  }

  /** The 12-bit altitude field, by type code. Metres become feet, truncated. */
  function DecodeAltitude(ac12: nat, tc: nat): Altitude {
    if ac12 == 0 then Unavailable
    else if 20 <= tc <= 22 then GnssFeet(ac12 * 328084 / 100000)
    else if ac12 / 16 % 2 == 1 then BaroFeet((ac12 % 16 + ac12 / 32 * 16) * 25 - 1000)
    else BaroGillhamFeet(ac12 * 100 - 1000)
  }

  function DecodeAirborne(me: Me): AirbornePosition {
    AirbornePosition(DecodeAltitude(BitField(me, 9, 12), BitField(me, 1, 5)),
                     CprPosition(CprField(me, 23), CprField(me, 40), BitFlag(me, 22)))
  }

  /** Ground speed in knots by movement code: seven steps of growing width, then "at least 175". */
  function SurfaceSpeed(movement: nat): Option<real> {
    if movement == 0 then None
    else if movement == 1 then Some(0.0)
    else if movement <= 8 then Some(0.125 + (movement - 2) as real * 0.125)
    else if movement <= 12 then Some(1.0 + (movement - 9) as real * 0.25)
    else if movement <= 38 then Some(2.0 + (movement - 13) as real * 0.5)
    else if movement <= 93 then Some(15.0 + (movement - 39) as real)
    else if movement <= 108 then Some(70.0 + (movement - 94) as real * 2.0)
    else if movement <= 123 then Some(100.0 + (movement - 109) as real * 5.0)
    else if movement == 124 then Some(175.0)
    else None
  }

  /** A seven-bit track in degrees. */
  function TrackDegrees(raw: nat): real {
    raw as real * 2.8125
  }

  function DecodeSurface(me: Me): SurfacePosition {
    SurfacePosition(SurfaceSpeed(BitField(me, 6, 7)),
                    if BitFlag(me, 13) then Some(TrackDegrees(BitField(me, 14, 7))) else None,
                    CprPosition(CprField(me, 23), CprField(me, 40), BitFlag(me, 22)))
  }

  // --- Velocity ----------------------------------------------------------------------------

  /** A magnitude field holds its value plus one; zero means not available. */
  function Magnitude(raw: nat): nat {
    if raw == 0 then 0 else raw - 1
  }

  function Signed(negative: bool, v: nat): int {
    if negative then 0 - v else v
  }

  function DecodeVelocity(me: Me): Result<Velocity, DecodeError> {
    var subtype := BitField(me, 6, 3);
    var source := if BitFlag(me, 36) then Gnss else Baro;
    var raw := BitField(me, 38, 9);
    var rate := if raw == 0 then None else Some(Signed(BitFlag(me, 37), (raw - 1) * 64));
    if subtype == 1 || subtype == 2 then
      var scale := if subtype == 2 then 4 else 1;
      var east := Signed(BitFlag(me, 14), Magnitude(BitField(me, 15, 10)));
      var north := Signed(BitFlag(me, 25), Magnitude(BitField(me, 26, 10)));
      Ok(Velocity(Ground(east * scale, north * scale), rate, source))
    else if subtype == 3 || subtype == 4 then
      var scale := if subtype == 4 then 4 else 1;
      var heading := if BitFlag(me, 14) then Some(BitField(me, 15, 10)) else None;
      Ok(Velocity(Airspeed(Magnitude(BitField(me, 26, 10)) * scale, heading, !BitFlag(me, 25)), rate, source))
    else Err(UnsupportedVelocitySubtype(subtype))
  }

  // --- Dispatch ----------------------------------------------------------------------------

  function DecodePayload(me: Me): SquitterPayload {
    var tc := me[0] / 8;
    if 1 <= tc <= 4 then IdentificationPayload(IdentificationOf(me))
    else if 5 <= tc <= 8 then SurfacePayload(DecodeSurface(me))
    else if 9 <= tc <= 18 || 20 <= tc <= 22 then AirbornePayload(DecodeAirborne(me))
    else if tc == 19 then
      match DecodeVelocity(me)
      case Ok(v) => VelocityPayload(v)
      case Err(_) => RawPayload(me)
    else RawPayload(me)
  }

  function DecodeSquitter(bytes: seq<byte>): Squitter
    requires |bytes| >= 14
  {
    Squitter(IcaoFromBytes(bytes[1..4]), bytes[4] / 8, DecodePayload(bytes[4..11]), bytes[0] % 8)
  }

  function DecodeLong(bytes: seq<byte>): Result<Message, DecodeError> {
    if |bytes| < 14 then Err(TruncatedFrame) else Ok(SquitterMessage(DecodeSquitter(bytes)))
  }

  /** Takes the bytes at face value; the parity was checked, or not, by the detector. */
  function Decode(frame: Frame): Result<Message, DecodeError> {
    match frame.df
    case ExtendedSquitter => DecodeLong(frame.bytes)
    case TisB => DecodeLong(frame.bytes)
    case AllCallReply =>
      if |frame.bytes| < 7 then Err(TruncatedFrame) else Ok(AllCall(IcaoFromBytes(frame.bytes[1..4])))
    case Reserved(_) => Ok(Other(frame.df))
    case _ => Ok(SurveillanceReply(frame))
  }
}
