/**
 GDL 90 framing: the 16-bit CRC in its table-driven and bitwise forms, byte stuffing between
 flags, and the inverse.
 */
module Gdl90 {
  import opened Wrappers
  import opened Gf2
  import opened BitValue

  /** A 16-bit register, most significant bit first. */
  type Register16 = r: Bits | |r| == 16 witness Zeros(16)

  /** 0x1021. */
  const POLY16: Register16 :=
    [false, false, false, true, false, false, false, false, false, false, true, false, false, false, false, true]

  // --- CRC -----------------------------------------------------------------------------------

  function Step16(r: Register16): Register16 {
    var shifted := r[1..] + [false];
    if r[0] then Xor(shifted, POLY16) else shifted
  }

  function StepN16(r: Register16, n: nat): Register16 {
    if n == 0 then r else Step16(StepN16(r, n - 1))
  }

  /** The bitwise form: a byte is added at the top, then eight shifts. */
  function Crc16(bytes: seq<byte>): Register16 {
    if |bytes| == 0 then Zeros(16)
    else StepN16(Xor(Crc16(bytes[..|bytes| - 1]), ByteBits(bytes[|bytes| - 1]) + Zeros(8)), 8)
  }

  function TableEntry16(b: byte): Register16 {
    StepN16(ByteBits(b) + Zeros(8), 8)
  }

  lemma Step16Xor(a: Register16, b: Register16)
    ensures Step16(Xor(a, b)) == Xor(Step16(a), Step16(b))
  {
    assert Xor(a, b)[1..] == Xor(a[1..], b[1..]);
  }

  lemma {:induction false} StepN16Xor(a: Register16, b: Register16, n: nat)
    ensures StepN16(Xor(a, b), n) == Xor(StepN16(a, n), StepN16(b, n))
  {
    if n > 0 {
      StepN16Xor(a, b, n - 1);
      Step16Xor(StepN16(a, n - 1), StepN16(b, n - 1));
    }
  }

  /** Shifting a register whose top bits are clear just moves it. */
  lemma {:induction false} LowBitsRise16(r: Register16, n: nat)
    requires n <= 16 && forall i :: 0 <= i < n ==> !r[i]
    ensures StepN16(r, n) == r[n..] + Zeros(n)
  {
    if n > 0 {
      LowBitsRise16(r, n - 1);
      assert StepN16(r, n - 1)[0] == r[n - 1];
      assert (r[n - 1..] + Zeros(n - 1))[1..] + [false] == r[n..] + Zeros(n);
    }
  }

  /** One byte by table lookup is one byte by eight shifts. */
  lemma ByteStep16(r: Register16, b: byte, idx: Bits)
    requires idx == Xor(r[..8], ByteBits(b))
    ensures ByteBits(PackByte(idx)) == idx
    ensures Xor(r[8..] + Zeros(8), StepN16(idx + Zeros(8), 8)) == StepN16(Xor(r, ByteBits(b) + Zeros(8)), 8)
  {
    ByteBitsPack(idx);
    var low: Register16 := Zeros(8) + r[8..];
    var high: Register16 := idx + Zeros(8);
    assert Xor(r, ByteBits(b) + Zeros(8)) == Xor(low, high);
    StepN16Xor(low, high, 8);
    LowBitsRise16(low, 8);
    assert low[8..] == r[8..];
  }

  method BuildCrcTable() returns (t: array<Register16>)
    ensures t.Length == 256 && forall b: byte :: t[b] == TableEntry16(b)
  {
    t := new Register16[256](_ => Zeros(16));
    var i := 0;
    while i < 256
      invariant 0 <= i <= 256
      invariant forall b: byte :: b < i ==> t[b] == TableEntry16(b)
    {
      var crc: Register16 := ByteBits(i) + Zeros(8);
      ghost var start := crc;
      for j := 0 to 8
        invariant crc == StepN16(start, j)
      {
        var shifted := crc[1..] + [false];
        crc := if crc[0] then Xor(shifted, POLY16) else shifted;
      }
      t[i] := crc;
      i := i + 1;
    }
  }

  /** The table-driven CRC equals the bitwise one on every byte string. */
  method Crc16Ccitt(table: seq<Register16>, bytes: seq<byte>) returns (c: Register16)
    requires |table| == 256 && forall b: byte :: table[b] == TableEntry16(b)
    ensures c == Crc16(bytes)
  {
    c := Zeros(16);
    for k := 0 to |bytes|
      invariant c == Crc16(bytes[..k])
    {
      assert bytes[..k + 1][..k] == bytes[..k];
      var idx: Bits := Xor(c[..8], ByteBits(bytes[k]));
      ByteStep16(c, bytes[k], idx);
      c := Xor(c[8..] + Zeros(8), table[PackByte(idx)]);
    }
    assert bytes[..|bytes|] == bytes;
  }

  // --- Framing -------------------------------------------------------------------------------

  const FLAG: byte := 0x7E
  const ESCAPE: byte := 0x7D

  function Stuff(b: byte): seq<byte> {
    if b == FLAG then [ESCAPE, 0x5E] else if b == ESCAPE then [ESCAPE, 0x5D] else [b]
  }

  function Stuffed(bytes: seq<byte>): seq<byte> {
    if |bytes| == 0 then [] else Stuffed(bytes[..|bytes| - 1]) + Stuff(bytes[|bytes| - 1])
  }

  /** The CRC, low byte first. */
  function CrcBytes(payload: seq<byte>): (b: seq<byte>)
    ensures |b| == 2
  {
    var c := Crc16(payload);
    [PackByte(c[8..]), PackByte(c[..8])]
  }

  function Framed(payload: seq<byte>): seq<byte> {
    [FLAG] + Stuffed(payload + CrcBytes(payload)) + [FLAG]
  }

  /** Appends the bytes, stuffing flags and escapes. */
  method AppendStuffed(start: seq<byte>, body: seq<byte>) returns (out: seq<byte>)
    ensures out == start + Stuffed(body)
  {
    out := start;
    for k := 0 to |body|
      invariant out == start + Stuffed(body[..k])
    {
      assert body[..k + 1][..k] == body[..k];
      match body[k] {
        case 0x7E => out := out + [0x7D, 0x5E];
        case 0x7D => out := out + [0x7D, 0x5D];
        case b => out := out + [b];
      }
    }
    assert body[..|body|] == body;
  }

  method FrameMessage(table: seq<Register16>, payload: seq<byte>) returns (out: seq<byte>)
    requires |table| == 256 && forall b: byte :: table[b] == TableEntry16(b)
    ensures out == Framed(payload)
  {
    hide TableEntry16, Crc16, Stuffed, PackByte;
    var crc := Crc16Ccitt(table, payload);
    var body := payload + [PackByte(crc[8..])];
    body := body + [PackByte(crc[..8])];
    assert body == payload + CrcBytes(payload);
    out := AppendStuffed([FLAG], body);
    out := out + [FLAG];
  }

  /** XOR with 0x20. */
  function Flip20(b: byte): byte {
    if b / 32 % 2 == 1 then b - 32 else b + 32
  }

  /** Undoes the stuffing; `None` where an escape ends the input. */
  function Unstuffed(s: seq<byte>): Option<seq<byte>> {
    if |s| == 0 then Some([])
    else if s[0] != ESCAPE then
      match Unstuffed(s[1..])
      case None => None
      case Some(rest) => Some([s[0]] + rest)
    else if |s| == 1 then None
    else
      match Unstuffed(s[2..])
      case None => None
      case Some(rest) => Some([Flip20(s[1])] + rest)
  }

  function Unframed(f: seq<byte>): Option<seq<byte>> {
    if |f| < 2 || f[0] != FLAG || f[|f| - 1] != FLAG then None else Unstuffed(f[1..|f| - 1])
  }

  lemma StuffedSnoc(init: seq<byte>, b: byte)
    ensures Stuffed(init + [b]) == Stuffed(init) + Stuff(b)
    ensures Stuffed([]) == []
  {
    assert (init + [b])[..|init|] == init;
  }

  lemma {:induction false} StuffedCons(b: byte, bytes: seq<byte>)
    ensures Stuffed([b] + bytes) == Stuff(b) + Stuffed(bytes)
  {
    hide Stuffed, Stuff;
    if |bytes| == 0 {
      StuffedSnoc([], b);
      assert bytes == [] && [b] + bytes == [] + [b];
    } else {
      var init, last := bytes[..|bytes| - 1], bytes[|bytes| - 1];
      StuffedCons(b, init);
      StuffedSnoc(init, last);
      StuffedSnoc([b] + init, last);
      assert bytes == init + [last] && [b] + bytes == ([b] + init) + [last];
    }
  }

  /** Undoing the stuffing of one byte, whatever follows it. */
  lemma UnstuffOne(b: byte, rest: seq<byte>)
    ensures Unstuffed(Stuff(b) + rest) ==
            match Unstuffed(rest) case None => None case Some(t) => Some([b] + t)
  {
    var s := Stuff(b) + rest;
    assert s[|Stuff(b)|..] == rest;
  }

  lemma {:induction false} UnstuffStuffed(bytes: seq<byte>)
    ensures Unstuffed(Stuffed(bytes)) == Some(bytes)
  {
    if |bytes| > 0 {
      var b, tail := bytes[0], bytes[1..];
      assert bytes == [b] + tail;
      UnstuffStuffed(tail);
      hide Stuffed, Stuff, Unstuffed;
      StuffedCons(b, tail);
      UnstuffOne(b, Stuffed(tail));
    }
  }

  /** A flag and an escape inside become an escape and the byte XOR 20; every other byte stays. */
  lemma OneStuffed(b: byte)
    ensures Stuffed([b]) == if b == 0x7E then [0x7D, 0x5E] else if b == 0x7D then [0x7D, 0x5D] else [b]
  {
    StuffedSnoc([], b);
    assert [] + [b] == [b];
  }

  lemma {:induction false} NoFlagInside(bytes: seq<byte>)
    ensures forall k :: 0 <= k < |Stuffed(bytes)| ==> Stuffed(bytes)[k] != FLAG
  {
    if |bytes| > 0 {
      NoFlagInside(bytes[..|bytes| - 1]);
    }
  }

  /**
   For every payload the frame begins and ends with a flag, holds none in between, and unframes
   to the payload followed by its CRC, low byte first.
   */
  lemma FrameRoundTrip(payload: seq<byte>)
    ensures var f := Framed(payload);
            && |f| >= 2 && f[0] == 0x7E && f[|f| - 1] == 0x7E
            && (forall k :: 0 < k < |f| - 1 ==> f[k] != 0x7E)
            && Unframed(f) == Some(payload + CrcBytes(payload))
  {
    var body := payload + CrcBytes(payload);
    hide CrcBytes, Stuffed, Unstuffed;
    NoFlagInside(body);
    UnstuffStuffed(body);
    var f := Framed(payload);
    assert f[1..|f| - 1] == Stuffed(body);
    assert forall k :: 0 < k < |f| - 1 ==> f[k] == Stuffed(body)[k - 1];
  }

  // --- What the CRC and its place on the wire are ------------------------------------------------

  /** Two bytes as a number, the first one higher. */
  lemma TwoByteValue(hi: byte, lo: byte)
    ensures Value(FrameBits([hi, lo])) == 256 * (hi as int) + lo
  {
    hide FrameBits, Value;
    FrameValue([], hi);
    FrameValue([hi], lo);
    assert [] + [hi] == [hi] && [hi] + [lo] == [hi, lo];
  }

  /** The two bytes on the wire spell the CRC with the second one higher. */
  lemma LowByteFirst(payload: seq<byte>)
    ensures var b := CrcBytes(payload); Value(FrameBits([b[1], b[0]])) == Value(Crc16(payload))
  {
    hide Crc16, Value, FrameBits;
    var c := Crc16(payload);
    Pow2Values();
    ValueConcat(c[..8], c[8..]);
    assert c == c[..8] + c[8..];
    TwoByteValue(PackByte(c[..8]), PackByte(c[8..]));
  }

  lemma Step16Injective(a: Register16, b: Register16)
    requires Step16(a) == Step16(b)
    ensures a == b
  {
    var sa, sb := a[1..] + [false], b[1..] + [false];
    assert Step16(a)[15] == a[0] && Step16(b)[15] == b[0];
    if a[0] {
      assert forall i :: 0 <= i < 16 ==> Xor(sa, POLY16)[i] == Xor(sb, POLY16)[i];
      assert sa == sb;
    }
    assert sa == sb;
    assert a[1..] == sa[..15] && b[1..] == sb[..15];
    assert a == [a[0]] + a[1..] && b == [b[0]] + b[1..];
  }

  lemma {:induction false} StepN16Injective(a: Register16, b: Register16, n: nat)
    requires StepN16(a, n) == StepN16(b, n)
    ensures a == b
  {
    hide Step16;
    if n > 0 {
      Step16Injective(StepN16(a, n - 1), StepN16(b, n - 1));
      StepN16Injective(a, b, n - 1);
    }
  }

  lemma CrcSnoc(bytes: seq<byte>, b: byte)
    ensures Crc16(bytes + [b]) == StepN16(Xor(Crc16(bytes), ByteBits(b) + Zeros(8)), 8)
  {
    hide StepN16;
    assert (bytes + [b])[..|bytes|] == bytes;
  }

  lemma SameXor(c: Register16, d: Register16)
    ensures Xor(c, d) == Zeros(16) <==> c == d
  {
    if Xor(c, d) == Zeros(16) {
      assert forall i :: 0 <= i < 16 ==> !Xor(c, d)[i];
    }
  }

  /** A register that one byte brings to a value with its low byte clear. */
  lemma LastButOne(c: Register16, hi: byte, lo: byte)
    ensures StepN16(Xor(c, ByteBits(hi) + Zeros(8)), 8) == ByteBits(lo) + Zeros(8)
       <==> c == ByteBits(hi) + ByteBits(lo)
  {
    hide StepN16, ByteBits;
    var low: Register16 := Zeros(8) + ByteBits(lo);
    assert StepN16(low, 8) == ByteBits(lo) + Zeros(8) by {
      LowBitsRise16(low, 8);
      assert low[8..] == ByteBits(lo);
    }
    var added: Register16 := ByteBits(hi) + Zeros(8);
    if StepN16(Xor(c, added), 8) == ByteBits(lo) + Zeros(8) {
      StepN16Injective(Xor(c, added), low, 8);
      assert forall i :: 0 <= i < 8 ==> !Xor(c, added)[i] && !low[i];
      assert forall i :: 8 <= i < 16 ==> c[i] == Xor(c, added)[i] == low[i] == ByteBits(lo)[i - 8];
      assert c == ByteBits(hi) + ByteBits(lo);
    }
    if c == ByteBits(hi) + ByteBits(lo) {
      assert Xor(c, added) == low;
    }
  }

  /** The CRC of a message with two bytes appended is zero exactly when they are its CRC, high byte first. */
  lemma ResidueIff(payload: seq<byte>, hi: byte, lo: byte)
    ensures Crc16(payload + [hi] + [lo]) == Zeros(16) <==> Value(Crc16(payload)) == 256 * (hi as int) + lo
  {
    hide Crc16, StepN16, ByteBits, Value;
    var c := Crc16(payload);
    CrcSnoc(payload, hi);
    CrcSnoc(payload + [hi], lo);
    var before := Crc16(payload + [hi]);
    var added: Register16 := ByteBits(lo) + Zeros(8);
    var none: Register16 := Zeros(16);
    assert StepN16(none, 8) == none by {
      LowBitsRise16(none, 8);
      assert none[8..] + Zeros(8) == none;
    }
    if StepN16(Xor(before, added), 8) == none {
      StepN16Injective(Xor(before, added), none, 8);
    }
    SameXor(before, added);
    LastButOne(c, hi, lo);
    WordIsBytes(c, hi, lo);
  }

  lemma WordIsBytes(c: Register16, hi: byte, lo: byte)
    ensures c == ByteBits(hi) + ByteBits(lo) <==> Value(c) == 256 * (hi as int) + lo
  {
    hide ByteBits, Value;
    Pow2Values();
    ValueConcat(ByteBits(hi), ByteBits(lo));
    ByteValue(hi);
    ByteValue(lo);
    if Value(c) == 256 * (hi as int) + lo {
      ValueInjective(c, ByteBits(hi) + ByteBits(lo));
    }
  }

  lemma PolyIs1021()
    ensures Value(POLY16) == 0x1021
  {
    HighPolyByte();
    LowPolyByte();
    hide Value, ByteBits, POLY16;
    assert POLY16 == POLY16[..8] + POLY16[8..];
    WordIsBytes(POLY16, 0x10, 0x21);
  }

  lemma HighPolyByte()
    ensures ByteBits(0x10) == POLY16[..8]
  {
    ByteSpelled(0x10, POLY16[..8]);
  }

  lemma LowPolyByte()
    ensures ByteBits(0x21) == POLY16[8..]
  {
    ByteSpelled(0x21, POLY16[8..]);
  }

  lemma OneAsByte()
    ensures ByteBits(1) == Zeros(7) + [true]
  {
    ByteSpelled(1, Zeros(7) + [true]);
  }

  lemma OneRisesOut(one: Register16)
    requires one == Zeros(7) + [true] + Zeros(8)
    ensures StepN16(one, 8) == POLY16
  {
    LowBitsRise16(one, 7);
    var top := StepN16(one, 7);
    assert top[0] && top[1..] + [false] == Zeros(16);
    assert Xor(Zeros(16), POLY16) == POLY16;
  }

  /** The generator is x^16 + x^12 + x^5 + 1: the message 01 has the CRC 1021. */
  lemma GeneratorIs1021()
    ensures Value(Crc16([1])) == 0x1021
  {
    PolyIs1021();
    OneAsByte();
    CrcSnoc([], 1);
    hide Value, StepN16, ByteBits, POLY16;
    var one: Register16 := Zeros(7) + [true] + Zeros(8);
    OneRisesOut(one);
    assert Xor(Zeros(16), one) == one;
    assert [] + [1 as byte] == [1];
  }
}
