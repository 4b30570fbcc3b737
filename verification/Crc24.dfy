/**
 Mode S CRC-24: the table-driven and bit-at-a-time loops, the tables they read, and 1- and
 2-bit correction in place. The code's u32 register, masked to its low 24 bits, is a
 `Register`; a u8 is a `byte` with `ByteBits`.
 */
module Crc24 {
  import opened Wrappers
  import opened Gf2
  import opened BitValue
  import opened Crc24Register

  const SHORT_FRAME_BYTES := 7
  const LONG_FRAME_BYTES := 14

  datatype CrcOutcome = Clean | Corrected(bit: nat) | Failed

  /** Mode S CRC-24 of a byte string: the remainder the register is left with. */
  function Crc(bytes: seq<byte>): Register {
    Checksum(FrameBits(bytes))
  }

  // --- Table ---------------------------------------------------------------------

  /** What eight shifts make of a byte placed at the top of an empty register. */
  function TableEntry(b: byte): Register {
    StepN(ByteBits(b) + Zeros(16), 8)
  }

  predicate IsTable(t: seq<Register>) {
    |t| == 256 && forall b: byte :: t[b] == TableEntry(b)
  }

  /** The shift step, as both loops write it. */
  method Shift(rem: Register) returns (r: Register)
    ensures r == Step(rem)
  {
    if rem[0] {
      r := Xor(rem[1..] + [false], POLY_BITS);
    } else {
      r := rem[1..] + [false];
    }
  }

  /** The inner loop of the table builders. */
  method EightShifts(start: Register) returns (rem: Register)
    ensures rem == StepN(start, 8)
  {
    rem := start;
    var i := 0;
    while i < 8
      invariant 0 <= i <= 8
      invariant rem == StepN(start, i)
    {
      rem := Shift(rem);
      i := i + 1;
    }
  }

  method BuildTable() returns (t: array<Register>)
    ensures IsTable(t[..])
  {
    t := new Register[256](_ => ZERO);
    var b := 0;
    while b < 256
      invariant 0 <= b <= 256
      invariant forall k: byte :: k < b ==> t[k] == TableEntry(k)
    {
      var rem := EightShifts(ByteBits(b) + Zeros(16));
      t[b] := rem;
      b := b + 1;
    }
  }

  /** One byte through the register, as one table lookup. */
  lemma ByteStep(bytes: seq<byte>, b: byte, idx: Bits)
    requires idx == Xor(Crc(bytes)[..8], ByteBits(b))
    ensures ByteBits(PackByte(idx)) == idx
    ensures Xor(Crc(bytes)[8..] + Zeros(8), StepN(idx + Zeros(16), 8)) == Crc(bytes + [b])
  {
    ByteBitsPack(idx);
    var rem := Crc(bytes);
    var low: Register := Zeros(8) + rem[8..];
    var high: Register := idx + Zeros(16);
    FeedIsLoad(rem, ByteBits(b));
    assert Xor(rem, ByteBits(b) + Zeros(16)) == Xor(low, high);
    StepNXor(low, high, 8);
    LowBitsRise(low, 8);
    assert low[8..] == rem[8..];
    CrcSnoc(bytes, b);
  }

  /** Shifting a register whose top bits are clear just moves it. */
  lemma {:induction false} LowBitsRise(r: Register, n: nat)
    requires n <= 24 && forall i :: 0 <= i < n ==> !r[i]
    ensures StepN(r, n) == r[n..] + Zeros(n)
  {
    if n > 0 {
      LowBitsRise(r, n - 1);
      assert StepN(r, n - 1)[0] == r[n - 1];
      assert (r[n - 1..] + Zeros(n - 1))[1..] + [false] == r[n..] + Zeros(n);
    }
  }

  // --- Checksum loops --------------------------------------------------------------

  method ComputeCrc24(table: seq<Register>, bytes: seq<byte>) returns (rem: Register)
    requires IsTable(table)
    ensures rem == Crc(bytes)
  {
    rem := ZERO;
    for i := 0 to |bytes|
      invariant rem == Crc(bytes[..i])
    {
      var idx: Bits := Xor(rem[..8], ByteBits(bytes[i]));
      ByteStep(bytes[..i], bytes[i], idx);
      assert bytes[..i] + [bytes[i]] == bytes[..i + 1];
      rem := Xor(rem[8..] + Zeros(8), table[PackByte(idx)]);
    }
    assert bytes[..|bytes|] == bytes;
  }

  method ComputeCrc24Bitwise(bytes: seq<byte>) returns (rem: Register)
    ensures rem == Crc(bytes)
  {
    rem := ZERO;
    for i := 0 to |bytes|
      invariant rem == Crc(bytes[..i])
    {
      ghost var before := rem;
      rem := Xor(rem, ByteBits(bytes[i]) + Zeros(16));
      ghost var loaded := rem;
      for k := 0 to 8
        invariant rem == StepN(loaded, k)
      {
        rem := Shift(rem);
      }
      FeedIsLoad(before, ByteBits(bytes[i]));
      CrcSnoc(bytes[..i], bytes[i]);
      assert bytes[..i] + [bytes[i]] == bytes[..i + 1];
    }
    assert bytes[..|bytes|] == bytes;
  }

  lemma CrcSnoc(bytes: seq<byte>, b: byte)
    ensures Crc(bytes + [b]) == Feed(Crc(bytes), ByteBits(b))
  {
    assert (bytes + [b])[..|bytes|] == bytes;
    FeedConcat(ZERO, FrameBits(bytes), ByteBits(b));
  }

  // --- Syndrome tables ---------------------------------------------------------------

  /** Entry `i` is the checksum of a frame that is all zero except for bit `i`. */
  function Syndromes(n: nat): (s: seq<Register>)
    ensures |s| == n
  {
    seq(n, i requires 0 <= i < n => Checksum(Unit(n, i)))
  }

  /** A byte string that is all zero except for bit `bit`. */
  function UnitBytes(n: nat, bit: nat): (b: seq<byte>)
    requires bit < 8 * n
    ensures |b| == n
  {
    seq(n, i => if i == bit / 8 then PackByte(Unit(8, bit % 8)) else 0)
  }

  lemma UnitBytesBits(n: nat, bit: nat)
    requires bit < 8 * n
    ensures FrameBits(UnitBytes(n, bit)) == Unit(8 * n, bit)
  {
    var u := UnitBytes(n, bit);
    ByteBitsPack(Unit(8, bit % 8));
    ZeroByteBits();
    forall k | 0 <= k < 8 * n
      ensures FrameBits(u)[k] == (k == bit)
    {
      FrameBitAt(u, k);
    }
  }

  lemma ZeroByteBits()
    ensures ByteBits(0) == Zeros(8)
  {
    ValueOfZeros(8);
    BitsOfValue(Zeros(8));
  }

  /** One byte more of a buffer through the table step. */
  lemma CrcOneMore(u: seq<byte>, i: nat, rem: Register, idx: Bits, step: Register)
    requires i < |u| && rem == Crc(u[..i]) && idx == Xor(rem[..8], ByteBits(u[i]))
    requires step == StepN(idx + Zeros(16), 8)
    ensures Xor(rem[8..] + Zeros(8), step) == Crc(u[..i + 1])
  {
    ByteStep(u[..i], u[i], idx);
    assert u[..i] + [u[i]] == u[..i + 1];
  }

  /** The checksum of a buffer that is all zero except for bit `bit`. */
  method SyndromeEntry(bytes: nat, bit: nat) returns (rem: Register)
    requires bit < 8 * bytes
    ensures rem == Checksum(Unit(8 * bytes, bit))
  {
    var targetByte := bit / 8;
    var targetMask := PackByte(Unit(8, bit % 8));
    ghost var u := UnitBytes(bytes, bit);
    rem := ZERO;
    assert rem == Crc(u[..0]);
    hide Checksum, FrameBits, ByteBits, PackByte, Crc, StepN;
    var i := 0;
    while i < bytes
      invariant 0 <= i <= bytes
      invariant rem == Crc(u[..i])
    {
      var b: byte := if i == targetByte then targetMask else 0;
      var idx: Bits := Xor(rem[..8], ByteBits(b));
      var step := EightShifts(idx + Zeros(16));
      CrcOneMore(u, i, rem, idx, step);
      rem := Xor(rem[8..] + Zeros(8), step);
      i := i + 1;
    }
    assert u[..bytes] == u;
    UnitCrc(bytes, bit);
  }

  lemma UnitCrc(bytes: nat, bit: nat)
    requires bit < 8 * bytes
    ensures Crc(UnitBytes(bytes, bit)) == Checksum(Unit(8 * bytes, bit))
  {
    hide UnitBytes, Checksum, FrameBits;
    UnitBytesBits(bytes, bit);
  }

  method BuildSyndromeTable(bytes: nat) returns (out: array<Register>)
    ensures out[..] == Syndromes(8 * bytes)
  {
    var n := 8 * bytes;
    out := new Register[n](_ => ZERO);
    var bit := 0;
    while bit < n
      invariant 0 <= bit <= n
      invariant forall k :: 0 <= k < bit ==> out[k] == Checksum(Unit(n, k))
    {
      var rem := SyndromeEntry(bytes, bit);
      out[bit] := rem;
      bit := bit + 1;
    }
  }

  // --- Correction: what the search is for --------------------------------------------

  /** The first index of `t` from `i` on that holds `s`. */
  function FirstSingle(t: seq<Register>, s: Register, i: nat): (r: Option<nat>)
    requires i <= |t|
    ensures r.Some? ==> i <= r.value < |t| && t[r.value] == s
    ensures r.Some? ==> forall k :: i <= k < r.value ==> t[k] != s
    ensures r.None? ==> forall k :: i <= k < |t| ==> t[k] != s
    decreases |t| - i
  {
    if i == |t| then None
    else if t[i] == s then Some(i)
    else FirstSingle(t, s, i + 1)
  }

  /** The first pair of indices of `t`, the lower one at least `i`, whose entries add to `s`. */
  function FirstPair(t: seq<Register>, s: Register, i: nat): (r: Option<(nat, nat)>)
    requires i <= |t|
    ensures r.Some? ==> i <= r.value.0 < r.value.1 < |t|
    decreases |t| - i
  {
    if i == |t| then None
    else match FirstSingle(t, Xor(s, t[i]), i + 1)
      case Some(j) => Some((i, j))
      case None => FirstPair(t, s, i + 1)
  }

  predicate PairMatches(t: seq<Register>, s: Register, a: nat, b: nat) {
    a < b < |t| && Xor(t[a], t[b]) == s
  }

  lemma {:induction false} FirstPairMatches(t: seq<Register>, s: Register, i: nat)
    requires i <= |t| && FirstPair(t, s, i).Some?
    ensures var (a, b) := FirstPair(t, s, i).value; PairMatches(t, s, a, b)
    decreases |t| - i
  {
    match FirstSingle(t, Xor(s, t[i]), i + 1)
    case Some(j) => XorSolve(s, t[i], t[j]);
    case None => FirstPairMatches(t, s, i + 1);
  }

  /** No match is missed, and none comes before the pair found. */
  lemma {:induction false} FirstPairIsFirst(t: seq<Register>, s: Register, i: nat, c: nat, d: nat)
    requires i <= c && PairMatches(t, s, c, d)
    ensures FirstPair(t, s, i).Some?
    ensures var (a, b) := FirstPair(t, s, i).value; a < c || (a == c && b <= d)
    decreases |t| - i
  {
    if i == c {
      XorSolve(s, t[c], t[d]);
    } else if FirstSingle(t, Xor(s, t[i]), i + 1).None? {
      FirstPairIsFirst(t, s, i + 1, c, d);
    }
  }

  lemma XorSolve(s: Register, a: Register, x: Register)
    ensures x == Xor(s, a) <==> Xor(a, x) == s
  {
    if Xor(a, x) == s {
      assert x == Xor(s, a);
    }
    if x == Xor(s, a) {
      assert Xor(a, x) == s;
    }
  }

  /** What the check reports for a frame, and the frame it leaves behind. */
  function Diagnose(bytes: seq<byte>, depth: nat): (r: (CrcOutcome, seq<byte>))
    ensures |r.1| == |bytes|
  {
    var t := Syndromes(8 * |bytes|);
    var s := Crc(bytes);
    var single := FirstSingle(t, s, 0);
    var pair := FirstPair(t, s, 0);
    if s == ZERO then (Clean, bytes)
    else if depth >= 1 && single.Some? then
      (Corrected(single.value), FlipBit(bytes, single.value))
    else if depth >= 2 && pair.Some? then
      (Corrected(pair.value.0), FlipBit(FlipBit(bytes, pair.value.0), pair.value.1))
    else (Failed, bytes)
  }

  // --- Correction: the code ------------------------------------------------------------

  /** The static tables, built once. */
  class Tables {
    const table: seq<Register>
    const syndromeShort: seq<Register>
    const syndromeLong: seq<Register>

    ghost predicate Valid() {
      && IsTable(table)
      && syndromeShort == Syndromes(8 * SHORT_FRAME_BYTES)
      && syndromeLong == Syndromes(8 * LONG_FRAME_BYTES)
    }

    constructor ()
      ensures Valid()
    {
      var t := BuildTable();
      var s := BuildSyndromeTable(SHORT_FRAME_BYTES);
      var l := BuildSyndromeTable(LONG_FRAME_BYTES);
      table, syndromeShort, syndromeLong := t[..], s[..], l[..];
    }

    /** Linear search for a single-bit error with this syndrome. */
    method SingleBitCorrection(syndrome: Register, n: nat) returns (r: Option<nat>)
      requires Valid()
      ensures n != SHORT_FRAME_BYTES && n != LONG_FRAME_BYTES ==> r == None
      ensures n == SHORT_FRAME_BYTES || n == LONG_FRAME_BYTES ==> r == FirstSingle(Syndromes(8 * n), syndrome, 0)
    {
      if n != SHORT_FRAME_BYTES && n != LONG_FRAME_BYTES {
        return None;
      }
      var t := if n == SHORT_FRAME_BYTES then syndromeShort else syndromeLong;
      r := Position(t, syndrome, 0);
    }

    method TwoBitCorrection(syndrome: Register, n: nat) returns (r: Option<(nat, nat)>)
      requires Valid()
      ensures n != SHORT_FRAME_BYTES && n != LONG_FRAME_BYTES ==> r == None
      ensures n == SHORT_FRAME_BYTES || n == LONG_FRAME_BYTES ==> r == FirstPair(Syndromes(8 * n), syndrome, 0)
    {
      if n != SHORT_FRAME_BYTES && n != LONG_FRAME_BYTES {
        return None;
      }
      var t := if n == SHORT_FRAME_BYTES then syndromeShort else syndromeLong;
      for i := 0 to |t|
        invariant FirstPair(t, syndrome, 0) == FirstPair(t, syndrome, i)
      {
        var need := Xor(syndrome, t[i]);
        var j := Position(t, need, i + 1);
        if j.Some? {
          return Some((i, j.value));
        }
      }
      r := None;
    }

    method CheckWithDepth(bytes: array<byte>, depth: nat) returns (r: CrcOutcome)
      requires Valid()
      requires bytes.Length == SHORT_FRAME_BYTES || bytes.Length == LONG_FRAME_BYTES
      modifies bytes
      ensures (r, bytes[..]) == Diagnose(old(bytes[..]), depth)
    {
      var n := bytes.Length;
      ghost var before := bytes[..];
      var syndrome := ComputeCrc24(table, bytes[..]);
      if syndrome == ZERO {
        return Clean;
      }
      if depth >= 1 {
        var single := SingleBitCorrection(syndrome, n);
        if single.Some? {
          FlipBitInPlace(bytes, single.value);
          assert bytes[..] == FlipBit(before, single.value);
          return Corrected(single.value);
        }
      }
      if depth >= 2 {
        var pair := TwoBitCorrection(syndrome, n);
        if pair.Some? {
          FlipBitInPlace(bytes, pair.value.0);
          FlipBitInPlace(bytes, pair.value.1);
          assert bytes[..] == FlipBit(FlipBit(before, pair.value.0), pair.value.1);
          return Corrected(pair.value.0);
        }
      }
      r := Failed;
    }
  }

  /** The first index from `from` on at which the table holds `s`. */
  method Position(t: seq<Register>, s: Register, from: nat) returns (r: Option<nat>)
    requires from <= |t|
    ensures r == FirstSingle(t, s, from)
  {
    for i := from to |t|
      invariant FirstSingle(t, s, from) == FirstSingle(t, s, i)
    {
      if t[i] == s {
        return Some(i);
      }
    }
    r := None;
  }

  method FlipBitInPlace(bytes: array<byte>, bit: nat)
    requires bit < 8 * bytes.Length
    modifies bytes
    ensures bytes[..] == FlipBit(old(bytes[..]), bit)
  {
    var index := bit / 8;
    var mask := PackByte(Unit(8, bit % 8));
    bytes[index] := XorByte(bytes[index], mask);
  }
}
