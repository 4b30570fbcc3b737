/**
 The 2.4 MS/s bit slicer. A bit lasts 12 fifths of a sample and its pulse 6, so bit n of a
 message that starts at fifth `start` begins at fifth `start + 12 * n`; the five correlators
 read it at its five possible offsets inside a sample.
 */
module Slicer2400 {
  import opened Gf2
  import opened BitValue
  import opened Crc24
  import opened NoiseFloors

  const PREAMBLE_SAMPLES_2400 := 19
  const LOOKAHEAD_SHORT := 19 + 1 + 135
  const MAX_FRAME_BYTES := 14

  function I32(x: Sample): int {
    x
  }

  // --- Correlators -----------------------------------------------------------------

  function SlicePhase0(m: seq<Sample>, at: nat): int
    requires at + 3 <= |m|
  {
    5 * I32(m[at]) - 3 * I32(m[at + 1]) - 2 * I32(m[at + 2])
  }

  function SlicePhase1(m: seq<Sample>, at: nat): int
    requires at + 3 <= |m|
  {
    4 * I32(m[at]) - I32(m[at + 1]) - 3 * I32(m[at + 2])
  }

  function SlicePhase2(m: seq<Sample>, at: nat): int
    requires at + 3 <= |m|
  {
    3 * I32(m[at]) + I32(m[at + 1]) - 4 * I32(m[at + 2])
  }

  function SlicePhase3(m: seq<Sample>, at: nat): int
    requires at + 3 <= |m|
  {
    2 * I32(m[at]) + 3 * I32(m[at + 1]) - 5 * I32(m[at + 2])
  }

  function SlicePhase4(m: seq<Sample>, at: nat): int
    requires at + 4 <= |m|
  {
    I32(m[at]) + 5 * I32(m[at + 1]) - 5 * I32(m[at + 2]) - I32(m[at + 3])
  }

  // --- The rule behind the switch ------------------------------------------------------

  /** One past the last sample read for the bit that begins at fifth `f`. */
  function ReadEnd(f: nat): nat {
    f / 5 + if f % 5 == 4 then 4 else 3
  }

  /** What correlator `phase` decides from sample `at` on. */
  predicate Decide(phase: nat, m: seq<Sample>, at: nat)
    requires phase < 5 && at + (if phase == 4 then 4 else 3) <= |m|
  {
    match phase
    case 0 => SlicePhase0(m, at) > 0
    case 1 => SlicePhase1(m, at) > 0
    case 2 => SlicePhase2(m, at) > 0
    case 3 => SlicePhase3(m, at) > 0
    case _ => SlicePhase4(m, at) > 0
  }

  /** The bit that begins at fifth `f`: correlator f mod 5 at sample f div 5. */
  predicate BitAt(m: seq<Sample>, f: nat)
    requires ReadEnd(f) <= |m|
  {
    Decide(f % 5, m, f / 5)
  }

  /** The light of `n` fifths of a sample from fifth `f` on. */
  function Light(m: seq<Sample>, f: nat, n: nat): int
    requires n == 0 || (f + n - 1) / 5 < |m|
  {
    if n == 0 then 0
    else
      FifthsGrow(f + n - 1);
      Light(m, f, n - 1) + I32(m[(f + n - 1) / 5])
  }

  lemma FifthsGrow(f: nat)
    ensures f > 0 ==> (f - 1) / 5 <= f / 5
  {
  }

  /** The samples of fifths `5q + r` and on. */
  lemma FifthOf(q: nat, r: nat)
    requires r < 20
    ensures (5 * q + r) / 5 == q + r / 5
  {
  }

  /** Fifths within one sample all hold its light. */
  lemma {:induction false} LightInSample(m: seq<Sample>, q: nat, r: nat, n: nat)
    requires r + n <= 5 && q < |m|
    ensures n > 0 ==> (5 * q + r + n - 1) / 5 < |m|
    ensures Light(m, 5 * q + r, n) == n * I32(m[q])
  {
    if n > 0 {
      FifthOf(q, r + n - 1);
      LightInSample(m, q, r, n - 1);
    }
  }

  lemma {:induction false} LightAdds(m: seq<Sample>, f: nat, a: nat, b: nat)
    requires b > 0 && (f + a + b - 1) / 5 < |m|
    ensures a > 0 ==> (f + a - 1) / 5 < |m|
    ensures Light(m, f, a + b) == Light(m, f, a) + Light(m, f + a, b)
  {
    FifthsGrow(f + a + b - 1);
    if b > 1 {
      LightAdds(m, f, a, b - 1);
    }
  }

  /** The light of both halves of a bit that starts `r` fifths into sample `q`, sample by sample. */
  lemma Halves(m: seq<Sample>, q: nat, r: nat)
    requires r < 5 && q + (if r == 4 then 4 else 3) <= |m|
    ensures (5 * q + r + 5) / 5 < |m| && (5 * q + r + 11) / 5 < |m|
    ensures Light(m, 5 * q + r, 6) == (5 - r) * I32(m[q]) + (r + 1) * I32(m[q + 1])
    ensures Light(m, 5 * q + r + 6, 6)
         == if r == 4 then 5 * I32(m[q + 2]) + I32(m[q + 3])
            else (4 - r) * I32(m[q + 1]) + (2 + r) * I32(m[q + 2])
  {
    hide Light, I32;
    FifthOf(q, r + 5);
    FifthOf(q, r + 11);
    LightAdds(m, 5 * q + r, 5 - r, r + 1);
    LightInSample(m, q, r, 5 - r);
    LightInSample(m, q + 1, 0, r + 1);
    var next := if r == 4 then q + 2 else q + 1;
    var in1 := if r == 4 then 5 else 4 - r;
    LightAdds(m, 5 * q + r + 6, in1, 6 - in1);
    LightInSample(m, next, 5 - in1, in1);
    LightInSample(m, next + 1, 0, 6 - in1);
  }

  /** A bit is read as one exactly when the six fifths of its first half hold more light than those of its second. */
  lemma BitIsBrighterHalf(m: seq<Sample>, f: nat)
    requires ReadEnd(f) <= |m|
    ensures (f + 5) / 5 < |m| && (f + 11) / 5 < |m|
    ensures BitAt(m, f) <==> Light(m, f, 6) > Light(m, f + 6, 6)
  {
    hide Light, I32;
    var q, r := f / 5, f % 5;
    assert f == 5 * q + r;
    Halves(m, q, r);
  }

  /** Where the slicer starts, in fifths: phases 5 to 8 are phases 0 to 3 of the next sample. */
  function StartFifth(pptrBase: nat, tryPhase: nat): nat {
    5 * pptrBase + tryPhase
  }

  /** Every sample that `n` bits from fifth `start` need is in the buffer. */
  predicate Covers(mag: seq<Sample>, start: nat, n: nat) {
    n > 0 ==> ReadEnd(start + 12 * (n - 1)) <= |mag|
  }

  lemma CoversEach(mag: seq<Sample>, start: nat, n: nat, k: nat)
    requires Covers(mag, start, n) && k < n
    ensures ReadEnd(start + 12 * k) <= |mag|
  {
    var f, g := start + 12 * k, start + 12 * (n - 1);
    assert f <= g;
  }

  /** The first `n` bits that the rule reads. */
  function RuleBits(mag: seq<Sample>, start: nat, n: nat): (b: Bits)
    requires Covers(mag, start, n)
    ensures |b| == n
  {
    seq(n, k requires 0 <= k < n => CoversEach(mag, start, n, k); BitAt(mag, start + 12 * k))
  }

  // --- The code ------------------------------------------------------------------------

  function MaskIf(b: bool, mask: byte): byte {
    if b then mask else 0
  }

  lemma FourBits(b: Bits)
    requires |b| == 4
    ensures Value(b) == MaskIf(b[0], 8) + MaskIf(b[1], 4) + MaskIf(b[2], 2) + MaskIf(b[3], 1)
  {
    var c := b[..3];
    var d := c[..2];
    var e := d[..1];
    assert e[..0] == [];
    assert Value(e) == MaskIf(b[0], 1);
    assert Value(d) == 2 * Value(e) + MaskIf(b[1], 1);
    assert Value(c) == 2 * Value(d) + MaskIf(b[2], 1);
  }

  lemma EightBits(b: Bits)
    requires |b| == 8
    ensures Value(b) == 16 * Value(b[..4]) + Value(b[4..])
    ensures b == [b[0], b[1], b[2], b[3], b[4], b[5], b[6], b[7]]
  {
    assert b == b[..4] + b[4..];
    ValueConcat(b[..4], b[4..]);
    Pow2Values();
  }

  /** The OR of the eight disjoint masks is the byte with those bits. */
  method OrMasks(b: Bits) returns (v: byte)
    requires |b| == 8
    ensures ByteBits(v) == b
  {
    hide Value, BitsOf;
    EightBits(b);
    FourBits(b[..4]);
    FourBits(b[4..]);
    BitsOfValue(b);
    v := MaskIf(b[0], 0x80) + MaskIf(b[1], 0x40) + MaskIf(b[2], 0x20) + MaskIf(b[3], 0x10)
       + MaskIf(b[4], 0x08) + MaskIf(b[5], 0x04) + MaskIf(b[6], 0x02) + MaskIf(b[7], 0x01);
  }

  /** One entry of the switch: correlator `q` at offset `off` reads bit `k` of the byte. */
  lemma SwitchEntry(m: seq<Sample>, p: nat, phase: nat, k: nat, off: nat, q: nat)
    requires k < 8 && Covers(m, 5 * p + phase, 8)
    requires q < 5 && phase + 12 * k == 5 * off + q
    ensures p + off + (if q == 4 then 4 else 3) <= |m|
    ensures RuleBits(m, 5 * p + phase, 8)[k] == Decide(q, m, p + off)
  {
    hide Decide;
    CoversEach(m, 5 * p + phase, 8, k);
    var f := 5 * p + phase + 12 * k;
    assert f == 5 * (p + off) + q;
    assert f / 5 == p + off && f % 5 == q;
  }

  method SlicePhaseByte0(m: seq<Sample>, p: nat) returns (bits: Bits)
    requires Covers(m, 5 * p + 0, 8)
    ensures bits == RuleBits(m, 5 * p + 0, 8)
  {
    hide SlicePhase0, SlicePhase1, SlicePhase2, SlicePhase3, SlicePhase4, RuleBits, Value;
    EightBits(RuleBits(m, 5 * p + 0, 8));
    SwitchEntry(m, p, 0, 0, 0, 0);
    SwitchEntry(m, p, 0, 1, 2, 2);
    SwitchEntry(m, p, 0, 2, 4, 4);
    SwitchEntry(m, p, 0, 3, 7, 1);
    SwitchEntry(m, p, 0, 4, 9, 3);
    SwitchEntry(m, p, 0, 5, 12, 0);
    SwitchEntry(m, p, 0, 6, 14, 2);
    SwitchEntry(m, p, 0, 7, 16, 4);
    bits := [SlicePhase0(m, p) > 0, SlicePhase2(m, p + 2) > 0, SlicePhase4(m, p + 4) > 0, SlicePhase1(m, p + 7) > 0,
             SlicePhase3(m, p + 9) > 0, SlicePhase0(m, p + 12) > 0, SlicePhase2(m, p + 14) > 0, SlicePhase4(m, p + 16) > 0];
  }

  method SlicePhaseByte1(m: seq<Sample>, p: nat) returns (bits: Bits)
    requires Covers(m, 5 * p + 1, 8)
    ensures bits == RuleBits(m, 5 * p + 1, 8)
  {
    hide SlicePhase0, SlicePhase1, SlicePhase2, SlicePhase3, SlicePhase4, RuleBits, Value;
    EightBits(RuleBits(m, 5 * p + 1, 8));
    SwitchEntry(m, p, 1, 0, 0, 1);
    SwitchEntry(m, p, 1, 1, 2, 3);
    SwitchEntry(m, p, 1, 2, 5, 0);
    SwitchEntry(m, p, 1, 3, 7, 2);
    SwitchEntry(m, p, 1, 4, 9, 4);
    SwitchEntry(m, p, 1, 5, 12, 1);
    SwitchEntry(m, p, 1, 6, 14, 3);
    SwitchEntry(m, p, 1, 7, 17, 0);
    bits := [SlicePhase1(m, p) > 0, SlicePhase3(m, p + 2) > 0, SlicePhase0(m, p + 5) > 0, SlicePhase2(m, p + 7) > 0,
             SlicePhase4(m, p + 9) > 0, SlicePhase1(m, p + 12) > 0, SlicePhase3(m, p + 14) > 0, SlicePhase0(m, p + 17) > 0];
  }

  method SlicePhaseByte2(m: seq<Sample>, p: nat) returns (bits: Bits)
    requires Covers(m, 5 * p + 2, 8)
    ensures bits == RuleBits(m, 5 * p + 2, 8)
  {
    hide SlicePhase0, SlicePhase1, SlicePhase2, SlicePhase3, SlicePhase4, RuleBits, Value;
    EightBits(RuleBits(m, 5 * p + 2, 8));
    SwitchEntry(m, p, 2, 0, 0, 2);
    SwitchEntry(m, p, 2, 1, 2, 4);
    SwitchEntry(m, p, 2, 2, 5, 1);
    SwitchEntry(m, p, 2, 3, 7, 3);
    SwitchEntry(m, p, 2, 4, 10, 0);
    SwitchEntry(m, p, 2, 5, 12, 2);
    SwitchEntry(m, p, 2, 6, 14, 4);
    SwitchEntry(m, p, 2, 7, 17, 1);
    bits := [SlicePhase2(m, p) > 0, SlicePhase4(m, p + 2) > 0, SlicePhase1(m, p + 5) > 0, SlicePhase3(m, p + 7) > 0,
             SlicePhase0(m, p + 10) > 0, SlicePhase2(m, p + 12) > 0, SlicePhase4(m, p + 14) > 0, SlicePhase1(m, p + 17) > 0];
  }

  method SlicePhaseByte3(m: seq<Sample>, p: nat) returns (bits: Bits)
    requires Covers(m, 5 * p + 3, 8)
    ensures bits == RuleBits(m, 5 * p + 3, 8)
  {
    hide SlicePhase0, SlicePhase1, SlicePhase2, SlicePhase3, SlicePhase4, RuleBits, Value;
    EightBits(RuleBits(m, 5 * p + 3, 8));
    SwitchEntry(m, p, 3, 0, 0, 3);
    SwitchEntry(m, p, 3, 1, 3, 0);
    SwitchEntry(m, p, 3, 2, 5, 2);
    SwitchEntry(m, p, 3, 3, 7, 4);
    SwitchEntry(m, p, 3, 4, 10, 1);
    SwitchEntry(m, p, 3, 5, 12, 3);
    SwitchEntry(m, p, 3, 6, 15, 0);
    SwitchEntry(m, p, 3, 7, 17, 2);
    bits := [SlicePhase3(m, p) > 0, SlicePhase0(m, p + 3) > 0, SlicePhase2(m, p + 5) > 0, SlicePhase4(m, p + 7) > 0,
             SlicePhase1(m, p + 10) > 0, SlicePhase3(m, p + 12) > 0, SlicePhase0(m, p + 15) > 0, SlicePhase2(m, p + 17) > 0];
  }

  method SlicePhaseByte4(m: seq<Sample>, p: nat) returns (bits: Bits)
    requires Covers(m, 5 * p + 4, 8)
    ensures bits == RuleBits(m, 5 * p + 4, 8)
  {
    hide SlicePhase0, SlicePhase1, SlicePhase2, SlicePhase3, SlicePhase4, RuleBits, Value;
    EightBits(RuleBits(m, 5 * p + 4, 8));
    SwitchEntry(m, p, 4, 0, 0, 4);
    SwitchEntry(m, p, 4, 1, 3, 1);
    SwitchEntry(m, p, 4, 2, 5, 3);
    SwitchEntry(m, p, 4, 3, 8, 0);
    SwitchEntry(m, p, 4, 4, 10, 2);
    SwitchEntry(m, p, 4, 5, 12, 4);
    SwitchEntry(m, p, 4, 6, 15, 1);
    SwitchEntry(m, p, 4, 7, 17, 3);
    bits := [SlicePhase4(m, p) > 0, SlicePhase1(m, p + 3) > 0, SlicePhase3(m, p + 5) > 0, SlicePhase0(m, p + 8) > 0,
             SlicePhase2(m, p + 10) > 0, SlicePhase4(m, p + 12) > 0, SlicePhase1(m, p + 15) > 0, SlicePhase3(m, p + 17) > 0];
  }

  /** One byte of the switch: five cases of eight correlators at fixed offsets. */
  method SliceByte(m: seq<Sample>, p: nat, phase: nat) returns (b: byte)
    requires phase < 5 && Covers(m, 5 * p + phase, 8)
    ensures ByteBits(b) == RuleBits(m, 5 * p + phase, 8)
  {
    var bits: Bits;
    match phase {
      case 0 => bits := SlicePhaseByte0(m, p);
      case 1 => bits := SlicePhaseByte1(m, p);
      case 2 => bits := SlicePhaseByte2(m, p);
      case 3 => bits := SlicePhaseByte3(m, p);
      case _ => bits := SlicePhaseByte4(m, p);
    }
    b := OrMasks(bits);
  }

  lemma RuleBitsSplit(m: seq<Sample>, start: nat, n: nat)
    requires Covers(m, start, 8 * (n + 1))
    ensures Covers(m, start, 8 * n) && Covers(m, start + 96 * n, 8)
    ensures RuleBits(m, start, 8 * (n + 1)) == RuleBits(m, start, 8 * n) + RuleBits(m, start + 96 * n, 8)
  {
    hide Decide;
    if n > 0 {
      CoversEach(m, start, 8 * (n + 1), 8 * n - 1);
    }
  }

  lemma SliceStep(m: seq<Sample>, start: nat, n: nat, before: seq<byte>, b: byte)
    requires Covers(m, start, 8 * (n + 1)) && |before| == n
    requires FrameBits(before) == RuleBits(m, start, 8 * n)
    requires Covers(m, start + 96 * n, 8) && ByteBits(b) == RuleBits(m, start + 96 * n, 8)
    ensures FrameBits(before + [b]) == RuleBits(m, start, 8 * (n + 1))
  {
    RuleBitsSplit(m, start, n);
    FrameBitsConcat(before, [b]);
    FrameBitsOne(b);
  }

  /** A byte lasts 96 fifths: 19 samples and a fifth, or 20 samples less four. */
  lemma PhaseCycle(p: nat, phase: nat)
    requires phase < 5
    ensures 5 * (p + if phase == 4 then 20 else 19) + (phase + 1) % 5 == 5 * p + phase + 96
  {
  }

  /**
   Slices `nBytes` bytes. The sample pointer advances by 19, and by 20 after phase 4, so
   that a byte later the slicer stands exactly 96 fifths farther on.
   */
  method SliceMessage(mag: seq<Sample>, pptrBase: nat, tryPhase: nat, nBytes: nat) returns (msg: seq<byte>)
    requires nBytes <= MAX_FRAME_BYTES
    requires Covers(mag, StartFifth(pptrBase, tryPhase), 8 * nBytes)
    ensures |msg| == MAX_FRAME_BYTES
    ensures FrameBits(msg[..nBytes]) == RuleBits(mag, StartFifth(pptrBase, tryPhase), 8 * nBytes)
    ensures forall k :: nBytes <= k < MAX_FRAME_BYTES ==> msg[k] == 0
  {
    ghost var start := StartFifth(pptrBase, tryPhase);
    msg := seq(MAX_FRAME_BYTES, _ => 0);
    assert FrameBits(msg[..0]) == RuleBits(mag, start, 0);
    assert Covers(mag, start, 0);
    hide RuleBits, Covers, FrameBits, ByteBits;
    var pptr: nat := pptrBase + tryPhase / 5;
    var phase: nat := tryPhase % 5;
    for byteIdx := 0 to nBytes
      invariant |msg| == MAX_FRAME_BYTES
      invariant phase < 5 && 5 * pptr + phase == start + 96 * byteIdx
      invariant Covers(mag, start, 8 * byteIdx)
      invariant FrameBits(msg[..byteIdx]) == RuleBits(mag, start, 8 * byteIdx)
      invariant forall k :: byteIdx <= k < MAX_FRAME_BYTES ==> msg[k] == 0
    {
      CoversPrefix(mag, start, 8 * nBytes, 8 * (byteIdx + 1));
      RuleBitsSplit(mag, start, byteIdx);
      var byte := SliceByte(mag, pptr, phase);
      SliceStep(mag, start, byteIdx, msg[..byteIdx], byte);
      ghost var before := msg[..byteIdx];
      msg := msg[byteIdx := byte];
      assert msg[..byteIdx + 1] == before + [byte];
      PhaseCycle(pptr, phase);
      if phase == 4 {
        pptr := pptr + 20;
      } else {
        pptr := pptr + 19;
      }
      phase := (phase + 1) % 5;
    }
  }

  lemma CoversPrefix(m: seq<Sample>, start: nat, n: nat, k: nat)
    requires Covers(m, start, n) && k <= n
    ensures Covers(m, start, k)
  {
    if k > 0 {
      CoversEach(m, start, n, k - 1);
    }
  }

  // --- The two guards keep every read in range -------------------------------------------

  lemma ShortGuardCovers(mag: seq<Sample>, pptrBase: nat, tryPhase: nat)
    requires tryPhase <= 8 && pptrBase + tryPhase / 5 + SHORT_FRAME_BYTES * 19 + 4 <= |mag|
    ensures Covers(mag, StartFifth(pptrBase, tryPhase), 8 * SHORT_FRAME_BYTES)
    ensures Covers(mag, StartFifth(pptrBase, tryPhase), 8)
  {
  }

  lemma LongGuardCovers(mag: seq<Sample>, pptrBase: nat, tryPhase: nat)
    requires tryPhase <= 8 && pptrBase + tryPhase / 5 + LONG_FRAME_BYTES * 20 + 4 <= |mag|
    ensures Covers(mag, StartFifth(pptrBase, tryPhase), 8 * LONG_FRAME_BYTES)
  {
  }

  // --- Ideal waveforms ---------------------------------------------------------------------

  /** Whether a pulse is on during each fifth of a sample. */
  type Waveform = nat -> bool

  /** A one has its pulse in the first half of the bit, a zero in the second. */
  predicate PulseOfBit(pulse: Waveform, f: nat, bit: bool) {
    && pulse(f) == bit && pulse(f + 1) == bit && pulse(f + 2) == bit
    && pulse(f + 3) == bit && pulse(f + 4) == bit && pulse(f + 5) == bit
    && pulse(f + 6) != bit && pulse(f + 7) != bit && pulse(f + 8) != bit
    && pulse(f + 9) != bit && pulse(f + 10) != bit && pulse(f + 11) != bit
  }

  /** Pulse-position modulation of `bits` from fifth `start` on; anything goes before and after. */
  predicate Transmits(pulse: Waveform, start: nat, bits: Bits) {
    forall n: nat | n < |bits| :: PulseOfBit(pulse, start + 12 * n, bits[n])
  }

  /** The share of the pulse height `h` that fifth `f` adds to its sample, times five. */
  function On(pulse: Waveform, f: nat, h: real): real {
    if pulse(f) then h else 0.0
  }

  /** Five times what the pulses put into sample `k`. */
  function Energy(pulse: Waveform, k: nat, h: real): real {
    On(pulse, 5 * k, h) + On(pulse, 5 * k + 1, h) + On(pulse, 5 * k + 2, h)
    + On(pulse, 5 * k + 3, h) + On(pulse, 5 * k + 4, h)
  }

  /** Five times the noise in a sample that reads `x`. */
  function Noise(x: Sample, pulse: Waveform, k: nat, floor: real, h: real): real {
    5.0 * (I32(x) as real) - 5.0 * floor - Energy(pulse, k, h)
  }

  /** Samples `lo` to `hi`: each is the floor, the pulse energy in it, and noise strictly below one fifth of `h`. */
  predicate Receives(mag: seq<Sample>, lo: nat, hi: nat, pulse: Waveform, floor: real, h: real) {
    hi <= |mag| && forall k: nat | lo <= k < hi :: 0.0 - h < Noise(mag[k], pulse, k, floor, h) < h
  }

  /** Only the samples that `n` bits from fifth `start` read count. */
  predicate ReceivesBits(mag: seq<Sample>, start: nat, n: nat, pulse: Waveform, floor: real, h: real) {
    n > 0 ==> Receives(mag, start / 5, ReadEnd(start + 12 * (n - 1)), pulse, floor, h)
  }

  lemma ReceivesEach(mag: seq<Sample>, start: nat, n: nat, k: nat, pulse: Waveform, floor: real, h: real)
    requires ReceivesBits(mag, start, n, pulse, floor, h) && k < n
    ensures Receives(mag, (start + 12 * k) / 5, ReadEnd(start + 12 * k), pulse, floor, h)
  {
    var f, g := start + 12 * k, start + 12 * (n - 1);
    assert start <= f <= g;
    assert start / 5 <= f / 5 && ReadEnd(f) <= ReadEnd(g);
  }

  lemma ReceivesPrefix(mag: seq<Sample>, start: nat, n: nat, k: nat, pulse: Waveform, floor: real, h: real)
    requires ReceivesBits(mag, start, n, pulse, floor, h) && k <= n
    ensures ReceivesBits(mag, start, k, pulse, floor, h)
  {
    if k > 0 {
      var f, g := start + 12 * (k - 1), start + 12 * (n - 1);
      assert f <= g;
      assert ReadEnd(f) <= ReadEnd(g);
    }
  }

  /** What a bit puts into its twelve fifths, `one` being the energy of the first half. */
  lemma BitEnergy(pulse: Waveform, f: nat, bit: bool, h: real) returns (one: real)
    requires PulseOfBit(pulse, f, bit)
    ensures one == if bit then h else 0.0
    ensures On(pulse, f, h) == one && On(pulse, f + 1, h) == one && On(pulse, f + 2, h) == one
    ensures On(pulse, f + 3, h) == one && On(pulse, f + 4, h) == one && On(pulse, f + 5, h) == one
    ensures On(pulse, f + 6, h) == h - one && On(pulse, f + 7, h) == h - one && On(pulse, f + 8, h) == h - one
    ensures On(pulse, f + 9, h) == h - one && On(pulse, f + 10, h) == h - one && On(pulse, f + 11, h) == h - one
  {
    one := if bit then h else 0.0;
  }

  lemma OnBounds(pulse: Waveform, f: nat, h: real)
    requires h > 0.0
    ensures 0.0 <= On(pulse, f, h) <= h
  {
  }

  lemma RuleReadsPhase0(m: seq<Sample>, p: nat, bit: bool, pulse: Waveform, floor: real, h: real)
    requires Receives(m, p, p + 3, pulse, floor, h) && h > 0.0 && PulseOfBit(pulse, 5 * p, bit)
    ensures (SlicePhase0(m, p) > 0) == bit
  {
    hide Receives, PulseOfBit, On, I32;
    var one := BitEnergy(pulse, 5 * p, bit, h);
    NoiseAt(m, p, p + 3, p, pulse, floor, h);
    NoiseAt(m, p, p + 3, p + 1, pulse, floor, h);
    NoiseAt(m, p, p + 3, p + 2, pulse, floor, h);
    OnBounds(pulse, 5 * p + 12, h);
    OnBounds(pulse, 5 * p + 13, h);
    OnBounds(pulse, 5 * p + 14, h);
  }

  lemma RuleReadsPhase1(m: seq<Sample>, p: nat, bit: bool, pulse: Waveform, floor: real, h: real)
    requires Receives(m, p, p + 3, pulse, floor, h) && h > 0.0 && PulseOfBit(pulse, 5 * p + 1, bit)
    ensures (SlicePhase1(m, p) > 0) == bit
  {
    hide Receives, PulseOfBit, On, I32;
    var one := BitEnergy(pulse, 5 * p + 1, bit, h);
    NoiseAt(m, p, p + 3, p, pulse, floor, h);
    NoiseAt(m, p, p + 3, p + 1, pulse, floor, h);
    NoiseAt(m, p, p + 3, p + 2, pulse, floor, h);
    OnBounds(pulse, 5 * p, h);
    OnBounds(pulse, 5 * p + 13, h);
    OnBounds(pulse, 5 * p + 14, h);
  }

  lemma RuleReadsPhase2(m: seq<Sample>, p: nat, bit: bool, pulse: Waveform, floor: real, h: real)
    requires Receives(m, p, p + 3, pulse, floor, h) && h > 0.0 && PulseOfBit(pulse, 5 * p + 2, bit)
    ensures (SlicePhase2(m, p) > 0) == bit
  {
    hide Receives, PulseOfBit, On, I32;
    var one := BitEnergy(pulse, 5 * p + 2, bit, h);
    NoiseAt(m, p, p + 3, p, pulse, floor, h);
    NoiseAt(m, p, p + 3, p + 1, pulse, floor, h);
    NoiseAt(m, p, p + 3, p + 2, pulse, floor, h);
    OnBounds(pulse, 5 * p, h);
    OnBounds(pulse, 5 * p + 1, h);
    OnBounds(pulse, 5 * p + 14, h);
  }

  lemma RuleReadsPhase3(m: seq<Sample>, p: nat, bit: bool, pulse: Waveform, floor: real, h: real)
    requires Receives(m, p, p + 3, pulse, floor, h) && h > 0.0 && PulseOfBit(pulse, 5 * p + 3, bit)
    ensures (SlicePhase3(m, p) > 0) == bit
  {
    hide Receives, PulseOfBit, On, I32;
    var one := BitEnergy(pulse, 5 * p + 3, bit, h);
    NoiseAt(m, p, p + 3, p, pulse, floor, h);
    NoiseAt(m, p, p + 3, p + 1, pulse, floor, h);
    NoiseAt(m, p, p + 3, p + 2, pulse, floor, h);
    OnBounds(pulse, 5 * p, h);
    OnBounds(pulse, 5 * p + 1, h);
    OnBounds(pulse, 5 * p + 2, h);
  }

  lemma RuleReadsPhase4(m: seq<Sample>, p: nat, bit: bool, pulse: Waveform, floor: real, h: real)
    requires Receives(m, p, p + 4, pulse, floor, h) && h > 0.0 && PulseOfBit(pulse, 5 * p + 4, bit)
    ensures (SlicePhase4(m, p) > 0) == bit
  {
    hide Receives, PulseOfBit, On, I32;
    var one := BitEnergy(pulse, 5 * p + 4, bit, h);
    NoiseAt(m, p, p + 4, p, pulse, floor, h);
    NoiseAt(m, p, p + 4, p + 1, pulse, floor, h);
    NoiseAt(m, p, p + 4, p + 2, pulse, floor, h);
    NoiseAt(m, p, p + 4, p + 3, pulse, floor, h);
    OnBounds(pulse, 5 * p, h);
    OnBounds(pulse, 5 * p + 1, h);
    OnBounds(pulse, 5 * p + 2, h);
    OnBounds(pulse, 5 * p + 3, h);
    OnBounds(pulse, 5 * p + 16, h);
    OnBounds(pulse, 5 * p + 17, h);
    OnBounds(pulse, 5 * p + 18, h);
    OnBounds(pulse, 5 * p + 19, h);
  }

  lemma NoiseAt(m: seq<Sample>, lo: nat, hi: nat, k: nat, pulse: Waveform, floor: real, h: real)
    requires Receives(m, lo, hi, pulse, floor, h) && lo <= k < hi
    ensures var f := 5 * k;
            var e := 5.0 * (I32(m[k]) as real) - 5.0 * floor - (On(pulse, f, h) + On(pulse, f + 1, h)
            + On(pulse, f + 2, h) + On(pulse, f + 3, h) + On(pulse, f + 4, h));
            0.0 - h < e < h
  {
  }

  /** Noise of exactly one fifth of the pulse height is already too much: here a one reads as zero. */
  lemma NoiseBoundIsTight() returns (mag: seq<Sample>, pulse: Waveform, floor: real, h: real)
    ensures h > 0.0 && ReadEnd(1) <= |mag| && PulseOfBit(pulse, 1, true)
    ensures forall k: nat | k < |mag| :: 0.0 - h <= Noise(mag[k], pulse, k, floor, h) <= h
    ensures !BitAt(mag, 1)
  {
    mag, floor, h := [115, 115, 115], 100.0, 25.0;
    pulse := f => 1 <= f <= 6 || f >= 13;
    assert Noise(mag[0], pulse, 0, floor, h) == -25.0;
    assert Noise(mag[1], pulse, 1, floor, h) == 25.0;
    assert Noise(mag[2], pulse, 2, floor, h) == 25.0;
  }

  /** Every correlator decides the bit that was sent, whatever the neighbouring bits are. */
  lemma RuleReadsBit(m: seq<Sample>, f: nat, bit: bool, pulse: Waveform, floor: real, h: real)
    requires Receives(m, f / 5, ReadEnd(f), pulse, floor, h) && h > 0.0 && PulseOfBit(pulse, f, bit)
    ensures BitAt(m, f) == bit
  {
    hide Receives, PulseOfBit, SlicePhase0, SlicePhase1, SlicePhase2, SlicePhase3, SlicePhase4;
    var p := f / 5;
    match f % 5
    case 0 => RuleReadsPhase0(m, p, bit, pulse, floor, h);
    case 1 => RuleReadsPhase1(m, p, bit, pulse, floor, h);
    case 2 => RuleReadsPhase2(m, p, bit, pulse, floor, h);
    case 3 => RuleReadsPhase3(m, p, bit, pulse, floor, h);
    case _ => RuleReadsPhase4(m, p, bit, pulse, floor, h);
  }

  /** The rule reads exactly the bits of any pulse-position waveform that reaches the samples it reads. */
  lemma RuleReadsWaveform(mag: seq<Sample>, start: nat, bits: Bits, pulse: Waveform, floor: real, h: real)
    requires h > 0.0 && ReceivesBits(mag, start, |bits|, pulse, floor, h)
    requires Transmits(pulse, start, bits) && Covers(mag, start, |bits|)
    ensures RuleBits(mag, start, |bits|) == bits
  {
    hide Receives, BitAt, PulseOfBit;
    forall k: nat | k < |bits|
      ensures RuleBits(mag, start, |bits|)[k] == bits[k]
    {
      CoversEach(mag, start, |bits|, k);
      ReceivesEach(mag, start, |bits|, k, pulse, floor, h);
      RuleReadsBit(mag, start + 12 * k, bits[k], pulse, floor, h);
    }
  }

  /**
   On any pulse-position waveform with any constant floor and per-sample noise strictly below
   one fifth of the pulse height, what the slicer returns is the transmitted bytes.
   */
  lemma SlicedMessageIsTransmitted(mag: seq<Sample>, start: nat, sent: seq<byte>, msg: seq<byte>, pulse: Waveform,
                                   floor: real, h: real)
    requires h > 0.0 && ReceivesBits(mag, start, 8 * |sent|, pulse, floor, h)
    requires Transmits(pulse, start, FrameBits(sent)) && Covers(mag, start, 8 * |sent|)
    requires FrameBits(msg) == RuleBits(mag, start, 8 * |sent|)
    ensures msg == sent
  {
    hide ReceivesBits;
    RuleReadsWaveform(mag, start, FrameBits(sent), pulse, floor, h);
    FrameBitsInjective(msg, sent);
  }
}
