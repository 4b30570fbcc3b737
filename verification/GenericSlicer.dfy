/**
 The demodulator for integer and fractional sample rates: window sizes, the preamble score,
 and the bit slicer that integrates each half bit. Positions are kept exact, in units of one
 half-microsecond times one hertz, so that a sample is `UNIT` long and a half bit `rate` long.
 */
module GenericSlicer {
  import opened Gf2
  import opened BitValue
  import opened NoiseFloors

  /** Samples per second; the code asserts at least two samples per bit. */
  type Rate = r: int | r >= 2_000_000 witness 2_000_000

  const UNIT := 2_000_000
  const PREAMBLE_GAIN := 16

  // --- Sizes -----------------------------------------------------------------------------

  /** n microseconds at this rate, in samples, rounded up. */
  function SamplesForBits(rate: Rate, n: nat): nat {
    CeilDiv(n * rate, 1_000_000)
  }

  function CeilDiv(a: int, b: int): (c: nat)
    requires a >= 0 && b > 0
    ensures (c - 1) * b < a <= c * b
  {
    CeilDivBounds(a, b);
    (a + b - 1) / b
  }

  lemma CeilDivBounds(a: int, b: int)
    requires a >= 0 && b > 0
    ensures var c := (a + b - 1) / b; c >= 0 && (c - 1) * b < a <= c * b
  {
    var c := (a + b - 1) / b;
    assert a + b - 1 == c * b + (a + b - 1) % b;
    assert (c - 1) * b == c * b - b;
    DivAtLeast(a + b - 1, 0, b);
  }

  /** Eight microseconds, rounded to the nearest sample. */
  function PreambleSamples(rate: Rate): (p: nat)
    ensures p >= 16
  {
    (8 * rate + 500_000) / 1_000_000
  }

  lemma SamplesGrow(rate: Rate, m: nat, n: nat)
    requires m <= n
    ensures SamplesForBits(rate, m) <= SamplesForBits(rate, n)
  {
    var a, b := SamplesForBits(rate, m), SamplesForBits(rate, n);
    assert m * rate <= n * rate by {
      MulMonotone(m, n, rate);
    }
  }

  // --- Preamble --------------------------------------------------------------------------

  /** Sample `s` overlaps the pulse that starts `half` half-microseconds into the preamble. */
  predicate InPulse(rate: Rate, half: nat, s: nat) {
    half * rate / UNIT <= s <= ((half + 1) * rate - 1) / UNIT
  }

  /** Sample `s` overlaps one of the pulses at 0, 1, 3.5 and 4.5 microseconds. */
  predicate IsHigh(rate: Rate, s: nat) {
    InPulse(rate, 0, s) || InPulse(rate, 2, s) || InPulse(rate, 7, s) || InPulse(rate, 9, s)
  }

  /** Sum and count of the first `n` window samples that are pulses, or that are not. */
  function PartSum(rate: Rate, window: seq<Sample>, n: nat, high: bool): (int, int)
    requires n <= |window|
  {
    if n == 0 then (0, 0)
    else
      var (sum, count) := PartSum(rate, window, n - 1, high);
      if IsHigh(rate, n - 1) == high then (sum + window[n - 1], count + 1) else (sum, count)
  }

  function ScaledAverage(part: (int, int), scale: int): int {
    if part.1 == 0 then 0 else part.0 * scale / part.1
  }

  /** Four times the mean pulse sample less twelve times the mean quiet sample. */
  function PreambleScore(rate: Rate, window: seq<Sample>): int {
    ScaledAverage(PartSum(rate, window, |window|, true), 4) - ScaledAverage(PartSum(rate, window, |window|, false), 12)
  }

  predicate ClearsThreshold(score: int, floor: Sample) {
    score > floor * PREAMBLE_GAIN
  }

  // --- Bits ------------------------------------------------------------------------------

  function Max(a: int, b: int): int {
    if a >= b then a else b
  }

  function Min(a: int, b: int): int {
    if a <= b then a else b
  }

  /** How much of sample `i` lies in [from, to). */
  function Overlap(i: nat, from: int, to: int): int {
    Min((i + 1) * UNIT, to) - Max(i * UNIT, from)
  }

  /** The samples from `i` on, weighted by their overlap with [from, to), and the weights. */
  function Integral(samples: seq<Sample>, i: nat, from: int, to: int): (r: (int, int))
    ensures 0 <= r.1 && 0 <= r.0 <= 65535 * r.1
    decreases |samples| - i
  {
    if i >= |samples| || Overlap(i, from, to) <= 0 then (0, 0)
    else
      var rest := Integral(samples, i + 1, from, to);
      var w := Overlap(i, from, to);
      WeightedSample(w, samples[i]);
      (w * samples[i] + rest.0, w + rest.1)
  }

  lemma WeightedSample(w: nat, s: Sample)
    ensures 0 <= w * s <= 65535 * w
  {
  }

  /** The average rounded to the nearest integer, 0 over an empty window. */
  function RoundedAverage(total: int, weight: int): (avg: Sample)
    requires 0 <= total <= 65535 * weight
  {
    if weight <= 0 then 0
    else
      RoundedInRange(total, weight);
      (2 * total + weight) / (2 * weight)
  }

  lemma RoundedInRange(total: int, weight: int)
    requires weight > 0 && 0 <= total <= 65535 * weight
    ensures 0 <= (2 * total + weight) / (2 * weight) <= 65535
  {
    var a, b: nat := 2 * total + weight, 2 * weight;
    DivAtLeast(a, 65536, b);
    DivAtLeast(a, 0, b);
    assert 65536 * b == 131072 * weight;
  }

  /** It is the nearest integer, halves upwards. */
  lemma AverageIsNearest(total: int, weight: int)
    requires weight > 0 && 0 <= total <= 65535 * weight
    ensures var avg: int := RoundedAverage(total, weight);
            2 * total - weight < 2 * (avg * weight) <= 2 * total + weight
  {
    var a, b: nat := 2 * total + weight, 2 * weight;
    DivBounds(a, b);
    assert Quotient(a, b) == RoundedAverage(total, weight);
    assert Quotient(a, b) * b == 2 * (Quotient(a, b) * weight);
  }

  /** The mean magnitude over half bit `k` of the payload. */
  function HalfBit(rate: Rate, samples: seq<Sample>, k: nat): Sample {
    var from, to := k * rate, (k + 1) * rate;
    FirstSampleIsNat(k, rate);
    var r := Integral(samples, from / UNIT, from, to);
    RoundedAverage(r.0, r.1)
  }

  lemma FirstSampleIsNat(k: nat, rate: Rate)
    ensures k * rate / UNIT >= 0
  {
    MulMonotone(0, k, rate);
  }

  /**
   A bit and its confidence from its two half-bit magnitudes: the brighter half decides, and the
   confidence is the share of their difference in their sum, in steps of 1/255.
   */
  function SliceBit(s0: Sample, s1: Sample): (r: (bool, byte))
    ensures r.0 <==> s0 > s1
    ensures var gap := if s0 >= s1 then s0 - s1 else s1 - s0;
            s0 + s1 > 0 ==> r.1 * (s0 + s1) <= 255 * gap < (r.1 + 1) * (s0 + s1)
    ensures s0 == s1 ==> r.1 == 0
    ensures (s0 == 0) != (s1 == 0) ==> r.1 == 255
  {
    var sum := s0 + s1;
    if sum == 0 then (false, 0)
    else
      var (bit, diff) := if s0 >= s1 then (s0 > s1, s0 - s1) else (false, s1 - s0);
      ConfidenceFits(diff, sum);
      (bit, diff * 255 / sum)
  }

  lemma ConfidenceFits(diff: nat, sum: nat)
    requires diff <= sum && sum > 0
    ensures var c := diff * 255 / sum; 0 <= c <= 255 && c * sum <= 255 * diff < (c + 1) * sum
    ensures diff == sum ==> diff * 255 / sum == 255
    ensures diff == 0 ==> diff * 255 / sum == 0
  {
    DivBounds(diff * 255, sum);
    DivAtLeast(diff * 255, 256, sum);
    DivAtLeast(diff * 255, 255, sum);
    DivAtLeast(diff * 255, 0, sum);
    assert (Quotient(diff * 255, sum) + 1) * sum == Quotient(diff * 255, sum) * sum + sum;
  }

  function SlicedBit(rate: Rate, samples: seq<Sample>, n: nat): (bool, byte) {
    SliceBit(HalfBit(rate, samples, 2 * n), HalfBit(rate, samples, 2 * n + 1))
  }

  function SlicedBits(rate: Rate, samples: seq<Sample>, n: nat): (b: Bits)
    ensures |b| == n
  {
    seq(n, k requires k >= 0 => SlicedBit(rate, samples, k).0)
  }

  function Confidences(rate: Rate, samples: seq<Sample>, n: nat): (c: seq<byte>)
    ensures |c| == n
  {
    seq(n, k requires k >= 0 => SlicedBit(rate, samples, k).1)
  }

  /** The least confidence: one bad bit decides. 0 for no bits. */
  function Aggregate(c: seq<byte>): (m: byte)
    ensures forall k :: 0 <= k < |c| ==> m <= c[k]
    ensures |c| > 0 ==> m in c
  {
    if |c| == 0 then 0
    else if |c| == 1 then c[0]
    else
      var rest := Aggregate(c[..|c| - 1]);
      if rest <= c[|c| - 1] then rest else c[|c| - 1]
  }

  // --- Locality ---------------------------------------------------------------------------

  /** Integration reads nothing beyond the end of its window. */
  lemma {:induction false} IntegralIsLocal(samples: seq<Sample>, m: nat, i: nat, from: int, to: int)
    requires m <= |samples| && to <= m * UNIT
    ensures Integral(samples[..m], i, from, to) == Integral(samples, i, from, to)
    decreases |samples| - i
  {
    if i < |samples| && Overlap(i, from, to) > 0 {
      IntegralIsLocal(samples, m, i + 1, from, to);
    }
  }

  /** The first bits of a longer slice are the bits of a shorter one. */
  lemma PrefixBitsAgree(rate: Rate, samples: seq<Sample>, n: nat, k: nat)
    requires k < n && SamplesForBits(rate, n) <= |samples|
    ensures SlicedBit(rate, samples[..SamplesForBits(rate, n)], k) == SlicedBit(rate, samples, k)
  {
    var m := SamplesForBits(rate, n);
    HalfBitIsLocal(rate, samples, m, n, 2 * k);
    HalfBitIsLocal(rate, samples, m, n, 2 * k + 1);
  }

  lemma HalfBitIsLocal(rate: Rate, samples: seq<Sample>, m: nat, n: nat, h: nat)
    requires h < 2 * n && m == SamplesForBits(rate, n) <= |samples|
    ensures HalfBit(rate, samples[..m], h) == HalfBit(rate, samples, h)
  {
    FirstSampleIsNat(h, rate);
    MulMonotone(h + 1, 2 * n, rate);
    assert 2 * n * rate == 2 * (n * rate);
    IntegralIsLocal(samples, m, h * rate / UNIT, h * rate, (h + 1) * rate);
  }

  // --- At 2 MS/s ---------------------------------------------------------------------------

  /** At two samples per bit a half bit is one sample, so slicing reads the two samples of the bit. */
  lemma SliceAtTwoMegasamples(samples: seq<Sample>, n: nat)
    requires 2 * n + 1 < |samples|
    ensures SlicedBit(2_000_000, samples, n) == SliceBit(samples[2 * n], samples[2 * n + 1])
  {
    HalfBitAtTwoMegasamples(samples, 2 * n);
    HalfBitAtTwoMegasamples(samples, 2 * n + 1);
  }

  lemma HalfBitAtTwoMegasamples(samples: seq<Sample>, k: nat)
    requires k < |samples|
    ensures HalfBit(2_000_000, samples, k) == samples[k]
  {
    var from, to := k * 2_000_000, (k + 1) * 2_000_000;
    assert from / UNIT == k;
    assert Integral(samples, k + 1, from, to) == (0, 0);
    assert Integral(samples, k, from, to) == (UNIT * samples[k], UNIT);
  }

  lemma SizesAtTwoMegasamples(rate: Rate, n: nat)
    requires rate == 2_000_000
    ensures PreambleSamples(rate) == 16 && SamplesForBits(rate, n) == 2 * n
  {
    assert n * rate == 2 * n * 1_000_000;
  }

  lemma PreambleAtTwoMegasamples(s: nat)
    ensures PreambleSamples(2_000_000) == 16
    ensures IsHigh(2_000_000, s) <==> s == 0 || s == 2 || s == 7 || s == 9
  {
  }

  // --- The code ------------------------------------------------------------------------------

  /** What sample `i` adds to the integral. */
  function Weighed(samples: seq<Sample>, i: nat, w: int): int
    requires i < |samples|
  {
    w * samples[i]
  }

  lemma IntegralStep(samples: seq<Sample>, i: nat, from: int, to: int)
    ensures i >= |samples| || Overlap(i, from, to) <= 0 ==> Integral(samples, i, from, to) == (0, 0)
    ensures i < |samples| && Overlap(i, from, to) > 0 ==>
              var rest, w := Integral(samples, i + 1, from, to), Overlap(i, from, to);
              Integral(samples, i, from, to) == (Weighed(samples, i, w) + rest.0, w + rest.1)
  {
  }

  /** Averages the samples between two positions, weighted by overlap. */
  method IntegratedMagnitude(samples: seq<Sample>, from: nat, to: nat) returns (avg: Sample)
    ensures var r := Integral(samples, from / UNIT, from, to); avg == RoundedAverage(r.0, r.1)
  {
    hide RoundedAverage, Integral, Weighed;
    var i := from / UNIT;
    ghost var whole := Integral(samples, i, from, to);
    var total: int, weightSum: int := 0, 0;
    while i < |samples|
      invariant 0 <= i
      invariant whole.0 == total + Integral(samples, i, from, to).0
      invariant whole.1 == weightSum + Integral(samples, i, from, to).1
      decreases |samples| - i
    {
      IntegralStep(samples, i, from, to);
      var left := Max(i * UNIT, from);
      var right := Min((i + 1) * UNIT, to);
      if right <= left {
        break;
      }
      var w := right - left;
      total := total + Weighed(samples, i, w);
      weightSum := weightSum + w;
      i := i + 1;
    }
    IntegralStep(samples, i, from, to);
    avg := RoundedAverage(total, weightSum);
  }

  /** Slices a run of bits with a confidence for each. */
  method SliceBitsCfg(rate: Rate, samples: seq<Sample>, bits: array<bool>, confidences: array<byte>)
    requires bits.Length == confidences.Length && SamplesForBits(rate, bits.Length) <= |samples|
    modifies bits, confidences
    ensures bits[..] == SlicedBits(rate, samples, bits.Length)
    ensures confidences[..] == Confidences(rate, samples, bits.Length)
  {
    hide Integral, RoundedAverage, SliceBit;
    for i := 0 to bits.Length
      invariant forall k :: 0 <= k < i ==> (bits[k], confidences[k]) == SlicedBit(rate, samples, k)
    {
      FirstSampleIsNat(2 * i, rate);
      FirstSampleIsNat(2 * i + 1, rate);
      MulMonotone(0, 2 * i, rate);
      MulMonotone(0, 2 * i + 1, rate);
      MulMonotone(0, 2 * i + 2, rate);
      var s0 := IntegratedMagnitude(samples, 2 * i * rate, (2 * i + 1) * rate);
      var s1 := IntegratedMagnitude(samples, (2 * i + 1) * rate, (2 * i + 1 + 1) * rate);
      bits[i], confidences[i] := SliceBit(s0, s1).0, SliceBit(s0, s1).1;
    }
  }

  lemma PackedSnoc(before: seq<byte>, bits: Bits, n: nat, acc: Bits)
    requires 8 * n + 8 <= |bits| && FrameBits(before) == bits[..8 * n] && acc == bits[8 * n..8 * n + 8]
    ensures FrameBits(before + [PackByte(acc)]) == bits[..8 * n + 8]
  {
    FrameBitsSnoc(before, PackByte(acc));
    ByteBitsPack(acc);
  }

  /** Bit 0 lands in the top bit of the first byte. */
  method PackBitsMsb(bits: array<bool>, bytes: array<byte>)
    requires bits.Length == 8 * bytes.Length
    modifies bytes
    ensures FrameBits(bytes[..]) == bits[..]
  {
    ghost var all := bits[..];
    assert FrameBits(bytes[..0]) == all[..0];
    hide FrameBits, ByteBits, PackByte;
    for n := 0 to bytes.Length
      invariant bits[..] == all && FrameBits(bytes[..n]) == all[..8 * n]
    {
      var acc: Bits := Zeros(8);
      for k := 0 to 8
        invariant |acc| == 8
        invariant forall i :: 0 <= i < k ==> acc[i] == all[8 * n + i]
        invariant forall i :: k <= i < 8 ==> !acc[i]
      {
        if bits[8 * n + k] {
          acc := acc[k := true];
        }
      }
      ghost var before := bytes[..n];
      PackedSnoc(before, all, n, acc);
      bytes[n] := PackByte(acc);
      assert bytes[..n + 1] == before + [bytes[n]];
    }
    assert bytes[..] == bytes[..bytes.Length] && all == all[..8 * bytes.Length];
  }

  method PreambleScoreCfg(rate: Rate, window: seq<Sample>) returns (score: int)
    ensures score == PreambleScore(rate, window)
  {
    var high: int, low: int, highCount: int, lowCount: int := 0, 0, 0, 0;
    for i := 0 to |window|
      invariant (high, highCount) == PartSum(rate, window, i, true)
      invariant (low, lowCount) == PartSum(rate, window, i, false)
    {
      if IsHigh(rate, i) {
        high, highCount := high + window[i], highCount + 1;
      } else {
        low, lowCount := low + window[i], lowCount + 1;
      }
    }
    var highAvg := if highCount == 0 then 0 else high * 4 / highCount;
    var lowAvg := if lowCount == 0 then 0 else low * 12 / lowCount;
    score := highAvg - lowAvg;
  }

  method AggregateConfidence(perBit: seq<byte>) returns (m: byte)
    ensures m == Aggregate(perBit)
  {
    if |perBit| == 0 {
      return 0;
    }
    m := perBit[0];
    for i := 1 to |perBit|
      invariant m == Aggregate(perBit[..i])
    {
      assert perBit[..i + 1][..i] == perBit[..i];
      if perBit[i] < m {
        m := perBit[i];
      }
    }
    assert perBit[..|perBit|] == perBit;
  }
}
