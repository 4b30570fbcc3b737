/**
 What the preamble score measures, without the code that sums it: which samples overlap a pulse,
 the plain sum at 2 MS/s, and at every rate how far pulses that stand out carry the score.
 */
module PreamblePulses {
  import opened Gf2
  import opened NoiseFloors
  import opened GenericSlicer

  /** A preamble is eight microseconds to the nearest sample, and `n` bits are `n` microseconds rounded up. */
  lemma WindowSizes(rate: Rate, n: nat)
    ensures -500_000 < 1_000_000 * PreambleSamples(rate) - 8 * rate <= 500_000
    ensures 0 <= 1_000_000 * SamplesForBits(rate, n) - n * rate < 1_000_000
  {
  }

  /** Sample `s` and the half microsecond that starts `half` half-microseconds in have time in common. */
  predicate Meets(rate: Rate, half: nat, s: nat) {
    s * UNIT < (half + 1) * rate && half * rate < (s + 1) * UNIT
  }

  /** The test on rounded positions is the overlap of two intervals of time. */
  lemma InPulseIff(rate: Rate, half: nat, s: nat)
    ensures InPulse(rate, half, s) <==> Meets(rate, half, s)
  {
    var from, to := half * rate, (half + 1) * rate;
    MulMonotone(0, half, rate);
    assert to == from + rate;
    DivAtLeast(from, s + 1, UNIT);
    DivAtLeast(to - 1, s, UNIT);
  }

  /** The pulses are the half microseconds that start at 0, 1, 3.5 and 4.5 microseconds. */
  predicate OnPulse(rate: Rate, s: nat) {
    Meets(rate, 0, s) || Meets(rate, 2, s) || Meets(rate, 7, s) || Meets(rate, 9, s)
  }

  lemma HighIff(rate: Rate, s: nat)
    ensures IsHigh(rate, s) <==> OnPulse(rate, s)
  {
    hide InPulse, Meets;
    InPulseIff(rate, 0, s);
    InPulseIff(rate, 2, s);
    InPulseIff(rate, 7, s);
    InPulseIff(rate, 9, s);
  }

  /** Every pulse sample reaches `a` and no other exceeds `b`. */
  predicate Pulses(rate: Rate, window: seq<Sample>, a: nat, b: nat) {
    forall s: nat | s < |window| :: if OnPulse(rate, s) then window[s] >= a else window[s] <= b
  }

  /** Multiplication behind a name. */
  function Times(n: int, m: int): int {
    n * m
  }

  lemma TimesSucc(n: int, m: int)
    ensures Times(n + 1, m) == Times(n, m) + m && Times(0, m) == 0
  {
  }

  lemma {:induction false} PartSumBounds(rate: Rate, window: seq<Sample>, n: nat, a: nat, b: nat)
    requires n <= |window| && Pulses(rate, window, a, b)
    ensures var high, low := PartSum(rate, window, n, true), PartSum(rate, window, n, false);
            high.0 >= Times(high.1, a) && 0 <= low.0 <= Times(low.1, b) && high.1 >= 0 && low.1 >= 0
    ensures n > 0 ==> PartSum(rate, window, n, true).1 > 0
  {
    if n > 0 {
      hide OnPulse, IsHigh, Times;
      PartSumBounds(rate, window, n - 1, a, b);
      HighIff(rate, n - 1);
      var high, low := PartSum(rate, window, n - 1, true), PartSum(rate, window, n - 1, false);
      TimesSucc(high.1, a);
      TimesSucc(low.1, b);
      if n == 1 {
        FirstIsHigh(rate);
      }
    } else {
      TimesSucc(0, a);
    }
  }

  lemma FirstIsHigh(rate: Rate)
    ensures IsHigh(rate, 0)
  {
    HighIff(rate, 0);
  }

  lemma ScaledAtLeast(sum: nat, count: nat, a: nat, scale: nat)
    requires count > 0 && sum >= Times(count, a)
    ensures sum * scale / count >= a * scale
  {
    assert sum * scale >= count * a * scale by {
      MulMonotone(count * a, sum, scale);
    }
    assert count * a * scale == a * scale * count;
    DivAtLeast(sum * scale, a * scale, count);
  }

  lemma ScaledAtMost(sum: nat, count: nat, b: nat, scale: nat)
    requires count > 0 && sum <= Times(count, b)
    ensures sum * scale / count <= b * scale
  {
    MulMonotone(sum, count * b, scale);
    assert count * b * scale == b * scale * count;
    assert (b * scale + 1) * count == b * scale * count + count;
    DivAtLeast(sum * scale, b * scale + 1, count);
  }

  /** At every rate, pulses of at least `a` among samples of at most `b` score at least 4a - 12b. */
  lemma PulsesScoreAtLeast(rate: Rate, window: seq<Sample>, a: nat, b: nat)
    requires |window| > 0 && Pulses(rate, window, a, b)
    ensures PreambleScore(rate, window) >= 4 * a - 12 * b
  {
    hide PartSum, Pulses, Times;
    PartSumBounds(rate, window, |window|, a, b);
    var high, low := PartSum(rate, window, |window|, true), PartSum(rate, window, |window|, false);
    TimesAtLeastZero(high.1, a);
    ScaledAtLeast(high.0, high.1, a, 4);
    if low.1 > 0 {
      ScaledAtMost(low.0, low.1, b, 12);
    }
  }

  lemma TimesAtLeastZero(n: nat, m: nat)
    ensures Times(n, m) >= 0
  {
    MulMonotone(0, n, m);
  }

  /** So they clear a noise floor when 4a - 12b is more than sixteen times the floor. */
  lemma PulsesClear(rate: Rate, window: seq<Sample>, a: nat, b: nat, floor: Sample)
    requires |window| > 0 && Pulses(rate, window, a, b) && 4 * a - 12 * b > 16 * floor
    ensures ClearsThreshold(PreambleScore(rate, window), floor)
  {
    hide PreambleScore, Pulses;
    PulsesScoreAtLeast(rate, window, a, b);
  }

  /** Sum of the first `n` samples that are pulses, or that are not, at 2 MS/s. */
  function PulseSum(window: seq<int>, n: nat, high: bool): int
    requires n <= |window|
  {
    if n == 0 then 0
    else
      var k := n - 1;
      PulseSum(window, k, high) + if (k == 0 || k == 2 || k == 7 || k == 9) == high then window[k] else 0
  }

  lemma {:induction false} PartSumAtTwoMegasamples(rate: Rate, window: seq<Sample>, n: nat, high: bool)
    requires rate == 2_000_000 && n <= |window|
    ensures PartSum(rate, window, n, high).0 == PulseSum(window, n, high)
    ensures n <= 16 ==> PartSum(rate, window, n, high).1 == if high then CountUpTo(n) else n - CountUpTo(n)
  {
    if n > 0 {
      PartSumAtTwoMegasamples(rate, window, n - 1, high);
      PreambleAtTwoMegasamples(n - 1);
      hide IsHigh;
    }
  }

  /** Pulses among the first `n` samples at 2 MS/s. */
  function CountUpTo(n: nat): nat {
    if n == 0 then 0 else if n <= 2 then 1 else if n <= 7 then 2 else if n <= 9 then 3 else 4
  }

  /** At 2 MS/s the score is the sum of samples 0, 2, 7 and 9 less the sum of the other twelve. */
  lemma ScoreAtTwoMegasamples(rate: Rate, w: seq<Sample>)
    requires rate == 2_000_000 && |w| == 16
    ensures var m: seq<int> := w;
            var high := m[0] + m[2] + m[7] + m[9];
            var low := m[1] + m[3] + m[4] + m[5] + m[6] + m[8] + m[10] + m[11] + m[12] + m[13] + m[14] + m[15];
            PreambleScore(rate, w) == high - low
  {
    hide PartSum, PulseSum;
    PartSumAtTwoMegasamples(rate, w, 16, true);
    PartSumAtTwoMegasamples(rate, w, 16, false);
    PulseSumOfSixteen(w, true);
    PulseSumOfSixteen(w, false);
  }

  lemma PulseSumOfSixteen(m: seq<int>, high: bool)
    requires |m| == 16
    ensures PulseSum(m, 16, high)
         == if high then m[0] + m[2] + m[7] + m[9]
            else m[1] + m[3] + m[4] + m[5] + m[6] + m[8] + m[10] + m[11] + m[12] + m[13] + m[14] + m[15]
  {
    assert PulseSum(m, 1, high) == if high then m[0] else 0;
    assert PulseSum(m, 2, high) == PulseSum(m, 1, high) + if high then 0 else m[1];
    assert PulseSum(m, 3, high) == PulseSum(m, 2, high) + if high then m[2] else 0;
    assert PulseSum(m, 5, high) == PulseSum(m, 3, high) + if high then 0 else m[3] + m[4];
    assert PulseSum(m, 7, high) == PulseSum(m, 5, high) + if high then 0 else m[5] + m[6];
    assert PulseSum(m, 9, high) == PulseSum(m, 7, high) + if high then m[7] else m[8];
    assert PulseSum(m, 11, high) == PulseSum(m, 9, high) + if high then m[9] else m[10];
    assert PulseSum(m, 13, high) == PulseSum(m, 11, high) + if high then 0 else m[11] + m[12];
    assert PulseSum(m, 15, high) == PulseSum(m, 13, high) + if high then 0 else m[13] + m[14];
  }
}
