/**
 What the generic slicer makes of an ideal pulse-position waveform, at any sample rate. Positions are
 in the slicer's units: a sample is `UNIT` long and a half bit `rate` long, so that a sample sees at
 most two half bits.
 */
module IdealWaveform {
  import opened Gf2
  import opened BitValue
  import opened NoiseFloors
  import opened GenericSlicer

  /** Whether the pulse is on during each half bit, counted from the start of the message. */
  type Chips = int -> bool

  /** A one has its pulse in the first half of the bit, a zero in the second; anything goes around the message. */
  predicate Modulates(chips: Chips, bits: Bits) {
    forall k: nat | k < |bits| :: chips(2 * k) == bits[k] && chips(2 * k + 1) != bits[k]
  }

  /** The half bit in which sample `i` begins, if the message begins at `offset`. */
  function ChipAt(rate: Rate, i: nat, offset: int): int {
    (i * UNIT - offset) / rate
  }

  /** For how much of sample `i` the pulse is on. */
  function Light(rate: Rate, chips: Chips, i: nat, offset: int): int {
    var c := ChipAt(rate, i, offset);
    var left := Min(UNIT, (c + 1) * rate + offset - i * UNIT);
    (if chips(c) then left else 0) + if chips(c + 1) then UNIT - left else 0
  }

  /** How much of sample `i` lies in [from, to), and at least zero. */
  function Share(i: nat, from: int, to: int): nat {
    Max(0, Overlap(i, from, to))
  }

  /** Each sample is the floor, the pulse height `h` for as long as the pulse is on, and bounded noise. */
  predicate Receives(rate: Rate, samples: seq<Sample>, chips: Chips, offset: int, floor: real, h: real, noise: real) {
    forall i: nat | i < |samples| ::
      floor - noise <= samples[i] as real - h * (Light(rate, chips, i, offset) as real / 2000000.0) <= floor + noise
  }

  // --- One sample ---------------------------------------------------------------------------

  lemma ChipBounds(rate: Rate, i: nat, offset: int)
    ensures var c := ChipAt(rate, i, offset); c * rate <= i * UNIT - offset < (c + 1) * rate
  {
    var a := i * UNIT - offset;
    assert a == a / rate * rate + a % rate;
    assert (a / rate + 1) * rate == a / rate * rate + rate;
  }

  lemma NextChip(c: int, rate: int)
    ensures (c + 1) * rate == c * rate + rate && (c + 2) * rate == c * rate + 2 * rate
  {
  }

  lemma ChipOrder(k: int, c: int, rate: Rate)
    ensures k < c ==> (k + 1) * rate <= c * rate
    ensures k > c ==> (c + 1) * rate <= k * rate
  {
    if k < c {
      MulMonotone(k + 1, c, rate);
    } else if k > c {
      MulMonotone(c + 1, k, rate);
    }
  }

  /** A sample is lit for its share of any lit half bit, and dark for its share of any dark one. */
  lemma ChipShows(rate: Rate, chips: Chips, i: nat, offset: int, k: int)
    ensures var v := Share(i, k * rate + offset, (k + 1) * rate + offset);
            var light := Light(rate, chips, i, offset);
            v <= UNIT && (if chips(k) then v <= light else light <= UNIT - v)
  {
    var c := ChipAt(rate, i, offset);
    ChipBounds(rate, i, offset);
    NextChip(c, rate);
    NextChip(k, rate);
    ChipOrder(k, c, rate);
    ChipOrder(k, c + 1, rate);
    hide ChipAt;
  }

  // --- One half bit -------------------------------------------------------------------------

  /** The samples of [from, to), each weighted by its share of the same stretch moved by `offset`. */
  function Cross(n: nat, i: nat, from: int, to: int, offset: int): int
    decreases n - i
  {
    if i >= n || Overlap(i, from, to) <= 0 then 0
    else Overlap(i, from, to) * Share(i, from + offset, to + offset) + Cross(n, i + 1, from, to, offset)
  }

  /** How much of [x, to) the moved stretch leaves uncovered. */
  function Uncovered(x: int, from: int, to: int, offset: int): int {
    if offset >= 0 then Max(0, Min(from + offset, to) - x) else Min(0 - offset, to - x)
  }

  lemma SampleUncovered(i: nat, from: int, to: int, offset: int)
    requires Overlap(i, from, to) > 0
    ensures var x, y := Max(i * UNIT, from), Min((i + 1) * UNIT, to);
            var w, v := Overlap(i, from, to), Share(i, from + offset, to + offset);
            var lost := Uncovered(x, from, to, offset) - Uncovered(y, from, to, offset);
            w <= UNIT && w - v <= lost && 0 <= lost
  {
  }

  lemma Product(a: nat, b: int, c: nat, d: nat)
    requires a <= c && b <= d
    ensures a * b <= c * d
  {
    MulMonotone(b, d, a);
    MulMonotone(a, c, d);
  }

  lemma Split(w: int, a: int, b: int)
    ensures w * (a + b) == w * a + w * b
  {
  }

  lemma WeightedLoss(w: int, v: int, lost: int)
    requires 0 <= w <= UNIT && w - v <= lost && 0 <= lost
    ensures w * (UNIT - v) <= w * (UNIT - w) + UNIT * lost
  {
    Product(w, w - v, UNIT, lost);
    Split(w, UNIT - w, w - v);
  }

  /** A sample only partly in the stretch costs at most a quarter of a sample. */
  lemma EdgeLoss(w: int)
    ensures w * (UNIT - w) <= 1_000_000 * 1_000_000
  {
    assert (w - 1_000_000) * (w - 1_000_000) >= 0;
  }

  /** The most that a boundary at `at` costs: nothing where it falls between two samples. */
  function EdgeCost(at: int): nat {
    if at % UNIT == 0 then 0 else 1_000_000 * 1_000_000
  }

  lemma WithinSample(i: nat, w: int)
    requires 0 < w < UNIT
    ensures (i * UNIT + w) % UNIT != 0
  {
    DivModUnique(i, UNIT, w);
  }

  function Weight(samples: seq<Sample>, i: nat, from: int, to: int): int {
    Integral(samples, i, from, to).1
  }

  function Total(samples: seq<Sample>, i: nat, from: int, to: int): int {
    Integral(samples, i, from, to).0
  }

  lemma SumsStep(samples: seq<Sample>, i: nat, from: int, to: int, offset: int)
    ensures var w, v := Overlap(i, from, to), Share(i, from + offset, to + offset);
            var n := |samples|;
            if i < n && w > 0 then
              && Total(samples, i, from, to) == w * samples[i] + Total(samples, i + 1, from, to)
              && Weight(samples, i, from, to) == w + Weight(samples, i + 1, from, to)
              && Cross(n, i, from, to, offset) == w * v + Cross(n, i + 1, from, to, offset)
            else
              Total(samples, i, from, to) == 0 && Weight(samples, i, from, to) == 0 && Cross(n, i, from, to, offset) == 0
  {
    IntegralStep(samples, i, from, to);
    hide Integral;
  }

  /** What the samples from `i` on fall short of full weight in the moved stretch. */
  function Loss(samples: seq<Sample>, i: nat, from: int, to: int, offset: int): int {
    UNIT * Weight(samples, i, from, to) - Cross(|samples|, i, from, to, offset)
  }

  lemma LossEnds(samples: seq<Sample>, i: nat, from: int, to: int, offset: int)
    requires i >= |samples| || Overlap(i, from, to) <= 0
    ensures Weight(samples, i, from, to) == 0 && Loss(samples, i, from, to, offset) == 0
  {
  }

  lemma LossOfSum(w: int, v: int, lost: int, weight: int, cross: int)
    requires 0 <= w <= UNIT && w - v <= lost && 0 <= lost
    ensures UNIT * (w + weight) - (w * v + cross) <= w * (UNIT - w) + UNIT * lost + (UNIT * weight - cross)
  {
    WeightedLoss(w, v, lost);
    assert w * (UNIT - v) == UNIT * w - w * v;
  }

  lemma LossStep(samples: seq<Sample>, i: nat, from: int, to: int, offset: int)
    requires i < |samples| && Overlap(i, from, to) > 0
    ensures var w := Overlap(i, from, to);
            var x, y := Max(i * UNIT, from), Min((i + 1) * UNIT, to);
            && Weight(samples, i, from, to) == w + Weight(samples, i + 1, from, to)
            && Loss(samples, i, from, to, offset)
               <= w * (UNIT - w) + UNIT * (Uncovered(x, from, to, offset) - Uncovered(y, from, to, offset))
                  + Loss(samples, i + 1, from, to, offset)
  {
    hide Integral, Cross, Overlap, Share, Uncovered, Weight, Total, Max, Min;
    var w, v := Overlap(i, from, to), Share(i, from + offset, to + offset);
    var x, y := Max(i * UNIT, from), Min((i + 1) * UNIT, to);
    SampleUncovered(i, from, to, offset);
    SumsStep(samples, i, from, to, offset);
    LossOfSum(w, v, Uncovered(x, from, to, offset) - Uncovered(y, from, to, offset),
              Weight(samples, i + 1, from, to), Cross(|samples|, i + 1, from, to, offset));
  }

  /** From the first whole sample on, the weights add up and only the end and the offset cost anything. */
  lemma {:induction false} TailLoss(samples: seq<Sample>, i: nat, from: int, to: int, offset: int)
    requires from <= i * UNIT && from < to <= |samples| * UNIT
    ensures Weight(samples, i, from, to) == Max(0, to - i * UNIT)
    ensures Loss(samples, i, from, to, offset) <= UNIT * Uncovered(Min(i * UNIT, to), from, to, offset) + EdgeCost(to)
    decreases |samples| - i
  {
    hide Weight, Loss;
    if i * UNIT >= to {
      LossEnds(samples, i, from, to, offset);
    } else {
      var w := Overlap(i, from, to);
      LossStep(samples, i, from, to, offset);
      if w < UNIT {
        LossEnds(samples, i + 1, from, to, offset);
        EdgeLoss(w);
        WithinSample(i, w);
      } else {
        TailLoss(samples, i + 1, from, to, offset);
      }
    }
  }

  /** Over a whole stretch the two boundaries and the offset bound the loss. */
  lemma WholeLoss(samples: seq<Sample>, from: nat, to: int, offset: int)
    requires from + UNIT <= to <= |samples| * UNIT
    ensures Weight(samples, from / UNIT, from, to) == to - from
    ensures Loss(samples, from / UNIT, from, to, offset) <= UNIT * Abs(offset) + EdgeCost(from) + EdgeCost(to)
  {
    hide Weight, Loss;
    var i := from / UNIT;
    if from % UNIT == 0 {
      TailLoss(samples, i, from, to, offset);
    } else {
      TailLoss(samples, i + 1, from, to, offset);
      LossStep(samples, i, from, to, offset);
      EdgeLoss(Overlap(i, from, to));
    }
  }

  function Abs(x: int): nat {
    if x < 0 then 0 - x else x
  }

  // --- The integral of one half bit -----------------------------------------------------------

  /** `sign` times a total, scaled, is at least `base` for its weight plus `h` for what it shares with the moved stretch. */
  predicate AtLeast(total: int, weight: int, cross: int, sign: real, base: real, h: real) {
    sign * (2000000.0 * total as real) >= base * weight as real + h * cross as real
  }

  lemma ScaledSample(x: Sample, v: int, w: nat, sign: real, base: real, h: real)
    requires AtLeast(x, 1, v, sign, base, h)
    ensures AtLeast(w * x, w, w * v, sign, base, h)
  {
    var a, b, u := sign * (2000000.0 * x as real), base + h * v as real, w as real;
    assert u * a >= u * b;
    assert (w * x) as real == u * x as real && (w * v) as real == u * v as real;
    assert u * a == sign * (2000000.0 * (u * x as real));
    assert u * b == base * u + h * (u * v as real);
  }

  lemma SumOfBounds(sign: real, base: real, h: real, s: int, t: int, w: int, u: int, c: int, d: int)
    requires AtLeast(s, w, c, sign, base, h) && AtLeast(t, u, d, sign, base, h)
    ensures AtLeast(s + t, w + u, c + d, sign, base, h)
  {
    assert sign * (2000000.0 * (s + t) as real) == sign * (2000000.0 * s as real) + sign * (2000000.0 * t as real);
    assert base * (w + u) as real == base * w as real + base * u as real;
    assert h * (c + d) as real == h * c as real + h * d as real;
  }

  /** A bound on every sample of a stretch adds up to one on its integral. */
  lemma {:induction false} IntegralAtLeast(samples: seq<Sample>, i: nat, from: int, to: int, offset: int,
                                           sign: real, base: real, h: real)
    requires forall j: nat | i <= j < |samples| ::
               AtLeast(samples[j], 1, Share(j, from + offset, to + offset), sign, base, h)
    ensures AtLeast(Total(samples, i, from, to), Weight(samples, i, from, to), Cross(|samples|, i, from, to, offset),
                    sign, base, h)
    decreases |samples| - i
  {
    SumsStep(samples, i, from, to, offset);
    if i < |samples| && Overlap(i, from, to) > 0 {
      hide AtLeast, Total, Weight, Cross, Overlap, Share;
      var w, v := Overlap(i, from, to), Share(i, from + offset, to + offset);
      IntegralAtLeast(samples, i + 1, from, to, offset, sign, base, h);
      ScaledSample(samples[i], v, w, sign, base, h);
      SumOfBounds(sign, base, h, w * samples[i], Total(samples, i + 1, from, to), w, Weight(samples, i + 1, from, to),
                  w * v, Cross(|samples|, i + 1, from, to, offset));
    }
  }

  // --- A lit and a dark half bit ----------------------------------------------------------------

  /** How much of a half bit's pulse can end up in its neighbour: by rounding to samples, and by the offset. */
  function Smear(rate: Rate, offset: int): nat {
    Abs(offset) + if rate % UNIT == 0 then 0 else 1_000_000
  }

  lemma AlignedEdges(rate: Rate, k: nat)
    ensures EdgeCost(k * rate) + EdgeCost((k + 1) * rate) <= if rate % UNIT == 0 then 0 else 2_000_000 * 1_000_000
  {
    if rate % UNIT == 0 {
      var q := rate / UNIT;
      assert k * rate == (k * q) * UNIT && (k + 1) * rate == ((k + 1) * q) * UNIT;
      DivModUnique(k * q, UNIT, 0);
      DivModUnique((k + 1) * q, UNIT, 0);
    }
  }

  /** The samples of half bit `k` have its full weight, and share with the sent half bit all but the smear. */
  lemma HalfBitShares(rate: Rate, samples: seq<Sample>, k: nat, offset: int)
    requires (k + 1) * rate <= |samples| * UNIT
    ensures k * rate >= 0
    ensures var from, to := k * rate, (k + 1) * rate;
            && Weight(samples, from / UNIT, from, to) == rate
            && Cross(|samples|, from / UNIT, from, to, offset) >= UNIT * (rate - Smear(rate, offset))
  {
    FirstSampleIsNat(k, rate);
    MulMonotone(0, k, rate);
    assert (k + 1) * rate == k * rate + rate;
    WholeLoss(samples, k * rate, (k + 1) * rate, offset);
    AlignedEdges(rate, k);
    hide Weight, Cross, EdgeCost;
  }

  lemma LitSample(x: Sample, v: int, light: int, floor: real, h: real, noise: real)
    requires h >= 0.0 && v <= light
    requires floor - noise <= x as real - h * (light as real / 2000000.0)
    ensures AtLeast(x, 1, v, 1.0, 2000000.0 * (floor - noise), h)
  {
    assert h * (v as real) <= h * (light as real);
    ScaleBack(h, light as real);
  }

  lemma DarkSample(x: Sample, v: int, light: int, floor: real, h: real, noise: real)
    requires h >= 0.0 && light <= UNIT - v
    requires x as real - h * (light as real / 2000000.0) <= floor + noise
    ensures AtLeast(x, 1, v, -1.0, 0.0 - 2000000.0 * (floor + noise + h), h)
  {
    assert h * (light as real) <= h * (2000000.0 - v as real);
    assert h * (2000000.0 - v as real) == 2000000.0 * h - h * v as real;
    ScaleBack(h, light as real);
  }

  lemma ScaleBack(h: real, light: real)
    ensures 2000000.0 * (h * (light / 2000000.0)) == h * light
  {
  }

  /** The sum behind a half bit's average. */
  function HalfSum(rate: Rate, samples: seq<Sample>, k: nat): int {
    FirstSampleIsNat(k, rate);
    Total(samples, k * rate / UNIT, k * rate, (k + 1) * rate)
  }

  lemma LitBound(total: int, rate: Rate, cross: int, smear: int, floor: real, h: real, noise: real)
    requires h >= 0.0 && cross >= UNIT * (rate - smear)
    requires AtLeast(total, rate, cross, 1.0, 2000000.0 * (floor - noise), h)
    ensures total as real >= (floor - noise) * rate as real + h * (rate - smear) as real
  {
    var r, g := rate as real, (rate - smear) as real;
    assert cross as real >= 2000000.0 * g;
    assert h * cross as real >= h * (2000000.0 * g);
    assert h * (2000000.0 * g) == 2000000.0 * (h * g);
    assert 2000000.0 * (floor - noise) * r == 2000000.0 * ((floor - noise) * r);
  }

  lemma DarkBound(total: int, rate: Rate, cross: int, smear: int, floor: real, h: real, noise: real)
    requires h >= 0.0 && cross >= UNIT * (rate - smear)
    requires AtLeast(total, rate, cross, -1.0, 0.0 - 2000000.0 * (floor + noise + h), h)
    ensures total as real <= (floor + noise) * rate as real + h * smear as real
  {
    var r, g, f := rate as real, (rate - smear) as real, floor + noise;
    assert cross as real >= 2000000.0 * g;
    assert h * cross as real >= h * (2000000.0 * g);
    assert h * (2000000.0 * g) == 2000000.0 * (h * g);
    assert (0.0 - 2000000.0 * (f + h)) * r == 0.0 - 2000000.0 * (f * r + h * r);
    assert h * g == h * r - h * smear as real;
  }

  lemma SampleBound(rate: Rate, samples: seq<Sample>, chips: Chips, k: int, offset: int, floor: real, h: real,
                    noise: real, j: nat)
    requires Receives(rate, samples, chips, offset, floor, h, noise) && h >= 0.0 && j < |samples|
    ensures var v := Share(j, k * rate + offset, (k + 1) * rate + offset);
            if chips(k) then AtLeast(samples[j], 1, v, 1.0, 2000000.0 * (floor - noise), h)
            else AtLeast(samples[j], 1, v, -1.0, 0.0 - 2000000.0 * (floor + noise + h), h)
  {
    hide Light, Share, AtLeast;
    var v, light := Share(j, k * rate + offset, (k + 1) * rate + offset), Light(rate, chips, j, offset);
    ChipShows(rate, chips, j, offset, k);
    if chips(k) {
      LitSample(samples[j], v, light, floor, h, noise);
    } else {
      DarkSample(samples[j], v, light, floor, h, noise);
    }
  }

  /** Every sample meets the bound for the half bit moved by `offset`. */
  predicate AllAtLeast(samples: seq<Sample>, from: int, to: int, offset: int, sign: real, base: real, h: real) {
    forall j: nat | j < |samples| :: AtLeast(samples[j], 1, Share(j, from + offset, to + offset), sign, base, h)
  }

  lemma HalfSumAtLeast(rate: Rate, samples: seq<Sample>, k: nat, offset: int, sign: real, base: real, h: real)
    returns (cross: int)
    requires (k + 1) * rate <= |samples| * UNIT
    requires AllAtLeast(samples, k * rate, (k + 1) * rate, offset, sign, base, h)
    ensures AtLeast(HalfSum(rate, samples, k), rate, cross, sign, base, h)
    ensures cross >= UNIT * (rate - Smear(rate, offset))
  {
    HalfBitShares(rate, samples, k, offset);
    var from, to := k * rate, (k + 1) * rate;
    var i := from / UNIT;
    cross := Cross(|samples|, i, from, to, offset);
    hide AtLeast, Weight, Cross, Total, Smear, Share;
    IntegralAtLeast(samples, i, from, to, offset, sign, base, h);
  }

  /** A half bit with the pulse on adds up to nearly its whole height. */
  lemma LitSum(rate: Rate, samples: seq<Sample>, chips: Chips, k: nat, offset: int, floor: real, h: real, noise: real)
    requires Receives(rate, samples, chips, offset, floor, h, noise) && h >= 0.0 && chips(k)
    requires (k + 1) * rate <= |samples| * UNIT
    ensures HalfSum(rate, samples, k) as real
         >= (floor - noise) * rate as real + h * (rate - Smear(rate, offset)) as real
  {
    hide Receives, AtLeast, HalfSum, Smear, Share;
    forall j: nat | j < |samples|
      ensures AtLeast(samples[j], 1, Share(j, k * rate + offset, (k + 1) * rate + offset), 1.0,
                      2000000.0 * (floor - noise), h)
    {
      SampleBound(rate, samples, chips, k, offset, floor, h, noise, j);
    }
    var cross := HalfSumAtLeast(rate, samples, k, offset, 1.0, 2000000.0 * (floor - noise), h);
    LitBound(HalfSum(rate, samples, k), rate, cross, Smear(rate, offset), floor, h, noise);
  }

  /** A half bit without the pulse adds up to nearly nothing. */
  lemma DarkSum(rate: Rate, samples: seq<Sample>, chips: Chips, k: nat, offset: int, floor: real, h: real, noise: real)
    requires Receives(rate, samples, chips, offset, floor, h, noise) && h >= 0.0 && !chips(k)
    requires (k + 1) * rate <= |samples| * UNIT
    ensures HalfSum(rate, samples, k) as real <= (floor + noise) * rate as real + h * Smear(rate, offset) as real
  {
    hide Receives, AtLeast, HalfSum, Smear, Share;
    forall j: nat | j < |samples|
      ensures AtLeast(samples[j], 1, Share(j, k * rate + offset, (k + 1) * rate + offset), -1.0,
                      0.0 - 2000000.0 * (floor + noise + h), h)
    {
      SampleBound(rate, samples, chips, k, offset, floor, h, noise, j);
    }
    var cross := HalfSumAtLeast(rate, samples, k, offset, -1.0, 0.0 - 2000000.0 * (floor + noise + h), h);
    DarkBound(HalfSum(rate, samples, k), rate, cross, Smear(rate, offset), floor, h, noise);
  }

  // --- A bit --------------------------------------------------------------------------------------

  lemma AverageOrder(a: int, b: int, w: int)
    requires 0 <= a <= 65535 * w && 0 <= b <= 65535 * w && w > 0 && a >= b + w
    ensures RoundedAverage(a, w) > RoundedAverage(b, w)
  {
    var p, q, d: nat := 2 * a + w, 2 * b + w, 2 * w;
    DivBounds(q, d);
    DivAtLeast(p, Quotient(q, d) + 1, d);
    assert (Quotient(q, d) + 1) * d == Quotient(q, d) * d + d;
  }

  /** The pulse stands out: what is left of it after smearing exceeds the noise of both halves and the rounding. */
  predicate StandsOut(rate: Rate, offset: int, h: real, noise: real) {
    && noise >= 0.0 && h >= 0.0
    && h * (rate - 2 * Smear(rate, offset)) as real >= (1.0 + 2.0 * noise) * rate as real
  }

  lemma SumsApart(lit: int, dark: int, rate: Rate, smear: int, floor: real, h: real, noise: real)
    requires lit as real >= (floor - noise) * rate as real + h * (rate - smear) as real
    requires dark as real <= (floor + noise) * rate as real + h * smear as real
    requires h * (rate - 2 * smear) as real >= (1.0 + 2.0 * noise) * rate as real
    ensures lit >= dark + rate
  {
    var r := rate as real;
    assert h * (rate - smear) as real - h * smear as real == h * (rate - 2 * smear) as real;
    assert (floor + noise) * r - (floor - noise) * r == 2.0 * (noise * r);
    assert (1.0 + 2.0 * noise) * r == r + 2.0 * (noise * r);
  }

  lemma HalfBitIsAverage(rate: Rate, samples: seq<Sample>, k: nat)
    requires (k + 1) * rate <= |samples| * UNIT
    ensures 0 <= HalfSum(rate, samples, k) <= 65535 * rate
    ensures HalfBit(rate, samples, k) == RoundedAverage(HalfSum(rate, samples, k), rate)
  {
    HalfBitShares(rate, samples, k, 0);
    hide Integral;
  }

  lemma BrighterHalf(rate: Rate, samples: seq<Sample>, chips: Chips, lit: nat, dark: nat, offset: int,
                     floor: real, h: real, noise: real)
    requires Receives(rate, samples, chips, offset, floor, h, noise) && StandsOut(rate, offset, h, noise)
    requires (lit + 1) * rate <= |samples| * UNIT && (dark + 1) * rate <= |samples| * UNIT
    requires chips(lit) && !chips(dark)
    ensures HalfBit(rate, samples, lit) > HalfBit(rate, samples, dark)
  {
    hide Receives, HalfSum, RoundedAverage, Smear;
    LitSum(rate, samples, chips, lit, offset, floor, h, noise);
    DarkSum(rate, samples, chips, dark, offset, floor, h, noise);
    var a, b := HalfSum(rate, samples, lit), HalfSum(rate, samples, dark);
    SumsApart(a, b, rate, Smear(rate, offset), floor, h, noise);
    hide StandsOut;
    HalfBitIsAverage(rate, samples, lit);
    HalfBitIsAverage(rate, samples, dark);
    AverageOrder(a, b, rate);
  }

  /**
   At every sample rate the generic slicer reads the bits of a pulse-position waveform, wherever its
   half bits fall between the samples, as long as the pulse stands out: at a multiple of 2 MS/s and
   without an offset, when its height is at least one more than twice the noise.
   */
  lemma WaveformIsSliced(rate: Rate, samples: seq<Sample>, bits: Bits, chips: Chips, offset: int,
                         floor: real, h: real, noise: real)
    requires Modulates(chips, bits) && Receives(rate, samples, chips, offset, floor, h, noise)
    requires StandsOut(rate, offset, h, noise) && SamplesForBits(rate, |bits|) <= |samples|
    ensures SlicedBits(rate, samples, |bits|) == bits
  {
    hide Receives, StandsOut, HalfBit;
    forall k: nat | k < |bits|
      ensures SlicedBits(rate, samples, |bits|)[k] == bits[k]
    {
      BitFits(rate, samples, |bits|, k);
      if bits[k] {
        BrighterHalf(rate, samples, chips, 2 * k, 2 * k + 1, offset, floor, h, noise);
      } else {
        BrighterHalf(rate, samples, chips, 2 * k + 1, 2 * k, offset, floor, h, noise);
      }
    }
  }

  /** The samples for `n` bits reach to the end of every one of them. */
  lemma BitFits(rate: Rate, samples: seq<Sample>, n: nat, k: nat)
    requires k < n && SamplesForBits(rate, n) <= |samples|
    ensures (2 * k + 1) * rate <= |samples| * UNIT && (2 * k + 2) * rate <= |samples| * UNIT
  {
    MulMonotone(2 * k + 1, 2 * n, rate);
    MulMonotone(2 * k + 2, 2 * n, rate);
    assert 2 * n * rate == 2 * (n * rate);
  }
}
