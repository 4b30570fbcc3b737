/**
 The adaptive noise floor: an exponential moving average kept as a u32 accumulator that
 holds the floor scaled by 2^shift.
 */
module NoiseFloors {
  import opened BitValue

  /** A magnitude sample: the code's u16. */
  type Sample = x: int | 0 <= x < 65536

  const U32 := 0x1_0000_0000
  const DEFAULT_SHIFT := 7

  /** One step of the average, over the integers. */
  function Next(acc: nat, shift: nat, sample: Sample): nat
  {
    FloorAtMost(acc, shift);
    acc + sample - Floor(acc, shift)
  }

  function Quotient(a: nat, p: nat): nat
    requires p > 0
  {
    a / p
  }

  /** The accumulator shifted right: the floor it stands for. */
  function Floor(acc: nat, shift: nat): nat {
    Quotient(acc, Pow2(shift))
  }

  /** The accumulator after a run of samples. */
  function Run(acc: nat, shift: nat, samples: seq<Sample>): nat {
    if |samples| == 0 then acc
    else Next(Run(acc, shift, samples[..|samples| - 1]), shift, samples[|samples| - 1])
  }

  lemma FloorAtMost(acc: nat, shift: nat)
    ensures Floor(acc, shift) <= acc
  {
    hide Pow2;
    DivBounds(acc, Pow2(shift));
    TimesAtLeast(Floor(acc, shift), Pow2(shift));
  }

  lemma TimesAtLeast(q: nat, p: nat)
    requires p >= 1
    ensures q <= q * p
  {
  }

  lemma DivBounds(a: nat, p: nat)
    requires p > 0
    ensures Quotient(a, p) * p <= a < Quotient(a, p) * p + p
  {
    assert a == a / p * p + a % p;
  }

  lemma DivAtLeast(a: nat, c: int, p: nat)
    requires p > 0
    ensures Quotient(a, p) >= c <==> a >= c * p
  {
    DivBounds(a, p);
    var q := Quotient(a, p);
    if q >= c {
      MulMonotone(c, q, p);
    } else {
      MulMonotone(q + 1, c, p);
      assert (q + 1) * p == q * p + p;
    }
  }

  lemma MulMonotone(a: int, b: int, p: nat)
    requires a <= b
    ensures a * p <= b * p
  {
  }

  /** The floor is at least `c` exactly when the accumulator has reached `c` scaled. */
  lemma FloorAtLeast(acc: nat, shift: nat, c: nat)
    ensures Floor(acc, shift) >= c <==> acc >= c * Pow2(shift)
  {
    DivAtLeast(acc, c, Pow2(shift));
  }

  /** A step never leaves the band of scaled sample values it started in. */
  lemma StepStaysInBand(acc: nat, shift: nat, sample: Sample, lo: nat, hi: nat)
    requires lo * Pow2(shift) <= acc <= hi * Pow2(shift)
    requires lo <= sample <= hi
    ensures lo * Pow2(shift) <= Next(acc, shift, sample) <= hi * Pow2(shift)
  {
    var p, f: nat := Pow2(shift), Floor(acc, shift);
    DivBounds(acc, p);
    FloorAtLeast(acc, shift, lo);
    if f >= hi {
      FloorAtLeast(acc, shift, hi);
    } else {
      Leak(acc, p, f, hi);
    }
    Leak2(acc, p, f, lo);
  }

  /** Below the top of the band the leak leaves room for the largest sample. */
  lemma Leak(acc: nat, p: nat, f: nat, hi: nat)
    requires p > 0 && f < hi && f * p <= acc < f * p + p
    ensures acc + hi - f <= hi * p
  {
    Distribute(hi - f - 1, f + 1, p);
    TimesAtLeast(hi - f - 1, p);
    assert (f + 1) * p == f * p + p;
  }

  /** Above the bottom of the band the leak is made up by the smallest sample. */
  lemma Leak2(acc: nat, p: nat, f: nat, lo: nat)
    requires p > 0 && lo <= f && f * p <= acc
    ensures lo * p <= acc + lo - f
  {
    Distribute(f - lo, lo, p);
    TimesAtLeast(f - lo, p);
  }

  lemma Distribute(a: int, b: int, p: int)
    ensures (a + b) * p == a * p + b * p
  {
  }

  predicate Within(samples: seq<Sample>, lo: nat, hi: nat) {
    forall k :: 0 <= k < |samples| ==> lo <= samples[k] <= hi
  }

  /** The floor stays between the least and the greatest of the seed and the samples. */
  lemma {:induction false} FloorWithinRange(seed: Sample, shift: nat, samples: seq<Sample>, lo: nat, hi: nat)
    requires lo <= seed <= hi && Within(samples, lo, hi)
    ensures lo * Pow2(shift) <= Run(seed * Pow2(shift), shift, samples) <= hi * Pow2(shift)
    ensures lo <= Floor(Run(seed * Pow2(shift), shift, samples), shift) <= hi
  {
    var acc := Run(seed * Pow2(shift), shift, samples);
    if |samples| == 0 {
      MulMonotone(lo, seed, Pow2(shift));
      MulMonotone(seed, hi, Pow2(shift));
    } else {
      var n := |samples| - 1;
      FloorWithinRange(seed, shift, samples[..n], lo, hi);
      StepStaysInBand(Run(seed * Pow2(shift), shift, samples[..n]), shift, samples[n], lo, hi);
    }
    FloorAtLeast(acc, shift, lo);
    FloorAtLeast(acc, shift, hi + 1);
    assert (hi + 1) * Pow2(shift) == hi * Pow2(shift) + Pow2(shift);
  }

  predicate InRange(acc: nat, shift: nat) {
    1 <= shift <= 16 && acc <= 65535 * Pow2(shift)
  }

  /**
   No u32 operation of an update wraps, for every shift from 1 to 16; at shift 16 the sum
   just fits. The clamp to u16 never acts.
   */
  lemma UpdateNeverWraps(acc: nat, shift: nat, sample: Sample)
    requires InRange(acc, shift)
    ensures acc + sample < U32
    ensures InRange(Next(acc, shift, sample), shift)
    ensures Floor(Next(acc, shift, sample), shift) <= 65535
  {
    Pow2Monotone(shift, 16);
    Pow2Values();
    assert acc <= 65535 * 65536;
    assert 0 * Pow2(shift) == 0;
    StepStaysInBand(acc, shift, sample, 0, 65535);
    var next := Next(acc, shift, sample);
    FloorAtLeast(next, shift, 65536);
    assert 65536 * Pow2(shift) == 65535 * Pow2(shift) + Pow2(shift);
  }

  // --- Constant input -----------------------------------------------------------------

  function Constant(c: Sample, n: nat): seq<Sample> {
    seq(n, _ => c)
  }

  function After(acc: nat, shift: nat, c: Sample, n: nat): nat {
    Run(acc, shift, Constant(c, n))
  }

  lemma AfterOneMore(acc: nat, shift: nat, c: Sample, n: nat)
    ensures After(acc, shift, c, n + 1) == Next(After(acc, shift, c, n), shift, c)
  {
    assert Constant(c, n + 1)[..n] == Constant(c, n);
  }

  /** One step of constant input moves the floor towards it, and never past it. */
  lemma StepTowards(acc: nat, shift: nat, c: Sample)
    ensures var t, next := c * Pow2(shift), Next(acc, shift, c);
            && (acc < t ==> acc < next <= t)
            && (Floor(acc, shift) == c ==> next == acc)
            && (Floor(acc, shift) > c ==> t <= next < acc)
  {
    var p, f: nat := Pow2(shift), Floor(acc, shift);
    DivBounds(acc, p);
    FloorAtLeast(acc, shift, c);
    if f < c {
      Leak(acc, p, f, c);
    } else {
      Leak2(acc, p, f, c);
    }
  }

  /**
   Under constant input the accumulator moves monotonically and after at most
   |acc - c * 2^shift| steps the floor is exactly `c`.
   */
  lemma {:induction false} ConstantInputConverges(acc: nat, shift: nat, c: Sample, n: nat)
    ensures var t, now := c * Pow2(shift), After(acc, shift, c, n);
            && (acc <= t ==> acc <= now <= t && (now < t ==> now >= acc + n))
            && (acc >= t ==> t <= now <= acc && (Floor(now, shift) != c ==> now <= acc - n))
            && (n >= (if acc <= t then t - acc else acc - t) ==> Floor(now, shift) == c)
  {
    var t := c * Pow2(shift);
    if n > 0 {
      ConstantInputConverges(acc, shift, c, n - 1);
      AfterOneMore(acc, shift, c, n - 1);
      StepTowards(After(acc, shift, c, n - 1), shift, c);
      FloorAtLeast(After(acc, shift, c, n - 1), shift, c);
    }
    var now := After(acc, shift, c, n);
    FloorAtLeast(now, shift, c);
    FloorAtLeast(now, shift, c + 1);
    assert (c + 1) * Pow2(shift) == t + Pow2(shift);
  }

  /** Once there, it stays. */
  lemma ConstantInputStays(acc: nat, shift: nat, c: Sample, n: nat)
    requires Floor(acc, shift) == c
    ensures After(acc, shift, c, n) == acc
  {
    if n > 0 {
      ConstantInputStays(acc, shift, c, n - 1);
      AfterOneMore(acc, shift, c, n - 1);
    }
  }

  // --- The code --------------------------------------------------------------------------

  function WrapU32(x: int): nat {
    x % U32
  }

  class NoiseFloor {
    var acc: nat
    const shift: nat

    ghost predicate Valid()
      reads this
    {
      InRange(acc, shift)
    }

    /** The code panics unless the shift is in 1..=16. */
    constructor (initial: Sample, s: nat)
      requires 1 <= s <= 16
      ensures Valid() && shift == s && acc == initial * Pow2(s)
    {
      acc, shift := initial * Pow2(s), s;
      MulMonotone(initial, 65535, Pow2(s));
    }

    /** Update with one sample; the wrapping u32 arithmetic is exact. */
    method Update(sample: Sample) returns (floor: Sample)
      requires Valid()
      modifies this`acc
      ensures Valid() && acc == Next(old(acc), shift, sample)
      ensures floor == Floor(acc, shift)
    {
      UpdateNeverWraps(acc, shift, sample);
      FloorAtMost(acc, shift);
      hide Floor, Pow2;
      acc := WrapU32(WrapU32(acc + sample) - Floor(acc, shift));
      var scaled := Floor(acc, shift);
      floor := if scaled < 65535 then scaled else 65535;
    }
  }
}
