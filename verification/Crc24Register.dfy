/** The 24-bit CRC shift register of Mode S, as linear algebra over GF(2). */
module Crc24Register {
  import opened Gf2

  /** Register contents, most significant bit first. */
  type Register = r: Bits | |r| == 24 witness Zeros(24)

  /** 0xFFF409: the low 24 coefficients of the generator; x^24 is implicit. */
  const POLY_BITS: Register :=
    [true, true, true, true, true, true, true, true, true, true, true, true,
     false, true, false, false, false, false, false, false, true, false, false, true]

  const ZERO: Register := Zeros(24)
  const TOP: Register := Unit(24, 0)

  /** One shift of the register: multiplication by x modulo the generator. */
  function Step(r: Register): Register {
    var shifted := r[1..] + [false];
    if r[0] then Xor(shifted, POLY_BITS) else shifted
  }

  function StepN(r: Register, n: nat): Register {
    if n == 0 then r else Step(StepN(r, n - 1))
  }

  /** Consumes one message bit: it is added at the top before the shift. */
  function FeedBit(r: Register, b: bool): Register {
    Step(r[0 := r[0] != b])
  }

  function Feed(r: Register, bits: Bits): Register {
    if |bits| == 0 then r else FeedBit(Feed(r, bits[..|bits| - 1]), bits[|bits| - 1])
  }

  /** The checksum of a bit string. */
  function Checksum(bits: Bits): Register {
    Feed(ZERO, bits)
  }

  // --- Step is linear, invertible and keeps parity -------------------------

  lemma StepXor(a: Register, b: Register)
    ensures Step(Xor(a, b)) == Xor(Step(a), Step(b))
  {
    assert Xor(a, b)[1..] == Xor(a[1..], b[1..]);
  }

  /** The generator's constant coefficient is 1, so a shift loses nothing. */
  lemma StepInjective(a: Register, b: Register)
    requires Step(a) == Step(b)
    ensures a == b
  {
    assert Step(a)[23] == a[0] && Step(b)[23] == b[0];
    forall i | 1 <= i < 24
      ensures a[i] == b[i]
    {
      assert Step(a)[i - 1] == (a[i] != (a[0] && POLY_BITS[i - 1]));
      assert Step(b)[i - 1] == (b[i] != (b[0] && POLY_BITS[i - 1]));
    }
  }

  lemma PolyIsOdd()
    ensures Odd(POLY_BITS)
  {
    var six: Bits := [true, true, true, true, true, true];
    var mid: Bits := [false, true, false, false, false, false];
    var low: Bits := [false, false, true, false, false, true];
    assert POLY_BITS == six + six + mid + low;
    OddConcat(six + six + mid, low);
    OddConcat(six + six, mid);
    OddConcat(six, six);
    assert mid == Unit(6, 1);
    OddUnit(6, 1);
    assert low == Xor(Unit(6, 2), Unit(6, 5));
    OddXor(Unit(6, 2), Unit(6, 5));
    OddUnit(6, 2);
    OddUnit(6, 5);
  }

  /** The 25-bit generator has 16 set bits, so a shift keeps the parity. */
  lemma StepKeepsParity(r: Register)
    ensures Odd(Step(r)) == Odd(r)
  {
    var top: Bits := [r[0]];
    var rest := r[1..];
    var none: Bits := [false];
    assert r == top + rest;
    OddConcat(top, rest);
    OddConcat(rest, none);
    assert top[..0] == Zeros(0) && none == Zeros(1);
    OddZeros(0);
    OddZeros(1);
    if r[0] {
      OddXor(rest + none, POLY_BITS);
      PolyIsOdd();
    }
  }

  // --- Runs of steps ---------------------------------------------------------

  lemma {:induction false} StepNAdd(r: Register, m: nat, n: nat)
    ensures StepN(StepN(r, m), n) == StepN(r, m + n)
  {
    if n > 0 {
      StepNAdd(r, m, n - 1);
    }
  }

  lemma {:induction false} StepNXor(a: Register, b: Register, n: nat)
    ensures StepN(Xor(a, b), n) == Xor(StepN(a, n), StepN(b, n))
  {
    if n > 0 {
      StepNXor(a, b, n - 1);
      StepXor(StepN(a, n - 1), StepN(b, n - 1));
    }
  }

  lemma {:induction false} StepNInjective(a: Register, b: Register, n: nat)
    requires StepN(a, n) == StepN(b, n)
    ensures a == b
  {
    if n > 0 {
      StepInjective(StepN(a, n - 1), StepN(b, n - 1));
      StepNInjective(a, b, n - 1);
    }
  }

  lemma {:induction false} StepNZero(n: nat)
    ensures StepN(ZERO, n) == ZERO
  {
    if n > 0 {
      StepNZero(n - 1);
      assert ZERO[1..] + [false] == ZERO;
    }
  }

  lemma {:induction false} StepNKeepsParity(r: Register, n: nat)
    ensures Odd(StepN(r, n)) == Odd(r)
  {
    if n > 0 {
      StepNKeepsParity(r, n - 1);
      StepKeepsParity(StepN(r, n - 1));
    }
  }

  /** A single bit at index `i` reaches the top after `i` shifts. */
  lemma {:induction false} UnitRises(i: nat, k: nat)
    requires k <= i < 24
    ensures StepN(Unit(24, i), k) == Unit(24, i - k)
  {
    if k > 0 {
      UnitRises(i, k - 1);
      assert Unit(24, i - k + 1)[1..] + [false] == Unit(24, i - k);
    }
  }

  // --- Feeding bits ----------------------------------------------------------

  lemma {:induction false} FeedConcat(r: Register, a: Bits, b: Bits)
    ensures Feed(r, a + b) == Feed(Feed(r, a), b)
  {
    if |b| == 0 {
      assert a + b == a;
    } else {
      var n := |b| - 1;
      FeedConcat(r, a, b[..n]);
      assert (a + b)[..|a| + n] == a + b[..n];
    }
  }

  lemma {:induction false} FeedXor(r: Register, s: Register, a: Bits, b: Bits)
    requires |a| == |b|
    ensures Feed(Xor(r, s), Xor(a, b)) == Xor(Feed(r, a), Feed(s, b))
  {
    if |a| > 0 {
      var n := |a| - 1;
      FeedXor(r, s, a[..n], b[..n]);
      assert Xor(a, b)[..n] == Xor(a[..n], b[..n]);
      var p, q := Feed(r, a[..n]), Feed(s, b[..n]);
      var p', q' := p[0 := p[0] != a[n]], q[0 := q[0] != b[n]];
      assert Xor(p, q)[0 := Xor(p, q)[0] != Xor(a, b)[n]] == Xor(p', q');
      StepXor(p', q');
    }
  }

  lemma {:induction false} FeedZeros(r: Register, n: nat)
    ensures Feed(r, Zeros(n)) == StepN(r, n)
  {
    if n > 0 {
      FeedZeros(r, n - 1);
      assert Zeros(n)[..n - 1] == Zeros(n - 1);
      var p := StepN(r, n - 1);
      assert p[0 := p[0] != false] == p;
    }
  }

  /** A register with up to 24 bits added at the top. */
  function Loaded(r: Register, d: Bits): Register
    requires |d| <= 24
  {
    Xor(r, d + Zeros(24 - |d|))
  }

  /** Loading one bit more sets one bit more. */
  lemma LoadOneMore(r: Register, d: Bits)
    requires 0 < |d| <= 24
    ensures var k := |d| - 1;
            var last: Register := if d[k] then Unit(24, k) else ZERO;
            Loaded(r, d) == Xor(Loaded(r, d[..k]), last)
  {
  }

  /** Feeding a bit after `k` shifts is loading it at place `k` before them. */
  lemma FeedLast(before: Register, b: bool, k: nat)
    requires k < 24
    ensures var last: Register := if b then Unit(24, k) else ZERO;
            FeedBit(StepN(before, k), b) == StepN(Xor(before, last), k + 1)
  {
    var last: Register := if b then Unit(24, k) else ZERO;
    StepNXor(before, last, k);
    UnitRises(k, k);
    StepNZero(k);
    var p := StepN(before, k);
    assert StepN(Xor(before, last), k + 1) == Step(StepN(Xor(before, last), k));
    hide Step, StepN;
    assert Xor(p, StepN(last, k)) == p[0 := p[0] != b];
  }

  /** Feeding up to 24 bits is the same as adding them in place and shifting. */
  lemma {:induction false} FeedIsLoad(r: Register, d: Bits)
    requires |d| <= 24
    ensures Feed(r, d) == StepN(Loaded(r, d), |d|)
  {
    var n := |d|;
    if n == 0 {
      assert Loaded(r, d) == r;
    } else {
      hide Step, StepN, FeedBit, Loaded, Unit, ZERO;
      var k := n - 1;
      FeedIsLoad(r, d[..k]);
      LoadOneMore(r, d);
      FeedLast(Loaded(r, d[..k]), d[k], k);
    }
  }

  lemma {:induction false} FeedKeepsParity(r: Register, bits: Bits)
    ensures Odd(Feed(r, bits)) == (Odd(r) != Odd(bits))
  {
    if |bits| > 0 {
      var n := |bits| - 1;
      FeedKeepsParity(r, bits[..n]);
      var p := Feed(r, bits[..n]);
      var p' := p[0 := p[0] != bits[n]];
      StepKeepsParity(p');
      if bits[n] {
        FlipIsXorUnit(p, 0);
        OddXor(p, Unit(24, 0));
        OddUnit(24, 0);
      } else {
        assert p' == p;
      }
    }
  }

  // --- What the checksum guarantees ------------------------------------------

  lemma ChecksumXor(a: Bits, b: Bits)
    requires |a| == |b|
    ensures Checksum(Xor(a, b)) == Xor(Checksum(a), Checksum(b))
  {
    assert Xor(ZERO, ZERO) == ZERO;
    FeedXor(ZERO, ZERO, a, b);
  }

  /** The checksum has the parity of the message. */
  lemma ChecksumParity(bits: Bits)
    ensures Odd(Checksum(bits)) == Odd(bits)
  {
    FeedKeepsParity(ZERO, bits);
    OddZeros(24);
  }

  /** The syndrome of data followed by any 24-bit trailer. */
  lemma TrailerSyndrome(data: Bits, trailer: Register)
    ensures Checksum(data + trailer) == Checksum(Xor(Checksum(data), trailer))
  {
    FeedConcat(ZERO, data, trailer);
    FeedIsLoad(Checksum(data), trailer);
    var x := Xor(Checksum(data), trailer);
    FeedIsLoad(ZERO, x);
    assert trailer + Zeros(0) == trailer && x + Zeros(0) == x && Xor(ZERO, x) == x;
  }

  /** On 24-bit words the checksum is one-to-one. */
  lemma ChecksumInjectiveOnWords(a: Register, b: Register)
    requires Checksum(a) == Checksum(b)
    ensures a == b
  {
    FeedIsLoad(ZERO, a);
    FeedIsLoad(ZERO, b);
    assert a + Zeros(0) == a && b + Zeros(0) == b && Xor(ZERO, a) == a && Xor(ZERO, b) == b;
    StepNInjective(a, b, 24);
  }

  lemma ChecksumZeros(n: nat)
    ensures Checksum(Zeros(n)) == ZERO
  {
    FeedZeros(ZERO, n);
    StepNZero(n);
  }

  /** A trailer validates the data exactly when it is the data's checksum. */
  lemma TrailerIsCleanIff(data: Bits, trailer: Register)
    ensures Checksum(data + trailer) == ZERO <==> trailer == Checksum(data)
  {
    TrailerSyndrome(data, trailer);
    ChecksumZeros(24);
    var x := Xor(Checksum(data), trailer);
    if Checksum(data + trailer) == ZERO {
      ChecksumInjectiveOnWords(x, ZERO);
      assert forall i :: 0 <= i < 24 ==> x[i] == ZERO[i];
    }
    if trailer == Checksum(data) {
      assert x == ZERO;
    }
  }

  /** Every nonzero error burst confined to 24 consecutive bits is detected. */
  lemma BurstIsDetected(before: nat, burst: Register, after: nat)
    requires burst != ZERO
    ensures Checksum(Zeros(before) + burst + Zeros(after)) != ZERO
  {
    FeedConcat(ZERO, Zeros(before) + burst, Zeros(after));
    FeedConcat(ZERO, Zeros(before), burst);
    ChecksumZeros(before);
    ChecksumZeros(24);
    FeedZeros(Checksum(burst), after);
    StepNZero(after);
    if Checksum(Zeros(before) + burst + Zeros(after)) == ZERO {
      StepNInjective(Checksum(burst), ZERO, after);
      ChecksumInjectiveOnWords(burst, ZERO);
    }
  }

  lemma UnitParts(n: nat, i: nat, one: Bits)
    requires i < n && one == [true]
    ensures Unit(n, i) == (Zeros(i) + one) + Zeros(n - i - 1)
  {
  }

  /** The syndrome of a single flipped bit: the top bit shifted down to it. */
  lemma UnitSyndrome(n: nat, i: nat)
    requires i < n
    ensures Checksum(Unit(n, i)) == StepN(TOP, n - i)
  {
    var one: Bits := [true];
    FeedOne(one);
    UnitParts(n, i, one);
    ChecksumZeros(i);
    assert StepN(TOP, 1) == Step(StepN(TOP, 0));
    hide Feed, Step, StepN, Unit, Zeros, TOP;
    FeedConcat(ZERO, Zeros(i) + one, Zeros(n - i - 1));
    FeedConcat(ZERO, Zeros(i), one);
    FeedZeros(Step(TOP), n - i - 1);
    StepNAdd(TOP, 1, n - i - 1);
  }

  lemma FeedOne(one: Bits)
    requires one == [true]
    ensures Feed(ZERO, one) == Step(TOP)
  {
    hide Step;
    assert one[..0] == [];
    assert ZERO[0 := true] == TOP;
  }
}
