/** The checksum as polynomial division: the reference definition of a CRC. */
module Crc24Polynomial {
  import opened Gf2
  import opened BitValue
  import opened Crc24Register

  /** The generator, all 25 coefficients. */
  const GENERATOR: Bits := [true] + POLY_BITS

  /** The product of the polynomial `q` with the generator, schoolbook style. */
  function TimesGenerator(q: Bits): (w: Bits)
    ensures |w| == |q| + 24
  {
    if |q| == 0 then
      Zeros(24)
    else
      var n := |q| - 1;
      var w := TimesGenerator(q[..n]) + [false];
      if q[n] then Xor(w, Zeros(n) + GENERATOR) else w
  }

  /** `r` is a remainder of `bits` * x^24 by the generator, with quotient `q`. */
  predicate Divides(bits: Bits, q: Bits, r: Register) {
    |q| == |bits| && bits + Zeros(24) == Xor(TimesGenerator(q), Zeros(|bits|) + r)
  }

  /** The bits the register shifts out are the quotient. */
  function Quotient(bits: Bits): (q: Bits)
    ensures |q| == |bits|
  {
    if |bits| == 0 then
      []
    else
      var n := |bits| - 1;
      Quotient(bits[..n]) + [Checksum(bits[..n])[0] != bits[n]]
  }

  lemma {:induction false} ChecksumIsRemainder(bits: Bits)
    ensures Divides(bits, Quotient(bits), Checksum(bits))
  {
    if |bits| == 0 {
      assert Zeros(0) + ZERO == ZERO;
      assert Xor(ZERO, ZERO) == ZERO;
      assert bits + Zeros(24) == ZERO;
    } else {
      var n := |bits| - 1;
      var m := bits[..n];
      ChecksumIsRemainder(m);
      DivisionStep(m, bits[n], Quotient(m), Checksum(m));
      assert m + [bits[n]] == bits;
    }
  }

  /** Bringing down one more coefficient keeps the division identity. */
  lemma DivisionStep(m: Bits, b: bool, q: Bits, r: Register)
    requires Divides(m, q, r)
    ensures Divides(m + [b], q + [r[0] != b], FeedBit(r, b))
  {
    var n := |m|;
    var t := r[0] != b;
    var w := TimesGenerator(q);
    var w' := TimesGenerator(q + [t]);
    assert (q + [t])[..n] == q;
    var r' := FeedBit(r, b);
    var whole := Xor(w', Zeros(n + 1) + r');
    forall i | 0 <= i < n + 25
      ensures whole[i] == ((m + [b]) + Zeros(24))[i]
    {
      assert i < n + 24 ==> (m + Zeros(24))[i] == (w[i] != (Zeros(n) + r)[i]);
      assert w'[i] == ((w + [false])[i] != (t && (Zeros(n) + GENERATOR)[i]));
      if i > n {
        var j := i - n - 1;
        assert r'[j] == ((if j < 23 then r[j + 1] else false) != (t && POLY_BITS[j]));
      }
    }
    assert whole == (m + [b]) + Zeros(24);
  }

  lemma GeneratorIsClean(n: nat)
    ensures Checksum(Zeros(n) + GENERATOR) == ZERO
  {
    var one: Bits := [true];
    FeedConcat(ZERO, Zeros(n), GENERATOR);
    ChecksumZeros(n);
    FeedConcat(ZERO, one, POLY_BITS);
    assert one[..0] == [];
    assert ZERO[0 := true] == TOP;
    assert TOP[1..] + [false] == ZERO;
    assert Feed(ZERO, one) == POLY_BITS;
    TrailerIsCleanIff(one, POLY_BITS);
  }

  /** Every multiple of the generator has a zero checksum. */
  lemma {:induction false} MultipleIsClean(q: Bits)
    ensures Checksum(TimesGenerator(q)) == ZERO
  {
    if |q| == 0 {
      ChecksumZeros(24);
    } else {
      var n := |q| - 1;
      var none: Bits := [false];
      var w := TimesGenerator(q[..n]);
      MultipleIsClean(q[..n]);
      FeedConcat(ZERO, w, none);
      assert none == Zeros(1);
      FeedZeros(ZERO, 1);
      StepNZero(1);
      if q[n] {
        ChecksumXor(w + none, Zeros(n) + GENERATOR);
        GeneratorIsClean(n);
        assert Xor(ZERO, ZERO) == ZERO;
      }
    }
  }

  /** Division by the generator has one remainder, and the checksum is it. */
  lemma RemainderIsUnique(bits: Bits, q: Bits, r: Register)
    requires Divides(bits, q, r)
    ensures r == Checksum(bits)
  {
    var n := |bits|;
    MultipleIsClean(q);
    ChecksumXor(TimesGenerator(q), Zeros(n) + r);
    assert Xor(ZERO, Checksum(Zeros(n) + r)) == Checksum(Zeros(n) + r);
    LoneRemainder(r, n);
    ShiftedMessage(bits);
    hide StepN, Checksum;
    StepNInjective(Checksum(bits), r, 24);
  }

  /** A remainder alone in a word is shifted 24 times. */
  lemma LoneRemainder(r: Register, n: nat)
    ensures Checksum(Zeros(n) + r) == StepN(r, 24)
  {
    hide StepN;
    FeedConcat(ZERO, Zeros(n), r);
    ChecksumZeros(n);
    FeedIsLoad(ZERO, r);
    assert r + Zeros(0) == r && Xor(ZERO, r) == r;
  }

  lemma ShiftedMessage(bits: Bits)
    ensures Checksum(bits + Zeros(24)) == StepN(Checksum(bits), 24)
  {
    FeedConcat(ZERO, bits, Zeros(24));
    FeedZeros(Checksum(bits), 24);
  }

  /** A word is clean exactly when it is a multiple of the generator. */
  lemma CleanIffMultiple(data: Bits, trailer: Register)
    ensures Checksum(data + trailer) == ZERO
       <==> exists q: Bits :: |q| == |data| && TimesGenerator(q) == data + trailer
  {
    if Checksum(data + trailer) == ZERO {
      TrailerIsCleanIff(data, trailer);
      ChecksumIsRemainder(data);
      var w := TimesGenerator(Quotient(data));
      forall i | 0 <= i < |w|
        ensures w[i] == (data + trailer)[i]
      {
        assert (data + Zeros(24))[i] == (w[i] != (Zeros(|data|) + trailer)[i]);
      }
      assert w == data + trailer;
    }
    if q: Bits :| |q| == |data| && TimesGenerator(q) == data + trailer {
      MultipleIsClean(q);
    }
  }

  lemma WordValue(r: Register, a: byte, b: byte, c: byte)
    requires r == ByteBits(a) + ByteBits(b) + ByteBits(c)
    ensures Value(r) == 65536 * (a as int) + 256 * (b as int) + c
  {
    hide Value, ByteBits;
    Pow2Values();
    ValueConcat(ByteBits(a) + ByteBits(b), ByteBits(c));
    ValueConcat(ByteBits(a), ByteBits(b));
    ByteValue(a);
    ByteValue(b);
    ByteValue(c);
  }

  lemma HighPolyByte()
    ensures POLY_BITS[..8] == ByteBits(0xFF)
  {
    ByteSpelled(0xFF, POLY_BITS[..8]);
  }

  lemma MiddlePolyByte()
    ensures POLY_BITS[8..16] == ByteBits(0xF4)
  {
    ByteSpelled(0xF4, POLY_BITS[8..16]);
  }

  lemma LowPolyByte()
    ensures POLY_BITS[16..] == ByteBits(0x09)
  {
    ByteSpelled(0x09, POLY_BITS[16..]);
  }

  /** The generator is 1FFF409, as section 3.1.2.3.3 of Annex 10 Volume IV gives it. */
  lemma GeneratorIs1FFF409()
    ensures Value(GENERATOR) == 0x1FFF409
  {
    hide Value, ByteBits, POLY_BITS;
    HighPolyByte();
    MiddlePolyByte();
    LowPolyByte();
    assert POLY_BITS == POLY_BITS[..8] + POLY_BITS[8..16] + POLY_BITS[16..];
    WordValue(POLY_BITS, 0xFF, 0xF4, 0x09);
    OneAbove(POLY_BITS);
  }

  lemma OneAbove(r: Register)
    ensures Value([true] + r) == 0x100_0000 + Value(r)
  {
    var top: Bits := [true];
    assert top[..0] == [] && Value(top) == 1;
    hide Value;
    Pow2Values();
    ValueConcat(top, r);
  }
}
