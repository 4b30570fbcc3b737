/** What the checks detect, correct and never correct, for every frame. */
module Crc24Errors {
  import opened Gf2
  import opened BitValue
  import opened Crc24Register
  import opened Crc24Orbit
  import Crc24Polynomial
  import opened Crc24Fixed
  import opened Crc24

  predicate IsFrame(bytes: seq<byte>) {
    |bytes| == SHORT_FRAME_BYTES || |bytes| == LONG_FRAME_BYTES
  }

  predicate IsClean(bytes: seq<byte>) {
    Crc(bytes) == ZERO
  }

  // --- Flips and syndromes -----------------------------------------------------

  lemma FlipMovesSyndrome(bytes: seq<byte>, i: nat)
    requires i < 8 * |bytes|
    ensures Crc(FlipBit(bytes, i)) == Xor(Crc(bytes), Syndromes(8 * |bytes|)[i])
  {
    var n := 8 * |bytes|;
    FlipBitFlips(bytes, i);
    FlipIsXorUnit(FrameBits(bytes), i);
    ChecksumXor(FrameBits(bytes), Unit(n, i));
  }

  lemma SyndromeIsOdd(n: nat, i: nat)
    requires i < n
    ensures Odd(Syndromes(n)[i])
    ensures Syndromes(n)[i] != ZERO
  {
    ChecksumParity(Unit(n, i));
    OddUnit(n, i);
    OddZeros(24);
  }

  /** The single-bit syndromes of a 112-bit frame are pairwise different. */
  lemma SyndromesDiffer(n: nat, i: nat, j: nat)
    requires i < j < n <= 112
    ensures Syndromes(n)[i] != Syndromes(n)[j]
  {
    UnitSyndrome(n, i);
    UnitSyndrome(n, j);
    if Syndromes(n)[i] == Syndromes(n)[j] {
      StepNAdd(TOP, j - i, n - j);
      StepNInjective(StepN(TOP, j - i), TOP, n - j);
      TopDoesNotReturn(j - i);
    }
  }

  lemma XorCancels(a: Register, b: Register)
    ensures Xor(a, b) == ZERO <==> a == b
    ensures Xor(Xor(a, b), b) == a
    ensures Xor(ZERO, b) == b
  {
    if Xor(a, b) == ZERO {
      assert forall i :: 0 <= i < 24 ==> Xor(a, b)[i] == ZERO[i];
    }
    assert Xor(Xor(a, b), b) == a;
    assert Xor(ZERO, b) == b;
  }

  // --- One bit -------------------------------------------------------------------

  /** Every single-bit error is located and undone. */
  lemma OneBitErrorIsCorrected(clean: seq<byte>, i: nat, depth: nat)
    requires IsFrame(clean) && IsClean(clean) && i < 8 * |clean| && depth >= 1
    ensures Diagnose(FlipBit(clean, i), depth) == (Corrected(i), clean)
  {
    var n := 8 * |clean|;
    var received := FlipBit(clean, i);
    FlipMovesSyndrome(clean, i);
    XorCancels(ZERO, Syndromes(n)[i]);
    SyndromeIsOdd(n, i);
    var found := FirstSingle(Syndromes(n), Crc(received), 0);
    if found.value != i {
      SyndromesDiffer(n, found.value, i);
    }
    FlipBitTwice(clean, i);
  }

  /** At depth 1 a frame is corrected at `i` exactly when flipping `i` makes it clean. */
  lemma CorrectedIff(received: seq<byte>, i: nat)
    requires IsFrame(received) && !IsClean(received) && i < 8 * |received|
    ensures Diagnose(received, 1).0 == Corrected(i) <==> IsClean(FlipBit(received, i))
  {
    var n := 8 * |received|;
    FlipMovesSyndrome(received, i);
    XorCancels(Crc(received), Syndromes(n)[i]);
    if IsClean(FlipBit(received, i)) {
      OneBitErrorIsCorrected(FlipBit(received, i), i, 1);
      FlipBitTwice(received, i);
    }
  }

  // --- Even errors -----------------------------------------------------------------

  lemma CleanIsEven(clean: seq<byte>)
    requires IsClean(clean)
    ensures !Odd(FrameBits(clean))
  {
    ChecksumParity(FrameBits(clean));
    OddZeros(24);
  }

  /** A frame of even weight is never changed at depth 1, whatever the errors were. */
  lemma EvenFrameIsNeverCorrected(received: seq<byte>, depth: nat)
    requires IsFrame(received) && depth <= 1 && !Odd(FrameBits(received))
    ensures Diagnose(received, depth) == (if IsClean(received) then Clean else Failed, received)
  {
    ChecksumParity(FrameBits(received));
    var n := 8 * |received|;
    var found := FirstSingle(Syndromes(n), Crc(received), 0);
    if found.Some? {
      SyndromeIsOdd(n, found.value);
    }
  }

  /** An error pattern of even weight on a clean frame is never miscorrected at depth 1. */
  lemma EvenErrorIsNeverMiscorrected(clean: seq<byte>, received: seq<byte>, error: Bits)
    requires IsFrame(clean) && IsClean(clean) && |received| == |clean| && |error| == 8 * |clean|
    requires FrameBits(received) == Xor(FrameBits(clean), error) && !Odd(error)
    ensures Diagnose(received, 1).0 == Clean || Diagnose(received, 1).0 == Failed
    ensures Diagnose(received, 1).1 == received
  {
    CleanIsEven(clean);
    OddXor(FrameBits(clean), error);
    EvenFrameIsNeverCorrected(received, 1);
  }

  lemma TwoFlipsSyndrome(bytes: seq<byte>, i: nat, j: nat)
    requires i < 8 * |bytes| && j < 8 * |bytes|
    ensures var t := Syndromes(8 * |bytes|);
            Crc(FlipBit(FlipBit(bytes, i), j)) == Xor(Crc(bytes), Xor(t[i], t[j]))
  {
    FlipMovesSyndrome(bytes, i);
    FlipMovesSyndrome(FlipBit(bytes, i), j);
    var t := Syndromes(8 * |bytes|);
    assert Xor(Xor(Crc(bytes), t[i]), t[j]) == Xor(Crc(bytes), Xor(t[i], t[j]));
  }

  /** Every double error is detected at depth 1, and the frame is left as received. */
  lemma TwoBitErrorIsDetected(clean: seq<byte>, i: nat, j: nat)
    requires IsFrame(clean) && IsClean(clean) && i < j < 8 * |clean|
    ensures var received := FlipBit(FlipBit(clean, i), j); Diagnose(received, 1) == (Failed, received)
  {
    var n := 8 * |clean|;
    var received := FlipBit(FlipBit(clean, i), j);
    TwoFlipsSyndrome(clean, i, j);
    SyndromesDiffer(n, i, j);
    XorCancels(Syndromes(n)[i], Syndromes(n)[j]);
    XorCancels(ZERO, Xor(Syndromes(n)[i], Syndromes(n)[j]));
    CleanIsEven(clean);
    FlipBitFlips(clean, i);
    FlipBitFlips(FlipBit(clean, i), j);
    FlipKeepsOdd(FrameBits(clean), i);
    FlipKeepsOdd(Flip(FrameBits(clean), i), j);
    EvenFrameIsNeverCorrected(received, 1);
  }

  lemma FlipKeepsOdd(a: Bits, i: nat)
    requires i < |a|
    ensures Odd(Flip(a, i)) == !Odd(a)
  {
    FlipIsXorUnit(a, i);
    OddXor(a, Unit(|a|, i));
    OddUnit(|a|, i);
  }

  // --- Depth 2 -----------------------------------------------------------------------

  /** The pairs of flips that would make the frame clean. */
  predicate PairCleans(received: seq<byte>, a: nat, b: nat) {
    a < b < 8 * |received| && IsClean(FlipBit(FlipBit(received, a), b))
  }

  lemma PairCleansIffMatches(received: seq<byte>, a: nat, b: nat)
    ensures PairCleans(received, a, b) <==> PairMatches(Syndromes(8 * |received|), Crc(received), a, b)
  {
    if a < b < 8 * |received| {
      TwoFlipsSyndrome(received, a, b);
      var t := Syndromes(8 * |received|);
      XorCancels(Crc(received), Xor(t[a], t[b]));
    }
  }

  /**
   A correction at any depth leaves a clean frame that differs from the input in the one
   reported bit, or in the first pair of bits that would make it clean.
   */
  lemma CorrectionIsSound(received: seq<byte>, depth: nat)
    requires IsFrame(received) && Diagnose(received, depth).0.Corrected?
    ensures var (outcome, fixed) := Diagnose(received, depth);
            && IsClean(fixed)
            && outcome.bit < 8 * |received|
            && (|| fixed == FlipBit(received, outcome.bit)
                || (depth >= 2 && exists b :: IsFirstPair(received, outcome.bit, b)
                                           && fixed == FlipBit(FlipBit(received, outcome.bit), b)))
  {
    var n := 8 * |received|;
    var t, s := Syndromes(n), Crc(received);
    var single := FirstSingle(t, s, 0);
    if single.Some? {
      FlipMovesSyndrome(received, single.value);
      XorCancels(s, t[single.value]);
    } else {
      FirstPairMatches(t, s, 0);
      var (a, b) := FirstPair(t, s, 0).value;
      PairCleansIffMatches(received, a, b);
      forall c, d | PairCleans(received, c, d)
        ensures a < c || (a == c && b <= d)
      {
        PairCleansIffMatches(received, c, d);
        FirstPairIsFirst(t, s, 0, c, d);
      }
      assert IsFirstPair(received, a, b);
    }
  }

  predicate IsFirstPair(received: seq<byte>, a: nat, b: nat) {
    && PairCleans(received, a, b)
    && forall c: nat, d: nat | c < d < 8 * |received| && PairCleans(received, c, d) :: a < c || (a == c && b <= d)
  }

  /** At depth 2 a frame is given up exactly when no one or two flips would make it clean. */
  lemma FailedIff(received: seq<byte>)
    requires IsFrame(received) && !IsClean(received)
    ensures Diagnose(received, 2).0 == Failed
       <==> && (forall a: nat | a < 8 * |received| :: !IsClean(FlipBit(received, a)))
            && (forall a: nat, b: nat | a < b < 8 * |received| :: !PairCleans(received, a, b))
  {
    var t, s := Syndromes(8 * |received|), Crc(received);
    forall a: nat | a < 8 * |received|
      ensures IsClean(FlipBit(received, a)) <==> t[a] == s
    {
      FlipMovesSyndrome(received, a);
      XorCancels(s, t[a]);
    }
    if FirstPair(t, s, 0).Some? {
      FirstPairMatches(t, s, 0);
      var (a, b) := FirstPair(t, s, 0).value;
      PairCleansIffMatches(received, a, b);
    }
    forall a: nat, b: nat | a < b < 8 * |received| && PairCleans(received, a, b)
      ensures FirstPair(t, s, 0).Some?
    {
      PairCleansIffMatches(received, a, b);
      FirstPairIsFirst(t, s, 0, a, b);
    }
  }

  // --- Trailers and addresses -----------------------------------------------------------

  /** The three bytes of a 24-bit word, most significant first. */
  function WordBytes(r: Register): (b: seq<byte>)
    ensures |b| == 3
  {
    [PackByte(r[..8]), PackByte(r[8..16]), PackByte(r[16..])]
  }

  lemma WordBytesBits(r: Register)
    ensures FrameBits(WordBytes(r)) == r
  {
    ByteBitsPack(r[..8]);
    ByteBitsPack(r[8..16]);
    ByteBitsPack(r[16..]);
    FrameBitsThree(PackByte(r[..8]), PackByte(r[8..16]), PackByte(r[16..]));
    SplitInThree(r);
  }

  lemma SplitInThree(r: Register)
    ensures r[..8] + r[8..16] + r[16..] == r
  {
  }

  /** Appending the checksum, and nothing else, makes any data clean. */
  lemma AppendedChecksumIsClean(data: seq<byte>, trailer: Register)
    ensures IsClean(data + WordBytes(trailer)) <==> trailer == Crc(data)
  {
    FrameBitsConcat(data, WordBytes(trailer));
    WordBytesBits(trailer);
    TrailerIsCleanIff(FrameBits(data), trailer);
  }

  /** A reply whose checksum was XORed with the address has the address's checksum as syndrome. */
  lemma AddressSyndrome(data: seq<byte>, address: Register)
    ensures Crc(data + WordBytes(Xor(Crc(data), address))) == Crc(WordBytes(address))
  {
    var trailer := Xor(Crc(data), address);
    FrameBitsConcat(data, WordBytes(trailer));
    WordBytesBits(trailer);
    WordBytesBits(address);
    TrailerSyndrome(FrameBits(data), trailer);
    assert Xor(Crc(data), trailer) == address;
  }

  /** The syndrome names one address. */
  lemma AddressFromSyndrome(a: Register, b: Register)
    requires Crc(WordBytes(a)) == Crc(WordBytes(b))
    ensures a == b
  {
    WordBytesBits(a);
    WordBytesBits(b);
    ChecksumInjectiveOnWords(a, b);
  }

  /** The syndrome is zero only for the all-zero address. */
  lemma ZeroSyndromeIsZeroAddress(a: Register)
    ensures Crc(WordBytes(a)) == ZERO <==> a == ZERO
  {
    WordBytesBits(a);
    ChecksumZeros(24);
    if Crc(WordBytes(a)) == ZERO {
      ChecksumInjectiveOnWords(a, ZERO);
    }
  }

  lemma HighFixedByte()
    ensures FIXED_WORD[..8] == ByteBits(0xAA)
  {
    ByteSpelled(0xAA, FIXED_WORD[..8]);
  }

  lemma MiddleFixedByte()
    ensures FIXED_WORD[8..16] == ByteBits(0xAC)
  {
    ByteSpelled(0xAC, FIXED_WORD[8..16]);
  }

  lemma LowFixedByte()
    ensures FIXED_WORD[16..] == ByteBits(0x07)
  {
    ByteSpelled(0x07, FIXED_WORD[16..]);
  }

  lemma FixedWordValue()
    ensures Value(FIXED_WORD) == 0xAAAC07
  {
    HighFixedByte();
    MiddleFixedByte();
    LowFixedByte();
    hide Value, ByteBits, FIXED_WORD;
    assert FIXED_WORD == FIXED_WORD[..8] + FIXED_WORD[8..16] + FIXED_WORD[16..];
    Crc24Polynomial.WordValue(FIXED_WORD, 0xAA, 0xAC, 0x07);
  }

  /** The syndrome is the address itself for the addresses 000000 and AAAC07 and for no other. */
  lemma SyndromeIsTheAddressIff(a: Register)
    ensures Crc(WordBytes(a)) == a <==> Value(a) == 0 || Value(a) == 0xAAAC07
  {
    hide Value, FIXED_WORD, Crc, WordBytes;
    FixedWordValue();
    ValueOfZeros(24);
    if Value(a) == 0 {
      ValueInjective(a, ZERO);
    } else if Value(a) == 0xAAAC07 {
      ValueInjective(a, FIXED_WORD);
    }
    FixedIff(a);
  }

  lemma FixedIff(a: Register)
    ensures Crc(WordBytes(a)) == a <==> a == ZERO || a == FIXED_WORD
  {
    WordBytesBits(a);
    ChecksumFixesIff(a);
  }
}
