/**
 The words that the checksum leaves alone. Twenty-four shifts are the identity on a word only if
 three shifts are, and three shifts fix only zero and one other word.
 */
module Crc24Fixed {
  import opened Gf2
  import opened Crc24Register

  /** 0xAAAC07. */
  const FIXED_WORD: Register :=
    [true, false, true, false, true, false, true, false, true, false, true, false,
     true, true, false, false, false, false, false, false, false, true, true, true]

  /** The bit at `i`, false beyond the end. */
  predicate BitAt(r: Bits, i: nat) {
    i < |r| && r[i]
  }

  lemma StepAt(r: Register, i: nat)
    requires i < 24
    ensures Step(r)[i] == (BitAt(r, i + 1) != (r[0] && POLY_BITS[i]))
  {
  }

  /** Bit `i` after one shift, for a carry `t`. */
  predicate Shifted(r: Register, t: bool, i: nat) {
    BitAt(r, i + 1) != (t && BitAt(POLY_BITS, i))
  }

  lemma StepIsShifted(r: Register, i: nat)
    ensures BitAt(Step(r), i) == Shifted(r, r[0], i)
  {
    if i < 24 {
      StepAt(r, i);
    }
  }

  /** After three shifts bit `i` is the bit three places on, plus the carries' share. */
  lemma ThreeStepsAt(r: Register, i: nat)
    requires i < 24
    ensures var one := Step(r); var two := Step(one);
            StepN(r, 3)[i] ==
            (((BitAt(r, i + 3) != (r[0] && BitAt(POLY_BITS, i + 2))) != (one[0] && BitAt(POLY_BITS, i + 1)))
             != (two[0] && POLY_BITS[i]))
  {
    hide Step;
    var one := Step(r);
    var two := Step(one);
    assert StepN(r, 1) == Step(StepN(r, 0));
    assert StepN(r, 3) == Step(two);
    StepIsShifted(two, i);
    StepIsShifted(one, i + 1);
    StepIsShifted(r, i + 2);
  }

  /** A word that three shifts leave alone is determined, from the bottom up, by its three carries. */
  lemma LastByteByCarries(c: Register, one: Register, two: Register)
    requires StepN(c, 3) == c && one == Step(c) && two == Step(one)
    ensures c[23] == two[0] && c[22] == one[0] && c[21] == c[0]
    ensures !c[20] && !c[19] && !c[18]
  {
    hide Step, StepN;
    ThreeStepsAt(c, 23);
    ThreeStepsAt(c, 22);
    ThreeStepsAt(c, 21);
    ThreeStepsAt(c, 20);
    ThreeStepsAt(c, 19);
    ThreeStepsAt(c, 18);
  }

  lemma LowHalfByCarries(c: Register, one: Register, two: Register)
    requires StepN(c, 3) == c && one == Step(c) && two == Step(one)
    ensures c[23] == two[0] && c[22] == one[0] && c[21] == c[0]
    ensures forall i :: 14 <= i <= 20 ==> !c[i]
    ensures c[13] == two[0] && c[12] == one[0]
  {
    hide Step, StepN;
    LastByteByCarries(c, one, two);
    ThreeStepsAt(c, 17);
    ThreeStepsAt(c, 16);
    ThreeStepsAt(c, 15);
    ThreeStepsAt(c, 14);
    ThreeStepsAt(c, 13);
    ThreeStepsAt(c, 12);
  }

  /** Three places up in the part of the generator that is all ones. */
  lemma HighBitByCarries(c: Register, one: Register, two: Register, i: nat)
    requires StepN(c, 3) == c && one == Step(c) && two == Step(one) && i < 10
    ensures c[i] == (((c[i + 3] != c[0]) != one[0]) != two[0])
  {
    hide Step, StepN;
    ThreeStepsAt(c, i);
  }

  lemma HighHalfByCarries(c: Register, one: Register, two: Register)
    requires StepN(c, 3) == c && one == Step(c) && two == Step(one)
    ensures forall i :: 0 <= i < 12 ==> c[i] == if i % 2 == 0 then one[0] else c[0] != two[0]
  {
    hide Step, StepN;
    LowHalfByCarries(c, one, two);
    ThreeStepsAt(c, 11);
    ThreeStepsAt(c, 10);
    HighBitByCarries(c, one, two, 9);
    HighBitByCarries(c, one, two, 8);
    HighBitByCarries(c, one, two, 7);
    HighBitByCarries(c, one, two, 6);
    HighBitByCarries(c, one, two, 5);
    HighBitByCarries(c, one, two, 4);
    HighBitByCarries(c, one, two, 3);
    HighBitByCarries(c, one, two, 2);
    HighBitByCarries(c, one, two, 1);
    HighBitByCarries(c, one, two, 0);
  }

  /** Three shifts fix no words but zero and AAAC07. */
  lemma FixedByThreeSteps(c: Register)
    requires StepN(c, 3) == c
    ensures c == ZERO || c == FIXED_WORD
  {
    hide StepN;
    var one := Step(c);
    var two := Step(one);
    LowHalfByCarries(c, one, two);
    HighHalfByCarries(c, one, two);
    StepIsShifted(c, 0);
    StepIsShifted(c, 1);
    StepIsShifted(one, 0);
    hide Step;
    assert c[0] == one[0] && one[0] == two[0];
    if !c[0] {
      assert c == ZERO;
    } else {
      assert c == FIXED_WORD;
    }
  }

  lemma StepFixesFixedWord()
    ensures Step(FIXED_WORD) == FIXED_WORD
  {
    var shifted: Register :=
      [false, true, false, true, false, true, false, true, false, true, false, true,
       true, false, false, false, false, false, false, false, true, true, true, false];
    assert FIXED_WORD[1..] + [false] == shifted;
    assert Xor(FIXED_WORD, POLY_BITS) == shifted;
    XorTwice(FIXED_WORD, POLY_BITS);
  }

  lemma XorTwice(a: Register, b: Register)
    ensures Xor(Xor(a, b), b) == a
  {
  }

  /** Three times 1010, then 11, seven zeros, 1 and 11: eleven set bits. */
  lemma FixedWordIsOdd()
    ensures Odd(FIXED_WORD)
  {
    var quad: Bits := [true, false, true, false];
    var pair: Bits := [true, true];
    var one: Bits := [true];
    assert FIXED_WORD == quad + quad + quad + pair + Zeros(7) + one + pair;
    hide Odd;
    OddConcat(quad + quad + quad + pair + Zeros(7) + one, pair);
    OddConcat(quad + quad + quad + pair + Zeros(7), one);
    OddConcat(quad + quad + quad + pair, Zeros(7));
    OddConcat(quad + quad + quad, pair);
    OddConcat(quad + quad, quad);
    OddConcat(quad, quad);
    assert quad == Xor(Unit(4, 0), Unit(4, 2));
    OddXor(Unit(4, 0), Unit(4, 2));
    OddUnit(4, 0);
    OddUnit(4, 2);
    OddZeros(7);
    assert one == Unit(1, 0);
    OddUnit(1, 0);
  }

  // --- Twenty-four shifts ------------------------------------------------------------------

  /** What `n` shifts change in a word. */
  function Change(a: Register, n: nat): Register {
    Xor(StepN(a, n), a)
  }

  lemma ChangeIsEven(a: Register, n: nat)
    ensures !Odd(Change(a, n))
  {
    OddXor(StepN(a, n), a);
    StepNKeepsParity(a, n);
  }

  /** If 2n shifts fix a word, n shifts fix what n shifts change in it. */
  lemma ChangeIsFixed(a: Register, n: nat)
    requires StepN(a, 2 * n) == a
    ensures StepN(Change(a, n), n) == Change(a, n)
    ensures Change(a, n) == ZERO ==> StepN(a, n) == a
  {
    StepNXor(StepN(a, n), a, n);
    StepNAdd(a, n, n);
    hide StepN;
    assert Xor(a, StepN(a, n)) == Xor(StepN(a, n), a);
    if Change(a, n) == ZERO {
      forall i | 0 <= i < 24
        ensures StepN(a, n)[i] == a[i]
      {
        assert Change(a, n)[i] == ZERO[i];
      }
    }
  }

  /** Of the numbers of shifts that lead from 3 to 24 by doubling. */
  predicate Doubling(n: nat) {
    n == 3 || n == 6 || n == 12
  }

  lemma {:induction false} FixedByHalf(a: Register, n: nat)
    requires Doubling(n) && StepN(a, 2 * n) == a
    ensures StepN(a, n) == a
    decreases n, 1
  {
    hide StepN;
    ChangeIsEven(a, n);
    ChangeIsFixed(a, n);
    EvenFixedIsZero(Change(a, n), n);
  }

  lemma {:induction false} EvenFixedIsZero(c: Register, n: nat)
    requires Doubling(n) && !Odd(c) && StepN(c, n) == c
    ensures c == ZERO
    decreases n, 0
  {
    hide StepN;
    if n == 3 {
      FixedByThreeSteps(c);
      FixedWordIsOdd();
    } else {
      FixedByHalf(c, n / 2);
      EvenFixedIsZero(c, n / 2);
    }
  }

  lemma {:induction false} FixedWordStays(n: nat)
    ensures StepN(FIXED_WORD, n) == FIXED_WORD
  {
    if n > 0 {
      hide Step;
      FixedWordStays(n - 1);
      StepFixesFixedWord();
    }
  }

  /** The checksum leaves exactly two words alone. */
  lemma ChecksumFixesIff(a: Register)
    ensures Checksum(a) == a <==> a == ZERO || a == FIXED_WORD
  {
    FeedIsLoad(ZERO, a);
    assert a + Zeros(0) == a && Xor(ZERO, a) == a;
    hide StepN, Step;
    assert Checksum(a) == StepN(a, 24);
    FixedWordStays(24);
    StepNZero(24);
    if StepN(a, 24) == a {
      FixedByHalf(a, 12);
      FixedByHalf(a, 6);
      FixedByHalf(a, 3);
      FixedByThreeSteps(a);
    }
  }
}
