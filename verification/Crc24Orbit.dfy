/**
 The order of the shift step: a lone top bit does not come back to the top within 111
 shifts. The register is read as an integer so that each shift is plain arithmetic.
 */
module Crc24Orbit {
  import opened Gf2
  import opened BitValue
  import opened Crc24Register

  /** One shift on the integer value; 0xFFF409 is 0xFFF followed by weights 1024, 8 and 1. */
  function StepValue(v: int): int {
    if v < 0x80_0000 then 2 * v else AddPoly(2 * v - 0x100_0000)
  }

  /** Addition of the generator to an even register value. */
  function AddPoly(u: int): int {
    0xFFF001 - u + 2 * (u % 4096)
    + (if u % 2048 < 1024 then 1024 else -1024)
    + (if u % 16 < 8 then 8 else -8)
  }

  const ONES12: Bits := [true, true, true, true, true, true, true, true, true, true, true, true]

  lemma {:induction false} ComplementValue(a: Bits, ones: Bits)
    requires |a| == |ones| && forall i :: 0 <= i < |ones| ==> ones[i]
    ensures Value(Xor(a, ones)) == Pow2(|a|) - 1 - Value(a)
  {
    if |a| > 0 {
      var n := |a| - 1;
      ComplementValue(a[..n], ones[..n]);
      assert Xor(a, ones)[..n] == Xor(a[..n], ones[..n]);
    }
  }

  lemma AddPolyValue(s: Register)
    requires !s[23]
    ensures Value(Xor(s, POLY_BITS)) == AddPoly(Value(s))
  {
    Pow2Values();
    var hi, lo := s[..12], s[12..];
    assert s == hi + lo;
    ValueConcat(hi, lo);
    DivModUnique(Value(hi), 4096, Value(lo));
    var lo1 := Flip(lo, 1);
    var lo2 := Flip(lo1, 8);
    var lo3 := Flip(lo2, 11);
    assert Xor(s, POLY_BITS) == Xor(hi, ONES12) + lo3;
    ValueConcat(Xor(hi, ONES12), lo3);
    ComplementValue(hi, ONES12);
    assert Pow2(10) == 1024 && Pow2(11) == 2048;
    ValueOfFlip(lo, 1);
    ValueOfFlip(lo1, 8);
    ValueOfFlip(lo2, 11);
    BitByRemainder(s, 13);
    BitByRemainder(s, 20);
  }

  lemma StepValueIsStep(r: Register)
    ensures Value(Step(r)) == StepValue(Value(r))
  {
    Pow2Values();
    var top, rest := r[..1], r[1..];
    assert r == top + rest;
    ValueConcat(top, rest);
    assert top[..0] == [];
    assert Value(top) == if r[0] then 1 else 0;
    assert (rest + [false])[..23] == rest;
    if r[0] {
      AddPolyValue(rest + [false]);
    }
  }

  function Steps(v: int, k: nat): int {
    if k == 0 then v else StepValue(Steps(v, k - 1))
  }

  lemma {:induction false} StepsValue(r: Register, k: nat)
    ensures Value(StepN(r, k)) == Steps(Value(r), k)
  {
    if k > 0 {
      StepsValue(r, k - 1);
      StepValueIsStep(StepN(r, k - 1));
    }
  }

  /** One shift without a carry. */
  lemma Doubles(start: int, k: nat, v: int)
    requires Steps(start, k) == v && v < 0x80_0000
    ensures Steps(start, k + 1) == 2 * v
  {
  }

  /** One shift with a carry, where the generator is added. */
  lemma Reduces(start: int, k: nat, v: int, u: int, w: int)
    requires Steps(start, k) == v && v >= 0x80_0000
    requires 2 * v == u + 0x100_0000 && w == AddPoly(u)
    ensures Steps(start, k + 1) == w
  {
  }

  lemma TopValue()
    ensures Value(TOP) == 0x80_0000
  {
    Pow2Values();
    var none: Bits := Zeros(24);
    assert TOP == Flip(none, 0);
    ValueOfFlip(none, 0);
    ValueOfZeros(24);
  }

  lemma Orbit1(start: int, k: nat)
    requires Steps(start, k) == 0x80_0000
    ensures Steps(start, k + 14) == 0x3E_4409
    ensures forall i | k < i <= k + 14 :: Steps(start, i) != 0x80_0000
  {
    hide Steps;
    Reduces(start, k, 0x80_0000, 0x00_0000, 0xFF_F409);
    Reduces(start, k + 1, 0xFF_F409, 0xFF_E812, 0x00_1C1B);
    Doubles(start, k + 2, 0x00_1C1B);
    Doubles(start, k + 3, 0x00_3836);
    Doubles(start, k + 4, 0x00_706C);
    Doubles(start, k + 5, 0x00_E0D8);
    Doubles(start, k + 6, 0x01_C1B0);
    Doubles(start, k + 7, 0x03_8360);
    Doubles(start, k + 8, 0x07_06C0);
    Doubles(start, k + 9, 0x0E_0D80);
    Doubles(start, k + 10, 0x1C_1B00);
    Doubles(start, k + 11, 0x38_3600);
    Doubles(start, k + 12, 0x70_6C00);
    Reduces(start, k + 13, 0xE0_D800, 0xC1_B000, 0x3E_4409);
  }

  lemma Orbit2(start: int, k: nat)
    requires Steps(start, k) == 0x3E_4409
    ensures Steps(start, k + 14) == 0xA0_1E91
    ensures forall i | k < i <= k + 14 :: Steps(start, i) != 0x80_0000
  {
    hide Steps;
    Doubles(start, k, 0x3E_4409);
    Doubles(start, k + 1, 0x7C_8812);
    Reduces(start, k + 2, 0xF9_1024, 0xF2_2048, 0x0D_D441);
    Doubles(start, k + 3, 0x0D_D441);
    Doubles(start, k + 4, 0x1B_A882);
    Doubles(start, k + 5, 0x37_5104);
    Doubles(start, k + 6, 0x6E_A208);
    Reduces(start, k + 7, 0xDD_4410, 0xBA_8820, 0x45_7C29);
    Doubles(start, k + 8, 0x45_7C29);
    Reduces(start, k + 9, 0x8A_F852, 0x15_F0A4, 0xEA_04AD);
    Reduces(start, k + 10, 0xEA_04AD, 0xD4_095A, 0x2B_FD53);
    Doubles(start, k + 11, 0x2B_FD53);
    Doubles(start, k + 12, 0x57_FAA6);
    Reduces(start, k + 13, 0xAF_F54C, 0x5F_EA98, 0xA0_1E91);
  }

  lemma Orbit3(start: int, k: nat)
    requires Steps(start, k) == 0xA0_1E91
    ensures Steps(start, k + 14) == 0x15_B82D
    ensures forall i | k < i <= k + 14 :: Steps(start, i) != 0x80_0000
  {
    hide Steps;
    Reduces(start, k, 0xA0_1E91, 0x40_3D22, 0xBF_C92B);
    Reduces(start, k + 1, 0xBF_C92B, 0x7F_9256, 0x80_665F);
    Reduces(start, k + 2, 0x80_665F, 0x00_CCBE, 0xFF_38B7);
    Reduces(start, k + 3, 0xFF_38B7, 0xFE_716E, 0x01_8567);
    Doubles(start, k + 4, 0x01_8567);
    Doubles(start, k + 5, 0x03_0ACE);
    Doubles(start, k + 6, 0x06_159C);
    Doubles(start, k + 7, 0x0C_2B38);
    Doubles(start, k + 8, 0x18_5670);
    Doubles(start, k + 9, 0x30_ACE0);
    Doubles(start, k + 10, 0x61_59C0);
    Reduces(start, k + 11, 0xC2_B380, 0x85_6700, 0x7A_9309);
    Doubles(start, k + 12, 0x7A_9309);
    Reduces(start, k + 13, 0xF5_2612, 0xEA_4C24, 0x15_B82D);
  }

  lemma Orbit4(start: int, k: nat)
    requires Steps(start, k) == 0x15_B82D
    ensures Steps(start, k + 14) == 0x3F_6D11
    ensures forall i | k < i <= k + 14 :: Steps(start, i) != 0x80_0000
  {
    hide Steps;
    Doubles(start, k, 0x15_B82D);
    Doubles(start, k + 1, 0x2B_705A);
    Doubles(start, k + 2, 0x56_E0B4);
    Reduces(start, k + 3, 0xAD_C168, 0x5B_82D0, 0xA4_76D9);
    Reduces(start, k + 4, 0xA4_76D9, 0x48_EDB2, 0xB7_19BB);
    Reduces(start, k + 5, 0xB7_19BB, 0x6E_3376, 0x91_C77F);
    Reduces(start, k + 6, 0x91_C77F, 0x23_8EFE, 0xDC_7AF7);
    Reduces(start, k + 7, 0xDC_7AF7, 0xB8_F5EE, 0x47_01E7);
    Doubles(start, k + 8, 0x47_01E7);
    Reduces(start, k + 9, 0x8E_03CE, 0x1C_079C, 0xE3_F395);
    Reduces(start, k + 10, 0xE3_F395, 0xC7_E72A, 0x38_1323);
    Doubles(start, k + 11, 0x38_1323);
    Doubles(start, k + 12, 0x70_2646);
    Reduces(start, k + 13, 0xE0_4C8C, 0xC0_9918, 0x3F_6D11);
  }

  lemma Orbit5(start: int, k: nat)
    requires Steps(start, k) == 0x3F_6D11
    ensures Steps(start, k + 14) == 0xE5_F186
    ensures forall i | k < i <= k + 14 :: Steps(start, i) != 0x80_0000
  {
    hide Steps;
    Doubles(start, k, 0x3F_6D11);
    Doubles(start, k + 1, 0x7E_DA22);
    Reduces(start, k + 2, 0xFD_B444, 0xFB_6888, 0x04_9C81);
    Doubles(start, k + 3, 0x04_9C81);
    Doubles(start, k + 4, 0x09_3902);
    Doubles(start, k + 5, 0x12_7204);
    Doubles(start, k + 6, 0x24_E408);
    Doubles(start, k + 7, 0x49_C810);
    Reduces(start, k + 8, 0x93_9020, 0x27_2040, 0xD8_D449);
    Reduces(start, k + 9, 0xD8_D449, 0xB1_A892, 0x4E_5C9B);
    Doubles(start, k + 10, 0x4E_5C9B);
    Reduces(start, k + 11, 0x9C_B936, 0x39_726C, 0xC6_8665);
    Reduces(start, k + 12, 0xC6_8665, 0x8D_0CCA, 0x72_F8C3);
    Doubles(start, k + 13, 0x72_F8C3);
  }

  lemma Orbit6(start: int, k: nat)
    requires Steps(start, k) == 0xE5_F186
    ensures Steps(start, k + 14) == 0xC3_97DB
    ensures forall i | k < i <= k + 14 :: Steps(start, i) != 0x80_0000
  {
    hide Steps;
    Reduces(start, k, 0xE5_F186, 0xCB_E30C, 0x34_1705);
    Doubles(start, k + 1, 0x34_1705);
    Doubles(start, k + 2, 0x68_2E0A);
    Reduces(start, k + 3, 0xD0_5C14, 0xA0_B828, 0x5F_4C21);
    Doubles(start, k + 4, 0x5F_4C21);
    Reduces(start, k + 5, 0xBE_9842, 0x7D_3084, 0x82_C48D);
    Reduces(start, k + 6, 0x82_C48D, 0x05_891A, 0xFA_7D13);
    Reduces(start, k + 7, 0xFA_7D13, 0xF4_FA26, 0x0B_0E2F);
    Doubles(start, k + 8, 0x0B_0E2F);
    Doubles(start, k + 9, 0x16_1C5E);
    Doubles(start, k + 10, 0x2C_38BC);
    Doubles(start, k + 11, 0x58_7178);
    Reduces(start, k + 12, 0xB0_E2F0, 0x61_C5E0, 0x9E_31E9);
    Reduces(start, k + 13, 0x9E_31E9, 0x3C_63D2, 0xC3_97DB);
  }

  lemma Orbit7(start: int, k: nat)
    requires Steps(start, k) == 0xC3_97DB
    ensures Steps(start, k + 14) == 0xD2_D426
    ensures forall i | k < i <= k + 14 :: Steps(start, i) != 0x80_0000
  {
    hide Steps;
    Reduces(start, k, 0xC3_97DB, 0x87_2FB6, 0x78_DBBF);
    Doubles(start, k + 1, 0x78_DBBF);
    Reduces(start, k + 2, 0xF1_B77E, 0xE3_6EFC, 0x1C_9AF5);
    Doubles(start, k + 3, 0x1C_9AF5);
    Doubles(start, k + 4, 0x39_35EA);
    Doubles(start, k + 5, 0x72_6BD4);
    Reduces(start, k + 6, 0xE4_D7A8, 0xC9_AF50, 0x36_5B59);
    Doubles(start, k + 7, 0x36_5B59);
    Doubles(start, k + 8, 0x6C_B6B2);
    Reduces(start, k + 9, 0xD9_6D64, 0xB2_DAC8, 0x4D_2EC1);
    Doubles(start, k + 10, 0x4D_2EC1);
    Reduces(start, k + 11, 0x9A_5D82, 0x34_BB04, 0xCB_4F0D);
    Reduces(start, k + 12, 0xCB_4F0D, 0x96_9E1A, 0x69_6A13);
    Doubles(start, k + 13, 0x69_6A13);
  }

  lemma Orbit8(start: int, k: nat)
    requires Steps(start, k) == 0xD2_D426
    ensures Steps(start, k + 14) == 0x16_C19E
    ensures forall i | k < i <= k + 14 :: Steps(start, i) != 0x80_0000
  {
    hide Steps;
    Reduces(start, k, 0xD2_D426, 0xA5_A84C, 0x5A_5C45);
    Doubles(start, k + 1, 0x5A_5C45);
    Reduces(start, k + 2, 0xB4_B88A, 0x69_7114, 0x96_851D);
    Reduces(start, k + 3, 0x96_851D, 0x2D_0A3A, 0xD2_FE33);
    Reduces(start, k + 4, 0xD2_FE33, 0xA5_FC66, 0x5A_086F);
    Doubles(start, k + 5, 0x5A_086F);
    Reduces(start, k + 6, 0xB4_10DE, 0x68_21BC, 0x97_D5B5);
    Reduces(start, k + 7, 0x97_D5B5, 0x2F_AB6A, 0xD0_5F63);
    Reduces(start, k + 8, 0xD0_5F63, 0xA0_BEC6, 0x5F_4ACF);
    Doubles(start, k + 9, 0x5F_4ACF);
    Reduces(start, k + 10, 0xBE_959E, 0x7D_2B3C, 0x82_DF35);
    Reduces(start, k + 11, 0x82_DF35, 0x05_BE6A, 0xFA_4A63);
    Reduces(start, k + 12, 0xFA_4A63, 0xF4_94C6, 0x0B_60CF);
    Doubles(start, k + 13, 0x0B_60CF);
  }

  lemma Orbit(start: int, k: nat)
    requires Steps(start, k) == 0x80_0000
    ensures forall i | k < i <= k + 112 :: Steps(start, i) != 0x80_0000
  {
    Orbit1(start, k + 0);
    Orbit2(start, k + 14);
    Orbit3(start, k + 28);
    Orbit4(start, k + 42);
    Orbit5(start, k + 56);
    Orbit6(start, k + 70);
    Orbit7(start, k + 84);
    Orbit8(start, k + 98);
  }

  /** A lone top bit meets itself again at none of the next 111 shifts. */
  lemma TopDoesNotReturn(k: nat)
    requires 1 <= k <= 111
    ensures StepN(TOP, k) != TOP
  {
    TopValue();
    StepsValue(TOP, k);
    Orbit(Value(TOP), 0);
  }
}
