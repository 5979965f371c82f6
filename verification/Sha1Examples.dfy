/** The operations and constants of FIPS 180-1 by what they mean, and its example in appendix A. */
module Sha1Examples {
  import opened ByteNumbers
  import opened Octets
  import opened Sha1Spec

  // ----- the circular shifts of section 3

  /** One place to the left: the top bit comes back at the bottom. */
  lemma ShiftOne(x: bv32)
    ensures S1(x) & 1 == x >> 31 && S1(x) >> 1 == x & 0x7FFF_FFFF
  {}

  /** Five times one place. */
  lemma ShiftFive(x: bv32)
    ensures S5(x) == S1(S1(S1(S1(S1(x)))))
  {}

  /** Thirty places to the left are two to the right. */
  lemma ShiftThirty(x: bv32)
    ensures S1(S1(S30(x))) == x
  {}

  // ----- the constants of section 6

  /** k is the integer part of 2^30 times the square root of n. */
  predicate IsRoot(k: nat, n: nat) {
    k * k <= n * 0x1000_0000_0000_0000 < (k + 1) * (k + 1)
  }

  /** The four constants are 2^30 times the square roots of 2, 3, 5 and 10. */
  lemma Constants(t: nat)
    ensures K(t) == if t < 20 then 0x5A82_7999 else if t < 40 then 0x6ED9_EBA1 else if t < 60 then 0x8F1B_BCDC else 0xCA62_C1D6
    ensures IsRoot(0x5A82_7999, 2) && IsRoot(0x6ED9_EBA1, 3) && IsRoot(0x8F1B_BCDC, 5) && IsRoot(0xCA62_C1D6, 10)
  {}

  /** The initial value is the byte sequence 01 23 .. EF, FE .. 10, F0 E1 D2 C3, as words with the least byte first. */
  lemma InitialValue()
    ensures Output(H0) == [0x67, 0x45, 0x23, 0x01, 0xEF, 0xCD, 0xAB, 0x89, 0x98, 0xBA, 0xDC, 0xFE, 0x10, 0x32, 0x54, 0x76, 0xC3, 0xD2, 0xE1, 0xF0]
  {}

  // ----- appendix A: the message "abc"

  const ABC: Octets := [0x61, 0x62, 0x63]
  const BLOCK: Block64 := [0x61, 0x62, 0x63, 0x80] + Zeros(59) + [0x18]

  /** Sixteen words of the sequence W in a row. */
  datatype Sixteen = Sixteen(w0: bv32, w1: bv32, w2: bv32, w3: bv32, w4: bv32, w5: bv32, w6: bv32, w7: bv32, w8: bv32, w9: bv32, w10: bv32,
    w11: bv32, w12: bv32, w13: bv32, w14: bv32, w15: bv32)

  /** The sixteen words behind them. */
  function NextSixteen(b: Sixteen): Sixteen {
    var x0 := S1(Xor4(b.w13, b.w8, b.w2, b.w0));
    var x1 := S1(Xor4(b.w14, b.w9, b.w3, b.w1));
    var x2 := S1(Xor4(b.w15, b.w10, b.w4, b.w2));
    var x3 := S1(Xor4(x0, b.w11, b.w5, b.w3));
    var x4 := S1(Xor4(x1, b.w12, b.w6, b.w4));
    var x5 := S1(Xor4(x2, b.w13, b.w7, b.w5));
    var x6 := S1(Xor4(x3, b.w14, b.w8, b.w6));
    var x7 := S1(Xor4(x4, b.w15, b.w9, b.w7));
    var x8 := S1(Xor4(x5, x0, b.w10, b.w8));
    var x9 := S1(Xor4(x6, x1, b.w11, b.w9));
    var x10 := S1(Xor4(x7, x2, b.w12, b.w10));
    var x11 := S1(Xor4(x8, x3, b.w13, b.w11));
    var x12 := S1(Xor4(x9, x4, b.w14, b.w12));
    var x13 := S1(Xor4(x10, x5, b.w15, b.w13));
    var x14 := S1(Xor4(x11, x6, x0, b.w14));
    var x15 := S1(Xor4(x12, x7, x1, b.w15));
    Sixteen(x0, x1, x2, x3, x4, x5, x6, x7, x8, x9, x10, x11, x12, x13, x14, x15)
  }

  /** b holds the words from t on. */
  predicate At(m: Words, t: nat, b: Sixteen) {
    && W(m, t) == b.w0 && W(m, t + 1) == b.w1 && W(m, t + 2) == b.w2 && W(m, t + 3) == b.w3
    && W(m, t + 4) == b.w4 && W(m, t + 5) == b.w5 && W(m, t + 6) == b.w6 && W(m, t + 7) == b.w7
    && W(m, t + 8) == b.w8 && W(m, t + 9) == b.w9 && W(m, t + 10) == b.w10 && W(m, t + 11) == b.w11
    && W(m, t + 12) == b.w12 && W(m, t + 13) == b.w13 && W(m, t + 14) == b.w14 && W(m, t + 15) == b.w15
  }

  lemma NextFields(b: Sixteen)
    ensures var x := NextSixteen(b);
      && x.w0 == S1(Xor4(b.w13, b.w8, b.w2, b.w0))
      && x.w1 == S1(Xor4(b.w14, b.w9, b.w3, b.w1))
      && x.w2 == S1(Xor4(b.w15, b.w10, b.w4, b.w2))
      && x.w3 == S1(Xor4(x.w0, b.w11, b.w5, b.w3))
      && x.w4 == S1(Xor4(x.w1, b.w12, b.w6, b.w4))
      && x.w5 == S1(Xor4(x.w2, b.w13, b.w7, b.w5))
      && x.w6 == S1(Xor4(x.w3, b.w14, b.w8, b.w6))
      && x.w7 == S1(Xor4(x.w4, b.w15, b.w9, b.w7))
      && x.w8 == S1(Xor4(x.w5, x.w0, b.w10, b.w8))
      && x.w9 == S1(Xor4(x.w6, x.w1, b.w11, b.w9))
      && x.w10 == S1(Xor4(x.w7, x.w2, b.w12, b.w10))
      && x.w11 == S1(Xor4(x.w8, x.w3, b.w13, b.w11))
      && x.w12 == S1(Xor4(x.w9, x.w4, b.w14, b.w12))
      && x.w13 == S1(Xor4(x.w10, x.w5, b.w15, b.w13))
      && x.w14 == S1(Xor4(x.w11, x.w6, x.w0, b.w14))
      && x.w15 == S1(Xor4(x.w12, x.w7, x.w1, b.w15))
  {
    hide S1, Xor4;
  }

  lemma WordsAfter(m: Words, t: nat, b: Sixteen)
    requires At(m, t, b)
    ensures At(m, t + 16, NextSixteen(b))
  {
    hide W, S1, Xor4, NextSixteen;
    NextFields(b);
    NextW(m, t + 0); NextW(m, t + 1); NextW(m, t + 2); NextW(m, t + 3);
    NextW(m, t + 4); NextW(m, t + 5); NextW(m, t + 6); NextW(m, t + 7);
    NextW(m, t + 8); NextW(m, t + 9); NextW(m, t + 10); NextW(m, t + 11);
    NextW(m, t + 12); NextW(m, t + 13); NextW(m, t + 14); NextW(m, t + 15);
  }

  lemma NextW(m: Words, t: nat)
    ensures W(m, t + 16) == S1(Xor4(W(m, t + 13), W(m, t + 8), W(m, t + 2), W(m, t)))
  {}

  function Eight(r: Registers, t: nat, a: bv32, b: bv32, c: bv32, d: bv32, e: bv32, f: bv32, g: bv32, h: bv32): Registers {
    Round(Round(Round(Round(Round(Round(Round(Round(r, t, a), t + 1, b), t + 2, c), t + 3, d), t + 4, e), t + 5, f), t + 6, g), t + 7, h)
  }

  /** The sixteen rounds from t on. */
  function SixteenRounds(r: Registers, t: nat, b: Sixteen): Registers {
    Eight(Eight(r, t, b.w0, b.w1, b.w2, b.w3, b.w4, b.w5, b.w6, b.w7), t + 8, b.w8, b.w9, b.w10, b.w11, b.w12, b.w13, b.w14, b.w15)
  }

  lemma RoundsAfter(h: Registers, m: Words, t: nat, b: Sixteen)
    requires At(m, t, b)
    ensures Rounds(h, m, t + 16) == SixteenRounds(Rounds(h, m, t), t, b)
  {
    hide W, Round;
    EightAfter(h, m, t);
    EightAfter(h, m, t + 8);
  }

  lemma EightAfter(h: Registers, m: Words, t: nat)
    ensures Rounds(h, m, t + 8) == Eight(Rounds(h, m, t), t, W(m, t), W(m, t + 1), W(m, t + 2), W(m, t + 3), W(m, t + 4), W(m, t + 5), W(m, t + 6), W(m, t + 7))
  {
    hide W, Round;
    assert Rounds(h, m, t + 2) == Round(Rounds(h, m, t + 1), t + 1, W(m, t + 1));
    assert Rounds(h, m, t + 4) == Round(Rounds(h, m, t + 3), t + 3, W(m, t + 3));
    assert Rounds(h, m, t + 6) == Round(Rounds(h, m, t + 5), t + 5, W(m, t + 5));
  }

  // The words, and the registers after every eight rounds.

  const B0 :=
    Sixteen(0x6162_6380, 0x0000_0000, 0x0000_0000, 0x0000_0000, 0x0000_0000, 0x0000_0000, 0x0000_0000, 0x0000_0000, 0x0000_0000,
    0x0000_0000, 0x0000_0000, 0x0000_0000, 0x0000_0000, 0x0000_0000, 0x0000_0000, 0x0000_0018)
  const B1 :=
    Sixteen(0xC2C4_C700, 0x0000_0000, 0x0000_0030, 0x8589_8E01, 0x0000_0000, 0x0000_0060, 0x0B13_1C03, 0x0000_0030, 0x8589_8EC1,
    0x1626_3806, 0x0000_0000, 0x0000_0180, 0x2C4C_700C, 0x0000_00F0, 0x93AF_B507, 0x5898_E048)
  const B2 :=
    Sixteen(0x8E9A_9202, 0x0000_0600, 0xB131_C0F0, 0x1626_3BC6, 0x4EBE_D41E, 0x6263_80A1, 0x1626_3806, 0x0000_18C0, 0xD2E1_38C4,
    0x0000_0F00, 0x3AFB_5079, 0x898E_04E5, 0xE2BA_3C2B, 0x0000_60C0, 0x053A_37CD, 0x7445_8547)
  const B3 :=
    Sixteen(0xDA94_15ED, 0x2638_0A16, 0x6263_83A1, 0x4EBF_54DE, 0x3835_B44B, 0x0000_F600, 0x1E84_C7A3, 0x98E0_4D98, 0x651D_16A0,
    0x6265_8CA1, 0x4585_44D6, 0x4458_4CB7, 0x7BA0_6619, 0x6380_AEA2, 0x0AE5_5269, 0x627B_49A1)
  const B4 :=
    Sixteen(0x7CD4_5C9D, 0x000F_0000, 0xFB50_753A, 0xEC67_65E8, 0xBA3C_2BE2, 0x0060_C000, 0x3A37_CD05, 0x4585_46F4, 0xB859_9DD6,
    0x380A_1A26, 0x01E0_2203, 0xE7CC_3456, 0xE6E6_0B69, 0x00F6_0A00, 0x5795_EF4F, 0x822E_0879)

  const R8 := Registers(0x9E8C_07D4, 0x993E_30C1, 0x0FF1_F290, 0xB3F5_2677, 0xF376_3846)
  const R16 := Registers(0x20BD_D62F, 0x196B_EE77, 0x644A_3DA5, 0x1181_ED99, 0x18C6_23F9)
  const R24 := Registers(0xD541_F12D, 0x2128_3486, 0x0CE8_8EFF, 0x868D_EC32, 0x7F67_875F)
  const R32 := Registers(0x3B84_5D33, 0x1267_B407, 0x717E_EBD7, 0xA0DC_2D4B, 0xD2AA_1365)
  const R40 := Registers(0x32DE_1CBA, 0x4C98_6405, 0xF718_E5CF, 0x03D4_47F6, 0xF72E_EC32)
  const R48 := Registers(0xBEAD_02CA, 0xA01B_846C, 0x8714_787C, 0x503C_A382, 0xFB86_C6AB)
  const R56 := Registers(0x5E64_56AF, 0x7B71_F76D, 0x09FA_7C76, 0x7924_10DB, 0x8E11_EB59)
  const R64 := Registers(0x6B61_C9E1, 0xB66C_020B, 0x9523_272C, 0xF5D5_B051, 0x8FD4_B796)
  const R72 := Registers(0x3985_9DE7, 0xC199_F8C7, 0x8FC9_6230, 0x125C_24F0, 0xDE37_534A)
  const R80 := Registers(0x4254_1B35, 0x5738_D5E1, 0x2183_4873, 0x681E_6DF6, 0xD8FD_F6AD)

  lemma WordsOfBlock()
    ensures NextSixteen(B0) == B1 && NextSixteen(B1) == B2 && NextSixteen(B2) == B3 && NextSixteen(B3) == B4
  {}

  lemma RoundsFrom0()
    ensures Eight(H0, 0, B0.w0, B0.w1, B0.w2, B0.w3, B0.w4, B0.w5, B0.w6, B0.w7) == R8
  {}

  lemma RoundsFrom8()
    ensures Eight(R8, 8, B0.w8, B0.w9, B0.w10, B0.w11, B0.w12, B0.w13, B0.w14, B0.w15) == R16
  {}

  lemma RoundsFrom16()
    ensures Eight(R16, 16, B1.w0, B1.w1, B1.w2, B1.w3, B1.w4, B1.w5, B1.w6, B1.w7) == R24
  {}

  lemma RoundsFrom24()
    ensures Eight(R24, 24, B1.w8, B1.w9, B1.w10, B1.w11, B1.w12, B1.w13, B1.w14, B1.w15) == R32
  {}

  lemma RoundsFrom32()
    ensures Eight(R32, 32, B2.w0, B2.w1, B2.w2, B2.w3, B2.w4, B2.w5, B2.w6, B2.w7) == R40
  {}

  lemma RoundsFrom40()
    ensures Eight(R40, 40, B2.w8, B2.w9, B2.w10, B2.w11, B2.w12, B2.w13, B2.w14, B2.w15) == R48
  {}

  lemma RoundsFrom48()
    ensures Eight(R48, 48, B3.w0, B3.w1, B3.w2, B3.w3, B3.w4, B3.w5, B3.w6, B3.w7) == R56
  {}

  lemma RoundsFrom56()
    ensures Eight(R56, 56, B3.w8, B3.w9, B3.w10, B3.w11, B3.w12, B3.w13, B3.w14, B3.w15) == R64
  {}

  lemma RoundsFrom64()
    ensures Eight(R64, 64, B4.w0, B4.w1, B4.w2, B4.w3, B4.w4, B4.w5, B4.w6, B4.w7) == R72
  {}

  lemma RoundsFrom72()
    ensures Eight(R72, 72, B4.w8, B4.w9, B4.w10, B4.w11, B4.w12, B4.w13, B4.w14, B4.w15) == R80
  {}

  lemma BlockBytes()
    ensures |BLOCK| == 64 && BLOCK[0] == 0x61 && BLOCK[1] == 0x62 && BLOCK[2] == 0x63 && BLOCK[3] == 0x80 && BLOCK[63] == 0x18
    ensures forall i | 4 <= i < 63 :: BLOCK[i] == 0
  {}

  lemma WordAt(b: Block64, t: nat)
    requires t < 16
    ensures W(BlockWords(b), t) == Word(b, 4 * t)
  {
    hide Word;
  }

  lemma ZeroWord(b: Block64, at: nat)
    requires at + 4 <= 64 && b[at] == b[at + 1] == b[at + 2] == b[at + 3] == 0
    ensures Word(b, at) == 0
  {}

  lemma EndWords()
    ensures Word(BLOCK, 0) == 0x6162_6380 && Word(BLOCK, 60) == 0x18
  {
    BlockBytes();
    hide BLOCK;
  }

  lemma AbcWords()
    ensures At(BlockWords(BLOCK), 0, B0)
  {
    hide W, Word, BLOCK, BlockWords;
    BlockBytes();
    EndWords();
    forall t | 0 <= t < 16 ensures W(BlockWords(BLOCK), t) == Word(BLOCK, 4 * t) { WordAt(BLOCK, t); }
    forall t | 1 <= t < 15 ensures Word(BLOCK, 4 * t) == 0 { ZeroWord(BLOCK, 4 * t); }
  }

  /** One block after the padding of section 4. */
  lemma AbcPadded()
    ensures PaddedAs(ABC, 3) == BLOCK
  {
    hide Byte, BigEndian;
    TwentyFour();
    assert Filler(3) == 52 && 8 * 3 % BITS == 24;
    assert Zeros(52) + Zeros(7) == Zeros(59);
    assert PaddedAs(ABC, 3) == ABC + [0x80] + (Zeros(52) + Zeros(7)) + [0x18];
  }

  lemma TwentyFour()
    ensures BigEndian(24, 8) == Zeros(7) + [0x18]
  {
    hide Byte, BigEndian;
    SmallBytes();
    ZeroNumber(7);
    BigEndianStep(24, 8);
  }

  lemma BigEndianStep(v: nat, n: nat)
    requires n > 0
    ensures BigEndian(v, n) == BigEndian(v / 256, n - 1) + [Byte(v % 256)]
  {}

  lemma {:induction false} ZeroNumber(n: nat)
    ensures BigEndian(0, n) == Zeros(n)
  {
    hide Byte;
    SmallBytes();
    if n > 0 {
      ZeroNumber(n - 1);
      assert Zeros(n - 1) + [0] == Zeros(n);
    }
  }

  lemma SmallBytes()
    ensures Byte(0) == 0 && Byte(24) == 0x18
  {}

  lemma AbcRounds()
    ensures Rounds(H0, BlockWords(BLOCK), 80) == R80
  {
    hide *;
    var m := BlockWords(BLOCK);
    WordsOfBlock();
    AbcWords();
    WordsAfter(m, 0, B0);
    WordsAfter(m, 16, B1);
    WordsAfter(m, 32, B2);
    WordsAfter(m, 48, B3);
    RoundsAfter(H0, m, 0, B0);
    RoundsAfter(H0, m, 16, B1);
    RoundsAfter(H0, m, 32, B2);
    RoundsAfter(H0, m, 48, B3);
    RoundsAfter(H0, m, 64, B4);
    NoRounds(m);
    RoundsFrom0(); RoundsFrom8(); RoundsFrom16(); RoundsFrom24(); RoundsFrom32();
    RoundsFrom40(); RoundsFrom48(); RoundsFrom56(); RoundsFrom64(); RoundsFrom72();
    BothHalves(H0, 0, B0);
    BothHalves(R16, 16, B1);
    BothHalves(R32, 32, B2);
    BothHalves(R48, 48, B3);
    BothHalves(R64, 64, B4);
  }

  lemma BothHalves(r: Registers, t: nat, b: Sixteen)
    ensures SixteenRounds(r, t, b) ==
      Eight(Eight(r, t, b.w0, b.w1, b.w2, b.w3, b.w4, b.w5, b.w6, b.w7), t + 8, b.w8, b.w9, b.w10, b.w11, b.w12, b.w13, b.w14, b.w15)
  {}

  lemma NoRounds(m: Words)
    ensures Rounds(H0, m, 0) == H0
  {}

  lemma OneBlock(b: Block64)
    ensures Fold(H0, b) == Compress(H0, BlockWords(b))
  {
    hide Compress, BlockWords;
    assert b[..0] == [] && b[0..] == b;
  }

  /** The sum of the last registers and the initial value, byte by byte. */
  lemma AbcOutput()
    ensures Output(Registers(Add(H0.a, R80.a), Add(H0.b, R80.b), Add(H0.c, R80.c), Add(H0.d, R80.d), Add(H0.e, R80.e))) == DIGEST
  {}

  const DIGEST: Octets := [0xA9, 0x99, 0x3E, 0x36, 0x47, 0x06, 0x81, 0x6A, 0xBA, 0x3E, 0x25, 0x71, 0x78, 0x50, 0xC2, 0x6C, 0x9C, 0xD0, 0xD8, 0x9D]

  /** The digest of "abc". */
  lemma AbcDigest()
    ensures Digest(ABC) == DIGEST
  {
    hide Fold, Output, BlockWords, BLOCK, DIGEST, R80, Rounds, H0, Add, PaddedAs;
    AbcPadded();
    OneBlock(BLOCK);
    AbcRounds();
    AbcOutput();
  }
}
