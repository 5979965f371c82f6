/** The S-box of figure 7 of FIPS 197, and its examples of the key expansion and of the cipher. */
module AesExamples {
  import opened Aes
  import opened AesSpec
  import opened AesTables
  import opened Gf256

  // ----- the product without recursion

  function Step(a: bv8, b: bv8, rest: bv8): bv8 {
    if Odd(a) then Xor(b, rest) else rest
  }

  function Product(a0: bv8, b0: bv8): bv8 {
    var (a1, b1) := (Half(a0), XTime(b0));
    var (a2, b2) := (Half(a1), XTime(b1));
    var (a3, b3) := (Half(a2), XTime(b2));
    var (a4, b4) := (Half(a3), XTime(b3));
    var (a5, b5) := (Half(a4), XTime(b4));
    var (a6, b6) := (Half(a5), XTime(b5));
    var (a7, b7) := (Half(a6), XTime(b6));
    Step(a0, b0, Step(a1, b1, Step(a2, b2, Step(a3, b3, Step(a4, b4, Step(a5, b5, Step(a6, b6, Step(a7, b7, 0))))))))
  }

  lemma ProductIs(a0: bv8, b0: bv8)
    ensures Product(a0, b0) == Mul(a0, b0)
  {
    hide Mul, Half, Odd, XTime, Xor;
    var (a1, b1) := (Half(a0), XTime(b0));
    var (a2, b2) := (Half(a1), XTime(b1));
    var (a3, b3) := (Half(a2), XTime(b2));
    var (a4, b4) := (Half(a3), XTime(b3));
    var (a5, b5) := (Half(a4), XTime(b4));
    var (a6, b6) := (Half(a5), XTime(b5));
    var (a7, b7) := (Half(a6), XTime(b6));
    MulStep(a0, b0); MulStep(a1, b1); MulStep(a2, b2); MulStep(a3, b3);
    MulStep(a4, b4); MulStep(a5, b5); MulStep(a6, b6); MulStep(a7, b7);
    EightHalves(a0);
    MulZero(XTime(b7));
  }

  lemma EightHalves(a: bv8)
    ensures Half(Half(Half(Half(Half(Half(Half(Half(a)))))))) == 0
  {}

  lemma MulZero(b: bv8)
    ensures Mul(0, b) == 0
  {}

  // ----- the S-box

  /** The only inverse. */
  lemma InverseIsUnique(x: bv8, y: bv8)
    requires Mul(x, y) == 1
    ensures Inverse(x) == y
  {
    hide Mul, Power, Log;
    MulZero(y);
    MulRightZero(x);
    var i, j := Log(x), Log(y);
    PowerAdd(i, j);
    PowerStart();
    PowerPeriod();
    if i + j < 255 {
      PowerNotOne(i + j);
    } else if 255 < i + j < 510 {
      PowerAdd(255, i + j - 255);
      MulUnit(Power(i + j - 255));
      PowerNotOne(i + j - 255);
    }
  }

  lemma MulRightZero(x: bv8)
    ensures Mul(x, 0) == 0
  {
    hide Mul, Xor;
    MulRightLinear(x, 0, 0);
    XorSelf(0);
    XorSelf(Mul(x, 0));
  }

  lemma XorSelf(x: bv8)
    ensures Xor(x, x) == 0
  {}

  /** The S-box takes x to y. */
  ghost predicate Maps(x: bv8, y: bv8) {
    SubByte(x) == y
  }

  lemma MapsTo(x: bv8, y: bv8)
    requires Product(x, InvAffine(y)) == 1
    ensures Maps(x, y)
  {
    hide Product, Mul, Affine, InvAffine, Inverse;
    ProductIs(x, InvAffine(y));
    InverseIsUnique(x, InvAffine(y));
    AffineInverse(y);
  }

  lemma MapsZero()
    ensures Maps(0x00, 0x63)
  {}

  ghost predicate Rows01() {
    && Maps(0x00, 0x63) && Maps(0x01, 0x7C) && Maps(0x02, 0x77) && Maps(0x03, 0x7B) && Maps(0x04, 0xF2) && Maps(0x05, 0x6B) && Maps(0x06, 0x6F) && Maps(0x07, 0xC5)
    && Maps(0x08, 0x30) && Maps(0x09, 0x01) && Maps(0x0A, 0x67) && Maps(0x0B, 0x2B) && Maps(0x0C, 0xFE) && Maps(0x0D, 0xD7) && Maps(0x0E, 0xAB) && Maps(0x0F, 0x76)
    && Maps(0x10, 0xCA) && Maps(0x11, 0x82) && Maps(0x12, 0xC9) && Maps(0x13, 0x7D) && Maps(0x14, 0xFA) && Maps(0x15, 0x59) && Maps(0x16, 0x47) && Maps(0x17, 0xF0)
    && Maps(0x18, 0xAD) && Maps(0x19, 0xD4) && Maps(0x1A, 0xA2) && Maps(0x1B, 0xAF) && Maps(0x1C, 0x9C) && Maps(0x1D, 0xA4) && Maps(0x1E, 0x72) && Maps(0x1F, 0xC0)
  }

  ghost predicate Rows23() {
    && Maps(0x20, 0xB7) && Maps(0x21, 0xFD) && Maps(0x22, 0x93) && Maps(0x23, 0x26) && Maps(0x24, 0x36) && Maps(0x25, 0x3F) && Maps(0x26, 0xF7) && Maps(0x27, 0xCC)
    && Maps(0x28, 0x34) && Maps(0x29, 0xA5) && Maps(0x2A, 0xE5) && Maps(0x2B, 0xF1) && Maps(0x2C, 0x71) && Maps(0x2D, 0xD8) && Maps(0x2E, 0x31) && Maps(0x2F, 0x15)
    && Maps(0x30, 0x04) && Maps(0x31, 0xC7) && Maps(0x32, 0x23) && Maps(0x33, 0xC3) && Maps(0x34, 0x18) && Maps(0x35, 0x96) && Maps(0x36, 0x05) && Maps(0x37, 0x9A)
    && Maps(0x38, 0x07) && Maps(0x39, 0x12) && Maps(0x3A, 0x80) && Maps(0x3B, 0xE2) && Maps(0x3C, 0xEB) && Maps(0x3D, 0x27) && Maps(0x3E, 0xB2) && Maps(0x3F, 0x75)
  }

  ghost predicate Rows45() {
    && Maps(0x40, 0x09) && Maps(0x41, 0x83) && Maps(0x42, 0x2C) && Maps(0x43, 0x1A) && Maps(0x44, 0x1B) && Maps(0x45, 0x6E) && Maps(0x46, 0x5A) && Maps(0x47, 0xA0)
    && Maps(0x48, 0x52) && Maps(0x49, 0x3B) && Maps(0x4A, 0xD6) && Maps(0x4B, 0xB3) && Maps(0x4C, 0x29) && Maps(0x4D, 0xE3) && Maps(0x4E, 0x2F) && Maps(0x4F, 0x84)
    && Maps(0x50, 0x53) && Maps(0x51, 0xD1) && Maps(0x52, 0x00) && Maps(0x53, 0xED) && Maps(0x54, 0x20) && Maps(0x55, 0xFC) && Maps(0x56, 0xB1) && Maps(0x57, 0x5B)
    && Maps(0x58, 0x6A) && Maps(0x59, 0xCB) && Maps(0x5A, 0xBE) && Maps(0x5B, 0x39) && Maps(0x5C, 0x4A) && Maps(0x5D, 0x4C) && Maps(0x5E, 0x58) && Maps(0x5F, 0xCF)
  }

  ghost predicate Rows67() {
    && Maps(0x60, 0xD0) && Maps(0x61, 0xEF) && Maps(0x62, 0xAA) && Maps(0x63, 0xFB) && Maps(0x64, 0x43) && Maps(0x65, 0x4D) && Maps(0x66, 0x33) && Maps(0x67, 0x85)
    && Maps(0x68, 0x45) && Maps(0x69, 0xF9) && Maps(0x6A, 0x02) && Maps(0x6B, 0x7F) && Maps(0x6C, 0x50) && Maps(0x6D, 0x3C) && Maps(0x6E, 0x9F) && Maps(0x6F, 0xA8)
    && Maps(0x70, 0x51) && Maps(0x71, 0xA3) && Maps(0x72, 0x40) && Maps(0x73, 0x8F) && Maps(0x74, 0x92) && Maps(0x75, 0x9D) && Maps(0x76, 0x38) && Maps(0x77, 0xF5)
    && Maps(0x78, 0xBC) && Maps(0x79, 0xB6) && Maps(0x7A, 0xDA) && Maps(0x7B, 0x21) && Maps(0x7C, 0x10) && Maps(0x7D, 0xFF) && Maps(0x7E, 0xF3) && Maps(0x7F, 0xD2)
  }

  ghost predicate Rows89() {
    && Maps(0x80, 0xCD) && Maps(0x81, 0x0C) && Maps(0x82, 0x13) && Maps(0x83, 0xEC) && Maps(0x84, 0x5F) && Maps(0x85, 0x97) && Maps(0x86, 0x44) && Maps(0x87, 0x17)
    && Maps(0x88, 0xC4) && Maps(0x89, 0xA7) && Maps(0x8A, 0x7E) && Maps(0x8B, 0x3D) && Maps(0x8C, 0x64) && Maps(0x8D, 0x5D) && Maps(0x8E, 0x19) && Maps(0x8F, 0x73)
    && Maps(0x90, 0x60) && Maps(0x91, 0x81) && Maps(0x92, 0x4F) && Maps(0x93, 0xDC) && Maps(0x94, 0x22) && Maps(0x95, 0x2A) && Maps(0x96, 0x90) && Maps(0x97, 0x88)
    && Maps(0x98, 0x46) && Maps(0x99, 0xEE) && Maps(0x9A, 0xB8) && Maps(0x9B, 0x14) && Maps(0x9C, 0xDE) && Maps(0x9D, 0x5E) && Maps(0x9E, 0x0B) && Maps(0x9F, 0xDB)
  }

  ghost predicate RowsAB() {
    && Maps(0xA0, 0xE0) && Maps(0xA1, 0x32) && Maps(0xA2, 0x3A) && Maps(0xA3, 0x0A) && Maps(0xA4, 0x49) && Maps(0xA5, 0x06) && Maps(0xA6, 0x24) && Maps(0xA7, 0x5C)
    && Maps(0xA8, 0xC2) && Maps(0xA9, 0xD3) && Maps(0xAA, 0xAC) && Maps(0xAB, 0x62) && Maps(0xAC, 0x91) && Maps(0xAD, 0x95) && Maps(0xAE, 0xE4) && Maps(0xAF, 0x79)
    && Maps(0xB0, 0xE7) && Maps(0xB1, 0xC8) && Maps(0xB2, 0x37) && Maps(0xB3, 0x6D) && Maps(0xB4, 0x8D) && Maps(0xB5, 0xD5) && Maps(0xB6, 0x4E) && Maps(0xB7, 0xA9)
    && Maps(0xB8, 0x6C) && Maps(0xB9, 0x56) && Maps(0xBA, 0xF4) && Maps(0xBB, 0xEA) && Maps(0xBC, 0x65) && Maps(0xBD, 0x7A) && Maps(0xBE, 0xAE) && Maps(0xBF, 0x08)
  }

  ghost predicate RowsCD() {
    && Maps(0xC0, 0xBA) && Maps(0xC1, 0x78) && Maps(0xC2, 0x25) && Maps(0xC3, 0x2E) && Maps(0xC4, 0x1C) && Maps(0xC5, 0xA6) && Maps(0xC6, 0xB4) && Maps(0xC7, 0xC6)
    && Maps(0xC8, 0xE8) && Maps(0xC9, 0xDD) && Maps(0xCA, 0x74) && Maps(0xCB, 0x1F) && Maps(0xCC, 0x4B) && Maps(0xCD, 0xBD) && Maps(0xCE, 0x8B) && Maps(0xCF, 0x8A)
    && Maps(0xD0, 0x70) && Maps(0xD1, 0x3E) && Maps(0xD2, 0xB5) && Maps(0xD3, 0x66) && Maps(0xD4, 0x48) && Maps(0xD5, 0x03) && Maps(0xD6, 0xF6) && Maps(0xD7, 0x0E)
    && Maps(0xD8, 0x61) && Maps(0xD9, 0x35) && Maps(0xDA, 0x57) && Maps(0xDB, 0xB9) && Maps(0xDC, 0x86) && Maps(0xDD, 0xC1) && Maps(0xDE, 0x1D) && Maps(0xDF, 0x9E)
  }

  ghost predicate RowsEF() {
    && Maps(0xE0, 0xE1) && Maps(0xE1, 0xF8) && Maps(0xE2, 0x98) && Maps(0xE3, 0x11) && Maps(0xE4, 0x69) && Maps(0xE5, 0xD9) && Maps(0xE6, 0x8E) && Maps(0xE7, 0x94)
    && Maps(0xE8, 0x9B) && Maps(0xE9, 0x1E) && Maps(0xEA, 0x87) && Maps(0xEB, 0xE9) && Maps(0xEC, 0xCE) && Maps(0xED, 0x55) && Maps(0xEE, 0x28) && Maps(0xEF, 0xDF)
    && Maps(0xF0, 0x8C) && Maps(0xF1, 0xA1) && Maps(0xF2, 0x89) && Maps(0xF3, 0x0D) && Maps(0xF4, 0xBF) && Maps(0xF5, 0xE6) && Maps(0xF6, 0x42) && Maps(0xF7, 0x68)
    && Maps(0xF8, 0x41) && Maps(0xF9, 0x99) && Maps(0xFA, 0x2D) && Maps(0xFB, 0x0F) && Maps(0xFC, 0xB0) && Maps(0xFD, 0x54) && Maps(0xFE, 0xBB) && Maps(0xFF, 0x16)
  }

  /** The S-box is that of figure 7 of FIPS 197. */
  ghost predicate SBox() {
    Rows01() && Rows23() && Rows45() && Rows67() && Rows89() && RowsAB() && RowsCD() && RowsEF()
  }

  lemma Are01()
    ensures Rows01()
  {
    hide Maps;
    MapsZero();
    forall x, y | Product(x, InvAffine(y)) == 1 ensures Maps(x, y) { MapsTo(x, y); }
  }

  lemma Are23()
    ensures Rows23()
  {
    hide Maps;
    forall x, y | Product(x, InvAffine(y)) == 1 ensures Maps(x, y) { MapsTo(x, y); }
  }

  lemma Are45()
    ensures Rows45()
  {
    hide Maps;
    forall x, y | Product(x, InvAffine(y)) == 1 ensures Maps(x, y) { MapsTo(x, y); }
  }

  lemma Are67()
    ensures Rows67()
  {
    hide Maps;
    forall x, y | Product(x, InvAffine(y)) == 1 ensures Maps(x, y) { MapsTo(x, y); }
  }

  lemma Are89()
    ensures Rows89()
  {
    hide Maps;
    forall x, y | Product(x, InvAffine(y)) == 1 ensures Maps(x, y) { MapsTo(x, y); }
  }

  lemma AreAB()
    ensures RowsAB()
  {
    hide Maps;
    forall x, y | Product(x, InvAffine(y)) == 1 ensures Maps(x, y) { MapsTo(x, y); }
  }

  lemma AreCD()
    ensures RowsCD()
  {
    hide Maps;
    forall x, y | Product(x, InvAffine(y)) == 1 ensures Maps(x, y) { MapsTo(x, y); }
  }

  lemma AreEF()
    ensures RowsEF()
  {
    hide Maps;
    forall x, y | Product(x, InvAffine(y)) == 1 ensures Maps(x, y) { MapsTo(x, y); }
  }

  lemma SBoxLiteral()
    ensures SBox()
  {
    hide *;
    Are01(); Are23(); Are45(); Are67(); Are89(); AreAB(); AreCD(); AreEF();
    SBoxWhole();
  }

  lemma SBoxWhole()
    requires Rows01() && Rows23() && Rows45() && Rows67() && Rows89() && RowsAB() && RowsCD() && RowsEF()
    ensures SBox()
  {
    hide Maps;
  }

  // ----- the key expansion, section 5.2

  /** The first byte of Rcon[1] to Rcon[10]. */
  lemma RoundConstants()
    ensures RoundConstant(0) == 0x01 && RoundConstant(1) == 0x02 && RoundConstant(2) == 0x04 && RoundConstant(3) == 0x08
    ensures RoundConstant(4) == 0x10 && RoundConstant(5) == 0x20 && RoundConstant(6) == 0x40 && RoundConstant(7) == 0x80
    ensures RoundConstant(8) == 0x1B && RoundConstant(9) == 0x36
  {
    assert RoundConstant(8) == XTime(RoundConstant(7));
  }

  /** A word behind the key, from the word before it and the one nk words before it. */
  lemma NextWord(key: seq<bv8>, nk: nat, i: nat, first: Column, previous: Column)
    requires IsKey(key, nk) && nk <= i && KeyWord(key, nk, i - nk) == first && KeyWord(key, nk, i - 1) == previous
    ensures KeyWord(key, nk, i) == XorColumn(first, KeyStep(nk, i, previous))
  {
    hide KeyStep, XorColumn;
  }

  const KEY128: seq<bv8> := [0x2B, 0x7E, 0x15, 0x16, 0x28, 0xAE, 0xD2, 0xA6, 0xAB, 0xF7, 0x15, 0x88, 0x09, 0xCF, 0x4F, 0x3C]
  const KEY192: seq<bv8> :=
    [0x8E, 0x73, 0xB0, 0xF7, 0xDA, 0x0E, 0x64, 0x52, 0xC8, 0x10, 0xF3, 0x2B, 0x80, 0x90, 0x79, 0xE5, 0x62, 0xF8, 0xEA, 0xD2, 0x52, 0x2C,
    0x6B, 0x7B]
  const KEY256: seq<bv8> :=
    [0x60, 0x3D, 0xEB, 0x10, 0x15, 0xCA, 0x71, 0xBE, 0x2B, 0x73, 0xAE, 0xF0, 0x85, 0x7D, 0x77, 0x81, 0x1F, 0x35, 0x2C, 0x07, 0x3B, 0x61,
    0x08, 0xD7, 0x2D, 0x98, 0x10, 0xA3, 0x09, 0x14, 0xDF, 0xF4]

  /** Word i of the key itself. */
  lemma FirstWord(key: seq<bv8>, nk: nat, i: nat)
    requires IsKey(key, nk) && i < nk
    ensures KeyWord(key, nk, i) == Column(key[4 * i], key[4 * i + 1], key[4 * i + 2], key[4 * i + 3])
  {}

  lemma Columns192()
    ensures XorColumn(Column(0x8E, 0x73, 0xB0, 0xF7), KeyStep(6, 6, Column(0x52, 0x2C, 0x6B, 0x7B))) == Column(0xFE, 0x0C, 0x91, 0xF7)
  {
    hide SubByte, RoundConstant;
    SBoxLiteral();
    RoundConstants();
  }

  /** Appendix A.2: the first word behind a key of 192 bits. */
  lemma Expansion192()
    ensures KeyWord(KEY192, 6, 6) == Column(0xFE, 0x0C, 0x91, 0xF7)
  {
    hide KeyWord, KeyStep, XorColumn;
    FirstWord(KEY192, 6, 0);
    FirstWord(KEY192, 6, 5);
    NextWord(KEY192, 6, 6, Column(0x8E, 0x73, 0xB0, 0xF7), Column(0x52, 0x2C, 0x6B, 0x7B));
    Columns192();
  }

  lemma Columns256()
    ensures XorColumn(Column(0x60, 0x3D, 0xEB, 0x10), KeyStep(8, 8, Column(0x09, 0x14, 0xDF, 0xF4))) == Column(0x9B, 0xA3, 0x54, 0x11)
    ensures XorColumn(Column(0x15, 0xCA, 0x71, 0xBE), KeyStep(8, 9, Column(0x9B, 0xA3, 0x54, 0x11))) == Column(0x8E, 0x69, 0x25, 0xAF)
    ensures XorColumn(Column(0x2B, 0x73, 0xAE, 0xF0), KeyStep(8, 10, Column(0x8E, 0x69, 0x25, 0xAF))) == Column(0xA5, 0x1A, 0x8B, 0x5F)
    ensures XorColumn(Column(0x85, 0x7D, 0x77, 0x81), KeyStep(8, 11, Column(0xA5, 0x1A, 0x8B, 0x5F))) == Column(0x20, 0x67, 0xFC, 0xDE)
    ensures XorColumn(Column(0x1F, 0x35, 0x2C, 0x07), KeyStep(8, 12, Column(0x20, 0x67, 0xFC, 0xDE))) == Column(0xA8, 0xB0, 0x9C, 0x1A)
  {
    hide SubByte, RoundConstant;
    SBoxLiteral();
    RoundConstants();
  }

  lemma KeyColumns256()
    ensures IsKey(KEY256, 8)
    ensures KeyWord(KEY256, 8, 0) == Column(0x60, 0x3D, 0xEB, 0x10)
    ensures KeyWord(KEY256, 8, 1) == Column(0x15, 0xCA, 0x71, 0xBE)
    ensures KeyWord(KEY256, 8, 2) == Column(0x2B, 0x73, 0xAE, 0xF0)
    ensures KeyWord(KEY256, 8, 3) == Column(0x85, 0x7D, 0x77, 0x81)
    ensures KeyWord(KEY256, 8, 4) == Column(0x1F, 0x35, 0x2C, 0x07)
    ensures KeyWord(KEY256, 8, 7) == Column(0x09, 0x14, 0xDF, 0xF4)
  {
    hide KeyWord;
    FirstWord(KEY256, 8, 0); FirstWord(KEY256, 8, 1); FirstWord(KEY256, 8, 2);
    FirstWord(KEY256, 8, 3); FirstWord(KEY256, 8, 4); FirstWord(KEY256, 8, 7);
  }

  /** Appendix A.3: the words behind a key of 256 bits, up to the first with a substitution alone. */
  lemma Expansion256()
    ensures KeyWord(KEY256, 8, 8) == Column(0x9B, 0xA3, 0x54, 0x11)
    ensures KeyWord(KEY256, 8, 12) == Column(0xA8, 0xB0, 0x9C, 0x1A)
  {
    hide KeyWord, KeyStep, XorColumn, KEY256;
    KeyColumns256();
    Columns256();
    NextWord(KEY256, 8, 8, Column(0x60, 0x3D, 0xEB, 0x10), Column(0x09, 0x14, 0xDF, 0xF4));
    NextWord(KEY256, 8, 9, Column(0x15, 0xCA, 0x71, 0xBE), Column(0x9B, 0xA3, 0x54, 0x11));
    NextWord(KEY256, 8, 10, Column(0x2B, 0x73, 0xAE, 0xF0), Column(0x8E, 0x69, 0x25, 0xAF));
    NextWord(KEY256, 8, 11, Column(0x85, 0x7D, 0x77, 0x81), Column(0xA5, 0x1A, 0x8B, 0x5F));
    NextWord(KEY256, 8, 12, Column(0x1F, 0x35, 0x2C, 0x07), Column(0x20, 0x67, 0xFC, 0xDE));
  }

  /** One step of the expansion of 128 bits, four words at a time. */
  ghost function NextKey(k: State, rc: bv8): State {
    var c0 := XorColumn(k.c0, XorColumn(SubColumn(RotColumn(k.c3)), Column(rc, 0, 0, 0)));
    var c1 := XorColumn(k.c1, c0);
    var c2 := XorColumn(k.c2, c1);
    State(c0, c1, c2, XorColumn(k.c3, c2))
  }

  /** Four words of the expansion as a round key. */
  ghost function RoundKeyAt(key: seq<bv8>, r: nat): State
    requires IsKey(key, 4)
  {
    State(KeyWord(key, 4, 4 * r), KeyWord(key, 4, 4 * r + 1), KeyWord(key, 4, 4 * r + 2), KeyWord(key, 4, 4 * r + 3))
  }

  lemma KeyAfter(key: seq<bv8>, r: nat)
    requires IsKey(key, 4)
    ensures RoundKeyAt(key, r + 1) == NextKey(RoundKeyAt(key, r), RoundConstant(r))
  {
    hide XorColumn, SubColumn, RotColumn, RoundConstant;
    KeyPositions(r);
  }

  lemma KeyPositions(r: nat)
    ensures (4 * r + 4) % 4 == 0 && (4 * r + 4) / 4 - 1 == r
    ensures (4 * r + 5) % 4 == 1 && (4 * r + 6) % 4 == 2 && (4 * r + 7) % 4 == 3
  {}

  // The round keys and the states after each round in appendices A.1 and B.

  const K0 := State(Column(0x2B, 0x7E, 0x15, 0x16), Column(0x28, 0xAE, 0xD2, 0xA6), Column(0xAB, 0xF7, 0x15, 0x88), Column(0x09, 0xCF, 0x4F, 0x3C))
  const K1 := State(Column(0xA0, 0xFA, 0xFE, 0x17), Column(0x88, 0x54, 0x2C, 0xB1), Column(0x23, 0xA3, 0x39, 0x39), Column(0x2A, 0x6C, 0x76, 0x05))
  const K2 := State(Column(0xF2, 0xC2, 0x95, 0xF2), Column(0x7A, 0x96, 0xB9, 0x43), Column(0x59, 0x35, 0x80, 0x7A), Column(0x73, 0x59, 0xF6, 0x7F))
  const K3 := State(Column(0x3D, 0x80, 0x47, 0x7D), Column(0x47, 0x16, 0xFE, 0x3E), Column(0x1E, 0x23, 0x7E, 0x44), Column(0x6D, 0x7A, 0x88, 0x3B))
  const K4 := State(Column(0xEF, 0x44, 0xA5, 0x41), Column(0xA8, 0x52, 0x5B, 0x7F), Column(0xB6, 0x71, 0x25, 0x3B), Column(0xDB, 0x0B, 0xAD, 0x00))
  const K5 := State(Column(0xD4, 0xD1, 0xC6, 0xF8), Column(0x7C, 0x83, 0x9D, 0x87), Column(0xCA, 0xF2, 0xB8, 0xBC), Column(0x11, 0xF9, 0x15, 0xBC))
  const K6 := State(Column(0x6D, 0x88, 0xA3, 0x7A), Column(0x11, 0x0B, 0x3E, 0xFD), Column(0xDB, 0xF9, 0x86, 0x41), Column(0xCA, 0x00, 0x93, 0xFD))
  const K7 := State(Column(0x4E, 0x54, 0xF7, 0x0E), Column(0x5F, 0x5F, 0xC9, 0xF3), Column(0x84, 0xA6, 0x4F, 0xB2), Column(0x4E, 0xA6, 0xDC, 0x4F))
  const K8 := State(Column(0xEA, 0xD2, 0x73, 0x21), Column(0xB5, 0x8D, 0xBA, 0xD2), Column(0x31, 0x2B, 0xF5, 0x60), Column(0x7F, 0x8D, 0x29, 0x2F))
  const K9 := State(Column(0xAC, 0x77, 0x66, 0xF3), Column(0x19, 0xFA, 0xDC, 0x21), Column(0x28, 0xD1, 0x29, 0x41), Column(0x57, 0x5C, 0x00, 0x6E))
  const K10 := State(Column(0xD0, 0x14, 0xF9, 0xA8), Column(0xC9, 0xEE, 0x25, 0x89), Column(0xE1, 0x3F, 0x0C, 0xC8), Column(0xB6, 0x63, 0x0C, 0xA6))

  const S0 := State(Column(0x19, 0x3D, 0xE3, 0xBE), Column(0xA0, 0xF4, 0xE2, 0x2B), Column(0x9A, 0xC6, 0x8D, 0x2A), Column(0xE9, 0xF8, 0x48, 0x08))
  const S1 := State(Column(0xA4, 0x9C, 0x7F, 0xF2), Column(0x68, 0x9F, 0x35, 0x2B), Column(0x6B, 0x5B, 0xEA, 0x43), Column(0x02, 0x6A, 0x50, 0x49))
  const S2 := State(Column(0xAA, 0x8F, 0x5F, 0x03), Column(0x61, 0xDD, 0xE3, 0xEF), Column(0x82, 0xD2, 0x4A, 0xD2), Column(0x68, 0x32, 0x46, 0x9A))
  const S3 := State(Column(0x48, 0x6C, 0x4E, 0xEE), Column(0x67, 0x1D, 0x9D, 0x0D), Column(0x4D, 0xE3, 0xB1, 0x38), Column(0xD6, 0x5F, 0x58, 0xE7))
  const S4 := State(Column(0xE0, 0x92, 0x7F, 0xE8), Column(0xC8, 0x63, 0x63, 0xC0), Column(0xD9, 0xB1, 0x35, 0x50), Column(0x85, 0xB8, 0xBE, 0x01))
  const S5 := State(Column(0xF1, 0x00, 0x6F, 0x55), Column(0xC1, 0x92, 0x4C, 0xEF), Column(0x7C, 0xC8, 0x8B, 0x32), Column(0x5D, 0xB5, 0xD5, 0x0C))
  const S6 := State(Column(0x26, 0x0E, 0x2E, 0x17), Column(0x3D, 0x41, 0xB7, 0x7D), Column(0xE8, 0x64, 0x72, 0xA9), Column(0xFD, 0xD2, 0x8B, 0x25))
  const S7 := State(Column(0x5A, 0x41, 0x42, 0xB1), Column(0x19, 0x49, 0xDC, 0x1F), Column(0xA3, 0xE0, 0x19, 0x65), Column(0x7A, 0x8C, 0x04, 0x0C))
  const S8 := State(Column(0xEA, 0x83, 0x5C, 0xF0), Column(0x04, 0x45, 0x33, 0x2D), Column(0x65, 0x5D, 0x98, 0xAD), Column(0x85, 0x96, 0xB0, 0xC5))
  const S9 := State(Column(0xEB, 0x40, 0xF2, 0x1E), Column(0x59, 0x2E, 0x38, 0x84), Column(0x8B, 0xA1, 0x13, 0xE7), Column(0x1B, 0xC3, 0x42, 0xD2))

  lemma RoundKeysA()
    requires SBox()
    ensures NextKey(K0, 0x01) == K1 && NextKey(K1, 0x02) == K2 && NextKey(K2, 0x04) == K3 && NextKey(K3, 0x08) == K4 && NextKey(K4, 0x10) == K5
  {
    hide SubByte;
  }

  lemma RoundKeysB()
    requires SBox()
    ensures NextKey(K5, 0x20) == K6 && NextKey(K6, 0x40) == K7 && NextKey(K7, 0x80) == K8 && NextKey(K8, 0x1B) == K9 && NextKey(K9, 0x36) == K10
  {
    hide SubByte;
  }

  lemma FirstRoundKey()
    ensures IsKey(KEY128, 4) && RoundKeyAt(KEY128, 0) == K0
  {
    hide KeyWord;
    FirstWord(KEY128, 4, 0); FirstWord(KEY128, 4, 1); FirstWord(KEY128, 4, 2); FirstWord(KEY128, 4, 3);
  }

  /** Appendix A.1. */
  lemma Expansion128()
    ensures RoundKeyAt(KEY128, 0) == K0 && RoundKeyAt(KEY128, 1) == K1 && RoundKeyAt(KEY128, 2) == K2 && RoundKeyAt(KEY128, 3) == K3
    ensures RoundKeyAt(KEY128, 4) == K4 && RoundKeyAt(KEY128, 5) == K5 && RoundKeyAt(KEY128, 6) == K6 && RoundKeyAt(KEY128, 7) == K7
    ensures RoundKeyAt(KEY128, 8) == K8 && RoundKeyAt(KEY128, 9) == K9 && RoundKeyAt(KEY128, 10) == K10
  {
    hide *;
    FirstRoundKey();
    RoundConstants();
    SBoxLiteral();
    RoundKeysA();
    RoundKeysB();
    KeyAfter(KEY128, 0); KeyAfter(KEY128, 1); KeyAfter(KEY128, 2); KeyAfter(KEY128, 3); KeyAfter(KEY128, 4);
    KeyAfter(KEY128, 5); KeyAfter(KEY128, 6); KeyAfter(KEY128, 7); KeyAfter(KEY128, 8); KeyAfter(KEY128, 9);
  }

  // ----- the cipher, section 5.1

  /** MixColumns of one column, without the field product. */
  function Mixed(c: Column): Column {
    Column(Xor4(Times2(c.b0), Times3(c.b1), c.b2, c.b3), Xor4(c.b0, Times2(c.b1), Times3(c.b2), c.b3),
           Xor4(c.b0, c.b1, Times2(c.b2), Times3(c.b3)), Xor4(Times3(c.b0), c.b1, c.b2, Times2(c.b3)))
  }

  lemma MixedIs(c: Column)
    ensures MixColumn(c) == Mixed(c)
  {
    hide Mul, XTime, Xor;
    SmallProducts(c.b0); SmallProducts(c.b1); SmallProducts(c.b2); SmallProducts(c.b3);
  }

  ghost function FullRound(s: State, k: State): State {
    AddRoundKey(MixColumns(ShiftRows(SubBytes(s))), k)
  }

  ghost function LastRound(s: State, k: State): State {
    AddRoundKey(ShiftRows(SubBytes(s)), k)
  }

  lemma RoundsA()
    requires SBox()
    ensures FullRound(S0, K1) == S1 && FullRound(S1, K2) == S2 && FullRound(S2, K3) == S3
  {
    hide SubByte, MixColumn;
    forall c ensures MixColumn(c) == Mixed(c) { MixedIs(c); }
  }

  lemma RoundsB()
    requires SBox()
    ensures FullRound(S3, K4) == S4 && FullRound(S4, K5) == S5 && FullRound(S5, K6) == S6
  {
    hide SubByte, MixColumn;
    forall c ensures MixColumn(c) == Mixed(c) { MixedIs(c); }
  }

  lemma RoundsC()
    requires SBox()
    ensures FullRound(S6, K7) == S7 && FullRound(S7, K8) == S8 && FullRound(S8, K9) == S9
  {
    hide SubByte, MixColumn;
    forall c ensures MixColumn(c) == Mixed(c) { MixedIs(c); }
  }

  const PLAIN: seq<bv8> := [0x32, 0x43, 0xF6, 0xA8, 0x88, 0x5A, 0x30, 0x8D, 0x31, 0x31, 0x98, 0xA2, 0xE0, 0x37, 0x07, 0x34]
  const CIPHER: seq<bv8> := [0x39, 0x25, 0x84, 0x1D, 0x02, 0xDC, 0x09, 0xFB, 0xDC, 0x11, 0x85, 0x97, 0x19, 0x6A, 0x0B, 0x32]

  lemma FirstAndLast()
    requires SBox()
    ensures AddRoundKey(Load(PLAIN), K0) == S0 && Store(LastRound(S9, K10)) == CIPHER
  {
    hide SubByte;
  }

  lemma RoundAfter(s: State, keys: seq<State>, r: nat)
    requires r + 1 < |keys|
    ensures Rounds(s, keys, 0) == AddRoundKey(s, keys[0]) && Rounds(s, keys, r + 1) == FullRound(Rounds(s, keys, r), keys[r + 1])
  {
    hide AddRoundKey, MixColumns, ShiftRows, SubBytes;
  }

  lemma TenRounds(s: State, keys: seq<State>)
    requires |keys| == 11 && keys[1] == K1 && keys[2] == K2 && keys[3] == K3 && keys[4] == K4 && keys[5] == K5
    requires keys[6] == K6 && keys[7] == K7 && keys[8] == K8 && keys[9] == K9 && AddRoundKey(s, keys[0]) == S0
    ensures Cipher(s, keys) == LastRound(S9, keys[10])
  {
    hide *;
    SBoxLiteral();
    RoundsA();
    RoundsB();
    RoundsC();
    RoundAfter(s, keys, 0); RoundAfter(s, keys, 1); RoundAfter(s, keys, 2); RoundAfter(s, keys, 3); RoundAfter(s, keys, 4);
    RoundAfter(s, keys, 5); RoundAfter(s, keys, 6); RoundAfter(s, keys, 7); RoundAfter(s, keys, 8);
    CipherEnds(s, keys);
  }

  lemma CipherEnds(s: State, keys: seq<State>)
    requires |keys| == 11
    ensures Cipher(s, keys) == LastRound(Rounds(s, keys, 9), keys[10])
  {
    hide Rounds, AddRoundKey, ShiftRows, SubBytes;
  }

  lemma KeysAre(key: seq<bv8>)
    requires IsKey(key, 4)
    ensures |ExpandedKeys(key, 4)| == 11 && forall r | 0 <= r <= 10 :: ExpandedKeys(key, 4)[r] == RoundKeyAt(key, r)
  {
    hide KeyWord;
  }

  /** Appendix B: one block through the whole cipher. */
  lemma CipherExample()
    ensures IsKey(KEY128, 4) && |PLAIN| == 16 && EncryptBlock(KEY128, 4, PLAIN) == CIPHER
  {
    hide RoundKeyAt, Cipher, ExpandedKeys, LastRound, AddRoundKey, Store, Load, K0, K1, K2, K3, K4, K5, K6, K7, K8, K9, K10, S0, S9, KEY128, PLAIN, CIPHER, SBox;
    FirstRoundKey();
    KeysAre(KEY128);
    Expansion128();
    SBoxLiteral();
    FirstAndLast();
    PlainBlock();
    TenRounds(Load(PLAIN), ExpandedKeys(KEY128, 4));
  }

  lemma PlainBlock()
    ensures |PLAIN| == 16
  {}
}
