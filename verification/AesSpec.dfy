/** The cipher of FIPS 197: the state, its transformations, the cipher and its inverse. */
module AesSpec {
  import opened Gf256

  /** One column of the state, rows 0 to 3. */
  datatype Column = Column(b0: bv8, b1: bv8, b2: bv8, b3: bv8)

  datatype State = State(c0: Column, c1: Column, c2: Column, c3: Column)

  // ----- the S-box, section 5.1.1

  function Rotl(x: bv8): bv8 {
    (x << 1) | (x >> 7)
  }

  /** Bit i of the result is the sum of bits i, i+4, i+5, i+6, i+7 (mod 8) of x and bit i of 0x63. */
  function Affine(x: bv8): bv8 {
    var y1 := Rotl(x);
    var y2 := Rotl(y1);
    var y3 := Rotl(y2);
    var y4 := Rotl(y3);
    x ^ y1 ^ y2 ^ y3 ^ y4 ^ 0x63
  }

  function InvAffine(y: bv8): bv8 {
    Rotl(y) ^ Rotl(Rotl(Rotl(y))) ^ Rotl(Rotl(Rotl(Rotl(Rotl(Rotl(y)))))) ^ 0x05
  }

  ghost function SubByte(x: bv8): bv8 {
    Affine(Inverse(x))
  }

  ghost function InvSubByte(y: bv8): bv8 {
    Inverse(InvAffine(y))
  }

  lemma AffineInverse(x: bv8)
    ensures InvAffine(Affine(x)) == x
    ensures Affine(InvAffine(x)) == x
  {}

  /** The S-box and the inverse S-box are inverse to each other. */
  lemma SubByteBijective(x: bv8)
    ensures InvSubByte(SubByte(x)) == x
    ensures SubByte(InvSubByte(x)) == x
  {
    hide Affine, InvAffine, Inverse;
    AffineInverse(Inverse(x));
    AffineInverse(x);
    InverseInvolution(x);
    InverseInvolution(InvAffine(x));
  }

  // ----- SubBytes, ShiftRows, MixColumns, AddRoundKey, sections 5.1.1 to 5.1.4 and 5.3.1 to 5.3.4

  function XorColumn(c: Column, d: Column): Column {
    Column(Xor(c.b0, d.b0), Xor(c.b1, d.b1), Xor(c.b2, d.b2), Xor(c.b3, d.b3))
  }

  function AddRoundKey(s: State, k: State): State {
    State(XorColumn(s.c0, k.c0), XorColumn(s.c1, k.c1), XorColumn(s.c2, k.c2), XorColumn(s.c3, k.c3))
  }

  ghost function SubColumn(c: Column): Column {
    Column(SubByte(c.b0), SubByte(c.b1), SubByte(c.b2), SubByte(c.b3))
  }

  ghost function SubBytes(s: State): State {
    State(SubColumn(s.c0), SubColumn(s.c1), SubColumn(s.c2), SubColumn(s.c3))
  }

  ghost function InvSubColumn(c: Column): Column {
    Column(InvSubByte(c.b0), InvSubByte(c.b1), InvSubByte(c.b2), InvSubByte(c.b3))
  }

  ghost function InvSubBytes(s: State): State {
    State(InvSubColumn(s.c0), InvSubColumn(s.c1), InvSubColumn(s.c2), InvSubColumn(s.c3))
  }

  /** Row r moves r columns to the left. */
  function ShiftRows(s: State): State {
    State(Column(s.c0.b0, s.c1.b1, s.c2.b2, s.c3.b3), Column(s.c1.b0, s.c2.b1, s.c3.b2, s.c0.b3),
          Column(s.c2.b0, s.c3.b1, s.c0.b2, s.c1.b3), Column(s.c3.b0, s.c0.b1, s.c1.b2, s.c2.b3))
  }

  function InvShiftRows(s: State): State {
    State(Column(s.c0.b0, s.c3.b1, s.c2.b2, s.c1.b3), Column(s.c1.b0, s.c0.b1, s.c3.b2, s.c2.b3),
          Column(s.c2.b0, s.c1.b1, s.c0.b2, s.c3.b3), Column(s.c3.b0, s.c2.b1, s.c1.b2, s.c0.b3))
  }

  function Xor4(a: bv8, b: bv8, c: bv8, d: bv8): bv8 {
    Xor(Xor(a, b), Xor(c, d))
  }

  /** One row of a matrix, applied to a column. */
  function Row(m0: bv8, m1: bv8, m2: bv8, m3: bv8, c: Column): bv8 {
    Xor4(Mul(m0, c.b0), Mul(m1, c.b1), Mul(m2, c.b2), Mul(m3, c.b3))
  }

  /** The circulant matrix with first row m0 m1 m2 m3, applied to a column. */
  function Circulant(m0: bv8, m1: bv8, m2: bv8, m3: bv8, c: Column): Column {
    Column(Row(m0, m1, m2, m3, c), Row(m3, m0, m1, m2, c), Row(m2, m3, m0, m1, c), Row(m1, m2, m3, m0, c))
  }

  function MixColumn(c: Column): Column {
    Circulant(2, 3, 1, 1, c)
  }

  function InvMixColumn(c: Column): Column {
    Circulant(14, 11, 13, 9, c)
  }

  function MixColumns(s: State): State {
    State(MixColumn(s.c0), MixColumn(s.c1), MixColumn(s.c2), MixColumn(s.c3))
  }

  function InvMixColumns(s: State): State {
    State(InvMixColumn(s.c0), InvMixColumn(s.c1), InvMixColumn(s.c2), InvMixColumn(s.c3))
  }

  // ----- the cipher, section 5.1, and its inverse, section 5.3

  /** The state after the initial AddRoundKey and r full rounds. */
  ghost function Rounds(s: State, keys: seq<State>, r: nat): State
    requires r < |keys|
  {
    if r == 0 then AddRoundKey(s, keys[0])
    else AddRoundKey(MixColumns(ShiftRows(SubBytes(Rounds(s, keys, r - 1)))), keys[r])
  }

  /** All but the last round are full rounds; the last one has no MixColumns. */
  ghost function Cipher(s: State, keys: seq<State>): State
    requires |keys| >= 2
  {
    AddRoundKey(ShiftRows(SubBytes(Rounds(s, keys, |keys| - 2))), keys[|keys| - 1])
  }

  /** The state that InvCipher reaches after undoing every round above r. */
  ghost function InvRounds(s: State, keys: seq<State>, r: nat): State
    requires r + 2 <= |keys|
    decreases |keys| - r
  {
    InvSubBytes(InvShiftRows(
      if r + 2 == |keys| then AddRoundKey(s, keys[r + 1])
      else InvMixColumns(AddRoundKey(InvRounds(s, keys, r + 1), keys[r + 1]))))
  }

  ghost function InvCipher(s: State, keys: seq<State>): State
    requires |keys| >= 2
  {
    AddRoundKey(InvRounds(s, keys, 0), keys[0])
  }

  // ----- the equivalent inverse cipher, section 5.3.5

  /** The state after the initial AddRoundKey and r full rounds of the equivalent inverse cipher. */
  ghost function EqInvRounds(s: State, keys: seq<State>, r: nat): State
    requires r < |keys|
  {
    if r == 0 then AddRoundKey(s, keys[0])
    else AddRoundKey(InvMixColumns(InvShiftRows(InvSubBytes(EqInvRounds(s, keys, r - 1)))), keys[r])
  }

  ghost function EqInvCipher(s: State, keys: seq<State>): State
    requires |keys| >= 2
  {
    AddRoundKey(InvShiftRows(InvSubBytes(EqInvRounds(s, keys, |keys| - 2))), keys[|keys| - 1])
  }

  /** The round keys in reverse order, the inner ones passed through InvMixColumns. */
  function DecryptionKeys(keys: seq<State>): (dkeys: seq<State>)
    ensures |dkeys| == |keys|
    ensures forall r | 0 <= r < |keys| ::
      dkeys[r] == if r == 0 || r == |keys| - 1 then keys[|keys| - 1 - r] else InvMixColumns(keys[|keys| - 1 - r])
  {
    seq(|keys|, r requires 0 <= r < |keys| =>
      if r == 0 || r == |keys| - 1 then keys[|keys| - 1 - r] else InvMixColumns(keys[|keys| - 1 - r]))
  }

  // ----- each transformation is undone by its inverse

  lemma XorCancels(a: bv8, b: bv8)
    ensures Xor(Xor(a, b), b) == a
  {}

  lemma AddRoundKeyCancels(s: State, k: State)
    ensures AddRoundKey(AddRoundKey(s, k), k) == s
  {
    hide Xor;
    XorColumnCancels(s.c0, k.c0);
    XorColumnCancels(s.c1, k.c1);
    XorColumnCancels(s.c2, k.c2);
    XorColumnCancels(s.c3, k.c3);
  }

  lemma XorColumnCancels(c: Column, d: Column)
    ensures XorColumn(XorColumn(c, d), d) == c
  {
    hide Xor;
    XorCancels(c.b0, d.b0);
    XorCancels(c.b1, d.b1);
    XorCancels(c.b2, d.b2);
    XorCancels(c.b3, d.b3);
  }

  lemma SubColumnInverse(c: Column)
    ensures InvSubColumn(SubColumn(c)) == c
    ensures SubColumn(InvSubColumn(c)) == c
  {
    hide SubByte, InvSubByte;
    SubByteBijective(c.b0);
    SubByteBijective(c.b1);
    SubByteBijective(c.b2);
    SubByteBijective(c.b3);
  }

  lemma SubBytesInverse(s: State)
    ensures InvSubBytes(SubBytes(s)) == s
    ensures SubBytes(InvSubBytes(s)) == s
  {
    hide SubColumn, InvSubColumn;
    SubColumnInverse(s.c0);
    SubColumnInverse(s.c1);
    SubColumnInverse(s.c2);
    SubColumnInverse(s.c3);
  }

  lemma ShiftRowsInverse(s: State)
    ensures InvShiftRows(ShiftRows(s)) == s
    ensures ShiftRows(InvShiftRows(s)) == s
  {}

  // ----- InvMixColumns undoes MixColumns: the product of the two matrices is the identity

  /** One entry of the product of two matrices, applied to x: row p of one, column q of the other. */
  function Entry(p0: bv8, p1: bv8, p2: bv8, p3: bv8, q0: bv8, q1: bv8, q2: bv8, q3: bv8, x: bv8): bv8 {
    Xor4(Mul(p0, Mul(q0, x)), Mul(p1, Mul(q1, x)), Mul(p2, Mul(q2, x)), Mul(p3, Mul(q3, x)))
  }

  lemma MulXor4(p: bv8, a: bv8, b: bv8, c: bv8, d: bv8)
    ensures Mul(p, Xor4(a, b, c, d)) == Xor4(Mul(p, a), Mul(p, b), Mul(p, c), Mul(p, d))
  {
    hide Mul, Xor;
    MulRightLinear(p, Xor(a, b), Xor(c, d));
    MulRightLinear(p, a, b);
    MulRightLinear(p, c, d);
  }

  lemma Transpose(a0: bv8, a1: bv8, a2: bv8, a3: bv8, b0: bv8, b1: bv8, b2: bv8, b3: bv8,
                  c0: bv8, c1: bv8, c2: bv8, c3: bv8, d0: bv8, d1: bv8, d2: bv8, d3: bv8)
    ensures Xor4(Xor4(a0, a1, a2, a3), Xor4(b0, b1, b2, b3), Xor4(c0, c1, c2, c3), Xor4(d0, d1, d2, d3))
         == Xor4(Xor4(a0, b0, c0, d0), Xor4(a1, b1, c1, d1), Xor4(a2, b2, c2, d2), Xor4(a3, b3, c3, d3))
  {
    hide Xor;
    XorOfXor4(a0, a1, a2, a3, b0, b1, b2, b3);
    XorOfXor4(c0, c1, c2, c3, d0, d1, d2, d3);
    XorOfXor4(Xor(a0, b0), Xor(a1, b1), Xor(a2, b2), Xor(a3, b3),
              Xor(c0, d0), Xor(c1, d1), Xor(c2, d2), Xor(c3, d3));
  }

  lemma XorOfXor4(a0: bv8, a1: bv8, a2: bv8, a3: bv8, b0: bv8, b1: bv8, b2: bv8, b3: bv8)
    ensures Xor(Xor4(a0, a1, a2, a3), Xor4(b0, b1, b2, b3)) == Xor4(Xor(a0, b0), Xor(a1, b1), Xor(a2, b2), Xor(a3, b3))
  {
    hide Xor;
    XorSwap(Xor(a0, a1), Xor(a2, a3), Xor(b0, b1), Xor(b2, b3));
    XorSwap(a0, a1, b0, b1);
    XorSwap(a2, a3, b2, b3);
  }

  /** A row of one matrix applied to the product of another matrix with a column. */
  lemma RowOfProduct(p0: bv8, p1: bv8, p2: bv8, p3: bv8, q0: bv8, q1: bv8, q2: bv8, q3: bv8, c: Column)
    ensures Row(p0, p1, p2, p3, Circulant(q0, q1, q2, q3, c))
         == Xor4(Entry(p0, p1, p2, p3, q0, q3, q2, q1, c.b0), Entry(p0, p1, p2, p3, q1, q0, q3, q2, c.b1),
                 Entry(p0, p1, p2, p3, q2, q1, q0, q3, c.b2), Entry(p0, p1, p2, p3, q3, q2, q1, q0, c.b3))
  {
    hide Xor4, Mul;
    MulXor4(p0, Mul(q0, c.b0), Mul(q1, c.b1), Mul(q2, c.b2), Mul(q3, c.b3));
    MulXor4(p1, Mul(q3, c.b0), Mul(q0, c.b1), Mul(q1, c.b2), Mul(q2, c.b3));
    MulXor4(p2, Mul(q2, c.b0), Mul(q3, c.b1), Mul(q0, c.b2), Mul(q1, c.b3));
    MulXor4(p3, Mul(q1, c.b0), Mul(q2, c.b1), Mul(q3, c.b2), Mul(q0, c.b3));
    Transpose(Mul(p0, Mul(q0, c.b0)), Mul(p0, Mul(q1, c.b1)), Mul(p0, Mul(q2, c.b2)), Mul(p0, Mul(q3, c.b3)),
              Mul(p1, Mul(q3, c.b0)), Mul(p1, Mul(q0, c.b1)), Mul(p1, Mul(q1, c.b2)), Mul(p1, Mul(q2, c.b3)),
              Mul(p2, Mul(q2, c.b0)), Mul(p2, Mul(q3, c.b1)), Mul(p2, Mul(q0, c.b2)), Mul(p2, Mul(q1, c.b3)),
              Mul(p3, Mul(q1, c.b0)), Mul(p3, Mul(q2, c.b1)), Mul(p3, Mul(q3, c.b2)), Mul(p3, Mul(q0, c.b3)));
  }

  // The products by the constants of both matrices.

  function Times2(x: bv8): bv8 { XTime(x) }

  function Times3(x: bv8): bv8 { Xor(x, XTime(x)) }

  function Times9(x: bv8): bv8 { Xor(x, XTime(XTime(XTime(x)))) }

  function Times11(x: bv8): bv8 { Xor(x, Xor(XTime(x), XTime(XTime(XTime(x))))) }

  function Times13(x: bv8): bv8 { Xor(x, Xor(XTime(XTime(x)), XTime(XTime(XTime(x))))) }

  function Times14(x: bv8): bv8 { Xor(XTime(x), Xor(XTime(XTime(x)), XTime(XTime(XTime(x))))) }

  lemma SmallHalves()
    ensures Half(2) == 1 && Half(3) == 1 && !Odd(2) && Odd(3)
    ensures Half(4) == 2 && Half(5) == 2 && Half(6) == 3 && Half(7) == 3 && !Odd(4) && Odd(5) && !Odd(6) && Odd(7)
    ensures Half(9) == 4 && Half(11) == 5 && Half(13) == 6 && Half(14) == 7 && Odd(9) && Odd(11) && Odd(13) && !Odd(14)
  {}

  lemma SmallProducts(x: bv8)
    ensures Mul(1, x) == x && Mul(2, x) == Times2(x) && Mul(3, x) == Times3(x)
  {
    hide Mul, Half, Odd, XTime, Xor;
    SmallHalves();
    MulUnit(x);
    MulUnit(XTime(x));
    MulStep(2, x);
    MulStep(3, x);
  }

  lemma LargeProducts(x: bv8)
    ensures Mul(9, x) == Times9(x) && Mul(11, x) == Times11(x) && Mul(13, x) == Times13(x) && Mul(14, x) == Times14(x)
  {
    hide Mul, Half, Odd, XTime, Xor;
    SmallHalves();
    var y := XTime(x);
    SmallProducts(XTime(y));
    MulStep(4, y); MulStep(5, y); MulStep(6, y); MulStep(7, y);
    MulStep(9, x); MulStep(11, x); MulStep(13, x); MulStep(14, x);
  }

  /** Row 14 11 13 9 against the columns of the other matrix. */
  lemma InverseEntriesA(x: bv8)
    ensures Xor4(Times14(Times2(x)), Times11(x), Times13(x), Times9(Times3(x))) == x
    ensures Xor4(Times14(Times3(x)), Times11(Times2(x)), Times13(x), Times9(x)) == 0
  {}

  lemma InverseEntriesB(x: bv8)
    ensures Xor4(Times14(x), Times11(Times3(x)), Times13(Times2(x)), Times9(x)) == 0
    ensures Xor4(Times14(x), Times11(x), Times13(Times3(x)), Times9(Times2(x))) == 0
  {}

  /** The matrices commute entry by entry, since the constants do. */
  lemma ProductsCommute(x: bv8)
    ensures Times14(Times2(x)) == Times2(Times14(x)) && Times9(Times2(x)) == Times2(Times9(x))
    ensures Times11(Times2(x)) == Times2(Times11(x)) && Times13(Times2(x)) == Times2(Times13(x))
    ensures Times14(Times3(x)) == Times3(Times14(x)) && Times9(Times3(x)) == Times3(Times9(x))
    ensures Times11(Times3(x)) == Times3(Times11(x)) && Times13(Times3(x)) == Times3(Times13(x))
  {}

  /** The product of two circulant matrices is the identity as soon as its first row is. */
  lemma CirculantInverse(p0: bv8, p1: bv8, p2: bv8, p3: bv8, q0: bv8, q1: bv8, q2: bv8, q3: bv8, c: Column)
    requires forall x :: Entry(p0, p1, p2, p3, q0, q3, q2, q1, x) == x
    requires forall x :: Entry(p0, p1, p2, p3, q1, q0, q3, q2, x) == 0
    requires forall x :: Entry(p0, p1, p2, p3, q2, q1, q0, q3, x) == 0
    requires forall x :: Entry(p0, p1, p2, p3, q3, q2, q1, q0, x) == 0
    ensures Circulant(p0, p1, p2, p3, Circulant(q0, q1, q2, q3, c)) == c
  {
    hide Row, Entry, Xor4;
    RowOfProduct(p0, p1, p2, p3, q0, q1, q2, q3, c);
    RowOfProduct(p3, p0, p1, p2, q0, q1, q2, q3, c);
    RowOfProduct(p2, p3, p0, p1, q0, q1, q2, q3, c);
    RowOfProduct(p1, p2, p3, p0, q0, q1, q2, q3, c);
    OnlyOne(c.b0);
    OnlyOne(c.b1);
    OnlyOne(c.b2);
    OnlyOne(c.b3);
    RotateEntries(p0, p1, p2, p3, q0, q1, q2, q3, c.b0);
    RotateEntries(p0, p1, p2, p3, q0, q1, q2, q3, c.b1);
    RotateEntries(p0, p1, p2, p3, q0, q1, q2, q3, c.b2);
    RotateEntries(p0, p1, p2, p3, q0, q1, q2, q3, c.b3);
  }

  lemma OnlyOne(x: bv8)
    ensures Xor4(x, 0, 0, 0) == x && Xor4(0, x, 0, 0) == x && Xor4(0, 0, x, 0) == x && Xor4(0, 0, 0, x) == x
  {}

  lemma RotateXor4(a: bv8, b: bv8, c: bv8, d: bv8)
    ensures Xor4(d, a, b, c) == Xor4(a, b, c, d)
  {
    assert (d ^ a) ^ (b ^ c) == (a ^ b) ^ (c ^ d);
  }

  lemma RotateEntry(p0: bv8, p1: bv8, p2: bv8, p3: bv8, q0: bv8, q1: bv8, q2: bv8, q3: bv8, x: bv8)
    ensures Entry(p3, p0, p1, p2, q3, q0, q1, q2, x) == Entry(p0, p1, p2, p3, q0, q1, q2, q3, x)
    ensures Entry(p2, p3, p0, p1, q2, q3, q0, q1, x) == Entry(p0, p1, p2, p3, q0, q1, q2, q3, x)
    ensures Entry(p1, p2, p3, p0, q1, q2, q3, q0, x) == Entry(p0, p1, p2, p3, q0, q1, q2, q3, x)
  {
    hide Mul, Xor4;
    var a, b, c, d := Mul(p0, Mul(q0, x)), Mul(p1, Mul(q1, x)), Mul(p2, Mul(q2, x)), Mul(p3, Mul(q3, x));
    RotateXor4(a, b, c, d);
    RotateXor4(d, a, b, c);
    RotateXor4(c, d, a, b);
  }

  /** Rotating the row and the column alike leaves the entry as it is. */
  lemma RotateEntries(p0: bv8, p1: bv8, p2: bv8, p3: bv8, q0: bv8, q1: bv8, q2: bv8, q3: bv8, x: bv8)
    ensures Entry(p3, p0, p1, p2, q0, q3, q2, q1, x) == Entry(p0, p1, p2, p3, q3, q2, q1, q0, x)
    ensures Entry(p3, p0, p1, p2, q1, q0, q3, q2, x) == Entry(p0, p1, p2, p3, q0, q3, q2, q1, x)
    ensures Entry(p3, p0, p1, p2, q2, q1, q0, q3, x) == Entry(p0, p1, p2, p3, q1, q0, q3, q2, x)
    ensures Entry(p3, p0, p1, p2, q3, q2, q1, q0, x) == Entry(p0, p1, p2, p3, q2, q1, q0, q3, x)
    ensures Entry(p2, p3, p0, p1, q0, q3, q2, q1, x) == Entry(p0, p1, p2, p3, q2, q1, q0, q3, x)
    ensures Entry(p2, p3, p0, p1, q1, q0, q3, q2, x) == Entry(p0, p1, p2, p3, q3, q2, q1, q0, x)
    ensures Entry(p2, p3, p0, p1, q2, q1, q0, q3, x) == Entry(p0, p1, p2, p3, q0, q3, q2, q1, x)
    ensures Entry(p2, p3, p0, p1, q3, q2, q1, q0, x) == Entry(p0, p1, p2, p3, q1, q0, q3, q2, x)
    ensures Entry(p1, p2, p3, p0, q0, q3, q2, q1, x) == Entry(p0, p1, p2, p3, q1, q0, q3, q2, x)
    ensures Entry(p1, p2, p3, p0, q1, q0, q3, q2, x) == Entry(p0, p1, p2, p3, q2, q1, q0, q3, x)
    ensures Entry(p1, p2, p3, p0, q2, q1, q0, q3, x) == Entry(p0, p1, p2, p3, q3, q2, q1, q0, x)
    ensures Entry(p1, p2, p3, p0, q3, q2, q1, q0, x) == Entry(p0, p1, p2, p3, q0, q3, q2, q1, x)
  {
    hide Entry;
    RotateEntry(p0, p1, p2, p3, q0, q3, q2, q1, x);
    RotateEntry(p0, p1, p2, p3, q1, q0, q3, q2, x);
    RotateEntry(p0, p1, p2, p3, q2, q1, q0, q3, x);
    RotateEntry(p0, p1, p2, p3, q3, q2, q1, q0, x);
  }

  lemma MixEntries(x: bv8)
    ensures Entry(14, 11, 13, 9, 2, 1, 1, 3, x) == x && Entry(2, 3, 1, 1, 14, 9, 13, 11, x) == x
    ensures Entry(14, 11, 13, 9, 3, 2, 1, 1, x) == 0 && Entry(2, 3, 1, 1, 11, 14, 9, 13, x) == 0
    ensures Entry(14, 11, 13, 9, 1, 3, 2, 1, x) == 0 && Entry(2, 3, 1, 1, 13, 11, 14, 9, x) == 0
    ensures Entry(14, 11, 13, 9, 1, 1, 3, 2, x) == 0 && Entry(2, 3, 1, 1, 9, 13, 11, 14, x) == 0
  {
    hide Mul, Xor4, Times2, Times3, Times9, Times11, Times13, Times14;
    SmallProducts(x);
    LargeProducts(x);
    LargeProducts(Times2(x));
    LargeProducts(Times3(x));
    SmallProducts(Times9(x));
    SmallProducts(Times11(x));
    SmallProducts(Times13(x));
    SmallProducts(Times14(x));
    InverseEntriesA(x);
    InverseEntriesB(x);
    ProductsCommute(x);
    SwapXor4(Times14(Times2(x)), Times11(x), Times13(x), Times9(Times3(x)));
    SwapXor4(Times14(Times3(x)), Times11(Times2(x)), Times13(x), Times9(x));
    SwapXor4(Times14(x), Times11(Times3(x)), Times13(Times2(x)), Times9(x));
    SwapXor4(Times14(x), Times11(x), Times13(Times3(x)), Times9(Times2(x)));
  }

  /** The orders in which the other product of the two matrices adds the same four terms. */
  lemma SwapXor4(a: bv8, b: bv8, c: bv8, d: bv8)
    ensures Xor4(a, d, c, b) == Xor4(a, b, c, d)
    ensures Xor4(b, a, d, c) == Xor4(a, b, c, d)
    ensures Xor4(c, b, a, d) == Xor4(a, b, c, d)
    ensures Xor4(d, c, b, a) == Xor4(a, b, c, d)
  {
    hide Xor;
    XorCommutes(a, b); XorCommutes(c, d); XorCommutes(Xor(a, b), Xor(c, d));
    XorSwap(a, d, c, b); XorSwap(a, c, d, b); XorCommutes(d, b); XorSwap(a, c, b, d);
    XorSwap(c, b, a, d); XorCommutes(c, a);
  }

  lemma XorCommutes(a: bv8, b: bv8)
    ensures Xor(a, b) == Xor(b, a)
  {}

  lemma MixColumnInverse(c: Column)
    ensures InvMixColumn(MixColumn(c)) == c
    ensures MixColumn(InvMixColumn(c)) == c
  {
    hide Circulant, Entry;
    forall x {
      MixEntries(x);
    }
    CirculantInverse(14, 11, 13, 9, 2, 3, 1, 1, c);
    CirculantInverse(2, 3, 1, 1, 14, 11, 13, 9, c);
  }

  lemma MixColumnsInverse(s: State)
    ensures InvMixColumns(MixColumns(s)) == s
    ensures MixColumns(InvMixColumns(s)) == s
  {
    hide MixColumn, InvMixColumn;
    MixColumnInverse(s.c0);
    MixColumnInverse(s.c1);
    MixColumnInverse(s.c2);
    MixColumnInverse(s.c3);
  }

  // ----- the cipher and the inverse cipher undo each other

  lemma {:induction false} RoundsUndone(s: State, keys: seq<State>, r: nat)
    requires r + 2 <= |keys|
    ensures InvRounds(Cipher(s, keys), keys, r) == Rounds(s, keys, r)
    decreases |keys| - r
  {
    hide AddRoundKey, SubBytes, InvSubBytes, ShiftRows, InvShiftRows, MixColumns, InvMixColumns;
    var before := SubBytes(Rounds(s, keys, r));
    SubBytesInverse(Rounds(s, keys, r));
    ShiftRowsInverse(before);
    if r + 2 == |keys| {
      AddRoundKeyCancels(ShiftRows(before), keys[r + 1]);
    } else {
      RoundsUndone(s, keys, r + 1);
      AddRoundKeyCancels(MixColumns(ShiftRows(before)), keys[r + 1]);
      MixColumnsInverse(ShiftRows(before));
    }
  }

  lemma {:induction false} RoundsRedone(s: State, keys: seq<State>, r: nat)
    requires r + 2 <= |keys|
    ensures Rounds(InvCipher(s, keys), keys, r) == InvRounds(s, keys, r)
  {
    hide AddRoundKey, SubBytes, InvSubBytes, ShiftRows, InvShiftRows, MixColumns, InvMixColumns;
    if r == 0 {
      AddRoundKeyCancels(InvRounds(s, keys, 0), keys[0]);
    } else {
      RoundsRedone(s, keys, r - 1);
      var after := AddRoundKey(InvRounds(s, keys, r), keys[r]);
      SubBytesInverse(InvShiftRows(InvMixColumns(after)));
      ShiftRowsInverse(InvMixColumns(after));
      MixColumnsInverse(after);
      AddRoundKeyCancels(InvRounds(s, keys, r), keys[r]);
    }
  }

  /** For every sequence of round keys the cipher and the inverse cipher are inverse permutations. */
  lemma CipherBijective(s: State, keys: seq<State>)
    requires |keys| >= 2
    ensures InvCipher(Cipher(s, keys), keys) == s
    ensures Cipher(InvCipher(s, keys), keys) == s
  {
    hide AddRoundKey, SubBytes, InvSubBytes, ShiftRows, InvShiftRows, MixColumns, InvMixColumns;
    RoundsUndone(s, keys, 0);
    AddRoundKeyCancels(s, keys[0]);
    var n := |keys| - 2;
    RoundsRedone(s, keys, n);
    var last := AddRoundKey(s, keys[n + 1]);
    SubBytesInverse(InvShiftRows(last));
    ShiftRowsInverse(last);
    AddRoundKeyCancels(s, keys[n + 1]);
  }

  // ----- the equivalent inverse cipher is the inverse cipher

  lemma InvMixColumnLinear(c: Column, d: Column)
    ensures InvMixColumn(XorColumn(c, d)) == XorColumn(InvMixColumn(c), InvMixColumn(d))
  {
    hide Row, Xor;
    RowLinear(14, 11, 13, 9, c, d);
    RowLinear(9, 14, 11, 13, c, d);
    RowLinear(13, 9, 14, 11, c, d);
    RowLinear(11, 13, 9, 14, c, d);
  }

  lemma RowLinear(m0: bv8, m1: bv8, m2: bv8, m3: bv8, c: Column, d: Column)
    ensures Row(m0, m1, m2, m3, XorColumn(c, d)) == Xor(Row(m0, m1, m2, m3, c), Row(m0, m1, m2, m3, d))
  {
    hide Mul, Xor, Xor4;
    MulRightLinear(m0, c.b0, d.b0);
    MulRightLinear(m1, c.b1, d.b1);
    MulRightLinear(m2, c.b2, d.b2);
    MulRightLinear(m3, c.b3, d.b3);
    XorOfXor4(Mul(m0, c.b0), Mul(m1, c.b1), Mul(m2, c.b2), Mul(m3, c.b3),
              Mul(m0, d.b0), Mul(m1, d.b1), Mul(m2, d.b2), Mul(m3, d.b3));
  }

  lemma InvMixColumnsLinear(s: State, k: State)
    ensures InvMixColumns(AddRoundKey(s, k)) == AddRoundKey(InvMixColumns(s), InvMixColumns(k))
  {
    hide InvMixColumn, XorColumn;
    InvMixColumnLinear(s.c0, k.c0);
    InvMixColumnLinear(s.c1, k.c1);
    InvMixColumnLinear(s.c2, k.c2);
    InvMixColumnLinear(s.c3, k.c3);
  }

  lemma InvSubShiftCommute(s: State)
    ensures InvSubBytes(InvShiftRows(s)) == InvShiftRows(InvSubBytes(s))
  {
    hide InvSubByte;
  }

  lemma {:induction false} EqInvRoundsCorrect(s: State, keys: seq<State>, r: nat)
    requires r + 2 <= |keys|
    ensures InvShiftRows(InvSubBytes(EqInvRounds(s, DecryptionKeys(keys), r))) == InvRounds(s, keys, |keys| - 2 - r)
  {
    hide AddRoundKey, SubBytes, InvSubBytes, ShiftRows, InvShiftRows, MixColumns, InvMixColumns;
    var dkeys, q := DecryptionKeys(keys), |keys| - 2 - r;
    InvSubShiftCommute(EqInvRounds(s, dkeys, r));
    if r > 0 {
      EqInvRoundsCorrect(s, keys, r - 1);
      InvMixColumnsLinear(InvRounds(s, keys, q + 1), keys[q + 1]);
    }
  }

  /** Reordering the inverse rounds and mixing the inner keys changes nothing. */
  lemma EqInvCipherIsInvCipher(s: State, keys: seq<State>)
    requires |keys| >= 2
    ensures EqInvCipher(s, DecryptionKeys(keys)) == InvCipher(s, keys)
  {
    hide AddRoundKey, InvSubBytes, InvShiftRows;
    EqInvRoundsCorrect(s, keys, |keys| - 2);
  }
}
