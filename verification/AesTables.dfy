/** The tables of aes.twl.c, as aes_gen_tables fills them. */
module AesTables {
  import opened ByteNumbers
  import opened Gf256
  import opened AesSpec

  // ----- 32-bit words as little-endian columns

  function Pack(c: Column): bv32 {
    (c.b0 as bv32) ^ ((c.b1 as bv32) << 8) ^ ((c.b2 as bv32) << 16) ^ ((c.b3 as bv32) << 24)
  }

  function Byte0(w: bv32): bv8 { (w & 0xFF) as bv8 }

  function Byte1(w: bv32): bv8 { ((w >> 8) & 0xFF) as bv8 }

  function Byte2(w: bv32): bv8 { ((w >> 16) & 0xFF) as bv8 }

  function Byte3(w: bv32): bv8 { ((w >> 24) & 0xFF) as bv8 }

  function Unpack(w: bv32): Column {
    Column(Byte0(w), Byte1(w), Byte2(w), Byte3(w))
  }

  function XorWord(v: bv32, w: bv32): bv32 {
    v ^ w
  }

  function Rotl8(w: bv32): bv32 {
    ((w << 8) & 0xFFFF_FFFF) | (w >> 24)
  }

  lemma UnpackPack(c: Column)
    ensures Unpack(Pack(c)) == c
  {}

  lemma UnpackXor(v: bv32, w: bv32)
    ensures Unpack(XorWord(v, w)) == XorColumn(Unpack(v), Unpack(w))
  {}

  lemma Rotl8Pack(c: Column)
    ensures Rotl8(Pack(c)) == Pack(Column(c.b3, c.b0, c.b1, c.b2))
  {}

  // ----- the contents of the tables

  /** What one byte in row 0 contributes to a column of MixColumns; rows 1 to 3 contribute rotations. */
  function MixTerm(x: bv8): Column {
    Column(Mul(2, x), Mul(1, x), Mul(1, x), Mul(3, x))
  }

  function InvMixTerm(x: bv8): Column {
    Column(Mul(14, x), Mul(9, x), Mul(13, x), Mul(11, x))
  }

  function Down(c: Column): Column {
    Column(c.b3, c.b0, c.b1, c.b2)
  }

  /** mul_by_log is the MUL macro. */
  function MulByLog(pow: seq<bv8>, log: seq<bv8>, x: bv8, y: bv8): bv8
    requires |pow| == |log| == 256
  {
    if x != 0 && y != 0 then pow[(Index(log[Index(x)]) + Index(log[Index(y)])) % 255] else 0
  }

  function Index(x: bv8): (i: nat)
    ensures i < 256
  {
    x as nat
  }

  lemma ByteIndex(x: bv8)
    ensures Byte(Index(x)) == x
  {}

  ghost predicate IsPowLog(pow: seq<bv8>, log: seq<bv8>) {
    && |pow| == |log| == 256
    && (forall i | 0 <= i < 256 :: pow[i] == Power(i))
    && (forall x: bv8 | x != 0 :: log[Index(x)] == Byte(Log(x)))
  }

  lemma {:induction false} PowerMod(i: nat)
    ensures Power(i % 255) == Power(i)
  {
    hide Power;
    if i >= 255 {
      PowerMod(i - 255);
      PowerPeriod();
      PowerAdd(255, i - 255);
      MulUnit(Power(i - 255));
    }
  }

  /** The discrete-logarithm product is the product of section 4.2 of FIPS 197, for all factors. */
  lemma MulByLogCorrect(pow: seq<bv8>, log: seq<bv8>, x: bv8, y: bv8)
    requires IsPowLog(pow, log)
    ensures MulByLog(pow, log, x, y) == Mul(x, y)
  {
    hide Power, Mul, Byte, Index;
    if x != 0 && y != 0 {
      IndexByte(Log(x));
      IndexByte(Log(y));
      PowerMod(Log(x) + Log(y));
      PowerAdd(Log(x), Log(y));
    } else {
      MulZero(x, y);
    }
  }

  lemma IndexByte(k: nat)
    requires k < 256
    ensures Index(Byte(k)) == k
  {
    ByteValue(k);
  }

  lemma MulZero(x: bv8, y: bv8)
    requires x == 0 || y == 0
    ensures Mul(x, y) == 0
  {
    if x == 0 {
    } else {
      MulRightLinear(x, 0, 0);
    }
  }

  ghost predicate IsSBox(fsb: seq<bv8>) {
    |fsb| == 256 && forall i | 0 <= i < 256 :: fsb[i] == SubByte(Byte(i))
  }

  ghost predicate IsInverseSBox(rsb: seq<bv8>) {
    |rsb| == 256 && forall i | 0 <= i < 256 :: rsb[i] == InvSubByte(Byte(i))
  }

  /** The first loop: powers and logarithms. */
  method FillPowLog(pow: array<bv8>, log: array<bv8>)
    requires pow.Length == log.Length == 256 && pow != log
    modifies pow, log
    ensures IsPowLog(pow[..], log[..])
  {
    hide Power, Mul3, Byte, Index, XTime;
    var x: bv8 := 1;
    PowerStart();
    for i := 0 to 256
      invariant x == Power(i)
      invariant forall j | 0 <= j < i :: pow[j] == Power(j)
      invariant forall j | 1 <= j < i :: log[Index(Power(j))] == Byte(j)
    {
      pow[i] := x;
      log[Index(x)] := Byte(i);
      forall j | 1 <= j < i ensures Index(Power(j)) != Index(Power(i)) {
        PowersDiffer(j, i);
      }
      PowerNext(i);
      x := x ^ XTime(x);
    }
  }

  lemma PowersDiffer(j: nat, i: nat)
    requires 1 <= j < i <= 255
    ensures Index(Power(j)) != Index(Power(i))
  {
    hide Power, Index;
    LogOfPower(i);
    LogOfPower(j);
    ByteIndex(Power(i));
    ByteIndex(Power(j));
  }

  lemma PowerNext(i: nat)
    ensures Power(i + 1) == Power(i) ^ XTime(Power(i))
  {
    XorCommutes(Power(i), XTime(Power(i)));
  }

  ghost predicate SBoxesUpTo(fsb: seq<bv8>, rsb: seq<bv8>, n: nat) {
    && |fsb| == |rsb| == 256 && n <= 256
    && (forall j | 0 <= j < n :: fsb[j] == SubByte(Byte(j)))
    && (forall j | 0 <= j < n :: rsb[Index(SubByte(Byte(j)))] == Byte(j))
  }

  /** The third loop: the S-box and its inverse. */
  method FillSBoxes(pow: array<bv8>, log: array<bv8>, fsb: array<bv8>, rsb: array<bv8>)
    requires pow.Length == log.Length == fsb.Length == rsb.Length == 256
    requires fsb != rsb && fsb != pow && fsb != log && rsb != pow && rsb != log
    requires IsPowLog(pow[..], log[..])
    modifies fsb, rsb
    ensures IsSBox(fsb[..]) && IsInverseSBox(rsb[..])
  {
    hide *;
    fsb[0] := 0x63;
    rsb[Index(0x63)] := 0;
    SBoxesAtZero(fsb[..], rsb[..]);
    for i := 1 to 256
      invariant SBoxesUpTo(fsb[..], rsb[..], i)
    {
      var x := pow[255 - Index(log[i])];
      InverseByTables(pow[..], log[..], i);
      x := AffineStep(x);
      ghost var fsb0, rsb0 := fsb[..], rsb[..];
      fsb[i] := x;
      rsb[Index(x)] := Byte(i);
      assert fsb[..] == fsb0[i := x] && rsb[..] == rsb0[Index(x) := Byte(i)];
      SBoxesExtend(fsb0, rsb0, i, x);
    }
    SBoxesComplete(fsb[..], rsb[..]);
  }

  /** The four rotate-and-add steps. */
  method AffineStep(inverse: bv8) returns (x: bv8)
    ensures x == Affine(inverse)
  {
    x := inverse;
    var y := x;
    y := (y << 1) | (y >> 7);
    x := x ^ y;
    y := (y << 1) | (y >> 7);
    x := x ^ y;
    y := (y << 1) | (y >> 7);
    x := x ^ y;
    y := (y << 1) | (y >> 7);
    x := x ^ (y ^ 0x63);
  }

  lemma SBoxesAtZero(fsb: seq<bv8>, rsb: seq<bv8>)
    requires |fsb| == |rsb| == 256 && fsb[0] == 0x63 && rsb[Index(0x63)] == 0
    ensures SBoxesUpTo(fsb, rsb, 1)
  {
    hide Index;
    assert Byte(0) == 0 && SubByte(0) == 0x63;
  }

  /** The table lookup of the generator code never reads outside pow, and finds the field inverse. */
  lemma InverseByTables(pow: seq<bv8>, log: seq<bv8>, i: nat)
    requires IsPowLog(pow, log) && 1 <= i < 256
    ensures Affine(pow[255 - Index(log[i])]) == SubByte(Byte(i))
  {
    hide Power, Byte, Index, Affine;
    IndexByte(i);
    ByteNonzero(i);
    IndexByte(Log(Byte(i)));
  }

  lemma ByteNonzero(i: nat)
    requires 1 <= i < 256
    ensures Byte(i) != 0
  {
    ByteValue(i);
  }

  lemma SBoxesExtend(fsb: seq<bv8>, rsb: seq<bv8>, i: nat, x: bv8)
    requires SBoxesUpTo(fsb, rsb, i) && i < 256 && x == SubByte(Byte(i))
    ensures SBoxesUpTo(fsb[i := x], rsb[Index(x) := Byte(i)], i + 1)
  {
    hide SubByte, Byte, Index;
    forall j | 0 <= j < i ensures Index(SubByte(Byte(j))) != Index(x) {
      SBoxDiffers(j, i);
    }
  }

  /** The S-box is injective. */
  lemma SBoxDiffers(j: nat, i: nat)
    requires j < i < 256
    ensures Index(SubByte(Byte(j))) != Index(SubByte(Byte(i)))
  {
    hide *;
    ByteIndex(SubByte(Byte(j)));
    ByteIndex(SubByte(Byte(i)));
    SubByteBijective(Byte(j));
    SubByteBijective(Byte(i));
    IndexByte(j);
    IndexByte(i);
  }

  lemma SBoxesComplete(fsb: seq<bv8>, rsb: seq<bv8>)
    requires SBoxesUpTo(fsb, rsb, 256)
    ensures IsSBox(fsb) && IsInverseSBox(rsb)
  {
    hide SubByte, InvSubByte, Byte, Index;
    forall i | 0 <= i < 256 ensures rsb[i] == InvSubByte(Byte(i)) {
      var j := Index(InvSubByte(Byte(i)));
      ByteIndex(InvSubByte(Byte(i)));
      SubByteBijective(Byte(i));
      IndexByte(i);
      assert rsb[Index(SubByte(Byte(j)))] == Byte(j);
    }
  }

  // ----- the round tables

  /** Table r of four: row r of the state goes through the table whose words are rotated by r bytes. */
  ghost predicate IsForwardTable(t: seq<bv32>, r: nat) {
    |t| == 256 && forall i | 0 <= i < 256 :: t[i] == Pack(Turn(MixTerm(SubByte(Byte(i))), r))
  }

  ghost predicate IsReverseTable(t: seq<bv32>, r: nat) {
    |t| == 256 && forall i | 0 <= i < 256 :: t[i] == Pack(Turn(InvMixTerm(InvSubByte(Byte(i))), r))
  }

  function Turn(c: Column, r: nat): Column {
    if r == 0 then c else Down(Turn(c, r - 1))
  }

  lemma ForwardWord(x: bv8)
    ensures var y := XTime(x); var z := y ^ x;
            (y as bv32) ^ ((x as bv32) << 8) ^ ((x as bv32) << 16) ^ ((z as bv32) << 24) == Pack(MixTerm(x))
  {
    hide Mul, XTime;
    SmallProducts(x);
    XorCommutes(x, XTime(x));
  }

  lemma TurnWord(c: Column, r: nat)
    ensures Rotl8(Pack(Turn(c, r))) == Pack(Turn(c, r + 1))
  {
    hide Pack, Rotl8;
    Rotl8Pack(Turn(c, r));
  }

  /** The last loop, forward tables. */
  method FillForwardTables(fsb: array<bv8>, ft0: array<bv32>, ft1: array<bv32>, ft2: array<bv32>, ft3: array<bv32>)
    requires fsb.Length == ft0.Length == ft1.Length == ft2.Length == ft3.Length == 256
    requires ft0 != ft1 && ft0 != ft2 && ft0 != ft3 && ft1 != ft2 && ft1 != ft3 && ft2 != ft3
    requires IsSBox(fsb[..])
    modifies ft0, ft1, ft2, ft3
    ensures IsForwardTable(ft0[..], 0) && IsForwardTable(ft1[..], 1)
    ensures IsForwardTable(ft2[..], 2) && IsForwardTable(ft3[..], 3)
  {
    hide SubByte, Byte, Pack, Rotl8, Turn, MixTerm, XTime;
    for i := 0 to 256
      invariant forall j | 0 <= j < i :: ft0[j] == Pack(Turn(MixTerm(SubByte(Byte(j))), 0))
      invariant forall j | 0 <= j < i :: ft1[j] == Pack(Turn(MixTerm(SubByte(Byte(j))), 1))
      invariant forall j | 0 <= j < i :: ft2[j] == Pack(Turn(MixTerm(SubByte(Byte(j))), 2))
      invariant forall j | 0 <= j < i :: ft3[j] == Pack(Turn(MixTerm(SubByte(Byte(j))), 3))
    {
      var x := fsb[i];
      ft0[i] := ForwardEntry(x);
      ft1[i] := Rotl8(ft0[i]);
      ft2[i] := Rotl8(ft1[i]);
      ft3[i] := Rotl8(ft2[i]);
      TurnWord(MixTerm(x), 0);
      TurnWord(MixTerm(x), 1);
      TurnWord(MixTerm(x), 2);
    }
  }

  method ForwardEntry(x: bv8) returns (w: bv32)
    ensures w == Pack(Turn(MixTerm(x), 0))
  {
    hide Pack, MixTerm, XTime;
    var y := XTime(x);
    var z := y ^ x;
    w := (y as bv32) ^ ((x as bv32) << 8) ^ ((x as bv32) << 16) ^ ((z as bv32) << 24);
    ForwardWord(x);
  }

  /** The last loop, reverse tables. */
  method FillReverseTables(pow: array<bv8>, log: array<bv8>, rsb: array<bv8>,
                           rt0: array<bv32>, rt1: array<bv32>, rt2: array<bv32>, rt3: array<bv32>)
    requires pow.Length == log.Length == rsb.Length == rt0.Length == rt1.Length == rt2.Length == rt3.Length == 256
    requires rt0 != rt1 && rt0 != rt2 && rt0 != rt3 && rt1 != rt2 && rt1 != rt3 && rt2 != rt3
    requires IsPowLog(pow[..], log[..]) && IsInverseSBox(rsb[..])
    modifies rt0, rt1, rt2, rt3
    ensures IsReverseTable(rt0[..], 0) && IsReverseTable(rt1[..], 1)
    ensures IsReverseTable(rt2[..], 2) && IsReverseTable(rt3[..], 3)
  {
    hide InvSubByte, Byte, Pack, Rotl8, Turn, InvMixTerm, IsPowLog, MulByLog;
    for i := 0 to 256
      invariant forall j | 0 <= j < i :: rt0[j] == Pack(Turn(InvMixTerm(InvSubByte(Byte(j))), 0))
      invariant forall j | 0 <= j < i :: rt1[j] == Pack(Turn(InvMixTerm(InvSubByte(Byte(j))), 1))
      invariant forall j | 0 <= j < i :: rt2[j] == Pack(Turn(InvMixTerm(InvSubByte(Byte(j))), 2))
      invariant forall j | 0 <= j < i :: rt3[j] == Pack(Turn(InvMixTerm(InvSubByte(Byte(j))), 3))
    {
      var x := rsb[i];
      rt0[i] := ReverseEntry(pow[..], log[..], x);
      rt1[i] := Rotl8(rt0[i]);
      rt2[i] := Rotl8(rt1[i]);
      rt3[i] := Rotl8(rt2[i]);
      TurnWord(InvMixTerm(x), 0);
      TurnWord(InvMixTerm(x), 1);
      TurnWord(InvMixTerm(x), 2);
    }
  }

  method ReverseEntry(pow: seq<bv8>, log: seq<bv8>, x: bv8) returns (w: bv32)
    requires IsPowLog(pow, log)
    ensures w == Pack(Turn(InvMixTerm(x), 0))
  {
    hide Mul, MulByLog, Power, Byte, Index;
    w := (MulByLog(pow, log, 0x0E, x) as bv32) ^ ((MulByLog(pow, log, 0x09, x) as bv32) << 8)
       ^ ((MulByLog(pow, log, 0x0D, x) as bv32) << 16) ^ ((MulByLog(pow, log, 0x0B, x) as bv32) << 24);
    MulByLogCorrect(pow, log, 0x0E, x);
    MulByLogCorrect(pow, log, 0x09, x);
    MulByLogCorrect(pow, log, 0x0D, x);
    MulByLogCorrect(pow, log, 0x0B, x);
  }

  /** The second loop: powers of x. */
  ghost function RoundConstant(i: nat): bv8 {
    if i == 0 then 1 else XTime(RoundConstant(i - 1))
  }

  method FillRoundConstants(rcon: array<bv32>)
    requires rcon.Length == 10
    modifies rcon
    ensures forall i | 0 <= i < 10 :: rcon[i] == RoundConstant(i) as bv32
  {
    hide XTime;
    var x: bv8 := 1;
    for i := 0 to 10
      invariant x == RoundConstant(i)
      invariant forall j | 0 <= j < i :: rcon[j] == RoundConstant(j) as bv32
    {
      rcon[i] := x as bv32;
      x := XTime(x);
    }
  }

  /** The static tables of the module, and the lookups that the macros make. */
  class Tables {
    const fsb: array<bv8>
    const rsb: array<bv8>
    const ft0: array<bv32>
    const ft1: array<bv32>
    const ft2: array<bv32>
    const ft3: array<bv32>
    const rt0: array<bv32>
    const rt1: array<bv32>
    const rt2: array<bv32>
    const rt3: array<bv32>
    const rcon: array<bv32>

    ghost function Arrays(): set<object> {
      {fsb, rsb} + {ft0, ft1, ft2, ft3, rt0, rt1, rt2, rt3, rcon}
    }

    ghost predicate Valid()
      reads Arrays()
    {
      && IsSBox(fsb[..]) && IsInverseSBox(rsb[..])
      && IsForwardTable(ft0[..], 0) && IsForwardTable(ft1[..], 1)
      && IsForwardTable(ft2[..], 2) && IsForwardTable(ft3[..], 3)
      && IsReverseTable(rt0[..], 0) && IsReverseTable(rt1[..], 1)
      && IsReverseTable(rt2[..], 2) && IsReverseTable(rt3[..], 3)
      && rcon.Length == 10 && forall i | 0 <= i < 10 :: rcon[i] == RoundConstant(i) as bv32
    }

    ghost predicate Distinct() {
      && fsb != rsb
      && ft0 != ft1 && ft0 != ft2 && ft0 != ft3 && ft1 != ft2 && ft1 != ft3 && ft2 != ft3
      && rt0 != rt1 && rt0 != rt2 && rt0 != rt3 && rt1 != rt2 && rt1 != rt3 && rt2 != rt3
      && {ft0, ft1, ft2, ft3} !! {rt0, rt1, rt2, rt3, rcon} && rcon !in {rt0, rt1, rt2, rt3}
    }

    ghost predicate Sized() {
      && fsb.Length == rsb.Length == 256
      && ft0.Length == ft1.Length == ft2.Length == ft3.Length == 256
      && rt0.Length == rt1.Length == rt2.Length == rt3.Length == 256
      && rcon.Length == 10
    }

    /** The tables are static arrays: distinct, with fixed sizes. */
    constructor ()
      ensures Distinct() && Sized() && fresh(Arrays())
    {
      fsb, rsb := new bv8[256], new bv8[256];
      ft0, ft1, ft2, ft3 := new bv32[256], new bv32[256], new bv32[256], new bv32[256];
      rt0, rt1, rt2, rt3 := new bv32[256], new bv32[256], new bv32[256], new bv32[256];
      rcon := new bv32[10];
    }

    /** aes_gen_tables. */
    method Generate()
      requires Distinct() && Sized()
      modifies Arrays()
      ensures Valid()
    {
      hide IsPowLog, IsSBox, IsInverseSBox, IsForwardTable, IsReverseTable, RoundConstant;
      var pow, log := new bv8[256], new bv8[256];
      FillPowLog(pow, log);
      FillRoundConstants(rcon);
      FillSBoxes(pow, log, fsb, rsb);
      FillForwardTables(fsb, ft0, ft1, ft2, ft3);
      FillReverseTables(pow, log, rsb, rt0, rt1, rt2, rt3);
    }
  }
}
