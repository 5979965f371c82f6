/** The portable T-table code of aes.twl.c: key schedules, block encryption and block decryption. */
module Aes {
  import opened AesSpec
  import opened AesTables
  import opened ByteNumbers
  import opened Gf256

  const ERR_AES_INVALID_KEY_LENGTH: int := -0x0020

  // ----- blocks, words and round keys as columns

  /** Sixteen bytes as a state, column by column (section 3.4 of FIPS 197). */
  function Load(b: seq<bv8>): State
    requires |b| == 16
  {
    State(Column(b[0], b[1], b[2], b[3]), Column(b[4], b[5], b[6], b[7]),
          Column(b[8], b[9], b[10], b[11]), Column(b[12], b[13], b[14], b[15]))
  }

  function StoreColumn(c: Column): seq<bv8> {
    [c.b0, c.b1, c.b2, c.b3]
  }

  function Store(s: State): (b: seq<bv8>)
    ensures |b| == 16
  {
    StoreColumn(s.c0) + StoreColumn(s.c1) + StoreColumn(s.c2) + StoreColumn(s.c3)
  }

  lemma LoadStore(s: State)
    ensures Load(Store(s)) == s
  {}

  lemma StoreLoad(b: seq<bv8>)
    requires |b| == 16
    ensures Store(Load(b)) == b
  {
    assert StoreColumn(Load(b).c0) == b[0..4];
    assert StoreColumn(Load(b).c1) == b[4..8];
    assert StoreColumn(Load(b).c2) == b[8..12];
    assert StoreColumn(Load(b).c3) == b[12..16];
    assert b == b[0..4] + b[4..8] + b[8..12] + b[12..16];
  }

  function StateOf(w0: bv32, w1: bv32, w2: bv32, w3: bv32): State {
    State(Unpack(w0), Unpack(w1), Unpack(w2), Unpack(w3))
  }

  /** Round key r of the flat round-key buffer. */
  function RoundKey(buf: seq<bv32>, r: nat): State
    requires 4 * r + 4 <= |buf|
  {
    StateOf(buf[4 * r], buf[4 * r + 1], buf[4 * r + 2], buf[4 * r + 3])
  }

  function RoundKeys(buf: seq<bv32>, nr: nat): (keys: seq<State>)
    requires 4 * nr + 4 <= |buf|
    ensures |keys| == nr + 1
    ensures forall r | 0 <= r <= nr :: keys[r] == RoundKey(buf, r)
  {
    seq(nr + 1, r requires 0 <= r <= nr => RoundKey(buf, r))
  }

  // ----- a round

  /** A column of MixColumns is the sum of one table word per row. */
  lemma MixColumnTerms(c: Column)
    ensures MixColumn(c) == XorColumn(XorColumn(Turn(MixTerm(c.b0), 0), Turn(MixTerm(c.b1), 1)),
                                      XorColumn(Turn(MixTerm(c.b2), 2), Turn(MixTerm(c.b3), 3)))
  {
    hide Mul, Xor;
    TurnCases(MixTerm(c.b1));
    TurnCases(MixTerm(c.b2));
    TurnCases(MixTerm(c.b3));
  }

  lemma InvMixColumnTerms(c: Column)
    ensures InvMixColumn(c) == XorColumn(XorColumn(Turn(InvMixTerm(c.b0), 0), Turn(InvMixTerm(c.b1), 1)),
                                         XorColumn(Turn(InvMixTerm(c.b2), 2), Turn(InvMixTerm(c.b3), 3)))
  {
    hide Mul, Xor;
    TurnCases(InvMixTerm(c.b1));
    TurnCases(InvMixTerm(c.b2));
    TurnCases(InvMixTerm(c.b3));
  }

  lemma TurnCases(c: Column)
    ensures Turn(c, 1) == Column(c.b3, c.b0, c.b1, c.b2)
    ensures Turn(c, 2) == Column(c.b2, c.b3, c.b0, c.b1)
    ensures Turn(c, 3) == Column(c.b1, c.b2, c.b3, c.b0)
  {
    assert Turn(c, 1) == Down(c);
    assert Turn(c, 2) == Down(Down(c));
    assert Turn(c, 3) == Down(Down(Down(c)));
  }

  function XorWords(k: bv32, a: bv32, b: bv32, c: bv32, d: bv32): bv32 {
    XorWord(XorWord(XorWord(XorWord(k, a), b), c), d)
  }

  lemma UnpackXorWords(k: bv32, a: Column, b: Column, c: Column, d: Column)
    ensures Unpack(XorWords(k, Pack(a), Pack(b), Pack(c), Pack(d)))
         == XorColumn(XorColumn(XorColumn(a, b), XorColumn(c, d)), Unpack(k))
  {
    hide *;
    UnpackFive(k, a, b, c, d);
    XorFiveColumns(Unpack(k), a, b, c, d);
  }

  lemma UnpackFive(k: bv32, a: Column, b: Column, c: Column, d: Column)
    ensures Unpack(XorWords(k, Pack(a), Pack(b), Pack(c), Pack(d)))
         == XorColumn(XorColumn(XorColumn(XorColumn(Unpack(k), a), b), c), d)
  {
    hide XorWord, Unpack, Pack, XorColumn;
    UnpackPack(a); UnpackPack(b); UnpackPack(c); UnpackPack(d);
    var ka := XorWord(k, Pack(a));
    var kab := XorWord(ka, Pack(b));
    var kabc := XorWord(kab, Pack(c));
    UnpackXor(k, Pack(a)); UnpackXor(ka, Pack(b)); UnpackXor(kab, Pack(c)); UnpackXor(kabc, Pack(d));
  }

  lemma XorFiveColumns(k: Column, a: Column, b: Column, c: Column, d: Column)
    ensures XorColumn(XorColumn(XorColumn(XorColumn(k, a), b), c), d)
         == XorColumn(XorColumn(XorColumn(a, b), XorColumn(c, d)), k)
  {
    hide Xor;
    XorFive(k.b0, a.b0, b.b0, c.b0, d.b0);
    XorFive(k.b1, a.b1, b.b1, c.b1, d.b1);
    XorFive(k.b2, a.b2, b.b2, c.b2, d.b2);
    XorFive(k.b3, a.b3, b.b3, c.b3, d.b3);
  }

  lemma XorFive(k: bv8, a: bv8, b: bv8, c: bv8, d: bv8)
    ensures Xor(Xor(Xor(Xor(k, a), b), c), d) == Xor(Xor(Xor(a, b), Xor(c, d)), k)
  {
    assert (((k ^ a) ^ b) ^ c) ^ d == ((a ^ b) ^ (c ^ d)) ^ k;
  }

  /** One column of the AES_FROUND macro. */
  method ForwardColumn(t: Tables, k: bv32, ya: bv32, yb: bv32, yc: bv32, yd: bv32) returns (x: bv32)
    requires t.Valid()
    ensures Unpack(x) == XorColumn(MixColumn(SubColumn(Column(Byte0(ya), Byte1(yb), Byte2(yc), Byte3(yd)))), Unpack(k))
  {
    hide Turn, MixTerm, SubByte, Pack, Byte, Index, XorWord, MixColumn, XorColumn, Unpack;
    hide IsSBox, IsInverseSBox, IsReverseTable;
    var a, b, c, d := Byte0(ya), Byte1(yb), Byte2(yc), Byte3(yd);
    hide Byte0, Byte1, Byte2, Byte3;
    x := XorWords(k, t.ft0[Index(a)], t.ft1[Index(b)], t.ft2[Index(c)], t.ft3[Index(d)]);
    ByteIndex(a); ByteIndex(b); ByteIndex(c); ByteIndex(d);
    var s := SubColumn(Column(a, b, c, d));
    UnpackXorWords(k, Turn(MixTerm(s.b0), 0), Turn(MixTerm(s.b1), 1), Turn(MixTerm(s.b2), 2), Turn(MixTerm(s.b3), 3));
    MixColumnTerms(s);
  }

  /** One column of the AES_RROUND macro. */
  method ReverseColumn(t: Tables, k: bv32, ya: bv32, yb: bv32, yc: bv32, yd: bv32) returns (x: bv32)
    requires t.Valid()
    ensures Unpack(x) == XorColumn(InvMixColumn(InvSubColumn(Column(Byte0(ya), Byte1(yb), Byte2(yc), Byte3(yd)))), Unpack(k))
  {
    hide Turn, InvMixTerm, InvSubByte, Pack, Byte, Index, XorWord, InvMixColumn, XorColumn, Unpack;
    hide IsSBox, IsInverseSBox, IsForwardTable;
    var a, b, c, d := Byte0(ya), Byte1(yb), Byte2(yc), Byte3(yd);
    hide Byte0, Byte1, Byte2, Byte3;
    x := XorWords(k, t.rt0[Index(a)], t.rt1[Index(b)], t.rt2[Index(c)], t.rt3[Index(d)]);
    ByteIndex(a); ByteIndex(b); ByteIndex(c); ByteIndex(d);
    var s := InvSubColumn(Column(a, b, c, d));
    UnpackXorWords(k, Turn(InvMixTerm(s.b0), 0), Turn(InvMixTerm(s.b1), 1),
                   Turn(InvMixTerm(s.b2), 2), Turn(InvMixTerm(s.b3), 3));
    InvMixColumnTerms(s);
  }

  /** One column of the last round: bytes of an S-box, shifted into place. */
  method LastColumn(sbox: array<bv8>, k: bv32, ya: bv32, yb: bv32, yc: bv32, yd: bv32) returns (x: bv32)
    requires sbox.Length == 256
    ensures Unpack(x) == XorColumn(Column(sbox[Index(Byte0(ya))], sbox[Index(Byte1(yb))],
                                          sbox[Index(Byte2(yc))], sbox[Index(Byte3(yd))]), Unpack(k))
  {
    var a, b, c, d := sbox[Index(Byte0(ya))], sbox[Index(Byte1(yb))], sbox[Index(Byte2(yc))], sbox[Index(Byte3(yd))];
    x := k ^ (a as bv32) ^ ((b as bv32) << 8) ^ ((c as bv32) << 16) ^ ((d as bv32) << 24);
    hide *;
    LastWord(k, a, b, c, d);
  }

  lemma LastWord(k: bv32, a: bv8, b: bv8, c: bv8, d: bv8)
    ensures Unpack(k ^ (a as bv32) ^ ((b as bv32) << 8) ^ ((c as bv32) << 16) ^ ((d as bv32) << 24))
         == XorColumn(Column(a, b, c, d), Unpack(k))
  {}

  /** The AES_FROUND macro, with RK at buf + 4 * r. */
  method ForwardRound(t: Tables, buf: array<bv32>, r: nat, y0: bv32, y1: bv32, y2: bv32, y3: bv32)
    returns (x0: bv32, x1: bv32, x2: bv32, x3: bv32)
    requires t.Valid() && 4 * r + 4 <= buf.Length
    ensures StateOf(x0, x1, x2, x3)
         == AddRoundKey(MixColumns(ShiftRows(SubBytes(StateOf(y0, y1, y2, y3)))), RoundKey(buf[..], r))
  {
    hide Byte0, Byte1, Byte2, Byte3, SubByte, MixColumn, XorColumn, IsSBox, IsInverseSBox, IsForwardTable, IsReverseTable;
    x0 := ForwardColumn(t, buf[4 * r], y0, y1, y2, y3);
    x1 := ForwardColumn(t, buf[4 * r + 1], y1, y2, y3, y0);
    x2 := ForwardColumn(t, buf[4 * r + 2], y2, y3, y0, y1);
    x3 := ForwardColumn(t, buf[4 * r + 3], y3, y0, y1, y2);
  }

  /** The AES_RROUND macro, with RK at buf + 4 * r. */
  method ReverseRound(t: Tables, buf: array<bv32>, r: nat, y0: bv32, y1: bv32, y2: bv32, y3: bv32)
    returns (x0: bv32, x1: bv32, x2: bv32, x3: bv32)
    requires t.Valid() && 4 * r + 4 <= buf.Length
    ensures StateOf(x0, x1, x2, x3)
         == AddRoundKey(InvMixColumns(InvShiftRows(InvSubBytes(StateOf(y0, y1, y2, y3)))), RoundKey(buf[..], r))
  {
    hide Byte0, Byte1, Byte2, Byte3, InvSubByte, InvMixColumn, XorColumn, IsSBox, IsInverseSBox, IsForwardTable, IsReverseTable;
    x0 := ReverseColumn(t, buf[4 * r], y0, y3, y2, y1);
    x1 := ReverseColumn(t, buf[4 * r + 1], y1, y0, y3, y2);
    x2 := ReverseColumn(t, buf[4 * r + 2], y2, y1, y0, y3);
    x3 := ReverseColumn(t, buf[4 * r + 3], y3, y2, y1, y0);
  }

  /** The first AddRoundKey: the input words, read as little-endian, plus the first four key words. */
  method FirstAddRoundKey(buf: array<bv32>, input: seq<bv8>) returns (x0: bv32, x1: bv32, x2: bv32, x3: bv32)
    requires |input| == 16 && 4 <= buf.Length
    ensures StateOf(x0, x1, x2, x3) == AddRoundKey(Load(input), RoundKey(buf[..], 0))
  {
    hide Pack, Unpack, XorColumn;
    var s := Load(input);
    x0, x1, x2, x3 := Pack(s.c0), Pack(s.c1), Pack(s.c2), Pack(s.c3);
    UnpackPack(s.c0); UnpackPack(s.c1); UnpackPack(s.c2); UnpackPack(s.c3);
    UnpackXor(x0, buf[0]); UnpackXor(x1, buf[1]); UnpackXor(x2, buf[2]); UnpackXor(x3, buf[3]);
    hide *;
    x0, x1, x2, x3 := XorWord(x0, buf[0]), XorWord(x1, buf[1]), XorWord(x2, buf[2]), XorWord(x3, buf[3]);
  }

  /** The last round of encryption. */
  method LastForward(t: Tables, buf: array<bv32>, r: nat, y0: bv32, y1: bv32, y2: bv32, y3: bv32)
    returns (x0: bv32, x1: bv32, x2: bv32, x3: bv32)
    requires t.Valid() && 4 * r + 4 <= buf.Length
    ensures StateOf(x0, x1, x2, x3) == AddRoundKey(ShiftRows(SubBytes(StateOf(y0, y1, y2, y3))), RoundKey(buf[..], r))
  {
    hide Byte0, Byte1, Byte2, Byte3, SubByte, XorColumn, Byte, Index, IsForwardTable, IsReverseTable, IsInverseSBox;
    x0 := LastColumn(t.fsb, buf[4 * r], y0, y1, y2, y3);
    x1 := LastColumn(t.fsb, buf[4 * r + 1], y1, y2, y3, y0);
    x2 := LastColumn(t.fsb, buf[4 * r + 2], y2, y3, y0, y1);
    x3 := LastColumn(t.fsb, buf[4 * r + 3], y3, y0, y1, y2);
    forall x { ByteIndex(x); }
  }

  /** The last round of decryption. */
  method LastReverse(t: Tables, buf: array<bv32>, r: nat, y0: bv32, y1: bv32, y2: bv32, y3: bv32)
    returns (x0: bv32, x1: bv32, x2: bv32, x3: bv32)
    requires t.Valid() && 4 * r + 4 <= buf.Length
    ensures StateOf(x0, x1, x2, x3)
         == AddRoundKey(InvShiftRows(InvSubBytes(StateOf(y0, y1, y2, y3))), RoundKey(buf[..], r))
  {
    hide Byte0, Byte1, Byte2, Byte3, InvSubByte, XorColumn, Byte, Index, IsForwardTable, IsReverseTable, IsSBox;
    x0 := LastColumn(t.rsb, buf[4 * r], y0, y3, y2, y1);
    x1 := LastColumn(t.rsb, buf[4 * r + 1], y1, y0, y3, y2);
    x2 := LastColumn(t.rsb, buf[4 * r + 2], y2, y1, y0, y3);
    x3 := LastColumn(t.rsb, buf[4 * r + 3], y3, y2, y1, y0);
    forall x { ByteIndex(x); }
  }

  // ----- the key expansion, section 5.2

  function RotColumn(c: Column): Column {
    Column(c.b1, c.b2, c.b3, c.b0)
  }

  ghost predicate IsKey(key: seq<bv8>, nk: nat) {
    nk in {4, 6, 8} && |key| == 4 * nk
  }

  /** What is added to word i - nk to obtain word i, given word i - 1. */
  ghost function KeyStep(nk: nat, i: nat, previous: Column): Column
    requires 4 <= nk <= i
  {
    if i % nk == 0 then XorColumn(SubColumn(RotColumn(previous)), Column(RoundConstant(i / nk - 1), 0, 0, 0))
    else if nk > 6 && i % nk == 4 then SubColumn(previous)
    else previous
  }

  /** Word i of the expanded key. */
  ghost function KeyWord(key: seq<bv8>, nk: nat, i: nat): Column
    requires IsKey(key, nk)
  {
    if i < nk then Column(key[4 * i], key[4 * i + 1], key[4 * i + 2], key[4 * i + 3])
    else XorColumn(KeyWord(key, nk, i - nk), KeyStep(nk, i, KeyWord(key, nk, i - 1)))
  }

  ghost function ExpandedKeys(key: seq<bv8>, nk: nat): (keys: seq<State>)
    requires IsKey(key, nk)
    ensures |keys| == nk + 7
  {
    seq(nk + 7, r requires 0 <= r < nk + 7 =>
      State(KeyWord(key, nk, 4 * r), KeyWord(key, nk, 4 * r + 1), KeyWord(key, nk, 4 * r + 2), KeyWord(key, nk, 4 * r + 3)))
  }

  /** The first n words of the buffer are the first n words of the expanded key. */
  ghost predicate Expanded(buf: seq<bv32>, key: seq<bv8>, nk: nat, n: nat)
    requires IsKey(key, nk)
  {
    n <= |buf| && forall j | 0 <= j < n :: Unpack(buf[j]) == KeyWord(key, nk, j)
  }

  lemma ExpandOne(buf: seq<bv32>, key: seq<bv8>, nk: nat, n: nat, w: bv32)
    requires IsKey(key, nk) && Expanded(buf, key, nk, n) && nk <= n < |buf|
    requires Unpack(w) == XorColumn(Unpack(buf[n - nk]), KeyStep(nk, n, Unpack(buf[n - 1])))
    ensures Expanded(buf[n := w], key, nk, n + 1)
  {
    hide Unpack, XorColumn, KeyStep;
  }

  lemma KeysOf(buf: seq<bv32>, key: seq<bv8>, nk: nat, n: nat)
    requires IsKey(key, nk) && Expanded(buf, key, nk, n) && n >= 4 * (nk + 7)
    ensures RoundKeys(buf, nk + 6) == ExpandedKeys(key, nk)
  {
    hide Unpack, KeyWord;
    var a, b := RoundKeys(buf, nk + 6), ExpandedKeys(key, nk);
    assert forall r | 0 <= r < nk + 7 :: a[r] == b[r];
  }

  /** A word of the schedule at a multiple of nk: rotate, substitute, add the round constant. */
  method ScheduleCore(t: Tables, w: bv32, i: nat, y: bv32) returns (x: bv32)
    requires t.Valid() && i < 10
    ensures Unpack(x) == XorColumn(Unpack(w), XorColumn(SubColumn(RotColumn(Unpack(y))), Column(RoundConstant(i), 0, 0, 0)))
  {
    hide Byte0, Byte1, Byte2, Byte3, SubByte, Byte, Index, IsForwardTable, IsReverseTable, IsInverseSBox, RoundConstant, Xor, XorWord;
    var a, b, c, d := t.fsb[Index(Byte1(y))], t.fsb[Index(Byte2(y))], t.fsb[Index(Byte3(y))], t.fsb[Index(Byte0(y))];
    ByteIndex(Byte0(y)); ByteIndex(Byte1(y)); ByteIndex(Byte2(y)); ByteIndex(Byte3(y));
    x := WordOf(XorWord(w, t.rcon[i]), a, b, c, d);
    CoreWord(w, RoundConstant(i), a, b, c, d);
  }

  lemma CoreWord(w: bv32, rc: bv8, a: bv8, b: bv8, c: bv8, d: bv8)
    ensures Unpack(WordOf(XorWord(w, rc as bv32), a, b, c, d))
         == XorColumn(Unpack(w), XorColumn(Column(a, b, c, d), Column(rc, 0, 0, 0)))
  {}

  function WordOf(k: bv32, a: bv8, b: bv8, c: bv8, d: bv8): bv32 {
    k ^ (a as bv32) ^ ((b as bv32) << 8) ^ ((c as bv32) << 16) ^ ((d as bv32) << 24)
  }

  /** RK[n] for an n at which the schedule goes through the core. */
  method PutCore(t: Tables, buf: array<bv32>, ghost key: seq<bv8>, nk: nat, i: nat)
    requires t.Valid() && IsKey(key, nk) && buf !in t.Arrays()
    requires i < 10 && nk * i + nk < buf.Length && Expanded(buf[..], key, nk, nk * i + nk)
    modifies buf
    ensures Expanded(buf[..], key, nk, nk * i + nk + 1)
  {
    hide Unpack, XorColumn, SubColumn, IsSBox, IsInverseSBox, IsForwardTable, IsReverseTable, KeyWord, RoundConstant;
    var n := nk * i + nk;
    var w := ScheduleCore(t, buf[n - nk], i, buf[n - 1]);
    CorePosition(nk, i);
    ExpandOne(buf[..], key, nk, n, w);
    ghost var before := buf[..];
    buf[n] := w;
    assert buf[..] == before[n := w];
  }

  lemma CorePosition(nk: nat, i: nat)
    requires nk in {4, 6, 8}
    ensures (nk * i + nk) % nk == 0 && (nk * i + nk) / nk - 1 == i
  {}

  lemma PlainPosition(nk: nat, i: nat, c: nat)
    requires nk in {4, 6, 8} && c < nk
    ensures (nk * i + nk + c) % nk == c
  {}

  /** RK[n] = RK[n - nk] ^ RK[n - 1] for the other words. */
  method PutPlain(buf: array<bv32>, ghost key: seq<bv8>, nk: nat, ghost i: nat, ghost c: nat, n: nat)
    requires IsKey(key, nk) && 0 < c < nk && (nk > 6 ==> c != 4)
    requires n == nk * i + nk + c < buf.Length && Expanded(buf[..], key, nk, n)
    modifies buf
    ensures Expanded(buf[..], key, nk, n + 1)
  {
    hide Unpack, XorColumn, SubColumn, KeyWord, RoundConstant;
    var w := XorWord(buf[n - nk], buf[n - 1]);
    hide XorWord;
    UnpackXor(buf[n - nk], buf[n - 1]);
    PlainPosition(nk, i, c);
    ExpandOne(buf[..], key, nk, n, w);
    ghost var before := buf[..];
    buf[n] := w;
    assert buf[..] == before[n := w];
  }

  /** RK[12] of the 256-bit schedule: substitute without rotation. */
  method PutSub(t: Tables, buf: array<bv32>, ghost key: seq<bv8>, i: nat)
    requires t.Valid() && IsKey(key, 8) && buf !in t.Arrays()
    requires 8 * i + 12 < buf.Length && Expanded(buf[..], key, 8, 8 * i + 12)
    modifies buf
    ensures Expanded(buf[..], key, 8, 8 * i + 13)
  {
    hide Byte0, Byte1, Byte2, Byte3, XorColumn, SubByte, Byte, Index, IsInverseSBox, IsForwardTable, IsReverseTable, KeyWord, RoundConstant;
    var n := 8 * i + 12;
    var w := LastColumn(t.fsb, buf[n - 8], buf[n - 1], buf[n - 1], buf[n - 1], buf[n - 1]);
    forall x { ByteIndex(x); }
    PlainPosition(8, i, 4);
    XorColumnCommutes(Unpack(buf[n - 8]), SubColumn(Unpack(buf[n - 1])));
    ExpandOne(buf[..], key, 8, n, w);
    ghost var before := buf[..];
    buf[n] := w;
    assert buf[..] == before[n := w];
  }

  lemma XorColumnCommutes(c: Column, d: Column)
    ensures XorColumn(c, d) == XorColumn(d, c)
  {
    hide Xor;
    XorCommutes(c.b0, d.b0);
    XorCommutes(c.b1, d.b1);
    XorCommutes(c.b2, d.b2);
    XorCommutes(c.b3, d.b3);
  }

  /** The key itself is the first nk words. */
  method LoadKey(buf: array<bv32>, key: seq<bv8>, nk: nat)
    requires IsKey(key, nk) && buf.Length == 68
    modifies buf
    ensures Expanded(buf[..], key, nk, nk)
  {
    hide Pack, Unpack;
    for i := 0 to nk
      invariant forall j | 0 <= j < i :: Unpack(buf[j]) == KeyWord(key, nk, j)
    {
      var c := Column(key[4 * i], key[4 * i + 1], key[4 * i + 2], key[4 * i + 3]);
      buf[i] := Pack(c);
      UnpackPack(c);
    }
  }

  method Expand128(t: Tables, buf: array<bv32>, ghost key: seq<bv8>)
    requires t.Valid() && IsKey(key, 4) && buf.Length == 68 && buf !in t.Arrays() && Expanded(buf[..], key, 4, 4)
    modifies buf
    ensures Expanded(buf[..], key, 4, 44)
  {
    hide Expanded, IsSBox, IsInverseSBox, IsForwardTable, IsReverseTable;
    for i := 0 to 10
      invariant t.Valid() && Expanded(buf[..], key, 4, 4 * i + 4)
    {
      PutCore(t, buf, key, 4, i);
      PutPlain(buf, key, 4, i, 1, 4 * i + 5);
      PutPlain(buf, key, 4, i, 2, 4 * i + 6);
      PutPlain(buf, key, 4, i, 3, 4 * i + 7);
    }
  }

  method Expand192(t: Tables, buf: array<bv32>, ghost key: seq<bv8>)
    requires t.Valid() && IsKey(key, 6) && buf.Length == 68 && buf !in t.Arrays() && Expanded(buf[..], key, 6, 6)
    modifies buf
    ensures Expanded(buf[..], key, 6, 54)
  {
    hide Expanded, IsSBox, IsInverseSBox, IsForwardTable, IsReverseTable;
    for i := 0 to 8
      invariant t.Valid() && Expanded(buf[..], key, 6, 6 * i + 6)
    {
      PutCore(t, buf, key, 6, i);
      PutPlain(buf, key, 6, i, 1, 6 * i + 7);
      PutPlain(buf, key, 6, i, 2, 6 * i + 8);
      PutPlain(buf, key, 6, i, 3, 6 * i + 9);
      PutPlain(buf, key, 6, i, 4, 6 * i + 10);
      PutPlain(buf, key, 6, i, 5, 6 * i + 11);
    }
  }

  method Expand256(t: Tables, buf: array<bv32>, ghost key: seq<bv8>)
    requires t.Valid() && IsKey(key, 8) && buf.Length == 68 && buf !in t.Arrays() && Expanded(buf[..], key, 8, 8)
    modifies buf
    ensures Expanded(buf[..], key, 8, 64)
  {
    hide Expanded, IsSBox, IsInverseSBox, IsForwardTable, IsReverseTable;
    for i := 0 to 7
      invariant t.Valid() && Expanded(buf[..], key, 8, 8 * i + 8)
    {
      PutCore(t, buf, key, 8, i);
      PutPlain(buf, key, 8, i, 1, 8 * i + 9);
      PutPlain(buf, key, 8, i, 2, 8 * i + 10);
      PutPlain(buf, key, 8, i, 3, 8 * i + 11);
      PutSub(t, buf, key, i);
      PutPlain(buf, key, 8, i, 5, 8 * i + 13);
      PutPlain(buf, key, 8, i, 6, 8 * i + 14);
      PutPlain(buf, key, 8, i, 7, 8 * i + 15);
    }
  }

  /** RT[FSb[.]]: the reverse tables undo the S-box, so what remains is InvMixColumns. */
  method InvMixWord(t: Tables, w: bv32) returns (x: bv32)
    requires t.Valid()
    ensures Unpack(x) == InvMixColumn(Unpack(w))
  {
    hide Byte0, Byte1, Byte2, Byte3, Pack, SubByte, InvSubByte, Byte, Index, XorWord, XorColumn, InvMixColumn, InvMixTerm, Turn;
    var a, b, c, d := t.fsb[Index(Byte0(w))], t.fsb[Index(Byte1(w))], t.fsb[Index(Byte2(w))], t.fsb[Index(Byte3(w))];
    ByteIndex(Byte0(w)); ByteIndex(Byte1(w)); ByteIndex(Byte2(w)); ByteIndex(Byte3(w));
    ByteIndex(a); ByteIndex(b); ByteIndex(c); ByteIndex(d);
    SubColumnInverse(Unpack(w));
    x := XorWord(XorWord(XorWord(t.rt0[Index(a)], t.rt1[Index(b)]), t.rt2[Index(c)]), t.rt3[Index(d)]);
    var s := Unpack(w);
    UnpackFour(Turn(InvMixTerm(s.b0), 0), Turn(InvMixTerm(s.b1), 1), Turn(InvMixTerm(s.b2), 2), Turn(InvMixTerm(s.b3), 3));
    InvMixColumnTerms(s);
  }

  lemma UnpackFour(a: Column, b: Column, c: Column, d: Column)
    ensures Unpack(XorWord(XorWord(XorWord(Pack(a), Pack(b)), Pack(c)), Pack(d)))
         == XorColumn(XorColumn(a, b), XorColumn(c, d))
  {
    hide XorWord, Unpack, Pack, Xor;
    UnpackPack(a); UnpackPack(b); UnpackPack(c); UnpackPack(d);
    var ab := XorWord(Pack(a), Pack(b));
    UnpackXor(Pack(a), Pack(b)); UnpackXor(ab, Pack(c)); UnpackXor(XorWord(ab, Pack(c)), Pack(d));
    XorAssoc(Xor(a.b0, b.b0), c.b0, d.b0);
    XorAssoc(Xor(a.b1, b.b1), c.b1, d.b1);
    XorAssoc(Xor(a.b2, b.b2), c.b2, d.b2);
    XorAssoc(Xor(a.b3, b.b3), c.b3, d.b3);
  }

  /** Round key r of the buffer changes, the others do not. */
  ghost predicate OnlyRoundKey(before: seq<bv32>, after: seq<bv32>, r: nat) {
    |before| == |after| && forall q: nat | 4 * q + 4 <= |before| && q != r :: RoundKey(after, q) == RoundKey(before, q)
  }

  /** Four words of the schedule, copied. */
  method CopyKey(sk: array<bv32>, from: nat, rk: array<bv32>, to: nat)
    requires sk != rk && 4 * from + 4 <= sk.Length && 4 * to + 4 <= rk.Length
    modifies rk
    ensures RoundKey(rk[..], to) == RoundKey(sk[..], from)
    ensures OnlyRoundKey(old(rk[..]), rk[..], to)
  {
    hide Unpack;
    rk[4 * to] := sk[4 * from];
    rk[4 * to + 1] := sk[4 * from + 1];
    rk[4 * to + 2] := sk[4 * from + 2];
    rk[4 * to + 3] := sk[4 * from + 3];
  }

  /** Four words of the schedule, each through InvMixColumns. */
  method InvMixKey(t: Tables, sk: array<bv32>, from: nat, rk: array<bv32>, to: nat)
    requires t.Valid() && rk !in t.Arrays() && sk != rk && 4 * from + 4 <= sk.Length && 4 * to + 4 <= rk.Length
    modifies rk
    ensures RoundKey(rk[..], to) == InvMixColumns(RoundKey(sk[..], from))
    ensures OnlyRoundKey(old(rk[..]), rk[..], to)
  {
    hide Unpack, InvMixColumn, IsSBox, IsInverseSBox, IsForwardTable, IsReverseTable;
    for j := 0 to 4
      invariant t.Valid()
      invariant forall i | 4 * to <= i < 4 * to + j :: Unpack(rk[i]) == InvMixColumn(Unpack(sk[4 * from + (i - 4 * to)]))
      invariant forall i | 0 <= i < rk.Length && !(4 * to <= i < 4 * to + 4) :: rk[i] == old(rk[i])
    {
      var w := InvMixWord(t, sk[4 * from + j]);
      rk[4 * to + j] := w;
    }
  }

  /** The body of mbedtls_aes_setkey_dec after the call to mbedtls_aes_setkey_enc. */
  method InvertKeys(t: Tables, sk: array<bv32>, rk: array<bv32>, nr: nat)
    requires t.Valid() && rk !in t.Arrays() && sk != rk && nr >= 1
    requires 4 * nr + 4 <= sk.Length && 4 * nr + 4 <= rk.Length
    modifies rk
    ensures RoundKeys(rk[..], nr) == DecryptionKeys(RoundKeys(sk[..], nr))
  {
    hide RoundKey, InvMixColumns, IsSBox, IsInverseSBox, IsForwardTable, IsReverseTable;
    CopyKey(sk, nr, rk, 0);
    var i := nr - 1;
    while i > 0
      invariant 0 <= i < nr && t.Valid()
      invariant RoundKey(rk[..], 0) == RoundKey(sk[..], nr)
      invariant forall r | 1 <= r < nr - i :: RoundKey(rk[..], r) == InvMixColumns(RoundKey(sk[..], nr - r))
    {
      InvMixKey(t, sk, i, rk, nr - i);
      i := i - 1;
    }
    CopyKey(sk, 0, rk, nr);
    ghost var a, b := RoundKeys(rk[..], nr), DecryptionKeys(RoundKeys(sk[..], nr));
    assert forall r | 0 <= r <= nr :: a[r] == b[r];
  }

  /** mbedtls_aes_context: the number of rounds and the round keys. */
  class Context {
    var nr: nat
    const buf: array<bv32>

    ghost predicate Valid()
      reads this
    {
      nr in {10, 12, 14} && buf.Length == 68
    }

    /** Some round keys. */
    ghost function Keys(): (keys: seq<State>)
      requires Valid()
      reads this, buf
      ensures |keys| == nr + 1
    {
      RoundKeys(buf[..], nr)
    }

    constructor ()
      ensures Valid() && fresh(buf)
    {
      nr := 10;
      buf := new bv32[68];
    }

    /** mbedtls_aes_setkey_enc: the key expansion, for the three key lengths. */
    method SetKeyEnc(t: Tables, key: seq<bv8>, keybits: nat) returns (ret: int)
      requires Valid() && t.Valid() && buf !in t.Arrays()
      requires keybits in {128, 192, 256} ==> |key| == keybits / 8
      modifies this`nr, buf
      ensures Valid()
      ensures ret == 0 <==> keybits in {128, 192, 256}
      ensures ret == 0 ==> nr == keybits / 32 + 6 && IsKey(key, keybits / 32) && Keys() == ExpandedKeys(key, keybits / 32)
      ensures ret != 0 ==> ret == ERR_AES_INVALID_KEY_LENGTH && nr == old(nr) && buf[..] == old(buf[..])
    {
      match keybits {
        case 128 => nr := 10;
        case 192 => nr := 12;
        case 256 => nr := 14;
        case _ => return ERR_AES_INVALID_KEY_LENGTH;
      }
      var nk := keybits / 32;
      LoadKey(buf, key, nk);
      if nr == 10 {
        Expand128(t, buf, key);
      } else if nr == 12 {
        Expand192(t, buf, key);
      } else {
        Expand256(t, buf, key);
      }
      KeysOf(buf[..], key, nk, 4 * (nk + 7));
      ret := 0;
    }

    /** mbedtls_aes_setkey_dec: the expanded key reversed, the inner keys through InvMixColumns. */
    method SetKeyDec(t: Tables, key: seq<bv8>, keybits: nat) returns (ret: int)
      requires Valid() && t.Valid() && buf !in t.Arrays()
      requires keybits in {128, 192, 256} ==> |key| == keybits / 8
      modifies this`nr, buf
      ensures Valid()
      ensures ret == 0 <==> keybits in {128, 192, 256}
      ensures ret == 0 ==> nr == keybits / 32 + 6 && IsKey(key, keybits / 32)
      ensures ret == 0 ==> Keys() == DecryptionKeys(ExpandedKeys(key, keybits / 32))
      ensures ret != 0 ==> ret == ERR_AES_INVALID_KEY_LENGTH && nr == old(nr) && buf[..] == old(buf[..])
    {
      hide IsSBox, IsInverseSBox, IsForwardTable, IsReverseTable, RoundKeys, DecryptionKeys, ExpandedKeys;
      var cty := new Context();
      ret := cty.SetKeyEnc(t, key, keybits);
      if ret != 0 {
        return;
      }
      nr := cty.nr;
      InvertKeys(t, cty.buf, buf, nr);
    }

    /** mbedtls_internal_aes_encrypt: two rounds per loop iteration, then one, then the last. */
    method Encrypt(t: Tables, input: seq<bv8>) returns (output: seq<bv8>)
      requires Valid() && t.Valid() && |input| == 16
      ensures output == Store(Cipher(Load(input), Keys()))
    {
      hide SubBytes, ShiftRows, MixColumns, AddRoundKey, StateOf, Load, Store;
      hide IsSBox, IsInverseSBox, IsForwardTable, IsReverseTable;
      var x0, x1, x2, x3 := FirstAddRoundKey(buf, input);
      var y0, y1, y2, y3;
      var r := 1;
      var i := nr / 2 - 1;
      while i > 0
        invariant r == 1 + 2 * (nr / 2 - 1 - i) && i >= 0
        invariant StateOf(x0, x1, x2, x3) == Rounds(Load(input), Keys(), r - 1)
      {
        y0, y1, y2, y3 := ForwardRound(t, buf, r, x0, x1, x2, x3);
        x0, x1, x2, x3 := ForwardRound(t, buf, r + 1, y0, y1, y2, y3);
        r := r + 2;
        i := i - 1;
      }
      y0, y1, y2, y3 := ForwardRound(t, buf, r, x0, x1, x2, x3);
      x0, x1, x2, x3 := LastForward(t, buf, r + 1, y0, y1, y2, y3);
      output := Store(StateOf(x0, x1, x2, x3));
    }

    /** mbedtls_internal_aes_decrypt: the same shape with the reverse tables. */
    method Decrypt(t: Tables, input: seq<bv8>) returns (output: seq<bv8>)
      requires Valid() && t.Valid() && |input| == 16
      ensures output == Store(EqInvCipher(Load(input), Keys()))
    {
      hide InvSubBytes, InvShiftRows, InvMixColumns, AddRoundKey, StateOf, Load, Store;
      hide IsSBox, IsInverseSBox, IsForwardTable, IsReverseTable;
      var x0, x1, x2, x3 := FirstAddRoundKey(buf, input);
      var y0, y1, y2, y3;
      var r := 1;
      var i := nr / 2 - 1;
      while i > 0
        invariant r == 1 + 2 * (nr / 2 - 1 - i) && i >= 0
        invariant StateOf(x0, x1, x2, x3) == EqInvRounds(Load(input), Keys(), r - 1)
      {
        y0, y1, y2, y3 := ReverseRound(t, buf, r, x0, x1, x2, x3);
        x0, x1, x2, x3 := ReverseRound(t, buf, r + 1, y0, y1, y2, y3);
        r := r + 2;
        i := i - 1;
      }
      y0, y1, y2, y3 := ReverseRound(t, buf, r, x0, x1, x2, x3);
      x0, x1, x2, x3 := LastReverse(t, buf, r + 1, y0, y1, y2, y3);
      output := Store(StateOf(x0, x1, x2, x3));
    }
  }

  // ----- decryption undoes encryption

  /** The permutation that Encrypt computes under the schedule of SetKeyEnc. */
  ghost function EncryptBlock(key: seq<bv8>, nk: nat, block: seq<bv8>): (out: seq<bv8>)
    requires IsKey(key, nk) && |block| == 16
    ensures |out| == 16
  {
    Store(Cipher(Load(block), ExpandedKeys(key, nk)))
  }

  /** What Decrypt computes under the schedule of SetKeyDec. */
  ghost function DecryptBlock(key: seq<bv8>, nk: nat, block: seq<bv8>): (out: seq<bv8>)
    requires IsKey(key, nk) && |block| == 16
    ensures |out| == 16
  {
    Store(EqInvCipher(Load(block), DecryptionKeys(ExpandedKeys(key, nk))))
  }

  lemma BlockBijective(key: seq<bv8>, nk: nat, block: seq<bv8>)
    requires IsKey(key, nk) && |block| == 16
    ensures DecryptBlock(key, nk, EncryptBlock(key, nk, block)) == block
    ensures EncryptBlock(key, nk, DecryptBlock(key, nk, block)) == block
  {
    hide Load, Store, Cipher, EqInvCipher, InvCipher, ExpandedKeys, DecryptionKeys;
    var keys := ExpandedKeys(key, nk);
    var s := Load(block);
    StoreLoad(block);
    LoadStore(Cipher(s, keys));
    LoadStore(InvCipher(s, keys));
    EqInvCipherIsInvCipher(s, keys);
    EqInvCipherIsInvCipher(Cipher(s, keys), keys);
    CipherBijective(s, keys);
  }

  /** Both contexts set up from one key: the code's decryption undoes the code's encryption. */
  method RoundTrip(t: Tables, key: seq<bv8>, keybits: nat, block: seq<bv8>) returns (cipher: seq<bv8>, plain: seq<bv8>)
    requires t.Valid() && keybits in {128, 192, 256} && |key| == keybits / 8 && |block| == 16
    ensures IsKey(key, keybits / 32) && cipher == EncryptBlock(key, keybits / 32, block)
    ensures plain == block
  {
    hide IsSBox, IsInverseSBox, IsForwardTable, IsReverseTable, RoundKeys, DecryptionKeys, ExpandedKeys;
    hide Load, Store, Cipher, EqInvCipher;
    var enc := new Context();
    var dec := new Context();
    var ret := enc.SetKeyEnc(t, key, keybits);
    ret := dec.SetKeyDec(t, key, keybits);
    cipher := enc.Encrypt(t, block);
    plain := dec.Decrypt(t, cipher);
    BlockBijective(key, keybits / 32, block);
  }
}
