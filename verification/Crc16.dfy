/** The check sum of the firmware's connection settings, wfc.c. */
module Crc16 {
  import opened Octets

  const POLYNOMIAL: bv16 := 0xA001

  predicate Low(s: bv16) {
    s & 1 != 0
  }

  function Shift(s: bv16): bv16 {
    s >> 1
  }

  function Add(s: bv16, t: bv16): bv16 {
    s ^ t
  }

  /** The inner step: shift, and fold the bit that falls out back in. */
  function Half(s: bv16): bv16 {
    if Low(s) then Add(Shift(s), POLYNOMIAL) else Shift(s)
  }

  function UnHalf(s: bv16): bv16 {
    if s & 0x8000 != 0 then ((s ^ 0xA001) << 1) | 1 else s << 1
  }

  function Bit(b: bool): bv16 {
    if b then 1 else 0
  }

  /** n inner steps. */
  function Halves(s: bv16, n: nat): bv16
    decreases n
  {
    if n == 0 then s else Halves(Half(s), n - 1)
  }

  /** wifi_crc16_slow, on a buffer. */
  function Crc(m: Octets): bv16 {
    if |m| == 0 then 0 else Halves(Add(Crc(m[..|m| - 1]), m[|m| - 1] as bv16), 8)
  }

  method Crc16Slow(data: Octets) returns (crc: bv16)
    ensures crc == Crc(data)
  {
    hide Half, Add;
    crc := 0x0000;
    for i := 0 to |data|
      invariant crc == Crc(data[..i])
    {
      ghost var next := Crc(data[..i + 1]);
      assert data[..i + 1][..i] == data[..i];
      crc := Add(crc, data[i] as bv16);
      for j := 0 to 8
        invariant Halves(crc, 8 - j) == next
      {
        crc := Half(crc);
      }
    }
    crc := crc & 0xFFFF;
    assert data[..|data|] == data;
  }

  // ----- the step is a bijection, and linear

  lemma HalfIs(s: bv16)
    ensures Half(s) == if s & 1 != 0 then (s >> 1) ^ 0xA001 else s >> 1
  {}

  lemma UnHalfShifts(s: bv16)
    ensures UnHalf(if s & 1 != 0 then (s >> 1) ^ 0xA001 else s >> 1) == s
  {}

  lemma HalfUndone(s: bv16)
    ensures UnHalf(Half(s)) == s
  {
    hide *;
    HalfIs(s);
    UnHalfShifts(s);
  }

  lemma HalfZero(s: bv16)
    ensures Half(s) == 0 <==> s == 0
  {
    HalfUndone(s);
  }

  lemma Parts(s: bv16, t: bv16)
    ensures Low(Add(s, t)) <==> Low(s) != Low(t)
    ensures Shift(Add(s, t)) == Add(Shift(s), Shift(t))
  {}

  lemma FoldRight(x: bv16, y: bv16, k: bv16)
    ensures Add(x, y ^ k) == Add(x ^ y, k)
  {}

  lemma FoldLeft(x: bv16, y: bv16, k: bv16)
    ensures Add(x ^ k, y) == Add(x ^ y, k)
  {}

  lemma FoldBoth(x: bv16, y: bv16, k: bv16)
    ensures Add(x ^ k, y ^ k) == Add(x, y)
  {}

  lemma AddIs(x: bv16, y: bv16)
    ensures Add(x, y) == x ^ y
  {}

  lemma HalfLinear(s: bv16, t: bv16)
    ensures Half(Add(s, t)) == Add(Half(s), Half(t))
  {
    hide Low, Shift, Add;
    var x, y := Shift(s), Shift(t);
    Parts(s, t);
    FoldRight(x, y, POLYNOMIAL);
    FoldLeft(x, y, POLYNOMIAL);
    FoldBoth(x, y, POLYNOMIAL);
    AddIs(x, POLYNOMIAL);
    AddIs(y, POLYNOMIAL);
    AddIs(x, y);
  }

  lemma {:induction false} HalvesZero(s: bv16, n: nat)
    ensures Halves(s, n) == 0 <==> s == 0
    decreases n
  {
    hide Half;
    if n > 0 {
      HalvesZero(Half(s), n - 1);
      HalfZero(s);
    }
  }

  lemma {:induction false} HalvesLinear(s: bv16, t: bv16, n: nat)
    ensures Halves(Add(s, t), n) == Add(Halves(s, n), Halves(t, n))
    decreases n
  {
    hide Half, Add;
    if n > 0 {
      HalvesLinear(Half(s), Half(t), n - 1);
      HalfLinear(s, t);
    }
  }

  // ----- the message as a stream of bits, each byte from its lowest bit up

  /** The low-order n bits of w. */
  function WordBits(w: bv16, n: nat): (e: seq<bool>)
    ensures |e| == n
    decreases n
  {
    if n == 0 then [] else [Low(w)] + WordBits(Shift(w), n - 1)
  }

  function Shifts(w: bv16, n: nat): bv16
    decreases n
  {
    if n == 0 then w else Shifts(Shift(w), n - 1)
  }

  /** The check sum one bit at a time. */
  function Feed(s: bv16, e: seq<bool>): bv16
    decreases |e|
  {
    if |e| == 0 then s else Feed(Half(Add(s, Bit(e[0]))), e[1..])
  }

  function Bits(m: Octets): (e: seq<bool>)
    ensures |e| == 8 * |m|
  {
    if |m| == 0 then [] else Bits(m[..|m| - 1]) + WordBits(m[|m| - 1] as bv16, 8)
  }

  lemma LowBits(w: bv16)
    ensures Add(w & 1, w & 0xFFFE) == w && Bit(Low(w)) == w & 1
  {}

  lemma HalfEven(w: bv16)
    ensures Half(w & 0xFFFE) == Shift(w)
  {}

  lemma AddAssociative(x: bv16, y: bv16, z: bv16)
    ensures Add(x, Add(y, z)) == Add(Add(x, y), z)
  {
    hide *;
    AddIs(y, z);
    AddIs(x, y);
    FoldRight(x, y, z);
  }

  /** A word added at once is its lowest bit added now and the rest added after the step. */
  lemma OneBit(s: bv16, w: bv16)
    ensures Half(Add(s, w)) == Add(Half(Add(s, Bit(Low(w)))), Shift(w))
  {
    hide *;
    LowBits(w);
    AddAssociative(s, w & 1, w & 0xFFFE);
    HalfLinear(Add(s, w & 1), w & 0xFFFE);
    HalfEven(w);
  }

  lemma {:induction false} WordFed(s: bv16, w: bv16, n: nat)
    ensures Halves(Add(s, w), n) == Add(Feed(s, WordBits(w, n)), Shifts(w, n))
    decreases n
  {
    hide Half, Add, Low, Shift, Bit;
    if n > 0 {
      var s' := Half(Add(s, Bit(Low(w))));
      OneBit(s, w);
      WordFed(s', Shift(w), n - 1);
      assert WordBits(w, n)[1..] == WordBits(Shift(w), n - 1);
    }
  }

  lemma ShiftedOut(w: bv16)
    ensures ((((((((w >> 1) >> 1) >> 1) >> 1) >> 1) >> 1) >> 1) >> 1) == w >> 8
    ensures ((((((((w >> 1) >> 1) >> 1) >> 1) >> 1) >> 1) >> 1)) == w >> 7
  {}

  lemma Shifts8(w: bv16)
    ensures Shifts(w, 8) == w >> 8 && Shifts(w, 7) == w >> 7
  {
    ShiftedOut(w);
  }

  lemma {:induction false} ShiftsMore(w: bv16, n: nat, k: nat)
    ensures Shifts(w, n + k) == Shifts(Shifts(w, n), k)
    decreases n
  {
    hide Shift;
    if n > 0 {
      ShiftsMore(Shift(w), n - 1, k);
    }
  }

  lemma {:induction false} ZeroStays(n: nat)
    ensures Shifts(0, n) == 0 && Halves(0, n) == 0
    ensures forall i | 0 <= i < n :: !WordBits(0, n)[i]
  {
    hide Half, Shift, Low;
    if n > 0 {
      ZeroStays(n - 1);
      HalfZero(0);
      ZeroParts();
    }
  }

  lemma ZeroParts()
    ensures Shift(0) == 0 && !Low(0)
  {}

  lemma Shifts15(w: bv16)
    ensures Shifts(w, 15) == (w >> 8) >> 7
  {
    hide Shifts;
    ShiftsMore(w, 8, 7);
    Shifts8(w);
    Shifts8(w >> 8);
  }

  lemma AddZero(s: bv16)
    ensures Add(s, 0) == s && Add(0, s) == s
  {}

  /** One byte of the table-free loop is eight bits of the stream. */
  lemma ByteFed(s: bv16, x: bv8)
    ensures Halves(Add(s, x as bv16), 8) == Feed(s, WordBits(x as bv16, 8))
  {
    hide *;
    WordFed(s, x as bv16, 8);
    Shifts8(x as bv16);
    NoHighByte(x);
    AddZero(Feed(s, WordBits(x as bv16, 8)));
  }

  lemma NoHighByte(x: bv8)
    ensures (x as bv16) >> 8 == 0
  {}

  lemma {:induction false} FeedConcat(s: bv16, a: seq<bool>, b: seq<bool>)
    ensures Feed(s, a + b) == Feed(Feed(s, a), b)
    decreases |a|
  {
    hide Half, Add, Bit;
    if |a| == 0 {
      assert a + b == b;
    } else {
      FeedConcat(Half(Add(s, Bit(a[0]))), a[1..], b);
      assert (a + b)[1..] == a[1..] + b;
    }
  }

  lemma {:induction false} CrcIsFeed(m: Octets)
    ensures Crc(m) == Feed(0, Bits(m))
  {
    hide Halves, WordBits, Add, Feed;
    if |m| > 0 {
      var n := |m| - 1;
      CrcIsFeed(m[..n]);
      ByteFed(Crc(m[..n]), m[n]);
      FeedConcat(0, Bits(m[..n]), WordBits(m[n] as bv16, 8));
    } else {
      NothingFed();
    }
  }

  lemma NothingFed()
    ensures Feed(0, []) == 0
  {}

  // ----- the acceptance test

  /** The two bytes of a stored check sum, low byte first. */
  function Stored(lo: bv8, hi: bv8): bv16 {
    Add(lo as bv16, (hi as bv16) << 8)
  }

  lemma {:induction false} HalvesMore(s: bv16, n: nat, k: nat)
    ensures Halves(s, n + k) == Halves(Halves(s, n), k)
    decreases n
  {
    hide Half;
    if n > 0 {
      HalvesMore(Half(s), n - 1, k);
    }
  }

  lemma {:induction false} ZerosFed(s: bv16, e: seq<bool>)
    requires forall i | 0 <= i < |e| :: !e[i]
    ensures Feed(s, e) == Halves(s, |e|)
    decreases |e|
  {
    hide Half, Add;
    if |e| > 0 {
      AddZero(s);
      ZerosFed(Half(s), e[1..]);
    }
  }

  /** An even word only shifts. */
  lemma HalfOfEven(v: bv16, w: bv16)
    requires w & 1 == 0 && w >> 1 == v
    ensures Half(w) == v
  {}

  lemma Downwards(h: bv16)
    requires h >> 8 == 0
    ensures (h << 8) >> 1 == h << 7 && (h << 7) >> 1 == h << 6 && (h << 6) >> 1 == h << 5 && (h << 5) >> 1 == h << 4
    ensures (h << 4) >> 1 == h << 3 && (h << 3) >> 1 == h << 2 && (h << 2) >> 1 == h << 1 && (h << 1) >> 1 == h
    ensures (h << 8) & 1 == (h << 7) & 1 == (h << 6) & 1 == (h << 5) & 1 == 0
    ensures (h << 4) & 1 == (h << 3) & 1 == (h << 2) & 1 == (h << 1) & 1 == 0
  {}

  lemma Down(v: bv16, w: bv16, n: nat)
    requires w & 1 == 0 && w >> 1 == v
    ensures Halves(w, n + 1) == Halves(v, n)
  {
    hide Half;
    HalfOfEven(v, w);
  }

  /** Eight steps take the high byte down to the low one. */
  lemma HighByte(hi: bv8)
    ensures Halves((hi as bv16) << 8, 8) == hi as bv16
  {
    hide *;
    var h := hi as bv16;
    NoHighByte(hi);
    Downwards(h);
    Down(h << 7, h << 8, 7);
    Down(h << 6, h << 7, 6);
    Down(h << 5, h << 6, 5);
    Down(h << 4, h << 5, 4);
    Down(h << 3, h << 4, 3);
    Down(h << 2, h << 3, 2);
    Down(h << 1, h << 2, 1);
    Down(h, h << 1, 0);
    NoHalves(h);
  }

  lemma NoHalves(s: bv16)
    ensures Halves(s, 0) == s
  {}

  lemma CrcAppend(m: Octets, x: bv8)
    ensures Crc(m + [x]) == Halves(Add(Crc(m), x as bv16), 8)
  {
    hide Halves, Add;
    assert (m + [x])[..|m|] == m;
  }

  /** Data and two more bytes pass the test exactly if the two bytes are the check sum of the data. */
  lemma AcceptsExactly(m: Octets, lo: bv8, hi: bv8)
    ensures Crc(m + [lo, hi]) == 0 <==> Crc(m) == Stored(lo, hi)
  {
    hide Crc, Halves, Add;
    var c, l, h := Crc(m), lo as bv16, (hi as bv16) << 8;
    assert m + [lo, hi] == m + [lo] + [hi];
    CrcAppend(m, lo);
    CrcAppend(m + [lo], hi);
    HighByte(hi);
    HalvesLinear(Add(c, l), h, 8);
    AddAssociative(c, l, h);
    HalvesMore(Add(c, Stored(lo, hi)), 8, 8);
    HalvesZero(Add(c, Stored(lo, hi)), 16);
    SameSum(c, Stored(lo, hi));
  }

  lemma SameSum(x: bv16, y: bv16)
    ensures Add(x, y) == 0 <==> x == y
  {
    hide Add;
    AddTwice(x, y);
    AddNothing(y);
  }

  lemma AddTwice(x: bv16, y: bv16)
    ensures Add(Add(x, y), y) == x
  {}

  lemma AddNothing(y: bv16)
    ensures Add(0, y) == y && Add(y, y) == 0
  {}

  // ----- the check value

  /** The eight inner steps of one byte. */
  function Eight(s: bv16): bv16 {
    Half(Half(Half(Half(Half(Half(Half(Half(s))))))))
  }

  lemma EightHalves(s: bv16)
    ensures Halves(s, 8) == Eight(s)
  {
    hide Half;
    assert Halves(s, 8) == Halves(Half(Half(Half(Half(s)))), 4);
  }

  lemma CrcNext(m: Octets, x: bv8, c: bv16)
    requires Crc(m) == c
    ensures Crc(m + [x]) == Eight(Add(c, x as bv16))
  {
    hide Halves, Add, Eight;
    CrcAppend(m, x);
    EightHalves(Add(c, x as bv16));
  }

  lemma CheckSteps()
    ensures Eight(Add(0, 0x31)) == 0xD4C1 && Eight(Add(0xD4C1, 0x32)) == 0x4594 && Eight(Add(0x4594, 0x33)) == 0xBA04
    ensures Eight(Add(0xBA04, 0x34)) == 0x14BA && Eight(Add(0x14BA, 0x35)) == 0xA455 && Eight(Add(0xA455, 0x36)) == 0x29E4
    ensures Eight(Add(0x29E4, 0x37)) == 0x9D68 && Eight(Add(0x9D68, 0x38)) == 0x3C9D && Eight(Add(0x3C9D, 0x39)) == 0xBB3D
  {}

  /** The check sum of the digits 1 to 9 in ASCII. */
  lemma CheckValue()
    ensures Crc([0x31, 0x32, 0x33, 0x34, 0x35, 0x36, 0x37, 0x38, 0x39]) == 0xBB3D
  {
    hide Crc, Add, Eight;
    CheckSteps();
    CrcNothing();
    CrcNext([], 0x31, 0);
    var m1 := [] + [0x31];
    CrcNext(m1, 0x32, 0xD4C1);
    var m2 := m1 + [0x32];
    CrcNext(m2, 0x33, 0x4594);
    var m3 := m2 + [0x33];
    CrcNext(m3, 0x34, 0xBA04);
    var m4 := m3 + [0x34];
    CrcNext(m4, 0x35, 0x14BA);
    var m5 := m4 + [0x35];
    CrcNext(m5, 0x36, 0xA455);
    var m6 := m5 + [0x36];
    CrcNext(m6, 0x37, 0x29E4);
    var m7 := m6 + [0x37];
    CrcNext(m7, 0x38, 0x9D68);
    var m8 := m7 + [0x38];
    CrcNext(m8, 0x39, 0x3C9D);
    var m9 := m8 + [0x39];
    assert m9 == [0x31, 0x32, 0x33, 0x34, 0x35, 0x36, 0x37, 0x38, 0x39];
  }

  lemma CrcNothing()
    ensures Crc([]) == 0
  {}

  // ----- bursts of errors

  function Differences(a: seq<bool>, b: seq<bool>): (e: seq<bool>)
    requires |a| == |b|
    ensures |e| == |a|
  {
    seq(|a|, i requires 0 <= i < |a| => a[i] != b[i])
  }

  lemma BitSum(a: bool, b: bool)
    ensures Bit(a != b) == Add(Bit(a), Bit(b))
  {}

  lemma AddCommutative(x: bv16, y: bv16)
    ensures Add(x, y) == Add(y, x)
  {}

  lemma Regroup(s: bv16, t: bv16, x: bv16, y: bv16)
    ensures Add(Add(s, t), Add(x, y)) == Add(Add(s, x), Add(t, y))
  {
    hide *;
    AddAssociative(Add(s, t), x, y);
    AddAssociative(s, t, x);
    AddCommutative(t, x);
    AddAssociative(s, x, t);
    AddAssociative(Add(s, x), t, y);
  }

  /** The check sums of two streams differ by the check sum of their differences. */
  lemma {:induction false} FeedLinear(s: bv16, t: bv16, a: seq<bool>, b: seq<bool>)
    requires |a| == |b|
    ensures Add(Feed(s, a), Feed(t, b)) == Feed(Add(s, t), Differences(a, b))
    decreases |a|
  {
    hide Half, Add, Bit;
    if |a| > 0 {
      var s', t' := Add(s, Bit(a[0])), Add(t, Bit(b[0]));
      BitSum(a[0], b[0]);
      Regroup(s, t, Bit(a[0]), Bit(b[0]));
      HalfLinear(s', t');
      FeedLinear(Half(s'), Half(t'), a[1..], b[1..]);
      assert Differences(a, b)[1..] == Differences(a[1..], b[1..]);
    }
  }

  /** At most sixteen bits as a word. */
  lemma {:induction false} Packed(e: seq<bool>) returns (w: bv16)
    requires |e| <= 16
    ensures WordBits(w, |e|) == e && Shifts(w, |e|) == 0
    decreases |e|
  {
    hide Low, Shift;
    if |e| == 0 {
      w := 0;
    } else {
      var v := Packed(e[1..]);
      TopBitFree(v, |e| - 1);
      w := PackBit(v, e[0]);
    }
  }

  lemma TopBitFree(v: bv16, n: nat)
    requires n <= 15 && Shifts(v, n) == 0
    ensures (v >> 8) >> 7 == 0
  {
    hide *;
    ShiftsMore(v, n, 15 - n);
    ZeroStays(15 - n);
    Shifts15(v);
  }

  lemma PackBit(v: bv16, b: bool) returns (w: bv16)
    requires (v >> 8) >> 7 == 0
    ensures Shift(w) == v && Low(w) == b
  {
    w := if b then (v << 1) | 1 else v << 1;
    BitOnTop(v);
  }

  lemma BitOnTop(v: bv16)
    requires (v >> 8) >> 7 == 0
    ensures Shift((v << 1) | 1) == v && Low((v << 1) | 1)
    ensures Shift(v << 1) == v && !Low(v << 1)
  {}

  /** No pattern of at most sixteen bits cancels out. */
  lemma ShortNonzero(e: seq<bool>, i: nat)
    requires |e| <= 16 && i < |e| && e[i]
    ensures Feed(0, e) != 0
  {
    hide *;
    var w := Packed(e);
    WordFed(0, w, |e|);
    AddZero(w);
    AddZero(Feed(0, e));
    HalvesZero(w, |e|);
    ZeroStays(|e|);
  }

  lemma BurstNonzero(e: seq<bool>, k: nat, i: nat)
    requires forall j | 0 <= j < |e| :: e[j] ==> k <= j < k + 16
    requires i < |e| && e[i]
    ensures Feed(0, e) != 0
  {
    hide *;
    var n := if k + 16 < |e| then k + 16 else |e|;
    var a, b, c := e[..k], e[k..n], e[n..];
    assert e == a + b + c;
    FeedConcat(0, a + b, c);
    FeedConcat(0, a, b);
    ZerosFed(0, a);
    ZeroStays(|a|);
    ShortNonzero(b, i - k);
    ZerosFed(Feed(0, b), c);
    HalvesZero(Feed(0, b), |c|);
  }

  lemma WordBitsInjective(x: bv8, y: bv8)
    requires WordBits(x as bv16, 8) == WordBits(y as bv16, 8)
    ensures x == y
  {
    hide *;
    ByteFed(0, x);
    ByteFed(0, y);
    AddZero(x as bv16);
    AddZero(y as bv16);
    HalvesLinear(x as bv16, y as bv16, 8);
    SameSum(Halves(x as bv16, 8), Halves(y as bv16, 8));
    HalvesZero(Add(x as bv16, y as bv16), 8);
    SameSum(x as bv16, y as bv16);
    Narrow(x, y);
  }

  lemma Narrow(x: bv8, y: bv8)
    ensures x as bv16 == y as bv16 ==> x == y
  {}

  lemma LastByte(x: Octets)
    requires |x| > 0
    ensures var n := |x| - 1;
      Bits(x)[..8 * n] == Bits(x[..n]) && Bits(x)[8 * n..] == WordBits(x[n] as bv16, 8)
  {
    hide WordBits;
  }

  lemma {:induction false} BitsInjective(x: Octets, y: Octets)
    requires |x| == |y| && Bits(x) == Bits(y)
    ensures x == y
  {
    hide WordBits, Bits;
    if |x| > 0 {
      var n := |x| - 1;
      LastByte(x);
      LastByte(y);
      BitsInjective(x[..n], y[..n]);
      WordBitsInjective(x[n], y[n]);
      assert x == x[..n] + [x[n]] && y == y[..n] + [y[n]];
    }
  }

  lemma DifferAt(a: seq<bool>, b: seq<bool>) returns (i: nat)
    requires |a| == |b| && a != b
    ensures i < |a| && a[i] != b[i]
  {
    i :| 0 <= i < |a| && a[i] != b[i];
  }

  /** Two different messages that differ only within sixteen consecutive bits have different check sums. */
  lemma BurstDetected(x: Octets, y: Octets, k: nat)
    requires |x| == |y| && x != y
    requires forall i | 0 <= i < 8 * |x| :: Bits(x)[i] != Bits(y)[i] ==> k <= i < k + 16
    ensures Crc(x) != Crc(y)
  {
    hide Crc, Feed, Bits, Add;
    var e := Differences(Bits(x), Bits(y));
    if Bits(x) == Bits(y) {
      BitsInjective(x, y);
    }
    var i := DifferAt(Bits(x), Bits(y));
    BurstNonzero(e, k, i);
    CrcIsFeed(x);
    CrcIsFeed(y);
    FeedLinear(0, 0, Bits(x), Bits(y));
    AddZero(0);
    SameSum(Crc(x), Crc(y));
  }
}
