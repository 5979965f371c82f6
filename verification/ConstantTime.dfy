/** The portable branch-free primitives of constant_time_impl.h, on 32-bit words. */
module ConstantTime {
  import opened ByteNumbers
  import opened Octets

  /** A condition is all ones for true and zero for false. */
  type Condition = bv32

  const CT_TRUE: Condition := 0xFFFF_FFFF
  const CT_FALSE: Condition := 0

  function Mask(b: bool): Condition {
    if b then CT_TRUE else CT_FALSE
  }

  /** mbedtls_ct_bool. */
  function CtBool(x: bv32): (c: Condition)
    ensures c == Mask(x != 0)
  {
    var y := (0 - x) | (0 - (x >> 1));
    0 - (y >> 31)
  }

  /** mbedtls_ct_if. */
  function CtIf(condition: Condition, if1: bv32, if0: bv32): (r: bv32)
    ensures condition == CT_TRUE ==> r == if1
    ensures condition == CT_FALSE ==> r == if0
  {
    (condition & if1) | ((condition ^ 0xFFFF_FFFF) & if0)
  }

  // Named operations, so that the lemmas can reason about them as black boxes.

  function Sub(x: bv32, y: bv32): bv32 { x - y }

  function Add(x: bv32, y: bv32): bv32 { x + y }

  predicate Less(x: bv32, y: bv32) { x < y }

  /** The top bit. */
  predicate Top(x: bv32) { x >= 0x8000_0000 }

  function StripTop(x: bv32): bv32 { x - 0x8000_0000 }

  lemma AddSub(x: bv32, y: bv32)
    ensures Add(y, Sub(x, y)) == x
  {
    hide *;
    AddDifference(x, y);
    SubIs(x, y);
  }

  lemma AddDifference(x: bv32, y: bv32)
    ensures Add(y, x - y) == x
  {}

  lemma SubIs(x: bv32, y: bv32)
    ensures Sub(x, y) == x - y
  {}

  lemma SmallerSum(a: bv32, d: bv32)
    requires a < 0x8000_0000 && a + d < a
    ensures d >= 0x8000_0000 || a + d >= 0x8000_0000
  {}

  lemma LargerSum(a: bv32, d: bv32)
    requires a < 0x8000_0000 && a <= a + d && a + d < 0x8000_0000
    ensures d < 0x8000_0000
  {}

  lemma SumTop(a: bv32, d: bv32)
    requires !Top(a) && !Top(Add(a, d))
    ensures Less(Add(a, d), a) <==> Top(d)
  {
    if Less(Add(a, d), a) {
      SmallerSum(a, d);
    } else {
      LargerSum(a, d);
    }
  }

  lemma StripTops(x: bv32, y: bv32)
    requires Top(x) && Top(y)
    ensures !Top(StripTop(x)) && !Top(StripTop(y)) && (Less(x, y) <==> Less(StripTop(x), StripTop(y)))
  {}

  lemma SubStripped(x: bv32, y: bv32)
    ensures Sub(StripTop(x), StripTop(y)) == Sub(x, y)
  {
    hide *;
    SubIs(x, y);
    SubIs(StripTop(x), StripTop(y));
    StripTopIs(x);
    StripTopIs(y);
    StrippedDifference(x, y);
  }

  lemma StripTopIs(x: bv32)
    ensures StripTop(x) == x - 0x8000_0000
  {}

  lemma StrippedDifference(x: bv32, y: bv32)
    ensures Sub(x - 0x8000_0000, y - 0x8000_0000) == x - y
  {}

  lemma TopDecides(x: bv32, y: bv32)
    requires Top(x) != Top(y)
    ensures Less(x, y) <==> Top(y)
  {}

  /** What mbedtls_ct_uint_lt rests on: with equal top bits, the top bit of x - y is the borrow. */
  lemma TopBits(x: bv32, y: bv32)
    ensures Less(x, y) <==> if Top(x) != Top(y) then Top(y) else Top(Sub(x, y))
  {
    hide *;
    if Top(x) != Top(y) {
      TopDecides(x, y);
    } else if Top(x) {
      StripTops(x, y);
      SubStripped(x, y);
      AddSub(StripTop(x), StripTop(y));
      SumTop(StripTop(y), Sub(x, y));
    } else {
      AddSub(x, y);
      SumTop(y, Sub(x, y));
    }
  }

  /** mbedtls_ct_uint_lt: if the top bits differ, y decides, otherwise the sign of x - y does. */
  function CtLt(x: bv32, y: bv32): (c: Condition) {
    var cond := CtBool((x ^ y) >> 31);
    var ret := CtIf(cond, y, Sub(x, y));
    CtBool(ret >> 31)
  }

  /** The branch-free comparison is the comparison of unsigned words. */
  lemma CtLtExact(x: bv32, y: bv32)
    ensures CtLt(x, y) == Mask(Less(x, y))
  {
    hide CtBool, CtIf, Sub, Less, Top;
    TopBits(x, y);
    TopXor(x, y);
    TopShift(y);
    TopShift(Sub(x, y));
  }

  lemma TopXor(x: bv32, y: bv32)
    ensures (x ^ y) >> 31 != 0 <==> Top(x) != Top(y)
  {}

  lemma TopShift(x: bv32)
    ensures x >> 31 != 0 <==> Top(x)
  {}

  /** mbedtls_ct_uint_ne. */
  function CtNe(x: bv32, y: bv32): (c: Condition)
    ensures c == Mask(x != y)
  {
    CtBool(x ^ y)
  }

  function CtNot(c: Condition): Condition {
    c ^ 0xFFFF_FFFF
  }

  function CtEq(x: bv32, y: bv32): (c: Condition)
    ensures c == Mask(x == y)
  {
    CtNot(CtNe(x, y))
  }

  function CtGt(x: bv32, y: bv32): Condition {
    CtLt(y, x)
  }

  function CtGe(x: bv32, y: bv32): Condition {
    CtNot(CtLt(x, y))
  }

  lemma CtGeExact(x: bv32, y: bv32)
    ensures CtGe(x, y) == Mask(!Less(x, y))
  {
    hide CtLt, Less;
    CtLtExact(x, y);
  }

  /** mbedtls_ct_memcmp: zero exactly for equal buffers. */
  method CtMemcmp(a: Octets, b: Octets) returns (r: bv32)
    requires |a| == |b|
    ensures r == 0 <==> a == b
  {
    var diff: bv32 := 0;
    for i := 0 to |a|
      invariant diff == 0 <==> a[..i] == b[..i]
      invariant diff < 0x100
    {
      OrByte(diff, a[i], b[i]);
      assert a[..i + 1] == a[..i] + [a[i]] && b[..i + 1] == b[..i] + [b[i]];
      diff := diff | ((a[i] ^ b[i]) as bv32);
    }
    r := (diff & 0xFFFF) | (diff >> 16);
    Fold(diff);
    assert a[..|a|] == a && b[..|b|] == b;
  }

  lemma OrByte(diff: bv32, x: bv8, y: bv8)
    requires diff < 0x100
    ensures diff | ((x ^ y) as bv32) == 0 <==> diff == 0 && x == y
    ensures diff | ((x ^ y) as bv32) < 0x100
  {}

  lemma Fold(diff: bv32)
    ensures (diff & 0xFFFF) | (diff >> 16) == 0 <==> diff == 0
  {}

  // ----- lengths and indices as words

  function Half(h: bv8, l: bv8): bv16 {
    (h as bv16 << 8) | l as bv16
  }

  function Whole(h: bv16, l: bv16): bv32 {
    (h as bv32 << 16) | l as bv32
  }

  function HalfOf(k: nat): bv16
    requires k < 0x1_0000
  {
    Half(Byte(k / 0x100), Byte(k % 0x100))
  }

  /** A size_t as a word. */
  function Size(k: nat): bv32
    requires k < 0x1_0000_0000
  {
    Whole(HalfOf(k / 0x1_0000), HalfOf(k % 0x1_0000))
  }

  lemma ByteOrder(x: bv8, y: bv8)
    ensures x < y <==> x as int < y as int
  {}

  lemma ByteLess(i: nat, j: nat)
    requires i < 256 && j < 256
    ensures Byte(i) < Byte(j) <==> i < j
  {
    ByteOrder(Byte(i), Byte(j));
    ByteValue(i);
    ByteValue(j);
  }

  lemma HalfHigh(h: bv8, l: bv8, h': bv8, l': bv8)
    requires h < h'
    ensures Half(h, l) < Half(h', l')
  {}

  lemma HalfLow(h: bv8, l: bv8, l': bv8)
    requires l < l'
    ensures Half(h, l) < Half(h, l')
  {}

  lemma WholeHigh(h: bv16, l: bv16, h': bv16, l': bv16)
    requires h < h'
    ensures Less(Whole(h, l), Whole(h', l'))
  {}

  lemma WholeLow(h: bv16, l: bv16, l': bv16)
    requires l < l'
    ensures Less(Whole(h, l), Whole(h, l'))
  {}

  lemma NotBothLess(x: bv32, y: bv32)
    requires Less(x, y)
    ensures !Less(y, x) && x != y
  {}

  lemma HalfOrder(i: nat, j: nat)
    requires i < j < 0x1_0000
    ensures HalfOf(i) < HalfOf(j)
  {
    hide Half, Byte;
    ByteLess(i / 0x100, j / 0x100);
    ByteLess(i % 0x100, j % 0x100);
    if i / 0x100 < j / 0x100 {
      HalfHigh(Byte(i / 0x100), Byte(i % 0x100), Byte(j / 0x100), Byte(j % 0x100));
    } else {
      HalfLow(Byte(i / 0x100), Byte(i % 0x100), Byte(j % 0x100));
    }
  }

  lemma SizeOrder(i: nat, j: nat)
    requires i < j < 0x1_0000_0000
    ensures Less(Size(i), Size(j))
  {
    hide Less, Half, Whole, Byte, HalfOf;
    var (hi, lo, hj, lj) := (i / 0x1_0000, i % 0x1_0000, j / 0x1_0000, j % 0x1_0000);
    if hi < hj {
      HalfOrder(hi, hj);
      WholeHigh(HalfOf(hi), HalfOf(lo), HalfOf(hj), HalfOf(lj));
    } else {
      HalfOrder(lo, lj);
      WholeLow(HalfOf(hi), HalfOf(lo), HalfOf(lj));
    }
  }

  lemma SizeLess(i: nat, j: nat)
    requires i < 0x1_0000_0000 && j < 0x1_0000_0000
    ensures Less(Size(i), Size(j)) <==> i < j
  {
    hide Less, Size;
    if i < j {
      SizeOrder(i, j);
    } else if j < i {
      SizeOrder(j, i);
      NotBothLess(Size(j), Size(i));
    } else if Less(Size(i), Size(i)) {
      NotBothLess(Size(i), Size(i));
    }
  }

  /** The branch-free comparisons of lengths. */
  lemma SizeComparisons(i: nat, j: nat)
    requires i < 0x1_0000_0000 && j < 0x1_0000_0000
    ensures CtGe(Size(i), Size(j)) == Mask(i >= j) && CtLt(Size(i), Size(j)) == Mask(i < j) && CtGt(Size(i), Size(j)) == Mask(i > j)
  {
    hide CtLt, CtGe, Mask, Less, Size;
    CtGeExact(Size(i), Size(j));
    CtLtExact(Size(i), Size(j));
    CtLtExact(Size(j), Size(i));
    SizeLess(i, j);
    SizeLess(j, i);
  }

  /** mbedtls_ct_memcmp_partial: only the bytes from skipHead up to skipTail bytes before the end count. */
  method CtMemcmpPartial(a: Octets, b: Octets, skipHead: nat, skipTail: nat) returns (r: bv32)
    requires |a| == |b| && skipTail <= |a| < 0x1_0000_0000 && skipHead < 0x1_0000_0000
    ensures r == 0 <==> forall i | skipHead <= i < |a| - skipTail :: a[i] == b[i]
  {
    hide CtGe, CtLt, Mask, Size;
    var diff: bv32 := 0;
    var validEnd := |a| - skipTail;
    for i := 0 to |a|
      invariant diff == 0 <==> forall k | skipHead <= k < i && k < validEnd :: a[k] == b[k]
      invariant diff < 0x100
    {
      SizeComparisons(i, skipHead);
      SizeComparisons(i, validEnd);
      var valid := CtGe(Size(i), Size(skipHead)) & CtLt(Size(i), Size(validEnd));
      OrMasked(diff, a[i], b[i], i >= skipHead, i < validEnd);
      diff := diff | (valid & ((a[i] ^ b[i]) as bv32));
    }
    r := diff;
  }

  lemma OrMasked(diff: bv32, x: bv8, y: bv8, p: bool, q: bool)
    requires diff < 0x100
    ensures diff | ((Mask(p) & Mask(q)) & ((x ^ y) as bv32)) == 0 <==> diff == 0 && (p && q ==> x == y)
    ensures diff | ((Mask(p) & Mask(q)) & ((x ^ y) as bv32)) < 0x100
  {}
}
