/** The field GF(2^8) of section 4 of FIPS 197, and the powers of its generator 0x03
    from which the AES tables are generated. */
module Gf256 {
  import opened ByteNumbers

  /** Addition in the field. */
  function Xor(a: bv8, b: bv8): bv8 {
    a ^ b
  }

  /** Multiplication by x, modulo x^8 + x^4 + x^3 + x + 1. */
  function XTime(x: bv8): bv8 {
    if x & 0x80 != 0 then (x << 1) ^ 0x1B else x << 1
  }

  /** The product of section 4.2 of FIPS 197: the sum of those b * x^i whose bit i is set in a. */
  function Mul(a: bv8, b: bv8): bv8
    decreases a
  {
    if a == 0 then 0
    else if Odd(a) then Xor(b, Mul(Half(a), XTime(b)))
    else Mul(Half(a), XTime(b))
  }

  predicate Odd(a: bv8) {
    a & 1 != 0
  }

  function Half(a: bv8): bv8 {
    a >> 1
  }

  /** Multiplication by the generator 0x03. */
  function Mul3(x: bv8): bv8 {
    XTime(x) ^ x
  }

  /** The i-th power of the generator. */
  function Power(i: nat): bv8 {
    if i == 0 then 1 else Mul3(Power(i - 1))
  }

  /** The multiplicative inverse, extended by 0 -> 0, in terms of a discrete logarithm. */
  ghost function Inverse(x: bv8): bv8 {
    if x == 0 then 0 else Power(255 - Log(x))
  }

  /** The discrete logarithm to base 0x03 that lies in 1..255. */
  ghost function Log(x: bv8): (i: nat)
    requires x != 0
    ensures 1 <= i <= 255 && Power(i) == x
  {
    PowersCover(x);
    var i :| 1 <= i <= 255 && Power(i) == x;
    i
  }

  // ----- Mul is bilinear, and multiplying by 0x03 may move from one factor to the other

  lemma XorSwap(a: bv8, b: bv8, c: bv8, d: bv8)
    ensures Xor(Xor(a, b), Xor(c, d)) == Xor(Xor(a, c), Xor(b, d))
  {
    assert (a ^ b) ^ (c ^ d) == (a ^ c) ^ (b ^ d);
  }

  lemma XTimeLinear(b: bv8, c: bv8)
    ensures XTime(Xor(b, c)) == Xor(XTime(b), XTime(c))
  {
    if b & 0x80 != 0 {
      if c & 0x80 != 0 {} else {}
    } else {
      if c & 0x80 != 0 {} else {}
    }
  }

  /** The defining equation of Mul, which also holds at 0. */
  lemma MulStep(a: bv8, b: bv8)
    ensures Mul(a, b) == if Odd(a) then Xor(b, Mul(Half(a), XTime(b))) else Mul(Half(a), XTime(b))
  {
    assert Mul(0, XTime(b)) == 0;
  }

  lemma HalfLess(a: bv8)
    requires a != 0
    ensures Half(a) < a
  {}

  lemma HalfXor(a: bv8, d: bv8)
    ensures Half(Xor(a, d)) == Xor(Half(a), Half(d))
    ensures Odd(Xor(a, d)) <==> Odd(a) != Odd(d)
  {}

  lemma {:induction false} MulRightLinear(a: bv8, b: bv8, c: bv8)
    ensures Mul(a, Xor(b, c)) == Xor(Mul(a, b), Mul(a, c))
    decreases a
  {
    if a == 0 {
    } else {
      hide *;
      MulStep(a, b);
      MulStep(a, c);
      MulStep(a, Xor(b, c));
      HalfLess(a);
      XTimeLinear(b, c);
      MulRightLinear(Half(a), XTime(b), XTime(c));
      XorSwap(b, c, Mul(Half(a), XTime(b)), Mul(Half(a), XTime(c)));
    }
  }

  lemma {:induction false} MulLeftLinear(a: bv8, d: bv8, b: bv8, n: nat)
    requires BitsBelow(a, n) && BitsBelow(d, n)
    ensures Mul(Xor(a, d), b) == Xor(Mul(a, b), Mul(d, b))
    decreases n
  {
    if n == 0 {
    } else {
      BitsBelowHalf(a, n);
      BitsBelowHalf(d, n);
      hide *;
      MulStep(a, b);
      MulStep(d, b);
      MulStep(Xor(a, d), b);
      HalfXor(a, d);
      MulLeftLinear(Half(a), Half(d), XTime(b), n - 1);
      XorAssoc(b, Mul(Half(a), XTime(b)), Mul(Half(d), XTime(b)));
      XorLeftSwap(b, Mul(Half(a), XTime(b)), Mul(Half(d), XTime(b)));
      XorCancel(b, Mul(Half(a), XTime(b)), Mul(Half(d), XTime(b)));
    }
  }

  predicate BitsBelow(a: bv8, n: nat)
    decreases n
  {
    if n == 0 then a == 0 else BitsBelow(Half(a), n - 1)
  }

  lemma BitsBelowHalf(a: bv8, n: nat)
    requires n > 0 && BitsBelow(a, n)
    ensures BitsBelow(Half(a), n - 1)
  {}

  lemma BitsBelow8(a: bv8)
    ensures BitsBelow(a, 8)
  {
    assert Half(Half(Half(Half(Half(Half(Half(Half(a)))))))) == 0;
    assert BitsBelow(Half(Half(Half(Half(a)))), 4);
    assert BitsBelow(Half(Half(a)), 6);
  }

  lemma XorAssoc(b: bv8, x: bv8, y: bv8)
    ensures Xor(Xor(b, x), y) == Xor(b, Xor(x, y))
  {
    assert (b ^ x) ^ y == b ^ (x ^ y);
  }

  lemma XorLeftSwap(b: bv8, x: bv8, y: bv8)
    ensures Xor(x, Xor(b, y)) == Xor(b, Xor(x, y))
  {
    assert x ^ (b ^ y) == b ^ (x ^ y);
  }

  lemma XorCancel(b: bv8, x: bv8, y: bv8)
    ensures Xor(Xor(b, x), Xor(b, y)) == Xor(x, y)
  {
    assert (b ^ x) ^ (b ^ y) == x ^ y;
  }

  lemma MulXTimeCommutes(a: bv8, b: bv8)
    ensures Mul(XTime(a), b) == Mul(a, XTime(b))
  {
    hide *;
    var low := Low7(a);
    DoubleHalf(a);
    MulStep(Double(low), b);
    if Top(a) {
      BitsBelow8(low); BitsBelow8(0x80); BitsBelow8(Double(low)); BitsBelow8(0x1B);
      MulLeftLinear(low, 0x80, XTime(b), 8);
      MulLeftLinear(Double(low), 0x1B, b, 8);
      MulTop(b);
    }
  }

  function Low7(a: bv8): bv8 { a & 0x7F }

  function Double(a: bv8): bv8 { a << 1 }

  predicate Top(a: bv8) { a & 0x80 != 0 }

  lemma DoubleHalf(a: bv8)
    ensures Half(Double(Low7(a))) == Low7(a) && !Odd(Double(Low7(a)))
    ensures if Top(a) then a == Xor(Low7(a), 0x80) && XTime(a) == Xor(Double(Low7(a)), 0x1B)
            else a == Low7(a) && XTime(a) == Double(Low7(a))
  {}

  lemma MulUnit(b: bv8)
    ensures Mul(1, b) == b
  {
    assert Half(1) == 0 && Odd(1);
    assert Mul(0, XTime(b)) == 0;
  }

  /** x^8 = x^4 + x^3 + x + 1. */
  lemma MulTop(b: bv8)
    ensures Mul(0x80, XTime(b)) == Mul(0x1B, b)
  {
    var b1 := XTime(b);
    var b2 := XTime(b1);
    var b3 := XTime(b2);
    var b4 := XTime(b3);
    var b5 := XTime(b4);
    var b6 := XTime(b5);
    var b7 := XTime(b6);
    XTimeEight(b);
    HalfValues();
    hide *;
    MulStep(0x1B, b); MulStep(0x0D, b1); MulStep(0x06, b2); MulStep(0x03, b3); MulUnit(b4);
    MulStep(0x80, b1); MulStep(0x40, b2); MulStep(0x20, b3); MulStep(0x10, b4);
    MulStep(0x08, b5); MulStep(0x04, b6); MulStep(0x02, b7); MulUnit(XTime(b7));
  }

  lemma HalfValues()
    ensures Half(0x1B) == 0x0D && Half(0x0D) == 0x06 && Half(0x06) == 0x03 && Half(0x03) == 0x01
    ensures Odd(0x1B) && Odd(0x0D) && !Odd(0x06) && Odd(0x03)
    ensures Half(0x80) == 0x40 && Half(0x40) == 0x20 && Half(0x20) == 0x10 && Half(0x10) == 0x08
    ensures Half(0x08) == 0x04 && Half(0x04) == 0x02 && Half(0x02) == 0x01
    ensures !Odd(0x80) && !Odd(0x40) && !Odd(0x20) && !Odd(0x10) && !Odd(0x08) && !Odd(0x04) && !Odd(0x02)
  {}

  lemma XTimeEight(b: bv8)
    ensures var b1 := XTime(b); var b3 := XTime(XTime(b1)); var b4 := XTime(b3);
            XTime(XTime(XTime(XTime(b4)))) == Xor(b, Xor(b1, Xor(b3, b4)))
  {}

  lemma Mul3Commutes(a: bv8, b: bv8)
    ensures Mul(Mul3(a), b) == Mul(a, Mul3(b))
  {
    Mul3Is(a);
    Mul3Is(b);
    hide *;
    BitsBelow8(XTime(a));
    BitsBelow8(a);
    MulLeftLinear(XTime(a), a, b, 8);
    MulRightLinear(a, XTime(b), b);
    MulXTimeCommutes(a, b);
  }

  lemma Mul3Is(a: bv8)
    ensures Mul3(a) == Xor(XTime(a), a)
  {}

  /** Powers multiply by adding exponents. */
  lemma {:induction false} PowerAdd(i: nat, j: nat)
    ensures Mul(Power(i), Power(j)) == Power(i + j)
    decreases i
  {
    hide Mul3, Mul;
    if i == 0 {
      MulUnit(Power(j));
    } else {
      Mul3Commutes(Power(i - 1), Power(j));
      assert Mul3(Power(j)) == Power(j + 1);
      PowerAdd(i - 1, j + 1);
    }
  }

  // ----- 0x03 has order 255, so its powers are exactly the nonzero elements

  predicate Avoids1(x: bv8, n: nat)
    decreases n
  {
    n == 0 || (x != 1 && Avoids1(Mul3(x), n - 1))
  }

  function Mul3Thrice(x: bv8): bv8 {
    Mul3(Mul3(Mul3(x)))
  }

  function Mul3Fifteen(x: bv8): bv8 {
    Mul3Thrice(Mul3Thrice(Mul3Thrice(Mul3Thrice(Mul3Thrice(x)))))
  }

  lemma Skip3(x: bv8, n: nat)
    requires n >= 3 && !OneWithin3(x)
    requires Avoids1(Mul3Thrice(x), n - 3)
    ensures Avoids1(x, n)
  {
    assert Avoids1(Mul3(Mul3(x)), n - 2);
    assert Avoids1(Mul3(x), n - 1);
  }

  lemma Skip15(x: bv8, y: bv8, n: nat)
    requires n >= 15 && Leap(x, y) && Avoids1(y, n - 15)
    ensures Avoids1(x, n)
  {
    var x3 := Mul3Thrice(x);
    var x6 := Mul3Thrice(x3);
    var x9 := Mul3Thrice(x6);
    var x12 := Mul3Thrice(x9);
    assert Mul3Thrice(x12) == y;
    assert !OneWithin3(x) && !OneWithin3(x3) && !OneWithin3(x6) && !OneWithin3(x9) && !OneWithin3(x12);
    hide *;
    Skip3(x12, n - 12);
    Skip3(x9, n - 9);
    Skip3(x6, n - 6);
    Skip3(x3, n - 3);
    Skip3(x, n);
  }

  predicate OneWithin3(x: bv8) {
    x == 1 || Mul3(x) == 1 || Mul3(Mul3(x)) == 1
  }

  predicate OneWithin15(x: bv8) {
    var x3 := Mul3Thrice(x);
    var x6 := Mul3Thrice(x3);
    var x9 := Mul3Thrice(x6);
    var x12 := Mul3Thrice(x9);
    OneWithin3(x) || OneWithin3(x3) || OneWithin3(x6) || OneWithin3(x9) || OneWithin3(x12)
  }

  /** From x, fifteen multiplications by 0x03 lead to y without passing 1. */
  predicate Leap(x: bv8, y: bv8) {
    !OneWithin15(x) && Mul3Fifteen(x) == y
  }

  lemma LeapsA()
    ensures Leap(0x03, 0x5F)
    ensures Leap(0x5F, 0xAA)
    ensures Leap(0xAA, 0xE6)
    ensures Leap(0xE6, 0x6E)
  {}

  lemma LeapsB()
    ensures Leap(0x6E, 0x18)
    ensures Leap(0x18, 0xCE)
    ensures Leap(0xCE, 0x27)
    ensures Leap(0x27, 0x71)
  {}

  lemma LeapsC()
    ensures Leap(0x71, 0x5D)
    ensures Leap(0x5D, 0xC0)
    ensures Leap(0xC0, 0x2A)
    ensures Leap(0x2A, 0x23)
  {}

  lemma LeapsD()
    ensures Leap(0x23, 0xA5)
    ensures Leap(0xA5, 0xDE)
    ensures Leap(0xDE, 0x5A)
    ensures Leap(0x5A, 0x4B)
  {}

  lemma LastLeaps()
    ensures Mul3Thrice(0x4B) == 0x84 && !OneWithin3(0x4B)
    ensures Mul3Thrice(0x84) == 0xFD && !OneWithin3(0x84)
    ensures Mul3Thrice(0xFD) == 0x6C && !OneWithin3(0xFD)
    ensures Mul3Thrice(0x6C) == 0x52 && !OneWithin3(0x6C)
  {}

  lemma LastTwo()
    ensures Avoids1(0x52, 2)
  {
    assert Mul3(0x52) != 1;
    assert Avoids1(Mul3(0x52), 1);
  }

  lemma OrbitEnd()
    ensures Avoids1(0x4B, 14)
  {
    hide *;
    LastLeaps();
    LastTwo();
    Skip3(0x6C, 5);
    Skip3(0xFD, 8);
    Skip3(0x84, 11);
    Skip3(0x4B, 14);
  }

  lemma GeneratorAvoids1()
    ensures Avoids1(3, 254)
  {
    hide *;
    OrbitEnd();
    LeapsA();
    LeapsB();
    LeapsC();
    LeapsD();
    Skip15(0x5A, 0x4B, 29); Skip15(0xDE, 0x5A, 44); Skip15(0xA5, 0xDE, 59); Skip15(0x23, 0xA5, 74);
    Skip15(0x2A, 0x23, 89); Skip15(0xC0, 0x2A, 104); Skip15(0x5D, 0xC0, 119); Skip15(0x71, 0x5D, 134);
    Skip15(0x27, 0x71, 149); Skip15(0xCE, 0x27, 164); Skip15(0x18, 0xCE, 179); Skip15(0x6E, 0x18, 194);
    Skip15(0xE6, 0x6E, 209); Skip15(0xAA, 0xE6, 224); Skip15(0x5F, 0xAA, 239); Skip15(0x03, 0x5F, 254);
  }

  lemma PowerStart()
    ensures Power(0) == 1 && Power(1) == 3
  {}

  lemma PowerSkip2(i: nat)
    ensures Power(i + 2) == Mul3(Mul3(Power(i)))
  {
    assert Power(i + 1) == Mul3(Power(i));
  }

  lemma FourteenSteps()
    ensures Mul3(Mul3(Mul3Thrice(Mul3Thrice(Mul3Thrice(Mul3Thrice(0x4B)))))) == 1
  {}

  lemma PowerSkip15(i: nat, x: bv8, y: bv8)
    requires Power(i) == x && Leap(x, y)
    ensures Power(i + 15) == y
  {
    hide Mul3, Power;
    PowerSkip3(i);
    PowerSkip3(i + 3);
    PowerSkip3(i + 6);
    PowerSkip3(i + 9);
    PowerSkip3(i + 12);
  }

  lemma PowerSkip3(i: nat)
    ensures Power(i + 3) == Mul3Thrice(Power(i))
  {
    assert Power(i + 1) == Mul3(Power(i));
    assert Power(i + 2) == Mul3(Power(i + 1));
  }

  lemma PowerEnd()
    requires Power(241) == 0x4B
    ensures Power(255) == 1
  {
    hide *;
    PowerSkip3(241);
    PowerSkip3(244);
    PowerSkip3(247);
    PowerSkip3(250);
    PowerSkip2(253);
    FourteenSteps();
  }

  /** The generator comes back to 1 after 255 steps ... */
  lemma PowerPeriod()
    ensures Power(255) == 1
  {
    hide *;
    PowerStart();
    LeapsA();
    LeapsB();
    LeapsC();
    LeapsD();
    PowerSkip15(1, 0x03, 0x5F); PowerSkip15(16, 0x5F, 0xAA); PowerSkip15(31, 0xAA, 0xE6); PowerSkip15(46, 0xE6, 0x6E);
    PowerSkip15(61, 0x6E, 0x18); PowerSkip15(76, 0x18, 0xCE); PowerSkip15(91, 0xCE, 0x27); PowerSkip15(106, 0x27, 0x71);
    PowerSkip15(121, 0x71, 0x5D); PowerSkip15(136, 0x5D, 0xC0); PowerSkip15(151, 0xC0, 0x2A); PowerSkip15(166, 0x2A, 0x23);
    PowerSkip15(181, 0x23, 0xA5); PowerSkip15(196, 0xA5, 0xDE); PowerSkip15(211, 0xDE, 0x5A); PowerSkip15(226, 0x5A, 0x4B);
    PowerEnd();
  }

  /** ... and not before. */
  lemma PowerNotOne(k: nat)
    requires 0 < k < 255
    ensures Power(k) != 1
  {
    GeneratorAvoids1();
    assert Power(1) == 3;
    AvoidsAt(1, 254, k - 1);
  }

  lemma {:induction false} AvoidsAt(i: nat, n: nat, k: nat)
    requires Avoids1(Power(i), n) && k < n
    ensures Power(i + k) != 1
    decreases k
  {
    if k > 0 {
      assert Power(i + 1) == Mul3(Power(i));
      AvoidsAt(i + 1, n - 1, k - 1);
    }
  }

  lemma Mul3Injective(x: bv8, y: bv8)
    requires Mul3(x) == Mul3(y)
    ensures x == y
  {}

  lemma {:induction false} PowerInjective(i: nat, j: nat)
    requires i < j < 255
    ensures Power(i) != Power(j)
  {
    if i == 0 {
      PowerNotOne(j);
    } else {
      PowerInjective(i - 1, j - 1);
      if Power(i) == Power(j) {
        Mul3Injective(Power(i - 1), Power(j - 1));
      }
    }
  }

  lemma {:induction false} PowerNonzero(i: nat)
    ensures Power(i) != 0
  {
    if i > 0 {
      PowerNonzero(i - 1);
      assert Mul3(Power(i - 1)) != 0;
    }
  }

  ghost function Powers(n: nat): set<bv8> {
    if n == 0 then {} else Powers(n - 1) + {Power(n - 1)}
  }

  lemma {:induction false} PowersElements(n: nat, y: bv8)
    ensures y in Powers(n) <==> exists i :: 0 <= i < n && Power(i) == y
  {
    hide Power;
    if n > 0 {
      PowersElements(n - 1, y);
      assert y == Power(n - 1) ==> exists i :: 0 <= i < n && Power(i) == y;
      if i :| 0 <= i < n && Power(i) == y {
        assert i < n - 1 || i == n - 1;
      }
    }
  }

  lemma {:induction false} PowersCount(n: nat)
    requires n <= 255
    ensures |Powers(n)| == n
  {
    hide Power;
    if n > 0 {
      PowersCount(n - 1);
      PowersElements(n - 1, Power(n - 1));
      if i :| 0 <= i < n - 1 && Power(i) == Power(n - 1) {
        PowerInjective(i, n - 1);
      }
    }
  }

  lemma ByteOfIndex(y: bv8)
    ensures y as nat < 256 && Byte(y as nat) == y && (y != 0 ==> y as nat != 0)
  {}

  ghost function Bytes(n: nat): set<bv8>
    requires n < 256
  {
    if n == 0 then {} else Bytes(n - 1) + {Byte(n)}
  }

  lemma {:induction false} BytesCount(n: nat, k: nat)
    requires n < 256
    ensures |Bytes(n)| <= n
    ensures 1 <= k <= n ==> Byte(k) in Bytes(n)
  {
    hide Byte;
    if n > 0 {
      BytesCount(n - 1, k);
    }
  }

  /** Counting: 255 distinct nonzero powers leave out no nonzero byte. */
  lemma PowersCover(x: bv8)
    requires x != 0
    ensures exists i :: 1 <= i <= 255 && Power(i) == x
  {
    hide *;
    PowerPeriod();
    PowerStart();
    forall y | y in Powers(255) + {x} ensures y in Bytes(255) {
      PowersElements(255, y);
      if i :| 0 <= i < 255 && Power(i) == y {
        PowerNonzero(i);
      }
      ByteOfIndex(y);
      BytesCount(255, y as nat);
    }
    PowersCount(255);
    BytesCount(255, 1);
    var all, powers := Powers(255) + {x}, Powers(255);
    SubsetSize(all, Bytes(255));
    assert x !in powers ==> |all| == 256;
    PowersElements(255, x);
    var i :| 0 <= i < 255 && Power(i) == x;
    assert Power(if i == 0 then 255 else i) == x;
  }

  lemma {:induction false} SubsetSize<T>(a: set<T>, b: set<T>)
    requires a <= b
    ensures |a| <= |b|
  {
    if x :| x in a {
      SubsetSize(a - {x}, b - {x});
    }
  }

  // ----- the field inverse

  lemma InverseIsInverse(x: bv8)
    requires x != 0
    ensures Mul(x, Inverse(x)) == 1
  {
    PowerAdd(Log(x), 255 - Log(x));
    PowerPeriod();
  }

  lemma LogOfPower(k: nat)
    requires 1 <= k <= 255
    ensures Power(k) != 0 && Log(Power(k)) == k
  {
    hide *;
    PowerNonzero(k);
    PowerStart();
    PowerPeriod();
    var l := Log(Power(k));
    var i, j := if l == 255 then 0 else l, if k == 255 then 0 else k;
    if i < j {
      PowerInjective(i, j);
    } else if j < i {
      PowerInjective(j, i);
    }
  }

  lemma InverseInvolution(x: bv8)
    ensures Inverse(Inverse(x)) == x
  {
    hide Power, Log;
    if x != 0 {
      PowerStart();
      PowerPeriod();
      var k := 255 - Log(x);
      LogOfPower(if k == 0 then 255 else k);
    }
  }
}
