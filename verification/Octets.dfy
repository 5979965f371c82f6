/** Byte strings, and block ciphers on them. */
module Octets {
  import opened ByteNumbers

  type Octets = seq<bv8>

  function Flip(x: bv8, m: bv8): bv8 {
    x ^ m
  }

  lemma FlipTwice(x: bv8, m: bv8)
    ensures Flip(Flip(x, m), m) == x
  {}

  /** Byte-wise exclusive or. */
  function Xor(a: Octets, b: Octets): (c: Octets)
    requires |a| == |b|
    ensures |c| == |a|
    ensures forall i | 0 <= i < |a| :: c[i] == Flip(a[i], b[i])
  {
    seq(|a|, i requires 0 <= i < |a| => Flip(a[i], b[i]))
  }

  lemma XorSelfInverse(a: Octets, b: Octets)
    requires |a| == |b|
    ensures Xor(Xor(a, b), b) == a
  {
    hide Flip;
    forall i | 0 <= i < |a| ensures Xor(Xor(a, b), b)[i] == a[i] {
      FlipTwice(a[i], b[i]);
    }
  }

  /** n zero bytes. */
  function Zeros(n: nat): (z: Octets)
    ensures |z| == n && forall i | 0 <= i < n :: z[i] == 0
  {
    seq(n, _ => 0)
  }

  /** n times the byte x. */
  function Repeat(n: nat, x: bv8): (r: Octets)
    ensures |r| == n && forall i | 0 <= i < n :: r[i] == x
  {
    seq(n, _ => x)
  }

  /** The n low-order bytes of v, most significant first. */
  function BigEndian(v: nat, n: nat): (b: Octets)
    ensures |b| == n
  {
    if n == 0 then [] else BigEndian(v / 256, n - 1) + [Byte(v % 256)]
  }

  /** The number that the bytes stand for, most significant first. */
  function FromBigEndian(b: Octets): nat {
    if |b| == 0 then 0 else 256 * FromBigEndian(b[..|b| - 1]) + b[|b| - 1] as nat
  }

  function Power256(n: nat): (p: nat)
    ensures p > 0
  {
    if n == 0 then 1 else 256 * Power256(n - 1)
  }

  lemma Power256Four()
    ensures Power256(4) == 0x1_0000_0000
  {
    assert Power256(1) == 0x100;
    assert Power256(2) == 0x1_0000;
    assert Power256(3) == 0x100_0000;
  }

  lemma {:induction false} BigEndianRoundTrip(v: nat, n: nat)
    requires v < Power256(n)
    ensures FromBigEndian(BigEndian(v, n)) == v
  {
    if n > 0 {
      BigEndianRoundTrip(v / 256, n - 1);
      ByteValue(v % 256);
      assert BigEndian(v, n)[..n - 1] == BigEndian(v / 256, n - 1);
    }
  }

  lemma {:induction false} FromBigEndianRoundTrip(b: Octets)
    ensures FromBigEndian(b) < Power256(|b|) && BigEndian(FromBigEndian(b), |b|) == b
  {
    if |b| > 0 {
      var n := |b| - 1;
      FromBigEndianRoundTrip(b[..n]);
      var v := FromBigEndian(b);
      LowByte(FromBigEndian(b[..n]), b[n]);
      assert b == b[..n] + [b[n]];
    }
  }

  lemma LowByte(high: nat, low: bv8)
    ensures (256 * high + low as nat) / 256 == high && Byte((256 * high + low as nat) % 256) == low
  {
    ByteRange(low);
  }

  lemma {:induction false} PowerSum(m: nat, n: nat)
    ensures Power256(m + n) == Power256(m) * Power256(n)
  {
    if m > 0 {
      PowerSum(m - 1, n);
      assert 256 * Power256(m - 1) * Power256(n) == 256 * (Power256(m - 1) * Power256(n));
    }
  }

  lemma {:induction false} Concatenated(a: Octets, b: Octets)
    ensures FromBigEndian(a + b) == FromBigEndian(a) * Power256(|b|) + FromBigEndian(b)
    decreases |b|
  {
    if |b| == 0 {
      assert a + b == a;
    } else {
      var c, d := b[..|b| - 1], b[|b| - 1];
      Concatenated(a, c);
      assert (a + b)[..|a + b| - 1] == a + c && (a + b)[|a + b| - 1] == d;
      Scale(FromBigEndian(a), Power256(|c|), FromBigEndian(c));
    }
  }

  lemma Scale(x: nat, p: nat, y: nat)
    ensures 256 * (x * p + y) == x * (256 * p) + 256 * y
  {}

  lemma FourBytes(v: nat)
    requires v < 0x1_0000_0000
    ensures FromBigEndian(BigEndian(v, 4)) == v
  {
    Power256Four();
    BigEndianRoundTrip(v, 4);
  }

  // ----- block ciphers

  /** The 16-byte blocks of the ciphers modelled here. */
  type Block = b: Octets | |b| == 16 witness seq(16, _ => 0)

  /** A block cipher under one key: encryption and decryption of a block. */
  datatype Cipher = Cipher(enc: Block -> Block, dec: Block -> Block) {
    /** Decryption and encryption undo each other. */
    ghost predicate Permutes() {
      && (forall b: Block :: dec(enc(b)) == b)
      && (forall b: Block :: enc(dec(b)) == b)
    }
  }
}
