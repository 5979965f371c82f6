/** SHA-1 as sections 4 to 7 of FIPS 180-1 define it. */
module Sha1Spec {
  import opened Octets

  // ----- operations on words, section 3

  function S1(x: bv32): bv32 { (x << 1) | (x >> 31) }

  function S5(x: bv32): bv32 { (x << 5) | (x >> 27) }

  function S30(x: bv32): bv32 { (x << 30) | (x >> 2) }

  function Add(x: bv32, y: bv32): bv32 { x + y }

  function Xor4(x: bv32, y: bv32, z: bv32, w: bv32): bv32 { x ^ y ^ z ^ w }

  // ----- functions and constants, sections 5 and 6

  function Choose(x: bv32, y: bv32, z: bv32): bv32 { (x & y) | ((x ^ 0xFFFF_FFFF) & z) }

  function Parity(x: bv32, y: bv32, z: bv32): bv32 { x ^ y ^ z }

  function Majority(x: bv32, y: bv32, z: bv32): bv32 { (x & y) | (x & z) | (y & z) }

  function F(t: nat, x: bv32, y: bv32, z: bv32): bv32 {
    if t < 20 then Choose(x, y, z)
    else if t < 40 then Parity(x, y, z)
    else if t < 60 then Majority(x, y, z)
    else Parity(x, y, z)
  }

  function K(t: nat): bv32 {
    if t < 20 then 0x5A82_7999
    else if t < 40 then 0x6ED9_EBA1
    else if t < 60 then 0x8F1B_BCDC
    else 0xCA62_C1D6
  }

  // ----- the digest of a block, section 7

  datatype Registers = Registers(a: bv32, b: bv32, c: bv32, d: bv32, e: bv32)

  type Words = w: seq<bv32> | |w| == 16 witness seq(16, _ => 0)

  /** The word sequence W(0) to W(79). */
  function W(m: Words, t: nat): bv32 {
    if t < 16 then m[t] else S1(Xor4(W(m, t - 3), W(m, t - 8), W(m, t - 14), W(m, t - 16)))
  }

  function Round(r: Registers, t: nat, w: bv32): Registers {
    var temp := Add(Add(Add(Add(S5(r.a), F(t, r.b, r.c, r.d)), r.e), w), K(t));
    Registers(temp, r.a, S30(r.b), r.c, r.d)
  }

  function Rounds(r: Registers, m: Words, t: nat): Registers {
    if t == 0 then r else Round(Rounds(r, m, t - 1), t - 1, W(m, t - 1))
  }

  function Compress(h: Registers, m: Words): Registers {
    var r := Rounds(h, m, 80);
    Registers(Add(h.a, r.a), Add(h.b, r.b), Add(h.c, r.c), Add(h.d, r.d), Add(h.e, r.e))
  }

  // ----- messages

  function Word(b: Octets, at: nat): bv32
    requires at + 4 <= |b|
  {
    ((b[at] as bv32) << 24) | ((b[at + 1] as bv32) << 16) | ((b[at + 2] as bv32) << 8) | (b[at + 3] as bv32)
  }

  type Block64 = b: Octets | |b| == 64 witness seq(64, _ => 0)

  function BlockWords(b: Block64): Words {
    seq(16, i requires 0 <= i < 16 => Word(b, 4 * i))
  }

  const H0 := Registers(0x6745_2301, 0xEFCD_AB89, 0x98BA_DCFE, 0x1032_5476, 0xC3D2_E1F0)

  /** Block after block. */
  function Fold(h: Registers, x: Octets): Registers
    requires |x| % 64 == 0
    decreases |x|
  {
    if |x| == 0 then h else
      var n := |x| - 64;
      Compress(Fold(h, x[..n]), BlockWords(x[n..]))
  }

  /** The zero bytes that fill up the last block, section 4. */
  function Filler(n: nat): (k: nat)
    ensures k < 64 && (n + 1 + k + 8) % 64 == 0
  {
    (119 - n % 64) % 64
  }

  const BITS: nat := 0x1_0000_0000_0000_0000

  /** A message padded as if it had n bytes. */
  function PaddedAs(m: Octets, n: nat): (x: Octets)
    ensures |x| % 64 == 0
  {
    m + [0x80] + Zeros(Filler(|m|)) + BigEndian(8 * n % BITS, 8)
  }

  function WordBytes(x: bv32): (b: Octets)
    ensures |b| == 4
  {
    [((x >> 24) & 0xFF) as bv8, ((x >> 16) & 0xFF) as bv8, ((x >> 8) & 0xFF) as bv8, (x & 0xFF) as bv8]
  }

  function Output(h: Registers): (d: Octets)
    ensures |d| == 20
  {
    WordBytes(h.a) + WordBytes(h.b) + WordBytes(h.c) + WordBytes(h.d) + WordBytes(h.e)
  }

  function Digest(m: Octets): (d: Octets)
    ensures |d| == 20
  {
    Output(Fold(H0, PaddedAs(m, |m|)))
  }
}
