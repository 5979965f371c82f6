/** The first two blocks of each mode, block by block as the standards write them, and the doubling of XTS. */
module ModeExamples {
  import opened ByteNumbers
  import opened Octets
  import opened StreamModes
  import Cbc
  import Cfb
  import CipherLayer
  import Padding
  import Xts

  /** Section 6.2 of SP 800-38A: each block meets the one before it, and the first the initialisation vector. */
  lemma CbcTwo(enc: Block -> Block, iv: Block, x0: Block, x1: Block)
    ensures |x0 + x1| % 16 == 0
    ensures var y0 := enc(Xor(x0, iv)); var y1 := enc(Xor(x1, y0)); Cbc.Encrypted(enc, iv, x0 + x1) == y0 + y1
  {
    hide Xor;
    CbcOne(enc, iv, x0);
    assert (x0 + x1)[..16] == x0 && (x0 + x1)[16..] == x1;
  }

  lemma CbcOne(enc: Block -> Block, iv: Block, x: Block)
    ensures Cbc.Encrypted(enc, iv, x) == enc(Xor(x, iv))
  {
    hide Xor;
    assert x[..0] == [] && x[0..] == x;
    assert Cbc.Encrypted(enc, iv, []) == [];
  }

  /** Section 6.3: the initialisation vector is enciphered, then the ciphertext block. */
  lemma CfbTwo(enc: Block -> Block, iv: Block, x0: Block, x1: Block)
    ensures var y0 := Xor(x0, enc(iv)); var y1 := Xor(x1, enc(y0)); Cfb.Decrypted(enc, iv, y0 + y1) == x0 + x1
  {
    hide Flip;
    var y0 := Xor(x0, enc(iv));
    var y1 := Xor(x1, enc(y0));
    var y := y0 + y1;
    assert y[0..16] == y0;
    forall p | 0 <= p < 32 ensures Cfb.Decrypted(enc, iv, y)[p] == (x0 + x1)[p] {
      Place(p);
      FlipTwice((x0 + x1)[p], if p < 16 then enc(iv)[p] else enc(y0)[p - 16]);
    }
  }

  lemma Place(p: nat)
    requires p < 32
    ensures if p < 16 then p / 16 == 0 && p % 16 == p else p / 16 == 1 && p % 16 == p - 16
  {}

  /** Section 6.4: the initialisation vector enciphered once, then twice. */
  lemma OfbTwo(enc: Block -> Block, iv: Block, x0: Block, x1: Block)
    ensures Masked(Ofb(enc, iv), 0, x0 + x1) == Xor(x0, enc(iv)) + Xor(x1, enc(enc(iv)))
  {
    hide Flip;
    IterateTwice(enc, iv);
    forall p | 0 <= p < 32 ensures Masked(Ofb(enc, iv), 0, x0 + x1)[p] == (Xor(x0, enc(iv)) + Xor(x1, enc(enc(iv))))[p] {
      Place(p);
    }
  }

  lemma IterateTwice(enc: Block -> Block, iv: Block)
    ensures Iterate(enc, iv, 1) == enc(iv) && Iterate(enc, iv, 2) == enc(enc(iv))
  {
    assert Iterate(enc, iv, 0) == iv;
  }

  /** Section 6.5, with the counter of appendix B.1: the nonce is enciphered, then the nonce with one added. */
  lemma CtrTwo(enc: Block -> Block, c: Block, c': Block, x0: Block, x1: Block)
    requires FromBigEndian(c') == (FromBigEndian(c) + 1) % 0x1_0000_0000_0000_0000_0000_0000_0000_0000
    ensures Masked(Ctr(enc, c), 0, x0 + x1) == Xor(x0, enc(c)) + Xor(x1, enc(c'))
  {
    hide Flip, FromBigEndian, BigEndian, Counter;
    CounterStart(enc, c, []);
    Sixteen();
    NextCounter(c, 0, c');
    forall p | 0 <= p < 32 ensures Masked(Ctr(enc, c), 0, x0 + x1)[p] == (Xor(x0, enc(c)) + Xor(x1, enc(c')))[p] {
      Place(p);
    }
  }

  lemma Sixteen()
    ensures Power256(16) == 0x1_0000_0000_0000_0000_0000_0000_0000_0000
  {
    assert Power256(4) == 0x1_0000_0000;
    assert Power256(8) == 0x1_0000_0000_0000_0000;
    assert Power256(12) == 0x1_0000_0000_0000_0000_0000_0000;
  }

  // ----- XTS, sections 5.2 and 5.3.2 of IEEE Std 1619-2007

  /** The carry out of the last byte comes back as 135 in the first one, and every other carry goes up one byte. */
  lemma Doubling(t: Block)
    ensures Xts.Alpha(t)[0] == (if t[15] >= 0x80 then (t[0] << 1) ^ 0x87 else t[0] << 1)
    ensures forall i | 0 < i < 16 :: Xts.Alpha(t)[i] == if t[i - 1] >= 0x80 then (t[i] << 1) | 1 else t[i] << 1
  {
    hide Xts.Folded, Xts.Double;
    FirstByte(t[0], t[15]);
    forall i | 0 < i < 16 ensures Xts.Alpha(t)[i] == if t[i - 1] >= 0x80 then (t[i] << 1) | 1 else t[i] << 1 { OtherByte(t[i], t[i - 1]); }
  }

  lemma FirstByte(x: bv8, last: bv8)
    ensures Xts.Folded(x, last) == if last >= 0x80 then (x << 1) ^ 0x87 else x << 1
  {}

  lemma OtherByte(x: bv8, below: bv8)
    ensures Xts.Double(x, below) == if below >= 0x80 then (x << 1) | 1 else x << 1
  {}

  /** Enciphering one block and b bytes more: the block is enciphered under the first tweak, its first b bytes are the
      last ones of the outcome, and the others follow the remainder through the cipher under the second tweak. */
  lemma Stealing(enc: Block -> Block, t: Block, x: Block, rest: Octets)
    requires 0 < |rest| < 16
    ensures var cc := Xor(enc(Xor(x, t)), t);
      var pp := rest + cc[|rest|..];
      Xts.Unit(enc, false, t, x + rest) == Xor(enc(Xor(pp, Xts.Alpha(t))), Xts.Alpha(t)) + cc[..|rest|]
  {
    hide Xor, Xts.Alpha;
    var z := x + rest;
    assert z[..16] == x && z[16..] == rest && z[..0] == [] && z[0..] == z;
    assert Xts.LastFull(|z|) == 0 && Xts.Tweak(t, 0) == t && Xts.Tweak(t, 1) == Xts.Alpha(t);
    assert Xts.XexBlocks(enc, t, []) == [];
  }

  /** Two whole blocks: each meets its tweak before and after the cipher. */
  lemma TwoUnits(enc: Block -> Block, t: Block, x0: Block, x1: Block)
    ensures var u := Xts.Alpha(t); Xts.Unit(enc, false, t, x0 + x1) == Xor(enc(Xor(x0, t)), t) + Xor(enc(Xor(x1, u)), u)
  {
    hide Xor, Xts.Alpha;
    var z := x0 + x1;
    assert z[..16] == x0 && z[16..] == x1 && x0[..0] == [] && x0[0..] == x0;
    assert Xts.Tweak(t, 0) == t && Xts.Tweak(t, 1) == Xts.Alpha(t);
    assert Xts.XexBlocks(enc, t, []) == [];
    assert Xts.XexBlocks(enc, t, x0) == Xts.Xex(enc, t, x0);
  }

  // ----- the cipher layer on messages that end with a block, or with nothing

  /** A padding that is asked for is always there: after whole blocks it is a block of its own, and a ciphertext without
      any block has none. */
  lemma WholeBlocks(c: Cipher, p: Padding.Padding, iv: Block, m: Octets)
    requires |m| % 16 == 0
    ensures CipherLayer.EncryptAll(c, p, iv, m) ==
      CipherLayer.Done(Cbc.Encrypted(c.enc, iv, if p == Padding.NoPadding then m else m + Padding.Pad(p, [])))
    ensures CipherLayer.DecryptAll(c, p, iv, []) == if p == Padding.NoPadding then CipherLayer.Done([]) else CipherLayer.FullBlockExpected
  {
    hide Cbc.Encrypted, Padding.Pad;
    assert m[..|m|] == m && m[|m|..] == [];
  }

  /** Without padding, a partial block is an error in either direction. */
  lemma PartialBlock(c: Cipher, iv: Block, m: Octets)
    requires |m| % 16 != 0
    ensures CipherLayer.EncryptAll(c, Padding.NoPadding, iv, m) == CipherLayer.FullBlockExpected
    ensures forall p :: CipherLayer.DecryptAll(c, p, iv, m) == CipherLayer.FullBlockExpected
  {}

  // ----- paddings

  /** Thirteen bytes of data under each padding. */
  lemma ThreeBytes(d: Octets)
    requires |d| == 13
    ensures Padding.Pad(Padding.Pkcs7, d) == d + [3, 3, 3]
    ensures Padding.Pad(Padding.OneAndZeros, d) == d + [0x80, 0, 0]
    ensures Padding.Pad(Padding.ZerosAndLen, d) == d + [0, 0, 3]
    ensures Padding.Pad(Padding.ZeroPadding, d) == d + [0, 0, 0]
  {
    ThreeByte();
    assert Repeat(3, Byte(3)) == [3, 3, 3] && Zeros(2) == [0, 0] && Zeros(3) == [0, 0, 0];
  }

  lemma ThreeByte()
    ensures Byte(3) == 3
  {}
}
