/** XTS, section 5 of IEEE Std 1619-2007, and how aes.twl.c computes it. */
module Xts {
  import opened AesMode
  import opened Buffers
  import opened Octets

  // ----- multiplication by the primitive element, section 5.2

  /** A byte doubled, with the carry out of the byte below it. */
  function Double(x: bv8, below: bv8): bv8 {
    (x << 1) | (below >> 7)
  }

  function Carry(x: bv8): bv8 {
    if x >> 7 == 0 then 0 else 0x87
  }

  function Folded(x: bv8, last: bv8): bv8 {
    (x << 1) ^ Carry(last)
  }

  /** The bytes are doubled, least significant first; a carry out of the last one comes back as 135. */
  function Alpha(t: Block): (r: Block) {
    seq(16, i requires 0 <= i < 16 => if i == 0 then Folded(t[0], t[15]) else Double(t[i], t[i - 1]))
  }

  function Word(b0: bv8, b1: bv8, b2: bv8, b3: bv8, b4: bv8, b5: bv8, b6: bv8, b7: bv8): bv64 {
    (b0 as bv64) | ((b1 as bv64) << 8) | ((b2 as bv64) << 16) | ((b3 as bv64) << 24) |
    ((b4 as bv64) << 32) | ((b5 as bv64) << 40) | ((b6 as bv64) << 48) | ((b7 as bv64) << 56)
  }

  function GetLittleEndian(x: Octets, at: nat): bv64
    requires at + 8 <= |x|
  {
    Word(x[at], x[at + 1], x[at + 2], x[at + 3], x[at + 4], x[at + 5], x[at + 6], x[at + 7])
  }

  function Eight(b0: bv8, b1: bv8, b2: bv8, b3: bv8, b4: bv8, b5: bv8, b6: bv8, b7: bv8): (x: Octets)
    ensures |x| == 8
    ensures x[0] == b0 && x[1] == b1 && x[2] == b2 && x[3] == b3 && x[4] == b4 && x[5] == b5 && x[6] == b6 && x[7] == b7
  {
    [b0, b1, b2, b3, b4, b5, b6, b7]
  }

  function PutLittleEndian(w: bv64): (x: Octets)
    ensures |x| == 8
  {
    Eight((w & 0xFF) as bv8, ((w >> 8) & 0xFF) as bv8, ((w >> 16) & 0xFF) as bv8, ((w >> 24) & 0xFF) as bv8,
           ((w >> 32) & 0xFF) as bv8, ((w >> 40) & 0xFF) as bv8, ((w >> 48) & 0xFF) as bv8, ((w >> 56) & 0xFF) as bv8)
  }

  /** The two words that mbedtls_gf128mul_x_ble stores: 0x0087 is shifted out, or left. */
  function LowHalf(a: bv64, b: bv64): bv64 {
    (a << 1) ^ (0x0087 >> (8 - ((b >> 63) << 3)))
  }

  function HighHalf(a: bv64, b: bv64): bv64 {
    (a >> 63) | (b << 1)
  }

  lemma LowBytes(b0: bv8, b1: bv8, b2: bv8, b3: bv8, b4: bv8, b5: bv8, b6: bv8, b7: bv8,
                 c0: bv8, c1: bv8, c2: bv8, c3: bv8, c4: bv8, c5: bv8, c6: bv8, c7: bv8)
    ensures PutLittleEndian(LowHalf(Word(b0, b1, b2, b3, b4, b5, b6, b7), Word(c0, c1, c2, c3, c4, c5, c6, c7))) ==
      Eight(Folded(b0, c7), Double(b1, b0), Double(b2, b1), Double(b3, b2),
            Double(b4, b3), Double(b5, b4), Double(b6, b5), Double(b7, b6))
  {}

  lemma HighBytes(b0: bv8, b1: bv8, b2: bv8, b3: bv8, b4: bv8, b5: bv8, b6: bv8, b7: bv8,
                  c0: bv8, c1: bv8, c2: bv8, c3: bv8, c4: bv8, c5: bv8, c6: bv8, c7: bv8)
    ensures PutLittleEndian(HighHalf(Word(b0, b1, b2, b3, b4, b5, b6, b7), Word(c0, c1, c2, c3, c4, c5, c6, c7))) ==
      Eight(Double(c0, b7), Double(c1, c0), Double(c2, c1), Double(c3, c2),
            Double(c4, c3), Double(c5, c4), Double(c6, c5), Double(c7, c6))
  {}

  /** mbedtls_gf128mul_x_ble, on two 64-bit words. */
  method MulAlpha(x: Block) returns (r: Block)
    ensures r == Alpha(x)
  {
    hide Eight, LowHalf, HighHalf, PutLittleEndian, Word, Folded, Double;
    var a, b := GetLittleEndian(x, 0), GetLittleEndian(x, 8);
    LowBytes(x[0], x[1], x[2], x[3], x[4], x[5], x[6], x[7], x[8], x[9], x[10], x[11], x[12], x[13], x[14], x[15]);
    HighBytes(x[0], x[1], x[2], x[3], x[4], x[5], x[6], x[7], x[8], x[9], x[10], x[11], x[12], x[13], x[14], x[15]);
    r := PutLittleEndian(LowHalf(a, b)) + PutLittleEndian(HighHalf(a, b));
  }

  // ----- the procedures of sections 5.3.2 and 5.4.2

  function Tweak(t0: Block, j: nat): Block {
    if j == 0 then t0 else Alpha(Tweak(t0, j - 1))
  }

  /** One block under one tweak. */
  function Xex(f: Block -> Block, t: Block, b: Block): Block {
    Xor(f(Xor(b, t)), t)
  }

  /** Block j under tweak j. */
  function XexBlocks(f: Block -> Block, t0: Block, x: Octets): (y: Octets)
    requires |x| % 16 == 0
    ensures |y| == |x|
    decreases |x|
  {
    if |x| == 0 then [] else
      var n := |x| - 16;
      XexBlocks(f, t0, x[..n]) + Xex(f, Tweak(t0, n / 16), x[n..])
  }

  /** The last full block and the remainder: the first application, under t1, lends the bytes that
      the remainder lacks, and the second one, under t2, takes the place of the full block. */
  function Steal(f: Block -> Block, t1: Block, t2: Block, x: Octets): (y: Octets)
    requires 16 < |x| < 32
    ensures |y| == |x|
  {
    var b := |x| - 16;
    var first := Xex(f, t1, x[..16]);
    Xex(f, t2, x[16..] + first[b..]) + first[..b]
  }

  /** Where the last full block starts. */
  function LastFull(n: nat): (h: nat)
    requires n >= 16
    ensures h % 16 == 0 && h + 16 <= n < h + 32 && n % 16 == n - h - 16
  {
    16 * (n / 16 - 1)
  }

  /** A data unit whose tweaks start with t0; deciphering takes the last two tweaks in the other order. */
  function Unit(f: Block -> Block, deciphering: bool, t0: Block, x: Octets): (y: Octets)
    requires |x| >= 16
    ensures |y| == |x|
  {
    var h := LastFull(|x|);
    var u, v := Tweak(t0, h / 16), Tweak(t0, h / 16 + 1);
    if |x| % 16 == 0 then XexBlocks(f, t0, x)
    else XexBlocks(f, t0, x[..h]) + if deciphering then Steal(f, v, u, x[h..]) else Steal(f, u, v, x[h..])
  }

  // ----- deciphering undoes enciphering

  lemma XexUndone(c: Cipher, t: Block, b: Block)
    requires c.Permutes()
    ensures Xex(c.dec, t, Xex(c.enc, t, b)) == b
  {
    XorSelfInverse(c.enc(Xor(b, t)), t);
    XorSelfInverse(b, t);
  }

  lemma {:induction false} XexBlocksUndone(c: Cipher, t0: Block, x: Octets)
    requires c.Permutes() && |x| % 16 == 0
    ensures XexBlocks(c.dec, t0, XexBlocks(c.enc, t0, x)) == x
    decreases |x|
  {
    hide Xex, Tweak;
    if |x| > 0 {
      var n := |x| - 16;
      var y := XexBlocks(c.enc, t0, x);
      XexBlocksUndone(c, t0, x[..n]);
      XexUndone(c, Tweak(t0, n / 16), x[n..]);
      assert y[..n] == XexBlocks(c.enc, t0, x[..n]) && y[n..] == Xex(c.enc, Tweak(t0, n / 16), x[n..]);
      assert x[..n] + x[n..] == x;
    }
  }

  /** With the tweaks swapped, stealing undoes itself. */
  lemma StealUndone(c: Cipher, t1: Block, t2: Block, x: Octets)
    requires c.Permutes() && 16 < |x| < 32
    ensures Steal(c.dec, t2, t1, Steal(c.enc, t1, t2, x)) == x
  {
    hide Xex;
    var b := |x| - 16;
    var first := Xex(c.enc, t1, x[..16]);
    var y := Steal(c.enc, t1, t2, x);
    XexUndone(c, t1, x[..16]);
    XexUndone(c, t2, x[16..] + first[b..]);
    var d := Xex(c.dec, t2, y[..16]);
    assert y[..16] == Xex(c.enc, t2, x[16..] + first[b..]);
    assert d[b..] == first[b..] && d[..b] == x[16..];
    assert y[16..] + d[b..] == first;
    assert x[..16] + x[16..] == x;
  }

  /** Deciphering a data unit gives back what was enciphered, for every length from one block up. */
  lemma UnitUndone(c: Cipher, t0: Block, x: Octets)
    requires c.Permutes() && |x| >= 16
    ensures Unit(c.dec, true, t0, Unit(c.enc, false, t0, x)) == x
  {
    hide Steal, XexBlocks, Tweak;
    var h := LastFull(|x|);
    var u, v := Tweak(t0, h / 16), Tweak(t0, h / 16 + 1);
    var y := Unit(c.enc, false, t0, x);
    if |x| % 16 == 0 {
      XexBlocksUndone(c, t0, x);
    } else {
      XexBlocksUndone(c, t0, x[..h]);
      StealUndone(c, u, v, x[h..]);
      assert y[..h] == XexBlocks(c.enc, t0, x[..h]) && y[h..] == Steal(c.enc, u, v, x[h..]);
      assert x[..h] + x[h..] == x;
    }
  }

  // ----- mbedtls_aes_crypt_xts

  /** One more block, in place behind the earlier ones. */
  method CryptBlock(f: Block -> Block, tweak: Block, block: Block, output: array<bv8>, at: nat)
    requires at + 16 <= output.Length
    modifies output
    ensures output[..at + 16] == old(output[..at]) + Xex(f, tweak, block)
    ensures forall k | at + 16 <= k < output.Length :: output[k] == old(output[k])
  {
    var tmp := Xor(block, tweak);
    tmp := f(tmp);
    Append(output, at, Xor(tmp, tweak));
  }

  /** The first b bytes of a block, copied behind it. */
  method MoveBehind(output: array<bv8>, prev: nat, b: nat)
    requires b < 16 && prev + 16 + b <= output.Length
    modifies output
    ensures output[..prev + 16] == old(output[..prev + 16]) && output[prev + 16..prev + 16 + b] == old(output[prev..prev + b])
    ensures forall k | prev + 16 + b <= k < output.Length :: output[k] == old(output[k])
  {
    for i := 0 to b
      invariant output[..prev + 16] == old(output[..prev + 16])
      invariant output[prev + 16..prev + 16 + i] == old(output[prev..prev + i])
      invariant forall k | prev + 16 + i <= k < output.Length :: output[k] == old(output[k])
    {
      output[prev + 16 + i] := output[prev + i];
    }
  }

  /** The branch for leftover bytes: the bytes not stolen move behind the previous block, which is then
      computed anew from the remainder and the stolen bytes. */
  method StealInPlace(f: Block -> Block, t: Block, rest: Octets, output: array<bv8>, prev: nat)
    requires 0 < |rest| < 16 && prev + 16 + |rest| <= output.Length
    modifies output
    ensures var first := old(output[prev..prev + 16]);
      output[..prev + 16 + |rest|] == old(output[..prev]) + Xex(f, t, rest + first[|rest|..]) + first[..|rest|]
    ensures forall k | prev + 16 + |rest| <= k < output.Length :: output[k] == old(output[k])
  {
    hide Xor, Xex;
    var b := |rest|;
    ghost var first := output[prev..prev + 16];
    MoveBehind(output, prev, b);
    var tmp := Xor(rest, t[..b]) + Xor(output[prev + b..prev + 16], t[b..]);
    XorPieces(rest, first[b..], t);
    assert output[prev + b..prev + 16] == first[b..];
    tmp := f(tmp);
    XexIs(f, t, rest + first[b..]);
    ghost var y := output[..];
    CopyTo(output, prev, Xor(tmp, t));
    Overwritten(old(output[..]), y, output[..], prev, b, Xor(tmp, t));
  }

  lemma Overwritten(x: Octets, y: Octets, z: Octets, prev: nat, b: nat, block: Block)
    requires b < 16 && prev + 16 + b <= |x| == |y|
    requires y[..prev + 16] == x[..prev + 16] && y[prev + 16..prev + 16 + b] == x[prev..prev + b]
    requires z == y[..prev] + block + y[prev + 16..]
    ensures |z| == |x| && z[..prev + 16 + b] == x[..prev] + block + x[prev..prev + 16][..b]
    ensures forall k | prev + 16 + b <= k < |x| :: z[k] == y[k]
  {
    assert z[..prev + 16 + b] == y[..prev] + block + y[prev + 16..prev + 16 + b];
    assert y[..prev] == y[..prev + 16][..prev] == x[..prev + 16][..prev] == x[..prev];
  }

  lemma XexIs(f: Block -> Block, t: Block, b: Block)
    ensures Xex(f, t, b) == Xor(f(Xor(b, t)), t)
  {}

  lemma XorPieces(x: Octets, y: Octets, t: Octets)
    requires |x| + |y| == |t|
    ensures Xor(x, t[..|x|]) + Xor(y, t[|x|..]) == Xor(x + y, t)
  {}

  /** The blocks before at are done, and tweak is the next one's. */
  ghost predicate Before(f: Block -> Block, t0: Block, input: Octets, output: Octets, at: nat, tweak: Block) {
    && at % 16 == 0 && at <= |input| && at <= |output|
    && tweak == Tweak(t0, at / 16) && output[..at] == XexBlocks(f, t0, input[..at])
  }

  /** The last full block, at h, is done too: swapped, it took the tweak after its own. */
  ghost predicate After(f: Block -> Block, swap: bool, t0: Block, input: Octets, output: Octets, h: nat,
                        tweak: Block, prevTweak: Block) {
    && h % 16 == 0 && h + 16 <= |input| && h + 16 <= |output|
    && output[..h] == XexBlocks(f, t0, input[..h])
    && output[h..h + 16] == Xex(f, Tweak(t0, if swap then h / 16 + 1 else h / 16), input[h..h + 16])
    && tweak == Tweak(t0, if swap then h / 16 + 2 else h / 16 + 1)
    && (swap ==> prevTweak == Tweak(t0, h / 16))
  }

  lemma BeforeStep(f: Block -> Block, t0: Block, input: Octets, x: Octets, y: Octets, at: nat, tweak: Block)
    requires Before(f, t0, input, x, at, tweak) && at + 16 <= |input| && at + 16 <= |y|
    requires y[..at + 16] == x[..at] + Xex(f, tweak, input[at..at + 16])
    ensures Before(f, t0, input, y, at + 16, Alpha(tweak))
  {
    hide Alpha, Xex;
    var z := input[..at + 16];
    assert z[..at] == input[..at] && z[at..] == input[at..at + 16];
  }

  lemma AfterStep(f: Block -> Block, swap: bool, t0: Block, input: Octets, x: Octets, y: Octets, at: nat, tweak: Block)
    requires Before(f, t0, input, x, at, tweak) && at + 16 <= |input| && at + 16 <= |y|
    requires y[..at + 16] == x[..at] + Xex(f, if swap then Alpha(tweak) else tweak, input[at..at + 16])
    ensures After(f, swap, t0, input, y, at, if swap then Alpha(Alpha(tweak)) else Alpha(tweak), tweak)
  {
    hide Alpha, Xex, XexBlocks;
    assert y[..at] == y[..at + 16][..at] && y[at..at + 16] == y[..at + 16][at..];
    assert Tweak(t0, at / 16 + 1) == Alpha(tweak);
    assert Tweak(t0, at / 16 + 2) == Alpha(Alpha(tweak));
  }

  /** The loop over the full blocks. With swap set the last one takes the next tweak, and the tweak
      that was its turn is kept. */
  method FullBlocks(f: Block -> Block, swap: bool, t0: Block, input: Octets, output: array<bv8>)
    returns (tweak: Block, prevTweak: Block)
    requires 16 <= |input| <= output.Length
    modifies output
    ensures After(f, swap, t0, input, output[..], LastFull(|input|), tweak, prevTweak)
    ensures forall k | LastFull(|input|) + 16 <= k < output.Length :: output[k] == old(output[k])
  {
    hide Alpha, Xex, XexBlocks, Tweak, Before, After;
    ghost var h := LastFull(|input|);
    var blocks := |input| / 16;
    var at := 0;
    tweak, prevTweak := t0, t0;
    BeforeStart(f, t0, input, output[..]);
    while blocks > 0
      invariant blocks >= 0 && at == h + 16 - 16 * blocks
      invariant if blocks > 0 then Before(f, t0, input, output[..], at, tweak)
                else After(f, swap, t0, input, output[..], h, tweak, prevTweak)
      invariant forall k | at <= k < output.Length :: output[k] == old(output[k])
    {
      ghost var x, t := output[..], tweak;
      blocks := blocks - 1;
      if swap && blocks == 0 {
        prevTweak := tweak;
        tweak := MulAlpha(tweak);
      }
      CryptBlock(f, tweak, input[at..at + 16], output, at);
      tweak := MulAlpha(tweak);
      assert output[..][..at + 16] == output[..at + 16] ;
      if blocks > 0 {
        BeforeStep(f, t0, input, x, output[..], at, t);
      } else {
        AfterStep(f, swap, t0, input, x, output[..], at, t);
        AnyPrev(f, t0, input, output[..], at, tweak, t, prevTweak);
      }
      at := at + 16;
    }
  }

  lemma BeforeStart(f: Block -> Block, t0: Block, input: Octets, output: Octets)
    ensures Before(f, t0, input, output, 0, t0)
  {
    assert input[..0] == output[..0] == [];
  }

  /** The kept tweak matters only after swapping. */
  lemma AnyPrev(f: Block -> Block, t0: Block, input: Octets, output: Octets, h: nat, tweak: Block, p: Block, q: Block)
    ensures After(f, false, t0, input, output, h, tweak, p) ==> After(f, false, t0, input, output, h, tweak, q)
  {}

  /** mbedtls_aes_crypt_xts, the output not overlapping the input. */
  method CryptXts(crypt: Cipher, tweakEnc: Block -> Block, mode: int, unit: Block, input: Octets, output: array<bv8>)
    returns (ret: int)
    requires |input| <= output.Length
    modifies output
    ensures ret == 0 <==> KnownMode(mode) && 16 <= |input| <= 16 * 0x10_0000
    ensures ret == 0 ==>
      output[..|input|] == Unit(if mode == AES_DECRYPT then crypt.dec else crypt.enc, mode == AES_DECRYPT, tweakEnc(unit), input)
    ensures ret == 0 ==> forall k | |input| <= k < output.Length :: output[k] == old(output[k])
    ensures ret != 0 ==> output[..] == old(output[..])
    ensures ret != 0 ==> ret == if KnownMode(mode) then ERR_AES_INVALID_INPUT_LENGTH else ERR_AES_BAD_INPUT_DATA
  {
    hide Tweak, Xex;
    ret := 0;
    var n := |input|;
    var leftover := n % 16;
    if mode != AES_ENCRYPT && mode != AES_DECRYPT {
      return ERR_AES_BAD_INPUT_DATA;
    }
    if n < 16 {
      return ERR_AES_INVALID_INPUT_LENGTH;
    }
    if n > 16 * 0x10_0000 {
      return ERR_AES_INVALID_INPUT_LENGTH;
    }
    var f := if mode == AES_DECRYPT then crypt.dec else crypt.enc;
    var t0 := tweakEnc(unit);
    var swap := leftover > 0 && mode == AES_DECRYPT;
    var tweak, prevTweak := FullBlocks(f, swap, t0, input, output);
    ghost var y := output[..];
    if leftover > 0 {
      var t := if mode == AES_DECRYPT then prevTweak else tweak;
      StealInPlace(f, t, input[n - leftover..], output, n - leftover - 16);
      StolenUnit(f, swap, t0, input, y, tweak, prevTweak, output[..]);
    } else {
      WholeUnit(f, mode == AES_DECRYPT, t0, input, y, tweak, prevTweak);
    }
  }

  lemma WholeUnit(f: Block -> Block, deciphering: bool, t0: Block, x: Octets, y: Octets, tweak: Block, prevTweak: Block)
    requires |x| >= 16 && |x| % 16 == 0 && After(f, false, t0, x, y, LastFull(|x|), tweak, prevTweak)
    ensures y[..|x|] == Unit(f, deciphering, t0, x)
  {
    hide Tweak, Xex, Steal;
    var h := LastFull(|x|);
    assert h == |x| - 16 && x[h..] == x[h..h + 16];
    assert y[..|x|] == y[..h] + y[h..h + 16];
    assert XexBlocks(f, t0, x) == XexBlocks(f, t0, x[..h]) + Xex(f, Tweak(t0, h / 16), x[h..]);
  }

  lemma StolenUnit(f: Block -> Block, swap: bool, t0: Block, x: Octets, y: Octets, tweak: Block, prevTweak: Block, z: Octets)
    requires |x| >= 16 && |x| % 16 > 0 && After(f, swap, t0, x, y, LastFull(|x|), tweak, prevTweak) && |z| == |y| >= |x|
    requires var h := LastFull(|x|); var b := |x| - h - 16; var first := y[h..h + 16];
      z[..|x|] == y[..h] + Xex(f, if swap then prevTweak else tweak, x[h + 16..] + first[b..]) + first[..b]
    ensures z[..|x|] == Unit(f, swap, t0, x)
  {
    hide Tweak, Xex, XexBlocks;
    var h := LastFull(|x|);
    assert x[h..][..16] == x[h..h + 16] && x[h..][16..] == x[h + 16..];
  }
}
