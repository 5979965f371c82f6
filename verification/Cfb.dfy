/** CFB with 128-bit segments, section 6.3 of SP 800-38A, and how aes.twl.c computes it. */
module Cfb {
  import opened AesMode
  import opened Octets
  import opened Pieces
  import opened Buffers
  import opened StreamModes

  /** What is enciphered to mask block j: the ciphertext block before it, or the initialisation vector. */
  function Feedback(iv0: Block, c: Octets, j: nat): Block
    requires 16 * j <= |c|
  {
    if j == 0 then iv0 else c[16 * (j - 1)..16 * j]
  }

  /** The mask of byte p, which hangs on the ciphertext before its block. */
  function MaskAt(enc: Block -> Block, iv0: Block, c: Octets, p: nat): bv8
    requires p <= |c|
  {
    enc(Feedback(iv0, c, p / 16))[p % 16]
  }

  function Encrypted(enc: Block -> Block, iv0: Block, x: Octets): (c: Octets)
    ensures |c| == |x|
  {
    if |x| == 0 then [] else
      var n := |x| - 1;
      var c := Encrypted(enc, iv0, x[..n]);
      c + [Flip(x[n], MaskAt(enc, iv0, c, n))]
  }

  function Decrypted(enc: Block -> Block, iv0: Block, c: Octets): (x: Octets)
    ensures |x| == |c|
  {
    seq(|c|, p requires 0 <= p < |c| => Flip(c[p], MaskAt(enc, iv0, c, p)))
  }

  /** The masks look back only. */
  lemma MaskPrefix(enc: Block -> Block, iv0: Block, c: Octets, n: nat, p: nat)
    requires p <= n <= |c|
    ensures MaskAt(enc, iv0, c, p) == MaskAt(enc, iv0, c[..n], p)
  {
    var j := p / 16;
    if j > 0 {
      assert c[..n][16 * (j - 1)..16 * j] == c[16 * (j - 1)..16 * j];
    }
  }

  lemma DecryptedStep(enc: Block -> Block, iv0: Block, c: Octets, b: bv8)
    ensures Decrypted(enc, iv0, c + [b]) == Decrypted(enc, iv0, c) + [Flip(b, MaskAt(enc, iv0, c, |c|))]
  {
    hide Flip, MaskAt;
    var d := c + [b];
    assert d[..|c|] == c;
    forall p | 0 <= p <= |c| ensures MaskAt(enc, iv0, d, p) == MaskAt(enc, iv0, c, p) {
      MaskPrefix(enc, iv0, d, |c|, p);
    }
  }

  lemma EncryptedStep(enc: Block -> Block, iv0: Block, x: Octets, b: bv8)
    ensures var c := Encrypted(enc, iv0, x);
      Encrypted(enc, iv0, x + [b]) == c + [Flip(b, MaskAt(enc, iv0, c, |x|))]
  {
    hide Flip, MaskAt;
    assert (x + [b])[..|x|] == x;
  }

  /** Decryption restores what was encrypted, and encryption what was decrypted. */
  lemma {:induction false} DecryptedEncrypted(enc: Block -> Block, iv0: Block, x: Octets)
    ensures Decrypted(enc, iv0, Encrypted(enc, iv0, x)) == x
  {
    hide Flip, MaskAt, Decrypted, Encrypted;
    if |x| > 0 {
      var n := |x| - 1;
      var c := Encrypted(enc, iv0, x[..n]);
      var m := MaskAt(enc, iv0, c, n);
      assert x == x[..n] + [x[n]];
      DecryptedEncrypted(enc, iv0, x[..n]);
      EncryptedStep(enc, iv0, x[..n], x[n]);
      DecryptedStep(enc, iv0, c, Flip(x[n], m));
      FlipTwice(x[n], m);
    } else {
      assert Decrypted(enc, iv0, []) == [];
    }
  }

  lemma {:induction false} EncryptedDecrypted(enc: Block -> Block, iv0: Block, c: Octets)
    ensures Encrypted(enc, iv0, Decrypted(enc, iv0, c)) == c
  {
    hide Flip, MaskAt, Decrypted, Encrypted;
    if |c| > 0 {
      var n := |c| - 1;
      var d := c[..n];
      var m := MaskAt(enc, iv0, d, n);
      var x := Decrypted(enc, iv0, d);
      EncryptedDecrypted(enc, iv0, d);
      assert c == d + [c[n]];
      DecryptedStep(enc, iv0, d, c[n]);
      EncryptedStep(enc, iv0, x, Flip(c[n], m));
      FlipTwice(c[n], m);
    } else {
      assert Decrypted(enc, iv0, c) == [] && c == [];
      assert Encrypted(enc, iv0, []) == [];
    }
  }

  /** The context after the ciphertext c: the bytes of the current block that are done hold ciphertext,
      the others the mask. */
  ghost predicate Carries(enc: Block -> Block, iv0: Block, c: Octets, off: nat, iv: Octets) {
    var j := |c| / 16;
    && off == |c| % 16 && |iv| == 16
    && if off == 0 then iv == Feedback(iv0, c, j)
       else iv[..off] == c[16 * j..] && iv[off..] == enc(Feedback(iv0, c, j))[off..]
  }

  lemma ByteStep(enc: Block -> Block, iv0: Block, c: Octets, off: nat, iv: Block, b: bv8)
    requires Carries(enc, iv0, c, off, iv)
    ensures off < 16
    ensures var iv' := if off == 0 then enc(iv) else iv;
      iv'[off] == MaskAt(enc, iv0, c, |c|) && Carries(enc, iv0, c + [b], (off + 1) % 16, iv'[off := b])
  {
    var j, d := |c| / 16, c + [b];
    var mask := enc(Feedback(iv0, c, j));
    var iv' := if off == 0 then mask else iv;
    assert iv'[off] == mask[off] by {
      assert off > 0 ==> iv[off..][0] == mask[off..][0];
    }
    SameFeedback(iv0, c, b);
    assert iv'[off := b][..off + 1] == d[16 * j..];
    if off == 15 {
      Leaving(|c|, 1);
      assert iv'[off := b] == d[16 * j..16 * (j + 1)];
    } else {
      Inside(|c|, 1);
      assert iv'[off := b][off + 1..] == mask[off + 1..];
    }
  }

  lemma SameFeedback(iv0: Block, c: Octets, b: bv8)
    ensures Feedback(iv0, c + [b], |c| / 16) == Feedback(iv0, c, |c| / 16)
  {
    var j := |c| / 16;
    if j > 0 {
      assert (c + [b])[16 * (j - 1)..16 * j] == c[16 * (j - 1)..16 * j];
    }
  }

  /** One byte of either direction: the mask byte is used, and the ciphertext byte takes its place. */
  method TakeMask(enc: Block -> Block, ghost iv0: Block, ghost c: Octets, n: nat, iv: array<bv8>) returns (m: bv8)
    requires iv.Length == 16 && Carries(enc, iv0, c, n, iv[..])
    modifies iv
    ensures n < 16 && m == iv[n] == MaskAt(enc, iv0, c, |c|)
    ensures forall b :: Carries(enc, iv0, c + [b], (n + 1) % 16, iv[..][n := b])
  {
    hide Carries, MaskAt;
    forall b ensures n < 16
      && var iv' := if n == 0 then enc(iv[..]) else iv[..];
         iv'[n] == MaskAt(enc, iv0, c, |c|) && Carries(enc, iv0, c + [b], (n + 1) % 16, iv'[n := b])
    {
      ByteStep(enc, iv0, c, n, iv[..], b);
    }
    ghost var b0: bv8 := 0;
    assert Carries(enc, iv0, c + [b0], (n + 1) % 16, (if n == 0 then enc(iv[..]) else iv[..])[n := b0]);
    ghost var after := if n == 0 then enc(iv[..]) else iv[..];
    if n == 0 {
      CopyTo(iv, 0, enc(iv[..]));
    }
    assert iv[..] == after;
    m := iv[n];
  }

  method DecryptBytes(enc: Block -> Block, ghost iv0: Block, ghost c: Octets, off: nat, iv: array<bv8>,
                      input: Octets, output: array<bv8>)
    returns (n: nat)
    requires iv.Length == 16 && iv != output && |input| <= output.Length && Carries(enc, iv0, c, off, iv[..])
    modifies iv, output
    ensures Carries(enc, iv0, c + input, n, iv[..])
    ensures Decrypted(enc, iv0, c) + output[..|input|] == Decrypted(enc, iv0, c + input)
    ensures forall k | |input| <= k < output.Length :: output[k] == old(output[k])
  {
    hide Carries, Flip, MaskAt, Decrypted;
    n := off;
    assert input[..0] == output[..0] == [] && c + [] == c;
    for i := 0 to |input|
      invariant Carries(enc, iv0, c + input[..i], n, iv[..])
      invariant Decrypted(enc, iv0, c) + output[..i] == Decrypted(enc, iv0, c + input[..i])
      invariant forall k | i <= k < output.Length :: output[k] == old(output[k])
    {
      var m := TakeMask(enc, iv0, c + input[..i], n, iv);
      DecryptedStep(enc, iv0, c + input[..i], input[i]);
      assert c + input[..i + 1] == c + input[..i] + [input[i]];
      output[i] := Flip(input[i], m);
      iv[n] := input[i];
      n := (n + 1) % 16;
    }
    assert input[..|input|] == input;
  }

  method EncryptBytes(enc: Block -> Block, ghost iv0: Block, ghost c: Octets, off: nat, iv: array<bv8>,
                      input: Octets, output: array<bv8>)
    returns (n: nat)
    requires iv.Length == 16 && iv != output && |input| <= output.Length && Carries(enc, iv0, c, off, iv[..])
    modifies iv, output
    ensures Carries(enc, iv0, c + output[..|input|], n, iv[..])
    ensures Decrypted(enc, iv0, c) + input == Decrypted(enc, iv0, c + output[..|input|])
    ensures forall k | |input| <= k < output.Length :: output[k] == old(output[k])
  {
    hide Carries, Flip, MaskAt, Decrypted;
    n := off;
    assert input[..0] == output[..0] == [] && c + [] == c;
    for i := 0 to |input|
      invariant Carries(enc, iv0, c + output[..i], n, iv[..])
      invariant Decrypted(enc, iv0, c) + input[..i] == Decrypted(enc, iv0, c + output[..i])
      invariant forall k | i <= k < output.Length :: output[k] == old(output[k])
    {
      ghost var d := c + output[..i];
      var m := TakeMask(enc, iv0, d, n, iv);
      DecryptedStep(enc, iv0, d, Flip(input[i], m));
      FlipTwice(input[i], m);
      output[i] := Flip(input[i], m);
      iv[n] := output[i];
      n := (n + 1) % 16;
      assert c + output[..i + 1] == d + [Flip(input[i], m)];
    }
    assert input[..|input|] == input;
  }

  /** mbedtls_aes_crypt_cfb128, on a context that has seen the ciphertext c. */
  method CryptCfb128(enc: Block -> Block, mode: int, ghost iv0: Block, ghost c: Octets, off: nat, iv: array<bv8>,
                     input: Octets, output: array<bv8>)
    returns (ret: int, off': nat)
    requires iv.Length == 16 && iv != output && |input| <= output.Length
    requires KnownMode(mode) && off <= 15 ==> Carries(enc, iv0, c, off, iv[..])
    modifies iv, output
    ensures ret == if KnownMode(mode) && off <= 15 then 0 else ERR_AES_BAD_INPUT_DATA
    ensures ret != 0 ==> off' == off && iv[..] == old(iv[..]) && output[..] == old(output[..])
    ensures ret == 0 && mode == AES_DECRYPT ==>
      && Carries(enc, iv0, c + input, off', iv[..])
      && Decrypted(enc, iv0, c) + output[..|input|] == Decrypted(enc, iv0, c + input)
    ensures ret == 0 && mode == AES_ENCRYPT ==>
      && Carries(enc, iv0, c + output[..|input|], off', iv[..])
      && Decrypted(enc, iv0, c) + input == Decrypted(enc, iv0, c + output[..|input|])
    ensures ret == 0 ==> forall k | |input| <= k < output.Length :: output[k] == old(output[k])
  {
    hide Carries, Decrypted;
    ret, off' := 0, off;
    if mode != AES_ENCRYPT && mode != AES_DECRYPT {
      return ERR_AES_BAD_INPUT_DATA, off;
    }
    if off > 15 {
      return ERR_AES_BAD_INPUT_DATA, off;
    }
    if mode == AES_DECRYPT {
      off' := DecryptBytes(enc, iv0, c, off, iv, input, output);
    } else {
      off' := EncryptBytes(enc, iv0, c, off, iv, input, output);
    }
  }

  lemma CarriesNothing(enc: Block -> Block, iv0: Block)
    ensures Carries(enc, iv0, [], 0, iv0)
  {}

  /** A message encrypted, or decrypted, through one context, one call a piece: the result is that of
      the whole message. */
  method CfbPieces(enc: Block -> Block, iv0: Block, mode: int, pieces: seq<Octets>) returns (out: Octets)
    requires KnownMode(mode)
    ensures out == if mode == AES_DECRYPT then Decrypted(enc, iv0, Flatten(pieces)) else Encrypted(enc, iv0, Flatten(pieces))
  {
    hide Carries, Decrypted, Encrypted;
    var iv := new bv8[16];
    CopyTo(iv, 0, iv0);
    assert iv[..] == iv0;
    CarriesNothing(enc, iv0);
    DecryptedEncrypted(enc, iv0, []);
    out := [];
    var off := 0;
    for i := 0 to |pieces|
      invariant var x := Flatten(pieces[..i]);
        if mode == AES_DECRYPT then Carries(enc, iv0, x, off, iv[..]) && out == Decrypted(enc, iv0, x)
        else Carries(enc, iv0, out, off, iv[..]) && x == Decrypted(enc, iv0, out)
    {
      var output := new bv8[|pieces[i]|];
      CarriesWithin(enc, iv0, if mode == AES_DECRYPT then Flatten(pieces[..i]) else out, off, iv[..]);
      var ret;
      ret, off := CryptCfb128(enc, mode, iv0, if mode == AES_DECRYPT then Flatten(pieces[..i]) else out, off, iv, pieces[i], output);
      assert output[..] == output[..|pieces[i]|];
      assert pieces[..i + 1][..i] == pieces[..i];
      out := out + output[..];
    }
    assert pieces[..|pieces|] == pieces;
    EncryptedDecrypted(enc, iv0, out);
  }

  lemma CarriesWithin(enc: Block -> Block, iv0: Block, c: Octets, off: nat, iv: Octets)
    requires Carries(enc, iv0, c, off, iv)
    ensures off <= 15
  {}

  /** However encryption and decryption are cut into calls, the message comes back. */
  method CfbRoundTrip(enc: Block -> Block, iv0: Block, pieces: seq<Octets>, cuts: seq<nat>) returns (back: Octets)
    requires Total(cuts) == |Flatten(pieces)|
    ensures back == Flatten(pieces)
  {
    var cipher := CfbPieces(enc, iv0, AES_ENCRYPT, pieces);
    CutFlattens(cipher, cuts);
    back := CfbPieces(enc, iv0, AES_DECRYPT, Cut(cipher, cuts));
    DecryptedEncrypted(enc, iv0, Flatten(pieces));
  }
}
