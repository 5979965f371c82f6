/** CBC, section 6.2 of SP 800-38A, and how aes.twl.c computes it. */
module Cbc {
  import opened AesMode
  import opened Buffers
  import opened Octets

  /** The last block, or the initialisation vector. */
  function Last(iv: Block, x: Octets): Block {
    if |x| < 16 then iv else x[|x| - 16..]
  }

  function Encrypted(enc: Block -> Block, iv: Block, x: Octets): (y: Octets)
    requires |x| % 16 == 0
    ensures |y| == |x|
    decreases |x|
  {
    if |x| == 0 then [] else
      var n := |x| - 16;
      var y := Encrypted(enc, iv, x[..n]);
      y + enc(Xor(x[n..], Last(iv, y)))
  }

  function Decrypted(dec: Block -> Block, iv: Block, y: Octets): (x: Octets)
    requires |y| % 16 == 0
    ensures |x| == |y|
    decreases |y|
  {
    if |y| == 0 then [] else
      var n := |y| - 16;
      Decrypted(dec, iv, y[..n]) + Xor(dec(y[n..]), Last(iv, y[..n]))
  }

  lemma {:induction false} DecryptedEncrypted(c: Cipher, iv: Block, x: Octets)
    requires c.Permutes() && |x| % 16 == 0
    ensures Decrypted(c.dec, iv, Encrypted(c.enc, iv, x)) == x
    decreases |x|
  {
    hide Last, Xor;
    if |x| > 0 {
      var n := |x| - 16;
      var y := Encrypted(c.enc, iv, x);
      DecryptedEncrypted(c, iv, x[..n]);
      XorSelfInverse(x[n..], Last(iv, y[..n]));
      assert y[..n] == Encrypted(c.enc, iv, x[..n]);
      assert y[n..] == c.enc(Xor(x[n..], Last(iv, y[..n])));
      assert x == x[..n] + x[n..];
    }
  }

  lemma EncryptedStep(enc: Block -> Block, iv: Block, x: Octets, b: Block)
    requires |x| % 16 == 0
    ensures |x + b| % 16 == 0
    ensures var y := Encrypted(enc, iv, x);
      Encrypted(enc, iv, x + b) == y + enc(Xor(b, Last(iv, y)))
      && Last(iv, Encrypted(enc, iv, x + b)) == enc(Xor(b, Last(iv, y)))
  {
    hide Xor;
    assert (x + b)[..|x|] == x && (x + b)[|x|..] == b;
  }

  lemma DecryptedStep(dec: Block -> Block, iv: Block, x: Octets, b: Block)
    requires |x| % 16 == 0
    ensures |x + b| % 16 == 0
    ensures Decrypted(dec, iv, x + b) == Decrypted(dec, iv, x) + Xor(dec(b), Last(iv, x)) && Last(iv, x + b) == b
  {
    hide Xor;
    assert (x + b)[..|x|] == x && (x + b)[|x|..] == b;
  }

  /** A message may be encrypted in two parts: the second goes on from the last block of the first. */
  lemma {:induction false} EncryptedConcat(enc: Block -> Block, iv: Block, a: Octets, b: Octets)
    requires |a| % 16 == 0 && |b| % 16 == 0
    ensures |a + b| % 16 == 0
    ensures var y := Encrypted(enc, iv, a);
      Encrypted(enc, iv, a + b) == y + Encrypted(enc, Last(iv, y), b)
      && Last(iv, Encrypted(enc, iv, a + b)) == Last(Last(iv, y), Encrypted(enc, Last(iv, y), b))
    decreases |b|
  {
    hide Xor, Encrypted, Last;
    Multiples(|a|, |b|);
    var y := Encrypted(enc, iv, a);
    if |b| == 0 {
      assert a + b == a && b == [];
      NothingEncrypted(enc, Last(iv, y));
    } else {
      var n := |b| - 16;
      var b', z := b[..n], b[n..];
      EncryptedConcat(enc, iv, a, b');
      EncryptedStep(enc, iv, a + b', z);
      EncryptedStep(enc, Last(iv, y), b', z);
      assert a + b == a + b' + z && b == b' + z;
    }
  }

  lemma NothingEncrypted(enc: Block -> Block, iv: Block)
    ensures Encrypted(enc, iv, []) == [] && Last(iv, []) == iv
  {}

  lemma {:induction false} DecryptedConcat(dec: Block -> Block, iv: Block, a: Octets, b: Octets)
    requires |a| % 16 == 0 && |b| % 16 == 0
    ensures |a + b| % 16 == 0
    ensures Decrypted(dec, iv, a + b) == Decrypted(dec, iv, a) + Decrypted(dec, Last(iv, a), b)
    ensures Last(iv, a + b) == Last(Last(iv, a), b)
    decreases |b|
  {
    hide Xor, Decrypted, Last;
    Multiples(|a|, |b|);
    if |b| == 0 {
      assert a + b == a && b == [];
      NothingDecrypted(dec, Last(iv, a));
    } else {
      var n := |b| - 16;
      var b', z := b[..n], b[n..];
      DecryptedConcat(dec, iv, a, b');
      DecryptedStep(dec, iv, a + b', z);
      DecryptedStep(dec, Last(iv, a), b', z);
      assert a + b == a + b' + z && b == b' + z;
    }
  }

  lemma NothingDecrypted(dec: Block -> Block, iv: Block)
    ensures Decrypted(dec, iv, []) == [] && Last(iv, []) == iv
  {}

  lemma Multiples(m: nat, n: nat)
    requires m % 16 == 0 && n % 16 == 0
    ensures (m + n) % 16 == 0
  {}

  // ----- either direction

  function Crypted(c: Cipher, mode: int, iv: Block, x: Octets): (y: Octets)
    requires |x| % 16 == 0
    ensures |y| == |x|
  {
    if mode == AES_DECRYPT then Decrypted(c.dec, iv, x) else Encrypted(c.enc, iv, x)
  }

  /** The last ciphertext block, which the context keeps as its initialisation vector. */
  function NextIv(c: Cipher, mode: int, iv: Block, x: Octets): Block
    requires |x| % 16 == 0
  {
    Last(iv, if mode == AES_DECRYPT then x else Encrypted(c.enc, iv, x))
  }

  lemma CryptedConcat(c: Cipher, mode: int, iv: Block, a: Octets, b: Octets)
    requires |a| % 16 == 0 && |b| % 16 == 0
    ensures |a + b| % 16 == 0
    ensures Crypted(c, mode, iv, a + b) == Crypted(c, mode, iv, a) + Crypted(c, mode, NextIv(c, mode, iv, a), b)
    ensures NextIv(c, mode, iv, a + b) == NextIv(c, mode, NextIv(c, mode, iv, a), b)
  {
    hide Encrypted, Decrypted, Last;
    EncryptedConcat(c.enc, iv, a, b);
    DecryptedConcat(c.dec, iv, a, b);
  }

  lemma OneBlock(c: Cipher, mode: int, iv: Block, x: Block)
    ensures mode == AES_DECRYPT ==> Crypted(c, mode, iv, x) == Xor(c.dec(x), iv) && NextIv(c, mode, iv, x) == x
    ensures mode != AES_DECRYPT ==> Crypted(c, mode, iv, x) == c.enc(Xor(x, iv)) == NextIv(c, mode, iv, x)
  {
    hide Xor;
    assert x[..0] == [] && x[0..] == x;
  }

  /** One turn of either loop. */
  method CryptBlock(c: Cipher, mode: int, iv: Block, x: Block, output: array<bv8>, at: nat) returns (iv': Block)
    requires KnownMode(mode) && at + 16 <= output.Length
    modifies output
    ensures iv' == NextIv(c, mode, iv, x)
    ensures output[..at + 16] == old(output[..at]) + Crypted(c, mode, iv, x)
    ensures forall k | at + 16 <= k < output.Length :: output[k] == old(output[k])
  {
    hide Crypted, NextIv, Xor;
    OneBlock(c, mode, iv, x);
    if mode == AES_DECRYPT {
      Append(output, at, Xor(c.dec(x), iv));
      iv' := x;
    } else {
      iv' := c.enc(Xor(x, iv));
      Append(output, at, iv');
    }
  }

  /** mbedtls_aes_crypt_cbc. */
  method AesCryptCbc(c: Cipher, mode: int, iv: array<bv8>, input: Octets, output: array<bv8>, at: nat) returns (ret: int)
    requires iv.Length == 16 && iv != output && at + |input| <= output.Length
    modifies iv, output
    ensures ret == if !KnownMode(mode) then ERR_AES_BAD_INPUT_DATA else if |input| % 16 != 0 then ERR_AES_INVALID_INPUT_LENGTH else 0
    ensures ret != 0 ==> iv[..] == old(iv[..]) && output[..] == old(output[..])
    ensures ret == 0 ==> iv[..] == NextIv(c, mode, old(iv[..]), input)
    ensures ret == 0 ==> output[..at + |input|] == old(output[..at]) + Crypted(c, mode, old(iv[..]), input)
    ensures ret == 0 ==> forall k | at + |input| <= k < output.Length :: output[k] == old(output[k])
  {
    hide Crypted, NextIv;
    ret := 0;
    if mode != AES_ENCRYPT && mode != AES_DECRYPT {
      return ERR_AES_BAD_INPUT_DATA;
    }
    NoBlocks(c, mode, iv[..]);
    if |input| == 0 {
      return 0;
    }
    if |input| % 16 != 0 {
      return ERR_AES_INVALID_INPUT_LENGTH;
    }
    ghost var iv0 := iv[..];
    var ivp: Block := iv[..];
    var i := 0;
    assert input[..0] == [];
    while i < |input|
      invariant i % 16 == 0 && i <= |input|
      invariant ivp == NextIv(c, mode, iv0, input[..i]) && iv[..] == iv0
      invariant output[..at + i] == old(output[..at]) + Crypted(c, mode, iv0, input[..i])
      invariant forall k | at + i <= k < output.Length :: output[k] == old(output[k])
    {
      var x := input[i..i + 16];
      CryptedConcat(c, mode, iv0, input[..i], x);
      assert input[..i + 16] == input[..i] + x;
      ivp := CryptBlock(c, mode, ivp, x, output, at + i);
      i := i + 16;
    }
    CopyTo(iv, 0, ivp);
    assert input[..|input|] == input;
    assert iv[..] == ivp;
  }

  lemma NoBlocks(c: Cipher, mode: int, iv: Block)
    ensures Crypted(c, mode, iv, []) == [] && NextIv(c, mode, iv, []) == iv
  {}
}
