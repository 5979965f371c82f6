/** The block cipher that the modes use is AES, and a digest that HMAC uses is SHA-1. */
module Instances {
  import opened Aes
  import opened Octets
  import opened Hmac
  import AesMode
  import CipherLayer
  import KeyWrap
  import KeyWrapSpec
  import Padding
  import Sha1Spec
  import Xts

  /** The values of the directions and of the error codes in the headers of the library. */
  lemma HeaderValues()
    ensures AesMode.AES_ENCRYPT == 1 && AesMode.AES_DECRYPT == 0
    ensures ERR_AES_INVALID_KEY_LENGTH == -0x20 && AesMode.ERR_AES_BAD_INPUT_DATA == -0x21 && AesMode.ERR_AES_INVALID_INPUT_LENGTH == -0x22
    ensures KeyWrap.ERR_CIPHER_BAD_INPUT_DATA == -0x6100 && Padding.ERR_CIPHER_INVALID_PADDING == -0x6200
    ensures CipherLayer.ERR_CIPHER_FULL_BLOCK_EXPECTED == -0x6280 && KeyWrap.ERR_CIPHER_AUTH_FAILED == -0x6300
    ensures CipherLayer.Code(CipherLayer.FullBlockExpected) == -0x6280 && CipherLayer.Code(CipherLayer.InvalidPadding) == -0x6200
  {}

  /** AES under one key, as the two contexts set up from it compute it. */
  ghost function AesCipher(key: Octets, nk: nat): Cipher
    requires IsKey(key, nk)
  {
    Cipher((b: Block) => EncryptBlock(key, nk, b), (b: Block) => DecryptBlock(key, nk, b))
  }

  /** The code's AES is a permutation for every key, as the modes need. */
  lemma AesPermutes(key: Octets, nk: nat)
    requires IsKey(key, nk)
    ensures AesCipher(key, nk).Permutes()
  {
    hide EncryptBlock, DecryptBlock;
    var c := AesCipher(key, nk);
    forall b: Block ensures c.dec(c.enc(b)) == b && c.enc(c.dec(b)) == b {
      BlockBijective(key, nk, b);
    }
  }

  /** SHA-1 as HMAC sees it. */
  const SHA1 := Hash(64, 20, (m: Octets) => Sha1Spec.Digest(m))

  lemma Sha1Proper()
    ensures SHA1.Proper()
  {
    forall m: Octets ensures |SHA1.digest(m)| == SHA1.size {
      assert SHA1.digest(m) == Sha1Spec.Digest(m);
    }
  }

  /** Key wrapping with AES, for every key. */
  lemma AesKeyWrap(key: Octets, nk: nat, mode: KeyWrapSpec.Mode, p: Octets)
    requires IsKey(key, nk) && KeyWrapSpec.Wrapped(AesCipher(key, nk).enc, mode, p).Ok?
    ensures var c := AesCipher(key, nk);
      KeyWrapSpec.Unwrapped(c.dec, mode, KeyWrapSpec.Wrapped(c.enc, mode, p).value) == KeyWrapSpec.Ok(p) <==>
      mode == KeyWrapSpec.KW || |p| <= 0xFFFF_FFF8
  {
    hide *;
    AesPermutes(key, nk);
    KeyWrapSpec.UnwrapAfterWrap(AesCipher(key, nk), mode, p);
  }

  /** A data unit of XTS with AES. */
  lemma AesXts(key: Octets, nk: nat, t0: Block, x: Octets)
    requires IsKey(key, nk) && |x| >= 16
    ensures var c := AesCipher(key, nk); Xts.Unit(c.dec, true, t0, Xts.Unit(c.enc, false, t0, x)) == x
  {
    hide *;
    AesPermutes(key, nk);
    Xts.UnitUndone(AesCipher(key, nk), t0, x);
  }

  /** A message through CBC with AES and padding. */
  lemma AesCbc(key: Octets, nk: nat, p: Padding.Padding, iv: Block, m: Octets)
    requires IsKey(key, nk)
    ensures CipherLayer.ComesBack(AesCipher(key, nk), p, iv, m) <==> CipherLayer.Suits(p, m)
  {
    hide *;
    AesPermutes(key, nk);
    CipherLayer.RoundTrip(AesCipher(key, nk), p, iv, m);
  }
}
