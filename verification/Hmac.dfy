/** HMAC, section 2 of RFC 2104, and how md.twl.c computes it with one context that is used again. */
module Hmac {
  import opened Buffers
  import opened Octets

  /** A message digest: its block and output sizes in bytes, and the function it computes. */
  datatype Hash = Hash(blockSize: nat, size: nat, digest: Octets -> Octets) {
    ghost predicate Proper() {
      0 < size <= blockSize && forall m: Octets :: |digest(m)| == size
    }
  }

  /** The key as it is used: hashed if it is longer than a block. */
  function UsedKey(h: Hash, key: Octets): Octets {
    if |key| > h.blockSize then h.digest(key) else key
  }

  /** The key, with zeros appended to a whole block, xored with a pad byte. */
  function KeyPad(h: Hash, key: Octets, pad: bv8): (b: Octets)
    requires |UsedKey(h, key)| <= h.blockSize
    ensures |b| == h.blockSize
  {
    var k := UsedKey(h, key);
    Xor(k + Zeros(h.blockSize - |k|), Repeat(h.blockSize, pad))
  }

  function Mac(h: Hash, key: Octets, m: Octets): Octets
    requires |UsedKey(h, key)| <= h.blockSize
  {
    h.digest(KeyPad(h, key, 0x5C) + h.digest(KeyPad(h, key, 0x36) + m))
  }

  lemma MacProper(h: Hash, key: Octets)
    requires h.Proper()
    ensures |UsedKey(h, key)| <= h.blockSize
    ensures forall m: Octets :: |Mac(h, key, m)| == h.size
  {}

  /** HMAC written out: the inner block is the key, filled up with zeros, with every bit pattern 0x36 xored in, the
      outer one the same with 0x5C; the inner digest is over the inner block and the message, and the outer
      digest is over the outer block and the inner digest. */
  lemma MacIs(h: Hash, key: Octets, m: Octets, inner: Octets, outer: Octets)
    requires h.Proper() && |inner| == |outer| == h.blockSize
    requires var k := if |key| > h.blockSize then h.digest(key) else key;
      forall i | 0 <= i < h.blockSize :: inner[i] == (if i < |k| then k[i] ^ 0x36 else 0x36) && outer[i] == if i < |k| then k[i] ^ 0x5C else 0x5C
    ensures |UsedKey(h, key)| <= h.blockSize && Mac(h, key, m) == h.digest(outer + h.digest(inner + m))
  {
    hide Flip;
    FlipIs();
    var k := UsedKey(h, key);
    XoredKey(k, h.blockSize, 0x36, inner);
    XoredKey(k, h.blockSize, 0x5C, outer);
  }

  lemma FlipIs()
    ensures forall x, m: bv8 :: Flip(x, m) == m ^ x
  {}

  class Context {
    const hash: Hash

    /** hmac_ctx: the two padded keys, one behind the other. */
    const pads: array<bv8>

    /** What the digest context has absorbed since it was started. */
    var absorbed: Octets

    ghost predicate Shape() {
      hash.Proper() && pads.Length == 2 * hash.blockSize
    }

    ghost predicate Keyed(key: Octets)
      reads this, pads
    {
      && Shape() && |UsedKey(hash, key)| <= hash.blockSize
      && pads[..hash.blockSize] == KeyPad(hash, key, 0x36) && pads[hash.blockSize..] == KeyPad(hash, key, 0x5C)
    }

    /** Ready for the rest of a message that starts with m. */
    ghost predicate Ready(key: Octets, m: Octets)
      reads this, pads
    {
      Keyed(key) && absorbed == KeyPad(hash, key, 0x36) + m
    }

    constructor (h: Hash)
      requires h.Proper()
      ensures Shape() && hash == h && fresh(pads)
    {
      hash := h;
      pads := new bv8[2 * h.blockSize];
      absorbed := [];
    }

    /** mbedtls_md_starts, mbedtls_md_update and mbedtls_md_finish, as the digest they dispatch to. */
    method Starts()
      modifies this`absorbed
      ensures absorbed == []
    {
      absorbed := [];
    }

    method Update(input: Octets)
      modifies this`absorbed
      ensures absorbed == old(absorbed) + input
    {
      absorbed := absorbed + input;
    }

    method Finish(output: array<bv8>)
      requires hash.Proper() && hash.size <= output.Length
      modifies output
      ensures output[..hash.size] == hash.digest(absorbed)
      ensures forall k | hash.size <= k < output.Length :: output[k] == old(output[k])
    {
      CopyTo(output, 0, hash.digest(absorbed));
    }

    /** memset of one half of the pads, and the key xored in. */
    method MakePad(at: nat, key: Octets, pad: bv8)
      requires at + hash.blockSize <= pads.Length && |key| <= hash.blockSize
      modifies pads
      ensures pads[at..at + hash.blockSize] == Xor(key + Zeros(hash.blockSize - |key|), Repeat(hash.blockSize, pad))
      ensures forall k | 0 <= k < pads.Length && !(at <= k < at + hash.blockSize) :: pads[k] == old(pads[k])
    {
      hide Flip;
      Fill(pads, at, hash.blockSize, pad);
      XorInto(pads, at, key);
      ghost var x := pads[at..at + hash.blockSize];
      assert forall i | 0 <= i < hash.blockSize :: x[i] == pads[at + i];
      XoredKey(key, hash.blockSize, pad, x);
    }

    /** mbedtls_md_hmac_starts. */
    method HmacStarts(key: Octets)
      requires Shape()
      modifies this`absorbed, pads
      ensures Ready(key, [])
    {
      hide Xor;
      var k := key;
      if |key| > hash.blockSize {
        var sum := new bv8[hash.size];
        Starts();
        Update(key);
        assert [] + key == key;
        Finish(sum);
        k := sum[..hash.size];
      }
      MakePad(0, k, 0x36);
      ghost var ipad := pads[..hash.blockSize];
      MakePad(hash.blockSize, k, 0x5C);
      assert pads[..hash.blockSize] == ipad;
      Starts();
      Update(pads[..hash.blockSize]);
    }

    /** mbedtls_md_hmac_update. */
    method HmacUpdate(ghost key: Octets, ghost m: Octets, input: Octets)
      requires Ready(key, m)
      modifies this`absorbed
      ensures Ready(key, m + input)
    {
      hide KeyPad;
      Update(input);
    }

    /** mbedtls_md_hmac_finish. */
    method HmacFinish(ghost key: Octets, ghost m: Octets, output: array<bv8>)
      requires Ready(key, m) && hash.size <= output.Length && output != pads
      modifies this`absorbed, output
      ensures Keyed(key) && output[..hash.size] == Mac(hash, key, m)
      ensures forall k | hash.size <= k < output.Length :: output[k] == old(output[k])
    {
      hide KeyPad;
      var tmp := new bv8[hash.size];
      Finish(tmp);
      Starts();
      Update(pads[hash.blockSize..]);
      Update(tmp[..hash.size]);
      assert absorbed == KeyPad(hash, key, 0x5C) + hash.digest(KeyPad(hash, key, 0x36) + m);
      Finish(output);
    }

    /** mbedtls_md_hmac_reset: the same key, another message. */
    method HmacReset(ghost key: Octets)
      requires Keyed(key)
      modifies this`absorbed
      ensures Ready(key, [])
    {
      hide KeyPad;
      Starts();
      Update(pads[..hash.blockSize]);
    }
  }

  /** Where the key has ended, the pad byte stays: it is xored with zero. */
  lemma XoredKey(key: Octets, n: nat, pad: bv8, x: Octets)
    requires |key| <= n == |x|
    requires forall i | 0 <= i < n :: x[i] == if i < |key| then Flip(pad, key[i]) else pad
    ensures x == Xor(key + Zeros(n - |key|), Repeat(n, pad))
  {
    hide Flip;
    var y := Xor(key + Zeros(n - |key|), Repeat(n, pad));
    forall i | 0 <= i < n ensures x[i] == y[i] {
      if i < |key| {
        XorSwap(pad, key[i]);
      } else {
        XorZero(pad);
      }
    }
  }

  lemma XorSwap(x: bv8, y: bv8)
    ensures Flip(x, y) == Flip(y, x)
  {}

  lemma XorZero(x: bv8)
    ensures Flip(0, x) == x
  {}
}
