/** The CBC path of the generic cipher layer, cipher.twl.c: update buffers what does not fill a block. */
module CipherLayer {
  import opened AesMode
  import opened Buffers
  import opened Cbc
  import opened Octets
  import opened Padding
  import opened Pieces

  const ERR_CIPHER_FULL_BLOCK_EXPECTED: int := -0x6280

  /** Whether update always holds back a block, which finish may find to be padding. */
  predicate HoldsBack(mode: int, padding: Padding) {
    mode == AES_DECRYPT && padding != NoPadding
  }

  /** How many of n bytes are buffered. */
  function Held(mode: int, padding: Padding, n: nat): (h: nat)
    ensures h <= n && (n - h) % 16 == 0 && h <= 16
    ensures !HoldsBack(mode, padding) ==> h < 16
    ensures HoldsBack(mode, padding) && n > 0 ==> h > 0
  {
    if HoldsBack(mode, padding) && n > 0 then (n - 1) % 16 + 1 else n % 16
  }

  lemma HeldUnique(mode: int, padding: Padding, n: nat, h: nat)
    requires h <= n && (n - h) % 16 == 0
    requires if HoldsBack(mode, padding) then h <= 16 && (n > 0 ==> h > 0) else h < 16
    ensures h == Held(mode, padding, n)
  {}

  // ----- the whole message at once

  datatype Outcome = Done(out: Octets) | FullBlockExpected | InvalidPadding

  /** The error codes of finish. */
  function Code(o: Outcome): int {
    match o
    case Done(_) => 0
    case FullBlockExpected => ERR_CIPHER_FULL_BLOCK_EXPECTED
    case InvalidPadding => ERR_CIPHER_INVALID_PADDING
  }

  function Padded(p: Padding, m: Octets): (x: Octets)
    ensures p != NoPadding || |m| % 16 == 0 ==> |x| % 16 == 0
  {
    var h := |m| - |m| % 16;
    if p == NoPadding then m else m[..h] + Pad(p, m[h..])
  }

  /** CBC of the padded message. */
  function EncryptAll(c: Cipher, p: Padding, iv: Block, m: Octets): Outcome {
    if p == NoPadding && |m| % 16 != 0 then FullBlockExpected
    else Done(Encrypted(c.enc, iv, Padded(p, m)))
  }

  /** Data of whole blocks without the padding of the last one. */
  ghost function Stripped(p: Padding, x: Octets): (o: Outcome)
    requires |x| >= 16
    ensures o.Done? ==> |o.out| >= |x| - 16 && Strips(p, x[|x| - 16..], |o.out| - (|x| - 16))
  {
    var b: Block := x[|x| - 16..];
    if exists n | 0 <= n <= 16 :: Strips(p, b, n)
    then var n :| 0 <= n <= 16 && Strips(p, b, n); Done(x[..|x| - 16 + n])
    else InvalidPadding
  }

  ghost function DecryptAll(c: Cipher, p: Padding, iv: Block, y: Octets): Outcome {
    if |y| % 16 != 0 || (p != NoPadding && y == []) then FullBlockExpected
    else if p == NoPadding then Done(Decrypted(c.dec, iv, y))
    else Stripped(p, Decrypted(c.dec, iv, y))
  }

  ghost function CryptAll(c: Cipher, mode: int, p: Padding, iv: Block, x: Octets): Outcome {
    if mode == AES_DECRYPT then DecryptAll(c, p, iv, x) else EncryptAll(c, p, iv, x)
  }

  lemma StrippedIs(p: Padding, x: Octets, n: nat)
    requires |x| >= 16 && n <= 16 && Strips(p, x[|x| - 16..], n)
    ensures Stripped(p, x) == Done(x[..|x| - 16 + n])
  {
    hide Strips;
    var b: Block := x[|x| - 16..];
    forall m | 0 <= m <= 16 && Strips(p, b, m) ensures m == n {
      StripsUnique(p, b, m, n);
    }
  }

  /** Encryption accepts the message, and decryption returns it. */
  ghost predicate ComesBack(c: Cipher, p: Padding, iv: Block, m: Octets) {
    var o := EncryptAll(c, p, iv, m);
    o.Done? && DecryptAll(c, p, iv, o.out) == Done(m)
  }

  /** What the padding asks of a message: whole blocks if there is none; with zero padding, whole
      blocks or a last byte that is not zero. */
  predicate Suits(p: Padding, m: Octets) {
    match p
    case NoPadding => |m| % 16 == 0
    case ZeroPadding => |m| % 16 == 0 || m[|m| - 1] != 0
    case _ => true
  }

  /** Exactly the messages that suit the padding come back. */
  lemma RoundTrip(c: Cipher, p: Padding, iv: Block, m: Octets)
    requires c.Permutes()
    ensures ComesBack(c, p, iv, m) <==> Suits(p, m)
  {
    hide Encrypted, Decrypted, Stripped;
    if p != NoPadding {
      DecryptedEncrypted(c, iv, Padded(p, m));
      StripPadded(p, m);
    } else if |m| % 16 == 0 {
      DecryptedEncrypted(c, iv, m);
    }
  }

  /** Stripping undoes padding, for the messages that suit it. */
  lemma StripPadded(p: Padding, m: Octets)
    requires p != NoPadding
    ensures |Padded(p, m)| >= 16 && (Stripped(p, Padded(p, m)) == Done(m) <==> Suits(p, m))
  {
    hide Strips, Stripped, Pad;
    var x, h := Padded(p, m), |m| - |m| % 16;
    var d := m[h..];
    assert |x| == h + 16 && x[..h] == m[..h] && x[h..] == Pad(p, d);
    PadStrips(p, d);
    assert x[..h + |d|] == x[..h] + x[h..][..|d|];
    if Strips(p, x[h..], |d|) {
      StrippedIs(p, x, |d|);
    } else {
      NotStripped(p, x, |d|);
    }
  }

  lemma NotStripped(p: Padding, x: Octets, n: nat)
    requires |x| >= 16 && n < 16 && !Strips(p, x[|x| - 16..], n)
    ensures Stripped(p, x) != Done(x[..|x| - 16 + n])
  {
    hide Strips;
  }

  class Context {
    const cipher: Cipher
    const operation: int
    const padding: Padding
    const iv: array<bv8>
    const unprocessed: array<bv8>
    var unprocessedLen: nat

    /** The initialisation vector of the message, and what of the message has been through the cipher. */
    ghost var iv0: Block
    ghost var done: Octets

    ghost predicate Shape() {
      iv.Length == 16 && unprocessed.Length == 16 && iv != unprocessed && KnownMode(operation)
    }

    /** The initialisation vector is the one for the next block. */
    ghost predicate Flowing()
      reads this, iv
    {
      Shape() && |done| % 16 == 0 && unprocessedLen <= 16 && iv[..] == NextIv(cipher, operation, iv0, done)
    }

    ghost predicate Valid()
      reads this, iv
    {
      Flowing() && unprocessedLen == Held(operation, padding, |done| + unprocessedLen)
    }

    /** The message so far. */
    ghost function Message(): Octets
      reads this, iv, unprocessed
      requires Flowing()
    {
      done + unprocessed[..unprocessedLen]
    }

    /** The output so far. */
    ghost function Emitted(): Octets
      reads this, iv
      requires Flowing()
    {
      Crypted(cipher, operation, iv0, done)
    }

    /** Set up for one operation, with the initialisation vector set. */
    constructor (c: Cipher, mode: int, p: Padding, initial: Block)
      requires KnownMode(mode)
      ensures Valid() && fresh(iv) && fresh(unprocessed) && Message() == [] && Emitted() == []
      ensures cipher == c && operation == mode && padding == p && iv0 == initial
    {
      cipher, operation, padding := c, mode, p;
      iv, unprocessed, unprocessedLen := new bv8[16], new bv8[16], 0;
      iv0, done := initial, [];
      new;
      CopyTo(iv, 0, initial);
      NoBlocks(c, mode, initial);
    }

    /** Whole blocks through the cipher. */
    method Feed(x: Octets, output: array<bv8>, at: nat)
      requires Flowing() && |x| % 16 == 0
      requires output != iv && output != unprocessed && at + |x| <= output.Length
      modifies iv, output, this`done
      ensures Flowing() && done == old(done) + x
      ensures Emitted() == old(Emitted()) + output[at..at + |x|]
      ensures output[..at] == old(output[..at])
      ensures forall k | at + |x| <= k < output.Length :: output[k] == old(output[k])
    {
      hide Crypted, NextIv;
      CryptedConcat(cipher, operation, iv0, done, x);
      ghost var before := output[..at];
      var ret := AesCryptCbc(cipher, operation, iv, x, output, at);
      done := done + x;
      assert output[at..at + |x|] == output[..at + |x|][at..];
      assert before == output[..at + |x|][..at];
    }

    /** Process cached data first, if there are any. */
    method FillBlock(input: Octets, output: array<bv8>) returns (olen: nat, rest: Octets)
      requires Flowing() && 16 - unprocessedLen <= |input|
      requires output != iv && output != unprocessed && 16 <= output.Length
      modifies this`unprocessedLen, this`done, iv, unprocessed, output
      ensures Flowing() && unprocessedLen == 0 && done + rest == old(Message()) + input
      ensures olen <= 16 && olen + |rest| <= |input| + 16 && |rest| >= |input| - (16 - old(unprocessedLen))
      ensures Emitted() == old(Emitted()) + output[..olen]
      ensures forall k | olen <= k < output.Length :: output[k] == old(output[k])
    {
      hide Crypted, NextIv;
      olen, rest := 0, input;
      if unprocessedLen != 0 {
        var copyLen := 16 - unprocessedLen;
        CopyTo(unprocessed, unprocessedLen, rest[..copyLen]);
        Feed(unprocessed[..], output, 0);
        olen := 16;
        unprocessedLen := 0;
        rest := rest[copyLen..];
      }
    }

    /** Cache the bytes x behind those that are there. */
    method Cache(x: Octets)
      requires Flowing() && unprocessedLen + |x| <= 16
      modifies this`unprocessedLen, unprocessed
      ensures Flowing() && Message() == old(Message()) + x && unprocessedLen == old(unprocessedLen) + |x|
      ensures Emitted() == old(Emitted())
    {
      hide Crypted, NextIv;
      CopyTo(unprocessed, unprocessedLen, x);
      unprocessedLen := unprocessedLen + |x|;
    }

    /** How much of the rest of the input is not processed at once. */
    function Kept(rest: nat): (copyLen: nat)
      ensures copyLen <= rest && (rest - copyLen) % 16 == 0
      ensures copyLen == Held(operation, padding, rest)
    {
      if rest == 0 then 0
      else if rest % 16 == 0 && operation == AES_DECRYPT && padding != NoPadding then 16
      else rest % 16
    }

    /** Cache the end of the input. */
    method KeepTail(rest: Octets) returns (whole: Octets)
      requires Shape() && unprocessedLen == 0
      modifies this`unprocessedLen, unprocessed
      ensures unprocessedLen == Held(operation, padding, |rest|) && unprocessedLen <= 16
      ensures rest == whole + unprocessed[..unprocessedLen] && |whole| % 16 == 0
    {
      hide Held;
      var copyLen := Kept(|rest|);
      whole := rest[..|rest| - copyLen];
      if |rest| != 0 {
        CopyTo(unprocessed, 0, rest[|rest| - copyLen..]);
        unprocessedLen := unprocessedLen + copyLen;
      }
    }

    /** What follows once nothing is cached: the end of the input is, and the blocks before it go
        through the cipher. */
    method CacheAndProcess(rest: Octets, output: array<bv8>, at: nat) returns (whole: Octets)
      requires Flowing() && unprocessedLen == 0
      requires output != iv && output != unprocessed && at + |rest| <= output.Length
      modifies this`unprocessedLen, this`done, iv, unprocessed, output
      ensures Flowing() && unprocessedLen == Held(operation, padding, |rest|)
      ensures done == old(done) + whole && rest == whole + unprocessed[..unprocessedLen]
      ensures Emitted() == old(Emitted()) + output[at..at + |whole|] && output[..at] == old(output[..at])
      ensures forall k | at + |whole| <= k < output.Length :: output[k] == old(output[k])
    {
      hide Crypted, NextIv, Held;
      whole := KeepTail(rest);
      if |whole| != 0 {
        Feed(whole, output, at);
      }
    }

    /** Enough input to process at least one block: cached data first, then the rest. */
    method Process(input: Octets, output: array<bv8>) returns (olen: nat)
      requires Flowing() && 16 - unprocessedLen <= |input|
      requires HoldsBack(operation, padding) ==> 16 - unprocessedLen < |input|
      requires output != iv && output != unprocessed && |input| + 16 <= output.Length
      modifies this`unprocessedLen, this`done, iv, unprocessed, output
      ensures Valid() && Message() == old(Message()) + input
      ensures olen <= output.Length && Emitted() == old(Emitted()) + output[..olen]
      ensures forall k | olen <= k < output.Length :: output[k] == old(output[k])
    {
      hide Crypted, NextIv, Held;
      var rest, whole;
      olen, rest := FillBlock(input, output);
      whole := CacheAndProcess(rest, output, olen);
      HeldMultiple(operation, padding, |done|, |rest|, unprocessedLen);
      olen := olen + |whole|;
    }

    /** mbedtls_cipher_update: whatever the pieces, the output so far is CBC of the message so far, but
        for the bytes held. */
    method Update(input: Octets, output: array<bv8>) returns (olen: nat)
      requires Valid() && output != iv && output != unprocessed && |input| + 16 <= output.Length
      modifies this`unprocessedLen, this`done, iv, unprocessed, output
      ensures Valid() && Message() == old(Message()) + input
      ensures olen <= output.Length && Emitted() == old(Emitted()) + output[..olen]
      ensures forall k | olen <= k < output.Length :: output[k] == old(output[k])
    {
      hide Crypted, NextIv;
      if (operation == AES_DECRYPT && padding != NoPadding && |input| <= 16 - unprocessedLen)
         || (operation == AES_DECRYPT && padding == NoPadding && |input| < 16 - unprocessedLen)
         || (operation == AES_ENCRYPT && |input| < 16 - unprocessedLen) {
        Cache(input);
        HeldUnique(operation, padding, |done| + unprocessedLen, unprocessedLen);
        olen := 0;
      } else {
        olen := Process(input, output);
      }
    }

    /** The end of encryption: the last block is padded in place and enciphered. */
    method FinishEncrypt(output: array<bv8>) returns (ret: int, olen: nat)
      requires Valid() && operation == AES_ENCRYPT && output != iv && output != unprocessed && 16 <= output.Length
      modifies this`unprocessedLen, this`done, iv, unprocessed, output
      ensures olen <= output.Length
      ensures var o := EncryptAll(cipher, padding, old(iv0), old(Message()));
        ret == Code(o) && (o.Done? ==> o.out == old(Emitted()) + output[..olen])
    {
      hide NextIv, Encrypted, Pad;
      ghost var m, h := Message(), |done|;
      assert m[..h] == done && m[h..] == unprocessed[..unprocessedLen];
      if padding == NoPadding {
        assert unprocessedLen == 0 ==> m == done;
        return if unprocessedLen != 0 then ERR_CIPHER_FULL_BLOCK_EXPECTED else 0, 0;
      }
      AddPadding(padding, unprocessed, unprocessedLen);
      Feed(unprocessed[..], output, 0);
      ret, olen := 0, 16;
    }

    /** The end of decryption: the block held back is deciphered, and its padding found. */
    method FinishDecrypt(output: array<bv8>) returns (ret: int, olen: nat)
      requires Valid() && operation == AES_DECRYPT && output != iv && output != unprocessed && 16 <= output.Length
      modifies this`unprocessedLen, this`done, iv, unprocessed, output
      ensures ret == 0 ==> olen <= output.Length
      ensures var o := DecryptAll(cipher, padding, old(iv0), old(Message()));
        ret == Code(o) && (o.Done? ==> o.out == old(Emitted()) + output[..olen])
    {
      hide NextIv, Decrypted, Strips, Stripped;
      ghost var m := Message();
      if unprocessedLen != 16 {
        if padding == NoPadding && unprocessedLen == 0 {
          assert m == done;
          return 0, 0;
        }
        return ERR_CIPHER_FULL_BLOCK_EXPECTED, 0;
      }
      assert unprocessed[..16] == unprocessed[..];
      Feed(unprocessed[..], output, 0);
      ghost var x := Emitted();
      assert x[|x| - 16..] == output[..16];
      ret, olen := GetPadding(padding, output[..16]);
      if ret == 0 {
        StrippedIs(padding, x, olen);
        assert output[..olen] == output[..16][..olen];
      } else {
        NothingStrips(padding, x);
      }
    }

    /** mbedtls_cipher_finish, for CBC. */
    method Finish(output: array<bv8>) returns (ret: int, olen: nat)
      requires Valid() && output != iv && output != unprocessed && 16 <= output.Length
      modifies this`unprocessedLen, this`done, iv, unprocessed, output
      ensures ret == 0 ==> olen <= output.Length
      ensures var o := CryptAll(cipher, operation, padding, old(iv0), old(Message()));
        ret == Code(o) && (o.Done? ==> o.out == old(Emitted()) + output[..olen])
    {
      if operation == AES_ENCRYPT {
        ret, olen := FinishEncrypt(output);
      } else {
        ret, olen := FinishDecrypt(output);
      }
    }
  }

  lemma NothingStrips(p: Padding, x: Octets)
    requires |x| >= 16 && var b: Block := x[|x| - 16..]; forall n | 0 <= n <= 16 :: !Strips(p, b, n)
    ensures Stripped(p, x) == InvalidPadding
  {
    hide Strips;
  }

  lemma HeldMultiple(mode: int, padding: Padding, n: nat, rest: nat, h: nat)
    requires n % 16 == 0 && h == Held(mode, padding, rest) && (HoldsBack(mode, padding) ==> rest > 0)
    ensures h == Held(mode, padding, n + h)
  {}

  /** One message through one context: one update for each piece, then finish. However it is cut, the
      outcome is that of the whole message. */
  method Crypt(c: Cipher, mode: int, p: Padding, initial: Block, pieces: seq<Octets>) returns (ret: int, out: Octets)
    requires KnownMode(mode)
    ensures var o := CryptAll(c, mode, p, initial, Flatten(pieces));
      ret == Code(o) && (o.Done? ==> out == o.out)
  {
    hide Crypted, NextIv, CryptAll, Held;
    var ctx := new Context(c, mode, p, initial);
    out := [];
    for i := 0 to |pieces|
      invariant ctx.Valid() && fresh(ctx) && fresh(ctx.iv) && fresh(ctx.unprocessed)
      invariant ctx.cipher == c && ctx.operation == mode && ctx.padding == p && ctx.iv0 == initial
      invariant ctx.Message() == Flatten(pieces[..i]) && ctx.Emitted() == out
    {
      var output := new bv8[|pieces[i]| + 16];
      var olen := ctx.Update(pieces[i], output);
      assert pieces[..i + 1][..i] == pieces[..i];
      out := out + output[..olen];
    }
    assert pieces[..|pieces|] == pieces;
    var output := new bv8[16];
    var olen;
    ret, olen := ctx.Finish(output);
    if ret == 0 {
      out := out + output[..olen];
    }
  }
}
