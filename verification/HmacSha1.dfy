/** HMAC as md.twl.c runs it on one SHA-1 context, which is finished and started again. */
module HmacSha1 {
  import opened Buffers
  import opened Hmac
  import opened Instances
  import opened Octets
  import opened Pieces
  import Sha1
  import Sha1Spec

  const WORD: nat := 0x1_0000_0000

  /** The lengths that a size_t of 32 bits can hold. */
  predicate Lengths(pieces: seq<Octets>) {
    forall x | x in pieces :: |x| < WORD
  }

  /** The context has absorbed exactly m, and counted it. */
  ghost predicate Absorbed(ctx: Sha1.Context, m: Octets)
    reads ctx, ctx.state, ctx.buffer
  {
    ctx.Valid() && ctx.Message() == m && ctx.counted == |m|
  }

  /** mbedtls_md_starts and mbedtls_md_update with the first piece. */
  method Restart(ctx: Sha1.Context, first: Octets)
    requires ctx.Shape() && |first| < WORD
    modifies ctx, ctx.state, ctx.buffer
    ensures Absorbed(ctx, first)
  {
    hide Sha1.CountOf, Sha1Spec.Fold, Sha1.Chain;
    ctx.Starts();
    ctx.Update(first);
    assert [] + first == first;
  }

  /** mbedtls_md_update, one call a piece. */
  method AbsorbAll(ctx: Sha1.Context, ghost m: Octets, pieces: seq<Octets>)
    requires Absorbed(ctx, m) && Lengths(pieces)
    modifies ctx, ctx.state, ctx.buffer
    ensures Absorbed(ctx, m + Flatten(pieces))
  {
    hide Absorbed, Flatten;
    NothingYet(m, pieces);
    for i := 0 to |pieces|
      invariant Absorbed(ctx, m + Flatten(pieces[..i]))
    {
      AbsorbOne(ctx, m + Flatten(pieces[..i]), pieces[i]);
      OneMore(m, pieces, i);
    }
    assert pieces[..|pieces|] == pieces;
  }

  method AbsorbOne(ctx: Sha1.Context, ghost m: Octets, piece: Octets)
    requires Absorbed(ctx, m) && |piece| < WORD
    modifies ctx, ctx.state, ctx.buffer
    ensures Absorbed(ctx, m + piece)
  {
    hide Sha1.CountOf, Sha1Spec.Fold, Sha1.Chain;
    ctx.Update(piece);
  }

  lemma NothingYet(m: Octets, pieces: seq<Octets>)
    ensures m + Flatten(pieces[..0]) == m
  {}

  lemma OneMore(m: Octets, pieces: seq<Octets>, i: nat)
    requires i < |pieces|
    ensures m + Flatten(pieces[..i]) + pieces[i] == m + Flatten(pieces[..i + 1])
  {
    assert pieces[..i + 1][..i] == pieces[..i];
  }

  /** mbedtls_md_finish: the context keeps its shape, so that it can be started again. */
  method Complete(ctx: Sha1.Context, ghost m: Octets) returns (sum: Octets)
    requires Absorbed(ctx, m)
    modifies ctx, ctx.state, ctx.buffer
    ensures ctx.Shape() && sum == SHA1.digest(m)
  {
    var output := new bv8[20];
    ctx.Finish(output);
    sum := output[..];
    Sha1.DigestIs(m);
  }

  /** The inner and the outer digest of one message. */
  method Inner(ctx: Sha1.Context, pads: Context, ghost key: Octets, message: seq<Octets>) returns (mac: Octets)
    requires ctx.Shape() && PaddedBy(pads, key) && Lengths(message)
    modifies ctx, ctx.state, ctx.buffer
    ensures ctx.Shape() && mac == Mac(SHA1, key, Flatten(message))
  {
    hide KeyPad;
    Restart(ctx, pads.pads[..64]);
    AbsorbAll(ctx, KeyPad(SHA1, key, 0x36), message);
    var sum := Complete(ctx, KeyPad(SHA1, key, 0x36) + Flatten(message));
    Restart(ctx, pads.pads[64..]);
    AbsorbOne(ctx, KeyPad(SHA1, key, 0x5C), sum);
    mac := Complete(ctx, KeyPad(SHA1, key, 0x5C) + sum);
  }

  /** The two padded keys are in place. */
  ghost predicate PaddedBy(pads: Context, key: Octets)
    reads pads, pads.pads
  {
    pads.hash == SHA1 && pads.Keyed(key)
  }

  /** Two messages under one key, with one context throughout: mbedtls_md_hmac_starts, update and finish,
      then reset, update and finish. */
  method TwoMacs(key: Octets, first: seq<Octets>, second: seq<Octets>) returns (mac1: Octets, mac2: Octets)
    requires |key| < WORD && Lengths(first) && Lengths(second)
    ensures mac1 == Mac(SHA1, key, Flatten(first)) && mac2 == Mac(SHA1, key, Flatten(second))
  {
    hide Xor, KeyPad;
    Sha1Proper();
    var ctx := new Sha1.Context();
    var k := key;
    if |key| > 64 {
      Restart(ctx, key);
      k := Complete(ctx, key);
    }
    var pads := PadKey(k, key);
    mac1 := Inner(ctx, pads, key, first);
    mac2 := Inner(ctx, pads, key, second);
  }

  /** The key in both halves of the pads. */
  method PadKey(k: Octets, ghost key: Octets) returns (pads: Context)
    requires |k| <= 64 && k == UsedKey(SHA1, key)
    ensures fresh(pads) && fresh(pads.pads) && PaddedBy(pads, key)
  {
    hide Xor;
    Sha1Proper();
    pads := new Context(SHA1);
    pads.MakePad(0, k, 0x36);
    ghost var ipad := pads.pads[..64];
    pads.MakePad(64, k, 0x5C);
    assert pads.pads[..64] == ipad;
  }
}
