/** What key wrapping enciphers, and a wrapping that is worked out in full. */
module KeyWrapExamples {
  import opened ByteNumbers
  import opened KeyWrapSpec
  import opened Octets

  /** KW enciphers eight bytes A6 and the plaintext. */
  lemma KwEnciphers(enc: Block -> Block, p: Octets)
    requires Wrapped(enc, KW, p).Ok?
    ensures |p| >= 16 && |p| % 8 == 0
    ensures var x := [0xA6, 0xA6, 0xA6, 0xA6, 0xA6, 0xA6, 0xA6, 0xA6] + p;
      |x| % 8 == 0 && Wrapped(enc, KW, p).value == W(enc, x)
  {
    hide W;
    Mod8(|p|);
  }

  /** KWP enciphers A6 59 59 A6, the length in four bytes, the plaintext, and zeros to whole semiblocks. */
  lemma KwpEnciphers(p: Octets)
    requires 1 <= |p| <= 0xFFFF_FFFF
    ensures var x := KwpInput(p);
      && x[..4] == [0xA6, 0x59, 0x59, 0xA6] && FromBigEndian(x[4..8]) == |p| && x[8..8 + |p|] == p
      && |x| % 8 == 0 && |x| < 8 + |p| + 8 && forall i | 8 + |p| <= i < |x| :: x[i] == 0
  {
    hide BigEndian, FromBigEndian, PadLength;
    var x := KwpInput(p);
    assert x[4..8] == BigEndian(|p|, 4);
    BigEndianRoundTrip(|p|, 4);
    Power256Four();
  }

  /** The lengths of table 1 of SP 800-38F, in bytes: what is wrapped, and what is looked at when unwrapping. */
  lemma AcceptedLengths(enc: Block -> Block, dec: Block -> Block, p: Octets, c: Octets)
    ensures Wrapped(enc, KW, p).Ok? <==> 16 <= |p| <= 0x200_0000_0000_0000 - 8 && |p| % 8 == 0
    ensures Wrapped(enc, KWP, p).Ok? <==> 1 <= |p| <= 0x1_0000_0000 - 1
    ensures Unwrapped(dec, KW, c).BadInput? <==> |c| < 24 || |c| > 0x200_0000_0000_0000 || |c| % 8 != 0
    ensures Unwrapped(dec, KWP, c).BadInput? <==> |c| < 16 || |c| > 0x1_0000_0000 || |c| % 8 != 0
  {
    hide W, InvW, KwpInput, KwpAccept;
  }

  /** The step number goes into the last byte, as long as it fits. */
  lemma StepNumber(a: Semi, t: nat)
    requires t < 256
    ensures XorStep(a, t) == a[..7] + [Flip(a[7], Byte(t))]
  {
    hide Byte, Flip;
    ZeroBytes(7);
    BigEndianStep(t, 8);
    assert BigEndian(t, 8) == Zeros(7) + [Byte(t)];
    forall i | 0 <= i < 7 ensures Flip(a[i], 0) == a[i] { FlipZero(a[i]); }
  }

  lemma FlipZero(x: bv8)
    ensures Flip(x, 0) == x
  {}

  lemma BigEndianStep(v: nat, n: nat)
    requires n > 0
    ensures BigEndian(v, n) == BigEndian(v / 256, n - 1) + [Byte(v % 256)]
  {}

  lemma {:induction false} ZeroBytes(n: nat)
    ensures BigEndian(0, n) == Zeros(n)
  {
    hide Byte;
    ZeroByte();
    if n > 0 {
      ZeroBytes(n - 1);
      assert Zeros(n - 1) + [0] == Zeros(n);
    }
  }

  lemma ZeroByte()
    ensures Byte(0) == 0
  {}

  // ----- two semiblocks under a cipher that swaps the halves of a block

  function Swap(b: Block): Block {
    b[8..] + b[..8]
  }

  /** Three semiblocks after some steps. */
  ghost predicate After(a: Semi, p: Semi, q: Semi, t: nat, a': Semi, p': Semi, q': Semi) {
    Steps(Swap, Registers(a, [p, q]), t) == Registers(a', [p', q'])
  }

  /** An odd step exchanges A and R2, an even one A and R3; what comes into A meets the step number. */
  lemma SwapStep(a: Semi, p: Semi, q: Semi, t: nat, a': Semi, p': Semi, q': Semi)
    requires After(a, p, q, t, a', p', q')
    ensures t % 2 == 0 ==> After(a, p, q, t + 1, XorStep(p', t + 1), a', q')
    ensures t % 2 == 1 ==> After(a, p, q, t + 1, XorStep(q', t + 1), p', a')
  {
    hide XorStep;
    assert Swap(a' + p') == p' + a' && Swap(a' + q') == q' + a';
    assert [p', q'][0 := a'] == [a', q'] && [p', q'][1 := a'] == [p', a'];
  }

  /** Four step numbers, one after the other. */
  function Four(s: Semi, t0: nat, t1: nat, t2: nat, t3: nat): Semi {
    XorStep(XorStep(XorStep(XorStep(s, t0), t1), t2), t3)
  }

  lemma TwelveSteps(a: Semi, p: Semi, q: Semi)
    ensures After(a, p, q, 12, Four(a, 3, 6, 9, 12), Four(p, 1, 4, 7, 10), Four(q, 2, 5, 8, 11))
  {
    hide After, XorStep;
    NoSteps(a, p, q);
    SwapStep(a, p, q, 0, a, p, q);
    var p1 := XorStep(p, 1);
    SwapStep(a, p, q, 1, p1, a, q);
    var q2 := XorStep(q, 2);
    SwapStep(a, p, q, 2, q2, a, p1);
    var a3 := XorStep(a, 3);
    SwapStep(a, p, q, 3, a3, q2, p1);
    var p4 := XorStep(p1, 4);
    SwapStep(a, p, q, 4, p4, q2, a3);
    var q5 := XorStep(q2, 5);
    SwapStep(a, p, q, 5, q5, p4, a3);
    var a6 := XorStep(a3, 6);
    SwapStep(a, p, q, 6, a6, p4, q5);
    var p7 := XorStep(p4, 7);
    SwapStep(a, p, q, 7, p7, a6, q5);
    var q8 := XorStep(q5, 8);
    SwapStep(a, p, q, 8, q8, a6, p7);
    var a9 := XorStep(a6, 9);
    SwapStep(a, p, q, 9, a9, q8, p7);
    var p10 := XorStep(p7, 10);
    SwapStep(a, p, q, 10, p10, q8, a9);
    var q11 := XorStep(q8, 11);
    SwapStep(a, p, q, 11, q11, p10, a9);
  }

  lemma NoSteps(a: Semi, p: Semi, q: Semi)
    ensures After(a, p, q, 0, a, p, q)
  {}

  /** Two semiblocks take twelve steps, whose numbers come out as 0, 8 and 4 in the last bytes. */
  lemma SwapWrapping(a: Semi, p: Semi, q: Semi)
    ensures W(Swap, a + p + q) == a + (p[..7] + [Flip(p[7], 8)]) + (q[..7] + [Flip(q[7], 4)])
  {
    hide Flip, Four, Byte, Swap, XorStep;
    TwelveSteps(a, p, q);
    LastBytes(a, 3, 6, 9, 12);
    LastBytes(p, 1, 4, 7, 10);
    LastBytes(q, 2, 5, 8, 11);
    Numbers(a[7], p[7], q[7]);
    var x := a + p + q;
    assert x[..8] == a && x[8..] == p + q && a == a[..7] + [a[7]];
    TwoSlots(p, q);
    hide Steps;
    var p', q': Semi := p[..7] + [Flip(p[7], 8)], q[..7] + [Flip(q[7], 4)];
    TwoSlots(p', q');
  }

  lemma LastBytes(s: Semi, t0: nat, t1: nat, t2: nat, t3: nat)
    requires t0 < 256 && t1 < 256 && t2 < 256 && t3 < 256
    ensures Four(s, t0, t1, t2, t3) == s[..7] + [Flip(Flip(Flip(Flip(s[7], Byte(t0)), Byte(t1)), Byte(t2)), Byte(t3))]
  {
    hide XorStep, Flip, Byte;
    StepNumber(s, t0);
    var s1 := XorStep(s, t0);
    StepNumber(s1, t1);
    var s2 := XorStep(s1, t1);
    StepNumber(s2, t2);
    StepNumber(XorStep(s2, t2), t3);
  }

  lemma Numbers(x: bv8, y: bv8, z: bv8)
    ensures Flip(Flip(Flip(Flip(x, Byte(3)), Byte(6)), Byte(9)), Byte(12)) == x
    ensures Flip(Flip(Flip(Flip(y, Byte(1)), Byte(4)), Byte(7)), Byte(10)) == Flip(y, 8)
    ensures Flip(Flip(Flip(Flip(z, Byte(2)), Byte(5)), Byte(8)), Byte(11)) == Flip(z, 4)
  {}

  lemma TwoSlots(p: Semi, q: Semi)
    ensures Split(p + q) == [p, q] && Join([p, q]) == p + q
  {
    assert (p + q)[0..8] == p && (p + q)[8..16] == q;
    assert [p, q][..1] == [p] && [p][..0] == [];
    assert Join([p]) == p;
  }
}
