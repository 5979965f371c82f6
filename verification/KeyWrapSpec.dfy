/** Key wrapping as the standards define it, and as steps on indexed semiblocks. */
module KeyWrapSpec {
  import opened Arithmetic
  import opened Octets

  /** Half a block. */
  type Semi = b: Octets | |b| == 8 witness seq(8, _ => 0)

  /** The integrity register and the semiblocks R2 to Rn. */
  datatype Registers = Registers(a: Semi, r: seq<Semi>)

  /** MSB64 and LSB64 of a block. */
  function Msb(b: Block): Semi {
    b[..8]
  }

  function Lsb(b: Block): Semi {
    b[8..]
  }

  function Pair(a: Semi, b: Semi): Block {
    a + b
  }

  /** A xor [t]64. */
  function XorStep(a: Semi, t: nat): Semi {
    Xor(a, BigEndian(t, 8))
  }

  // ----- the shifting registers of section 6.1 of SP 800-38F

  /** Step t of W: R2 enters the cipher with A, the others move up, the new one goes last. */
  function ShiftStep(enc: Block -> Block, s: Registers, t: nat): (s': Registers)
    requires |s.r| > 0
    ensures |s'.r| == |s.r|
  {
    var b := enc(Pair(s.a, s.r[0]));
    Registers(XorStep(Msb(b), t), s.r[1..] + [Lsb(b)])
  }

  function ShiftSteps(enc: Block -> Block, s: Registers, t: nat): (s': Registers)
    requires |s.r| > 0
    ensures |s'.r| == |s.r|
  {
    if t == 0 then s else ShiftStep(enc, ShiftSteps(enc, s, t - 1), t)
  }

  // ----- the indexed form of section 2.2 of RFC 3394

  /** The semiblock that step t uses. */
  function Slot(t: nat, m: nat): (j: nat)
    requires t > 0 && m > 0
    ensures j < m
  {
    (t - 1) % m
  }

  /** Step t of wrapping leaves every semiblock in its place. */
  function Step(enc: Block -> Block, s: Registers, t: nat): (s': Registers)
    requires |s.r| > 0 && t > 0
    ensures |s'.r| == |s.r|
  {
    var j := Slot(t, |s.r|);
    var b := enc(Pair(s.a, s.r[j]));
    Registers(XorStep(Msb(b), t), s.r[j := Lsb(b)])
  }

  function Steps(enc: Block -> Block, s: Registers, t: nat): (s': Registers)
    requires |s.r| > 0
    ensures |s'.r| == |s.r|
  {
    if t == 0 then s else Step(enc, Steps(enc, s, t - 1), t)
  }

  /** Step t of unwrapping. */
  function UnStep(dec: Block -> Block, s: Registers, t: nat): (s': Registers)
    requires |s.r| > 0 && t > 0
    ensures |s'.r| == |s.r|
  {
    var j := Slot(t, |s.r|);
    var b := dec(Pair(XorStep(s.a, t), s.r[j]));
    Registers(Msb(b), s.r[j := Lsb(b)])
  }

  /** Steps t, t - 1, ..., 1 of unwrapping. */
  function UnSteps(dec: Block -> Block, s: Registers, t: nat): (s': Registers)
    requires |s.r| > 0
    ensures |s'.r| == |s.r|
    decreases t
  {
    if t == 0 then s else UnSteps(dec, UnStep(dec, s, t), t - 1)
  }

  // ----- the indexed form is the shifting form

  function Rotate(r: seq<Semi>, k: nat): (r': seq<Semi>)
    requires k < |r|
    ensures |r'| == |r|
  {
    r[k..] + r[..k]
  }

  /** After t steps the shifting registers are the indexed ones, rotated by t. */
  lemma {:induction false} ShiftIsRotation(enc: Block -> Block, s: Registers, t: nat)
    requires |s.r| > 0
    ensures var (x, y) := (ShiftSteps(enc, s, t), Steps(enc, s, t));
            x.a == y.a && x.r == Rotate(y.r, t % |s.r|)
  {
    hide Rotate, ShiftStep, Step;
    if t == 0 {
      NoRotation(s.r);
    } else {
      ShiftIsRotation(enc, s, t - 1);
      StepIsRotation(enc, ShiftSteps(enc, s, t - 1), Steps(enc, s, t - 1), t);
    }
  }

  lemma NoRotation(r: seq<Semi>)
    requires |r| > 0
    ensures 0 % |r| == 0 && Rotate(r, 0) == r
  {}

  lemma StepIsRotation(enc: Block -> Block, x: Registers, y: Registers, t: nat)
    requires |x.r| == |y.r| > 0 && t > 0 && x.a == y.a && x.r == Rotate(y.r, (t - 1) % |y.r|)
    ensures ShiftStep(enc, x, t).a == Step(enc, y, t).a && ShiftStep(enc, x, t).r == Rotate(Step(enc, y, t).r, t % |y.r|)
  {
    hide Rotate, Slot, XorStep;
    RotateStep(y.r, t, Lsb(enc(Pair(y.a, y.r[Slot(t, |y.r|)]))));
  }

  lemma RotateStep(r: seq<Semi>, t: nat, x: Semi)
    requires |r| > 0 && t > 0
    ensures Rotate(r, (t - 1) % |r|)[0] == r[Slot(t, |r|)]
    ensures Rotate(r, (t - 1) % |r|)[1..] + [x] == Rotate(r[Slot(t, |r|) := x], t % |r|)
  {
    var k := (t - 1) % |r|;
    NextMod(t, |r|);
    if k + 1 < |r| {
      assert t % |r| == k + 1;
    } else {
      assert t % |r| == 0;
    }
  }

  lemma NextMod(t: nat, m: nat)
    requires t > 0 && m > 0
    ensures t % m == if (t - 1) % m + 1 == m then 0 else (t - 1) % m + 1
  {
    var q, k := (t - 1) / m, (t - 1) % m;
    if k + 1 < m {
      DivModUnique(t, m, q, k + 1);
    } else {
      assert m * q + m == m * (q + 1);
      DivModUnique(t, m, q + 1, 0);
    }
  }

  /** After the 6 (n - 1) steps of W the two forms agree: the rotation has come full circle. */
  lemma WrapIsW(enc: Block -> Block, s: Registers)
    requires |s.r| > 0
    ensures Steps(enc, s, 6 * |s.r|) == ShiftSteps(enc, s, 6 * |s.r|)
  {
    var m := |s.r|;
    hide Steps, ShiftSteps, Step, ShiftStep, Slot;
    ShiftIsRotation(enc, s, 6 * m);
    DivModUnique(6 * m, m, 6, 0);
    var r := Steps(enc, s, 6 * m).r;
    assert Rotate(r, 0) == r;
  }

  // ----- unwrapping undoes wrapping, and the other way round

  lemma StepUndone(c: Cipher, s: Registers, t: nat)
    requires c.Permutes() && |s.r| > 0 && t > 0
    ensures UnStep(c.dec, Step(c.enc, s, t), t) == s
    ensures Step(c.enc, UnStep(c.dec, s, t), t) == s
  {
    var j := Slot(t, |s.r|);
    var b := c.enc(Pair(s.a, s.r[j]));
    XorSelfInverse(Msb(b), BigEndian(t, 8));
    assert Pair(Msb(b), Lsb(b)) == b;
    assert Msb(Pair(s.a, s.r[j])) == s.a && Lsb(Pair(s.a, s.r[j])) == s.r[j];
    var d := c.dec(Pair(XorStep(s.a, t), s.r[j]));
    assert Pair(Msb(d), Lsb(d)) == d;
    XorSelfInverse(s.a, BigEndian(t, 8));
    assert Msb(Pair(XorStep(s.a, t), s.r[j])) == XorStep(s.a, t) && Lsb(Pair(XorStep(s.a, t), s.r[j])) == s.r[j];
  }

  lemma {:induction false} StepsUndone(c: Cipher, s: Registers, t: nat)
    requires c.Permutes() && |s.r| > 0
    ensures UnSteps(c.dec, Steps(c.enc, s, t), t) == s
  {
    hide Step, UnStep, Slot;
    if t > 0 {
      StepUndone(c, Steps(c.enc, s, t - 1), t);
      StepsUndone(c, s, t - 1);
    }
  }

  lemma {:induction false} UnStepsUndone(c: Cipher, s: Registers, t: nat)
    requires c.Permutes() && |s.r| > 0
    ensures Steps(c.enc, UnSteps(c.dec, s, t), t) == s
    decreases t
  {
    hide Step, UnStep, Slot;
    if t > 0 {
      StepUndone(c, s, t);
      UnStepsUndone(c, UnStep(c.dec, s, t), t - 1);
    }
  }

  // ----- semiblocks of a byte string

  function Split(b: Octets): (r: seq<Semi>)
    requires |b| % 8 == 0
    ensures |r| == |b| / 8
  {
    seq(|b| / 8, j requires 0 <= j < |b| / 8 => b[8 * j..8 * j + 8])
  }

  function Join(r: seq<Semi>): (b: Octets)
    ensures |b| == 8 * |r|
  {
    if r == [] then [] else Join(r[..|r| - 1]) + r[|r| - 1]
  }

  lemma {:induction false} JoinAt(r: seq<Semi>, j: nat)
    requires j < |r|
    ensures Join(r)[8 * j..8 * j + 8] == r[j]
  {
    var n := |r| - 1;
    if j < n {
      JoinAt(r[..n], j);
      assert Join(r)[8 * j..8 * j + 8] == Join(r[..n])[8 * j..8 * j + 8];
    }
  }

  lemma SplitJoin(r: seq<Semi>)
    ensures Split(Join(r)) == r
  {
    forall j | 0 <= j < |r| ensures Split(Join(r))[j] == r[j] {
      JoinAt(r, j);
    }
  }

  lemma {:induction false} JoinSplit(b: Octets)
    requires |b| % 8 == 0
    ensures Join(Split(b)) == b
    decreases |b|
  {
    if |b| > 0 {
      var n := |b| - 8;
      JoinSplit(b[..n]);
      var r, m := Split(b), |b| / 8 - 1;
      assert forall j | 0 <= j < m :: r[j] == b[8 * j..8 * j + 8] == Split(b[..n])[j];
      assert r[..m] == Split(b[..n]);
      assert r[m] == b[n..];
      assert b == b[..n] + b[n..];
    }
  }

  // ----- KW and KWP, sections 6.2 and 6.3 of SP 800-38F

  datatype Mode = KW | KWP

  datatype Outcome = Ok(value: Octets) | BadInput | AuthFailed

  const ICV1: Octets := [0xA6, 0xA6, 0xA6, 0xA6, 0xA6, 0xA6, 0xA6, 0xA6]
  const ICV2: Octets := [0xA6, 0x59, 0x59, 0xA6]

  /** W, and its inverse, on byte strings of at least three semiblocks. */
  function W(enc: Block -> Block, x: Octets): (y: Octets)
    requires |x| >= 24 && |x| % 8 == 0
    ensures |y| == |x|
  {
    var s := Steps(enc, Registers(x[..8], Split(x[8..])), 6 * (|x| / 8 - 1));
    s.a + Join(s.r)
  }

  function InvW(dec: Block -> Block, x: Octets): (y: Octets)
    requires |x| >= 24 && |x| % 8 == 0
    ensures |y| == |x|
  {
    var s := UnSteps(dec, Registers(x[..8], Split(x[8..])), 6 * (|x| / 8 - 1));
    s.a + Join(s.r)
  }

  /** The number of bytes that pad n bytes to whole semiblocks. */
  function PadLength(n: nat): (k: nat)
    ensures k < 8 && (n + k) % 8 == 0
  {
    if n % 8 != 0 then 8 - n % 8 else 0
  }

  lemma Mod8(x: nat)
    ensures x % 8 == 0 <==> (x + 8) % 8 == 0
  {}

  lemma KwpLength(n: nat)
    ensures if n > 8 then 8 + n + PadLength(n) >= 24 else n > 0 ==> 8 + n + PadLength(n) == 16
    ensures 8 + n + PadLength(n) <= 0x1_0000_0000 <==> n <= 0xFFFF_FFF8
  {}

  /** The string that KWP enciphers. */
  function KwpInput(p: Octets): (x: Octets)
    ensures |x| == 8 + |p| + PadLength(|p|) && |x| % 8 == 0
    ensures if |p| > 8 then |x| >= 24 else |p| > 0 ==> |x| == 16
  {
    Mod8(|p| + PadLength(|p|));
    KwpLength(|p|);
    ICV2 + BigEndian(|p|, 4) + p + Zeros(PadLength(|p|))
  }

  /** Wrapping: the lengths of table 1 of SP 800-38F, and nothing else, are accepted. */
  function Wrapped(enc: Block -> Block, mode: Mode, p: Octets): Outcome {
    match mode
    case KW =>
      if |p| < 16 || |p| > 0x1FF_FFFF_FFFF_FFF8 || |p| % 8 != 0 then BadInput
      else Mod8(|p|); Ok(W(enc, ICV1 + p))
    case KWP =>
      if |p| < 1 || |p| > 0xFFFF_FFFF then BadInput
      else if |p| <= 8 then Ok(enc(KwpInput(p)))
      else Ok(W(enc, KwpInput(p)))
  }

  /** What KWP deciphers to is accepted if it is the input of KWP for its own plaintext. */
  function KwpAccept(x: Octets): (r: Outcome)
    requires |x| >= 16
    ensures r.Ok? || r.AuthFailed?
  {
    var n := FromBigEndian(x[4..8]);
    if x[..4] == ICV2 && n <= |x| - 8 <= n + 7 && x[8 + n..] == Zeros(|x| - 8 - n) then Ok(x[8..8 + n]) else AuthFailed
  }

  function Unwrapped(dec: Block -> Block, mode: Mode, c: Octets): Outcome {
    match mode
    case KW =>
      if |c| < 24 || |c| > 0x200_0000_0000_0000 || |c| % 8 != 0 then BadInput
      else var x := InvW(dec, c); if x[..8] == ICV1 then Ok(x[8..]) else AuthFailed
    case KWP =>
      if |c| < 16 || |c| > 0x1_0000_0000 || |c| % 8 != 0 then BadInput
      else if |c| == 16 then KwpAccept(dec(c))
      else KwpAccept(InvW(dec, c))
  }

  lemma WUndone(c: Cipher, x: Octets)
    requires c.Permutes() && |x| >= 24 && |x| % 8 == 0
    ensures InvW(c.dec, W(c.enc, x)) == x
  {
    hide Steps, UnSteps, Split, Join;
    var s, n := Registers(x[..8], Split(x[8..])), 6 * (|x| / 8 - 1);
    var z := Steps(c.enc, s, n);
    StepsUndone(c, s, n);
    SplitJoin(z.r);
    JoinSplit(x[8..]);
    assert (z.a + Join(z.r))[..8] == z.a && (z.a + Join(z.r))[8..] == Join(z.r);
    assert x[..8] + x[8..] == x;
  }

  lemma InvWUndone(c: Cipher, x: Octets)
    requires c.Permutes() && |x| >= 24 && |x| % 8 == 0
    ensures W(c.enc, InvW(c.dec, x)) == x
  {
    hide Steps, UnSteps, Split, Join;
    var s, n := Registers(x[..8], Split(x[8..])), 6 * (|x| / 8 - 1);
    var z := UnSteps(c.dec, s, n);
    UnStepsUndone(c, s, n);
    SplitJoin(z.r);
    JoinSplit(x[8..]);
    assert (z.a + Join(z.r))[..8] == z.a && (z.a + Join(z.r))[8..] == Join(z.r);
    assert x[..8] + x[8..] == x;
  }

  /** KWP's input says where its plaintext ends. */
  lemma KwpAcceptsInput(p: Octets)
    requires 1 <= |p| <= 0xFFFF_FFFF
    ensures |KwpInput(p)| >= 16 && KwpAccept(KwpInput(p)) == Ok(p)
  {
    var x := KwpInput(p);
    assert x[..4] == ICV2 && x[4..8] == BigEndian(|p|, 4);
    BigEndianRoundTrip(|p|, 4) by { Power256Four(); }
    assert x[8..8 + |p|] == p && x[8 + |p|..] == Zeros(PadLength(|p|));
  }

  /** Only the input of KWP for the plaintext that is returned is accepted. */
  lemma KwpAcceptsOnlyInput(x: Octets)
    requires |x| >= 16 && |x| % 8 == 0 && KwpAccept(x).Ok?
    ensures KwpInput(KwpAccept(x).value) == x
  {
    var n := FromBigEndian(x[4..8]);
    hide PadLength, FromBigEndian, BigEndian;
    FromBigEndianRoundTrip(x[4..8]);
    Mod8(|x| - 8);
    PadUnique(n, |x| - 8 - n);
    assert x == x[..4] + x[4..8] + x[8..8 + n] + x[8 + n..];
  }

  lemma PadUnique(n: nat, k: nat)
    requires k < 8 && (n + k) % 8 == 0
    ensures PadLength(n) == k
  {}

  /** Unwrapping returns what was wrapped, for every accepted length except the seven longest of KWP,
      whose ciphertext is longer than what unwrapping accepts. */
  lemma UnwrapAfterWrap(c: Cipher, mode: Mode, p: Octets)
    requires c.Permutes() && Wrapped(c.enc, mode, p).Ok?
    ensures Unwrapped(c.dec, mode, Wrapped(c.enc, mode, p).value) == Ok(p) <==> mode == KW || |p| <= 0xFFFF_FFF8
  {
    hide Wrapped, Unwrapped;
    match mode
    case KW => KwUnwrapAfterWrap(c, p);
    case KWP =>
      KwpLengths(c.enc, p);
      KwpUnwrapAfterWrap(c, p);
  }

  lemma KwpLengths(enc: Block -> Block, p: Octets)
    requires Wrapped(enc, KWP, p).Ok?
    ensures 1 <= |p| <= 0xFFFF_FFFF
  {
    hide KwpInput, W;
  }

  lemma KwUnwrapAfterWrap(c: Cipher, p: Octets)
    requires c.Permutes() && Wrapped(c.enc, KW, p).Ok?
    ensures Unwrapped(c.dec, KW, Wrapped(c.enc, KW, p).value) == Ok(p)
  {
    hide W, InvW;
    Mod8(|p|);
    WUndone(c, ICV1 + p);
    assert (ICV1 + p)[..8] == ICV1 && (ICV1 + p)[8..] == p;
  }

  lemma KwpUnwrapAfterWrap(c: Cipher, p: Octets)
    requires c.Permutes() && 1 <= |p| <= 0xFFFF_FFFF
    ensures Unwrapped(c.dec, KWP, Wrapped(c.enc, KWP, p).value) ==
            if |p| <= 0xFFFF_FFF8 then Ok(p) else BadInput
  {
    hide KwpAccept, KwpInput, W, InvW, PadLength;
    KwpAcceptsInput(p);
    KwpLength(|p|);
    if |p| > 8 {
      WUndone(c, KwpInput(p));
    }
  }

  /** A ciphertext that unwrapping accepts is the wrapping of what it returns. */
  lemma WrapAfterUnwrap(c: Cipher, mode: Mode, x: Octets)
    requires c.Permutes() && Unwrapped(c.dec, mode, x).Ok?
    ensures Wrapped(c.enc, mode, Unwrapped(c.dec, mode, x).value) == Ok(x)
  {
    match mode
    case KW =>
      InvWUndone(c, x);
      assert ICV1 + InvW(c.dec, x)[8..] == InvW(c.dec, x);
    case KWP =>
      if |x| == 16 {
        KwpAcceptsOnlyInput(c.dec(x));
      } else {
        InvWUndone(c, x);
        KwpAcceptsOnlyInput(InvW(c.dec, x));
      }
  }
}
