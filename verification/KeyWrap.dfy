/** Key wrapping as nist_kw.twl.c does it, in place in the output buffer. */
module KeyWrap {
  import opened Arithmetic
  import opened Buffers
  import opened ByteNumbers
  import opened ConstantTime
  import opened KeyWrapSpec
  import opened Octets

  const ERR_CIPHER_BAD_INPUT_DATA: int := -0x6100
  const ERR_CIPHER_AUTH_FAILED: int := -0x6300

  /** The buffer holds the registers, A first. */
  ghost predicate Holds(buf: Octets, s: Registers) {
    && 8 + 8 * |s.r| <= |buf| && buf[..8] == s.a
    && forall j | 0 <= j < |s.r| :: buf[8 + 8 * j..16 + 8 * j] == s.r[j]
  }

  lemma {:induction false} BigEndianAt(v: nat, n: nat, i: nat)
    requires i < n
    ensures BigEndian(v, n)[i] == Byte(v / Power256(n - 1 - i) % 256)
  {
    hide Byte;
    if i < n - 1 {
      BigEndianAt(v / 256, n - 1, i);
      var p := Power256(n - 2 - i);
      DivDiv(v, p);
      assert Power256(n - 1 - i) == 256 * p;
    }
  }

  lemma DivDiv(v: nat, p: nat)
    requires p > 0
    ensures v / 256 / p == v / (256 * p)
  {
    var q, k := v / 256 / p, v / 256 % p;
    assert v / 256 == p * q + k;
    assert v == 256 * (p * q + k) + v % 256;
    assert 256 * (p * q) == 256 * p * q;
    DivModUnique(v, 256 * p, q, 256 * k + v % 256);
  }

  /** calc_a_xor_t: byte i of A is xored with byte i of the 64-bit counter. */
  method XorCounter(out: array<bv8>, t: nat)
    requires out.Length >= 8
    modifies out
    ensures out[..8] == XorStep(old(out[..8]), t) && out[8..] == old(out[8..])
  {
    for i := 0 to 8
      invariant forall k | 0 <= k < i :: out[k] == Flip(old(out[k]), BigEndian(t, 8)[k])
      invariant forall k | i <= k < 8 :: out[k] == old(out[k])
      invariant out[8..] == old(out[8..])
    {
      BigEndianAt(t, 8, i);
      out[i] := Flip(out[i], Byte(t / Power256(7 - i) % 256));
    }
  }

  /** The buffer with a new A and a new semiblock at r2. */
  function Put(buf: Octets, a: Semi, r2: nat, x: Semi): Octets
    requires 8 <= r2 && r2 + 8 <= |buf|
  {
    a + buf[8..r2] + x + buf[r2 + 8..]
  }

  /** The buffer after one wrapping step with R2 at r2. */
  function StepBytes(enc: Block -> Block, buf: Octets, r2: nat, t: nat): Octets
    requires 8 <= r2 && r2 + 8 <= |buf|
  {
    var b := enc(buf[..8] + buf[r2..r2 + 8]);
    Put(buf, XorStep(b[..8], t), r2, b[8..])
  }

  method WrapStep(enc: Block -> Block, out: array<bv8>, r2: nat, t: nat)
    requires 8 <= r2 && r2 + 8 <= out.Length
    modifies out
    ensures out[..] == StepBytes(enc, old(out[..]), r2, t)
  {
    hide XorStep;
    var before := out[..];
    var outbuff := enc(out[..8] + out[r2..r2 + 8]);
    CopyTo(out, 0, outbuff[..8]);
    assert out[..8] == outbuff[..8] && out[8..] == before[8..];
    XorCounter(out, t);
    assert out[..r2] == XorStep(outbuff[..8], t) + before[8..r2] && out[r2 + 8..] == before[r2 + 8..];
    CopyTo(out, r2, outbuff[8..]);
  }

  lemma PutHolds(buf: Octets, s: Registers, j: nat, a: Semi, x: Semi)
    requires j < |s.r| && Holds(buf, s)
    ensures |Put(buf, a, 8 + 8 * j, x)| == |buf|
    ensures Holds(Put(buf, a, 8 + 8 * j, x), Registers(a, s.r[j := x]))
    ensures Put(buf, a, 8 + 8 * j, x)[8 + 8 * |s.r|..] == buf[8 + 8 * |s.r|..]
  {
    var r2 := 8 + 8 * j;
    var after := Put(buf, a, r2, x);
    assert after[..8] == a;
    assert forall q | 8 <= q < |buf| && !(r2 <= q < r2 + 8) :: after[q] == buf[q];
    forall k | 0 <= k < |s.r| ensures after[8 + 8 * k..16 + 8 * k] == s.r[j := x][k] {
      if k == j {
        assert after[r2..r2 + 8] == x;
      } else {
        assert after[8 + 8 * k..16 + 8 * k] == buf[8 + 8 * k..16 + 8 * k];
      }
    }
  }

  lemma StepHolds(enc: Block -> Block, buf: Octets, s: Registers, t: nat)
    requires |s.r| > 0 && t > 0 && Holds(buf, s)
    ensures Holds(StepBytes(enc, buf, 8 + 8 * Slot(t, |s.r|), t), Step(enc, s, t))
    ensures |StepBytes(enc, buf, 8 + 8 * Slot(t, |s.r|), t)| == |buf|
    ensures StepBytes(enc, buf, 8 + 8 * Slot(t, |s.r|), t)[8 + 8 * |s.r|..] == buf[8 + 8 * |s.r|..]
  {
    hide XorStep, Slot;
    var j := Slot(t, |s.r|);
    var b := enc(Pair(s.a, s.r[j]));
    assert buf[..8] + buf[8 + 8 * j..16 + 8 * j] == Pair(s.a, s.r[j]);
    PutHolds(buf, s, j, XorStep(Msb(b), t), Lsb(b));
  }

  lemma HoldsSplit(x: Octets, rest: Octets)
    requires |x| >= 8 && |x| % 8 == 0
    ensures |x[8..]| % 8 == 0 && Holds(x + rest, Registers(x[..8], Split(x[8..])))
  {
    Mod8(|x| - 8);
    var r := Split(x[8..]);
    forall j | 0 <= j < |r| ensures (x + rest)[8 + 8 * j..16 + 8 * j] == r[j] {
      assert r[j] == x[8..][8 * j..8 * j + 8];
    }
  }

  lemma HoldsJoin(buf: Octets, s: Registers)
    requires Holds(buf, s)
    ensures buf[..8 + 8 * |s.r|] == s.a + Join(s.r)
  {
    JoinSlices(buf, s.r);
    assert buf[..8] + buf[8..8 + 8 * |s.r|] == buf[..8 + 8 * |s.r|];
  }

  lemma {:induction false} JoinSlices(buf: Octets, r: seq<Semi>)
    requires 8 + 8 * |r| <= |buf| && forall j | 0 <= j < |r| :: buf[8 + 8 * j..16 + 8 * j] == r[j]
    ensures buf[8..8 + 8 * |r|] == Join(r)
  {
    if |r| > 0 {
      var n := |r| - 1;
      JoinSlices(buf, r[..n]);
      assert buf[8 + 8 * n..16 + 8 * n] == r[n];
      assert buf[8..8 + 8 * |r|] == buf[8..8 + 8 * n] + buf[8 + 8 * n..16 + 8 * n];
    }
  }

  /** The counted loop of the wrapping function, with its cyclic pointer R2. */
  method WrapLoop(enc: Block -> Block, out: array<bv8>, n: nat)
    requires 24 <= n <= out.Length && n % 8 == 0
    modifies out
    ensures out[..n] == W(enc, old(out[..n])) && out[n..] == old(out[n..])
  {
    hide Step, Slot, Holds, StepBytes, Split;
    var m := n / 8 - 1;
    ghost var x := out[..n];
    ghost var s := Registers(x[..8], Split(x[8..]));
    assert out[..] == x + out[n..];
    HoldsSplit(x, out[n..]);
    var t := 1;
    var r2 := 8;
    FirstSlot(m);
    while t <= 6 * m
      invariant 1 <= t <= 6 * m + 1 && r2 == 8 + 8 * Slot(t, m)
      invariant Holds(out[..], Steps(enc, s, t - 1)) && out[n..] == old(out[n..])
    {
      StepHolds(enc, out[..], Steps(enc, s, t - 1), t);
      NextSlot(t, m);
      WrapStep(enc, out, r2, t);
      r2 := r2 + 8;
      if r2 >= n {
        r2 := 8;
      }
      t := t + 1;
    }
    HoldsJoin(out[..], Steps(enc, s, 6 * m));
    assert out[..][..n] == out[..n];
  }

  lemma FirstSlot(m: nat)
    requires m > 0
    ensures Slot(1, m) == 0
  {}

  lemma NextSlot(t: nat, m: nat)
    requires t > 0 && m > 0
    ensures Slot(t + 1, m) == if Slot(t, m) + 1 == m then 0 else Slot(t, m) + 1
  {
    NextMod(t, m);
  }

  /** The string that KW enciphers, put together in the output buffer. */
  method FormatKw(input: Octets, out: array<bv8>)
    requires 8 + |input| <= out.Length
    modifies out
    ensures out[..8 + |input|] == ICV1 + input && out[8 + |input|..] == old(out[8 + |input|..])
  {
    Append(out, 0, ICV1);
    Append(out, 8, input);
  }

  /** ICV2 and the length. */
  method KwpHeader(n: nat, out: array<bv8>)
    requires n < 0x1_0000_0000 && 8 <= out.Length
    modifies out
    ensures out[..8] == ICV2 + BigEndian(n, 4)
    ensures forall k | 8 <= k < out.Length :: out[k] == old(out[k])
  {
    hide BigEndian;
    Append(out, 0, ICV2);
    assert out[..4] == ICV2;
    Append(out, 4, BigEndian(n % 0x1_0000_0000, 4));
  }

  /** The string that KWP enciphers. */
  method FormatKwp(input: Octets, padLen: nat, out: array<bv8>)
    requires |input| < 0x1_0000_0000 && padLen == PadLength(|input|) && 8 + |input| + padLen <= out.Length
    modifies out
    ensures out[..8 + |input| + padLen] == KwpInput(input)
    ensures out[8 + |input| + padLen..] == old(out[8 + |input| + padLen..])
  {
    hide BigEndian, PadLength, Zeros;
    KwpHeader(|input|, out);
    Append(out, 8, input);
    Append(out, 8 + |input|, Zeros(padLen));
    assert out[..8 + |input| + padLen] == ICV2 + BigEndian(|input|, 4) + input + Zeros(padLen);
  }

  lemma KwpSemiblocks(n: nat)
    ensures 8 * ((n + PadLength(n)) / 8 + 1) == 8 + n + PadLength(n)
    ensures n % 8 == 0 ==> PadLength(n) == 0
    ensures n > 8 ==> n + PadLength(n) >= 16
    ensures 1 <= n <= 8 ==> n + PadLength(n) == 8
  {}

  /** mbedtls_nist_kw_wrap. w is one more than the largest size_t, 2^32 or 2^64; the limits on the
      length are compiled in only where a size_t can exceed them. */
  method Wrap(enc: Block -> Block, mode: Mode, input: Octets, out: array<bv8>, outSize: nat, w: nat)
    returns (ret: int, outLen: nat)
    requires w == 0x1_0000_0000 || w == 0x1_0000_0000_0000_0000
    requires |input| + 16 <= w && outSize <= out.Length
    modifies out
    ensures ret == 0 <==> Wrapped(enc, mode, input).Ok? && |Wrapped(enc, mode, input).value| <= outSize
    ensures ret == 0 ==> outLen == |Wrapped(enc, mode, input).value| && out[..outLen] == Wrapped(enc, mode, input).value
    ensures ret == 0 ==> out[outLen..] == old(out[outLen..])
    ensures ret != 0 ==> ret == ERR_CIPHER_BAD_INPUT_DATA && outLen == 0 && out[..] == old(out[..])
  {
    hide W, KwpInput;
    ret, outLen := 0, 0;
    var inLen := |input|;
    var padLen := 0;
    Mod8(inLen);
    KwpSemiblocks(inLen);
    if mode == KW {
      if outSize < inLen + 8 {
        return ERR_CIPHER_BAD_INPUT_DATA, 0;
      }
      if inLen < 16 || (w - 1 > 0x1FF_FFFF_FFFF_FFF8 && inLen > 0x1FF_FFFF_FFFF_FFF8) || inLen % 8 != 0 {
        return ERR_CIPHER_BAD_INPUT_DATA, 0;
      }
      FormatKw(input, out);
    } else {
      if inLen % 8 != 0 {
        padLen := 8 - inLen % 8;
      }
      if outSize < inLen + 8 + padLen {
        return ERR_CIPHER_BAD_INPUT_DATA, 0;
      }
      if inLen < 1 || (w - 1 > 0xFFFF_FFFF && inLen > 0xFFFF_FFFF) {
        return ERR_CIPHER_BAD_INPUT_DATA, 0;
      }
      FormatKwp(input, padLen, out);
    }
    var semiblocks := (inLen + padLen) / 8 + 1;
    if mode == KWP && inLen <= 8 {
      var inbuff := out[..16];
      CopyTo(out, 0, enc(inbuff));
    } else {
      WrapLoop(enc, out, 8 * semiblocks);
    }
    outLen := 8 * semiblocks;
  }

  // ----- unwrapping

  /** The buffer after one unwrapping step with R at r. */
  function UnStepBytes(dec: Block -> Block, buf: Octets, r: nat, t: nat): Octets
    requires 8 <= r && r + 8 <= |buf|
  {
    var b := dec(XorStep(buf[..8], t) + buf[r..r + 8]);
    Put(buf, b[..8], r, b[8..])
  }

  /** The registers in two buffers, seen as one. */
  lemma TwoBuffers(a: Octets, y: Octets, r: nat)
    requires |a| == 8 && r + 8 <= |y|
    ensures (a + y)[..8] == a && (a + y)[8..r + 8] == y[..r]
    ensures (a + y)[r + 8..r + 16] == y[r..r + 8] && (a + y)[r + 16..] == y[r + 8..]
  {}

  /** One step: A in its own buffer, R at r in the output. */
  method UnwrapStep(dec: Block -> Block, a: array<bv8>, out: array<bv8>, r: nat, t: nat)
    requires a.Length == 8 && a != out && r + 8 <= out.Length
    modifies a, out
    ensures a[..] + out[..] == UnStepBytes(dec, old(a[..] + out[..]), r + 8, t)
  {
    hide XorStep;
    ghost var x, y := a[..], out[..];
    TwoBuffers(x, y, r);
    assert x == old(a[..8]);
    XorCounter(a, t);
    assert a[..] == a[..8] == XorStep(x, t);
    assert out[r..r + 8] == y[r..r + 8];
    var outbuff := dec(a[..] + out[r..r + 8]);
    CopyTo(a, 0, outbuff[..8]);
    assert a[..] == outbuff[..8];
    CopyTo(out, r, outbuff[8..]);
    assert out[..] == y[..r] + outbuff[8..] + y[r + 8..];
  }

  lemma UnStepHolds(dec: Block -> Block, buf: Octets, s: Registers, t: nat)
    requires |s.r| > 0 && t > 0 && Holds(buf, s)
    ensures Holds(UnStepBytes(dec, buf, 8 + 8 * Slot(t, |s.r|), t), UnStep(dec, s, t))
    ensures |UnStepBytes(dec, buf, 8 + 8 * Slot(t, |s.r|), t)| == |buf|
    ensures UnStepBytes(dec, buf, 8 + 8 * Slot(t, |s.r|), t)[8 + 8 * |s.r|..] == buf[8 + 8 * |s.r|..]
  {
    hide XorStep, Slot;
    var j := Slot(t, |s.r|);
    var b := dec(Pair(XorStep(s.a, t), s.r[j]));
    assert XorStep(buf[..8], t) + buf[8 + 8 * j..16 + 8 * j] == Pair(XorStep(s.a, t), s.r[j]);
    PutHolds(buf, s, j, Msb(b), Lsb(b));
  }

  /** The function unwrap: the counted loop, downwards, with its cyclic pointer R. */
  method UnwrapLoop(dec: Block -> Block, input: Octets, a: array<bv8>, out: array<bv8>)
    requires |input| >= 24 && |input| % 8 == 0 && a.Length == 8 && a != out && |input| - 8 <= out.Length
    modifies a, out
    ensures a[..] + out[..|input| - 8] == InvW(dec, input)
    ensures out[|input| - 8..] == old(out[|input| - 8..])
  {
    hide UnStep, Slot, Holds, UnStepBytes, Split, Step, Put;
    var n := |input|;
    var m := n / 8 - 1;
    CopyTo(a, 0, input[..8]);
    CopyTo(out, 0, input[8..]);
    assert a[..] + out[..] == input + out[n - 8..];
    HoldsSplit(input, out[n - 8..]);
    ghost var s0 := Registers(input[..8], Split(input[8..]));
    ghost var s := s0;
    var r := 8 * (m - 1);
    var t := 6 * m;
    LastSlot(m);
    while t >= 1
      invariant 0 <= t <= 6 * m && |s.r| == m && (t >= 1 ==> r == 8 * Slot(t, m))
      invariant Holds(a[..] + out[..], s) && UnSteps(dec, s, t) == UnSteps(dec, s0, 6 * m)
      invariant out[n - 8..] == old(out[n - 8..])
    {
      UnStepHolds(dec, a[..] + out[..], s, t);
      ghost var before := a[..] + out[..];
      UnwrapStep(dec, a, out, r, t);
      assert (a[..] + out[..])[n..] == out[n - 8..] && before[n..] == old(out[n - 8..]);
      s := UnStep(dec, s, t);
      if t > 1 {
        NextSlot(t - 1, m);
      }
      r := if r == 0 then 8 * (m - 1) else r - 8;
      t := t - 1;
    }
    HoldsJoin(a[..] + out[..], s);
    assert (a[..] + out[..])[..n] == a[..] + out[..n - 8];
  }

  lemma LastSlot(m: nat)
    requires m > 0
    ensures Slot(6 * m, m) == m - 1
  {
    DivModUnique(6 * m - 1, m, 5, m - 1);
  }

  /** The difference of two size_t values. */
  function SizeSub(x: nat, y: nat, w: nat): (d: nat)
    requires w > 0 && y <= x + w
    ensures d < w
  {
    (x + w - y) % w
  }

  /** The three low-order bits. */
  function Low3(x: nat): (r: nat)
    ensures r < 8 && (x < 8 ==> r == x)
  {
    x % 8
  }

  /** The mask for a padding length above 7: the branch-free comparison where a size_t is a word of 32
      bits, and what that comparison means where it is wider. */
  function TooLong(padLen: nat, w: nat): Condition
    requires padLen < w
  {
    if w == 0x1_0000_0000 then CtGt(Size(padLen), Size(7)) else Mask(padLen > 7)
  }

  lemma TooLongExact(padLen: nat, w: nat)
    requires padLen < w
    ensures TooLong(padLen, w) == CT_TRUE <==> padLen > 7
  {
    hide CtGt, Size;
    if w == 0x1_0000_0000 {
      SizeComparisons(padLen, 7);
    }
  }

  /** The wrapped-around difference of two lengths is at most 7 only if the true difference is: a
      plaintext length that is too large never passes for padding. */
  lemma PadLengthModulo(n: nat, plen: nat, w: nat)
    requires 8 <= n < w && plen < 0x1_0000_0000 && w >= 0x1_0000_0000
    ensures SizeSub(n, plen, w) <= 7 <==> plen <= n <= plen + 7
    ensures plen <= n ==> SizeSub(n, plen, w) == n - plen
  {
    if plen <= n {
      DivModUnique(n + w - plen, w, 1, n - plen);
    } else {
      DivModUnique(n + w - plen, w, 0, n + w - plen);
    }
  }

  /** What the checks of KWP come to, for a claimed plaintext length of n. */
  lemma KwpAcceptIs(a: Octets, y: Octets, n: nat)
    requires |a| == 8 && |y| >= 8 && n == FromBigEndian(a[4..8])
    ensures KwpAccept(a + y) ==
      if a[..4] == ICV2 && n <= |y| <= n + 7 && (forall i | 8 - (|y| - n) <= i < 8 :: y[|y| - 8..][i] == Zeros(8)[i])
      then Ok(y[..n]) else AuthFailed
  {
    hide FromBigEndian;
    var x := a + y;
    assert x[..4] == a[..4] && x[4..8] == a[4..8];
    if n <= |y| <= n + 7 {
      LastBytes(y, n);
      assert x[8 + n..] == y[n..] && x[8..8 + n] == y[..n];
    }
  }

  /** The checks of KWP on the deciphered string: A in its buffer, the rest in the output. */
  method CheckKwp(a: array<bv8>, out: array<bv8>, inLen: nat, w: nat) returns (ret: int, outLen: nat)
    requires a.Length == 8 && a != out && 16 <= inLen < w && w >= 0x1_0000_0000 && inLen - 8 <= out.Length
    modifies out
    ensures ret == 0 <==> KwpAccept(a[..] + old(out[..inLen - 8])).Ok?
    ensures ret == 0 ==> outLen <= inLen - 8 && KwpAccept(a[..] + old(out[..inLen - 8])) == Ok(out[..outLen])
    ensures ret != 0 ==> ret == ERR_CIPHER_AUTH_FAILED && outLen == inLen - 8
  {
    hide FromBigEndian, BigEndian, KwpAccept, SizeSub, Low3, TooLong;
    ret, outLen := 0, inLen - 8;
    ghost var y := out[..inLen - 8];
    var diff := CtMemcmp(ICV2, a[..4]);
    if diff != 0 {
      ret := ERR_CIPHER_AUTH_FAILED;
    }
    var plen := FromBigEndian(a[4..8]);
    FromBigEndianRoundTrip(a[4..8]);
    Power256Four();
    var padLen := SizeSub(inLen - 8, plen, w);
    PadLengthModulo(inLen - 8, plen, w);
    TooLongExact(padLen, w);
    if TooLong(padLen, w) == CT_TRUE {
      ret := ERR_CIPHER_AUTH_FAILED;
    }
    padLen := Low3(padLen);
    diff := CtMemcmpPartial(out[outLen - 8..outLen], Zeros(8), 8 - padLen, 0);
    if diff != 0 {
      ret := ERR_CIPHER_AUTH_FAILED;
    }
    assert out[outLen - 8..outLen] == y[|y| - 8..];
    KwpAcceptIs(a[..], y, plen);
    if ret != 0 {
      return;
    }
    CopyTo(out, plen, Zeros(padLen));
    outLen := plen;
    assert out[..plen] == y[..plen];
  }

  lemma LastBytes(y: Octets, n: nat)
    requires n <= |y| <= n + 7 && |y| >= 8
    ensures (forall i | 8 - (|y| - n) <= i < 8 :: y[|y| - 8..][i] == Zeros(8)[i]) <==> y[n..] == Zeros(|y| - n)
  {
    var k, z := |y| - n, y[|y| - 8..];
    assert forall i | 8 - k <= i < 8 :: z[i] == y[n..][i - (8 - k)];
    if forall i | 8 - k <= i < 8 :: z[i] == Zeros(8)[i] {
      forall j | 0 <= j < k ensures y[n..][j] == 0 {
        assert z[8 - k + j] == Zeros(8)[8 - k + j];
      }
    }
  }

  lemma SubEight(n: nat, w: nat)
    requires n < w && w >= 8
    ensures SizeSub(n, 8, w) == if n >= 8 then n - 8 else n + w - 8
  {
    if n >= 8 {
      DivModUnique(n + w - 8, w, 1, n - 8);
    } else {
      DivModUnique(n + w - 8, w, 0, n + w - 8);
    }
  }

  /** The two branches of mbedtls_nist_kw_unwrap, for lengths that have passed the tests. */
  method UnwrapKw(dec: Block -> Block, input: Octets, out: array<bv8>) returns (ret: int, outLen: nat)
    requires |input| >= 24 && |input| % 8 == 0 && |input| - 8 <= out.Length
    modifies out
    ensures outLen == |input| - 8
    ensures InvW(dec, input)[..8] == ICV1 ==> ret == 0 && out[..outLen] == InvW(dec, input)[8..]
    ensures InvW(dec, input)[..8] != ICV1 ==> ret == ERR_CIPHER_AUTH_FAILED
  {
    hide InvW;
    var a := new bv8[8];
    UnwrapLoop(dec, input, a, out);
    ret, outLen := 0, |input| - 8;
    var diff := CtMemcmp(ICV1, a[..]);
    assert InvW(dec, input)[..8] == a[..] && InvW(dec, input)[8..] == out[..|input| - 8];
    if diff != 0 {
      ret := ERR_CIPHER_AUTH_FAILED;
    }
  }

  method UnwrapKwp(dec: Block -> Block, input: Octets, out: array<bv8>, w: nat) returns (ret: int, outLen: nat)
    requires 16 <= |input| < w && |input| % 8 == 0 && |input| - 8 <= out.Length && w >= 0x1_0000_0000
    modifies out
    ensures var r := KwpAccept(if |input| == 16 then dec(input) else InvW(dec, input));
      if r.Ok? then ret == 0 && outLen <= out.Length && r == Ok(out[..outLen]) else ret == ERR_CIPHER_AUTH_FAILED && outLen == |input| - 8
  {
    hide InvW, KwpAccept;
    var a := new bv8[8];
    if |input| == 16 {
      var outbuff := dec(input);
      CopyTo(a, 0, outbuff[..8]);
      CopyTo(out, 0, outbuff[8..]);
      assert a[..] + out[..8] == outbuff;
    } else {
      UnwrapLoop(dec, input, a, out);
    }
    ret, outLen := CheckKwp(a, out, |input|, w);
  }

  /** mbedtls_nist_kw_unwrap. w is one more than the largest size_t; the subtractions of lengths wrap
      around modulo w, as those of a size_t do. */
  method Unwrap(dec: Block -> Block, mode: Mode, input: Octets, out: array<bv8>, outSize: nat, w: nat)
    returns (ret: int, outLen: nat)
    requires w == 0x1_0000_0000 || w == 0x1_0000_0000_0000_0000
    requires |input| < w && outSize < w && outSize <= out.Length
    modifies out
    ensures ret == 0 <==> Unwrapped(dec, mode, input).Ok? && |input| <= outSize + 8
    ensures ret == 0 ==> outLen == |Unwrapped(dec, mode, input).value| && out[..outLen] == Unwrapped(dec, mode, input).value
    ensures ret != 0 ==> outLen == 0 && (ret == ERR_CIPHER_BAD_INPUT_DATA || ret == ERR_CIPHER_AUTH_FAILED)
    ensures ret == ERR_CIPHER_AUTH_FAILED <==> Unwrapped(dec, mode, input).AuthFailed? && |input| <= outSize + 8
    ensures ret == ERR_CIPHER_AUTH_FAILED ==> forall i | 0 <= i < |input| - 8 :: out[i] == 0
  {
    hide InvW, KwpAccept, SizeSub;
    var inLen := |input|;
    SubEight(inLen, w);
    if outSize < SizeSub(inLen, 8, w) {
      return ERR_CIPHER_BAD_INPUT_DATA, 0;
    }
    if mode == KW {
      if inLen < 24 || (w - 1 > 0x200_0000_0000_0000 && inLen > 0x200_0000_0000_0000) || inLen % 8 != 0 {
        return ERR_CIPHER_BAD_INPUT_DATA, 0;
      }
      ret, outLen := UnwrapKw(dec, input, out);
    } else {
      if inLen < 16 || (w - 1 > 0x1_0000_0000 && inLen > 0x1_0000_0000) || inLen % 8 != 0 {
        return ERR_CIPHER_BAD_INPUT_DATA, 0;
      }
      ret, outLen := UnwrapKwp(dec, input, out, w);
    }
    if ret != 0 {
      CopyTo(out, 0, Zeros(outLen));
      assert forall i | 0 <= i < outLen :: out[i] == out[..][i] == 0;
      outLen := 0;
    }
  }
}
