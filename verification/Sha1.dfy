/** SHA-1 as sha1.twl.c computes it: a queue of sixteen words, and registers that change names. */
module Sha1 {
  import opened Arithmetic
  import opened Buffers
  import opened Octets
  import opened Pieces
  import opened Sha1Spec

  // ----- one step

  /** F as the source writes it. */
  function Ch(x: bv32, y: bv32, z: bv32): bv32 { z ^ (x & (y ^ z)) }

  function Maj(x: bv32, y: bv32, z: bv32): bv32 { (x & y) | (z & (x | y)) }

  lemma ChooseBits(x: bv32, y: bv32, z: bv32)
    ensures z ^ (x & (y ^ z)) == (x & y) | ((x ^ 0xFFFF_FFFF) & z)
  {}

  lemma MajorityBits(x: bv32, y: bv32, z: bv32)
    ensures (x & y) | (z & (x | y)) == (x & y) | (x & z) | (y & z)
  {}

  lemma ChIsChoose(x: bv32, y: bv32, z: bv32)
    ensures Ch(x, y, z) == Choose(x, y, z)
  {
    ChooseBits(x, y, z);
  }

  lemma MajIsMajority(x: bv32, y: bv32, z: bv32)
    ensures Maj(x, y, z) == Majority(x, y, z)
  {
    MajorityBits(x, y, z);
  }

  lemma AddIs(x: bv32, y: bv32)
    ensures Add(x, y) == x + y
  {}

  lemma AddShifts(x: bv32, y: bv32, z: bv32)
    ensures Add(x + y, z) == Add(x, y + z)
  {}

  lemma AddAssociative(x: bv32, y: bv32, z: bv32)
    ensures Add(Add(x, y), z) == Add(x, Add(y, z))
  {
    hide *;
    AddIs(x, y);
    AddIs(y, z);
    AddShifts(x, y, z);
  }

  lemma AddCommutative(x: bv32, y: bv32)
    ensures Add(x, y) == Add(y, x)
  {}

  /** The order in which the source adds up is that of the standard. */
  lemma SumOrder(s: bv32, f: bv32, e: bv32, w: bv32, k: bv32)
    ensures Add(e, Add(Add(Add(s, f), k), w)) == Add(Add(Add(Add(s, f), e), w), k)
  {
    hide *;
    var u := Add(s, f);
    AddAssociative(u, k, w);
    AddCommutative(k, w);
    AddAssociative(u, w, k);
    AddAssociative(e, Add(u, w), k);
    AddAssociative(e, u, w);
    AddCommutative(e, u);
  }

  /** The macro P of the twenty steps around t: e and b change. */
  method P(t: nat, a: bv32, b: bv32, c: bv32, d: bv32, e: bv32, x: bv32) returns (e': bv32, b': bv32)
    requires t < 80
    ensures Registers(e', a, b', c, d) == Round(Registers(a, b, c, d, e), t, x)
  {
    hide Ch, Maj, Choose, Majority, Parity, S5, S30, Add;
    var f, k;
    if t < 20 {
      f, k := Ch(b, c, d), 0x5A82_7999;
      ChIsChoose(b, c, d);
    } else if t < 40 {
      f, k := Parity(b, c, d), 0x6ED9_EBA1;
    } else if t < 60 {
      f, k := Maj(b, c, d), 0x8F1B_BCDC;
      MajIsMajority(b, c, d);
    } else {
      f, k := Parity(b, c, d), 0xCA62_C1D6;
    }
    e' := Add(e, Add(Add(Add(S5(a), f), k), x));
    b' := S30(b);
    SumOrder(S5(a), f, e, x, k);
  }

  // ----- the queue of section 8

  /** At step t the queue holds the last sixteen words, each at its index modulo 16. */
  ghost predicate Queue(q: seq<bv32>, m: Words, t: nat) {
    |q| == 16 && forall s | 0 <= s && t - 16 <= s && (s < t || s < 16) :: q[s % 16] == W(m, s)
  }

  /** The word of step t: read, or made by the macro R in place of the word that is sixteen steps old. */
  method NextWord(q: array<bv32>, ghost m: Words, t: nat) returns (x: bv32)
    requires q.Length == 16 && Queue(q[..], m, t)
    modifies q
    ensures Queue(q[..], m, t + 1) && x == W(m, t)
  {
    hide S1, Xor4;
    ghost var before := q[..];
    if t < 16 {
      x := q[t];
      assert x == before[t % 16];
      Read(before, m, t);
    } else {
      Recall(before, m, t);
      var temp := Xor4(q[(t - 3) % 16], q[(t - 8) % 16], q[(t - 14) % 16], q[t % 16]);
      q[t % 16] := S1(temp);
      x := q[t % 16];
      Advance(before, m, t);
    }
  }

  lemma Read(q: seq<bv32>, m: Words, t: nat)
    requires t < 16 && Queue(q, m, t)
    ensures q[t % 16] == W(m, t) && Queue(q, m, t + 1)
  {}

  lemma Recall(q: seq<bv32>, m: Words, t: nat)
    requires t >= 16 && Queue(q, m, t)
    ensures S1(Xor4(q[(t - 3) % 16], q[(t - 8) % 16], q[(t - 14) % 16], q[t % 16])) == W(m, t)
  {
    hide S1, Xor4;
    assert t % 16 == (t - 16) % 16;
  }

  lemma Advance(q: seq<bv32>, m: Words, t: nat)
    requires t >= 16 && Queue(q, m, t)
    ensures Queue(q[t % 16 := W(m, t)], m, t + 1)
  {
    hide W;
    forall s | t + 1 - 16 <= s < t ensures s % 16 != t % 16 {
      Apart(s, t);
    }
  }

  lemma Apart(s: nat, t: nat)
    requires s < t < s + 16
    ensures s % 16 != t % 16
  {}

  // ----- mbedtls_internal_sha1_process

  /** Five steps, after which every register has its own name again. */
  method FiveSteps(q: array<bv32>, ghost m: Words, t: nat, a: bv32, b: bv32, c: bv32, d: bv32, e: bv32, ghost h: Registers)
    returns (a': bv32, b': bv32, c': bv32, d': bv32, e': bv32)
    requires q.Length == 16 && Queue(q[..], m, t) && t + 5 <= 80 && Registers(a, b, c, d, e) == Rounds(h, m, t)
    modifies q
    ensures Queue(q[..], m, t + 5) && Registers(a', b', c', d', e') == Rounds(h, m, t + 5)
  {
    hide Queue, Round, W;
    NextRounds(h, m, t);
    NextRounds(h, m, t + 1);
    NextRounds(h, m, t + 2);
    NextRounds(h, m, t + 3);
    NextRounds(h, m, t + 4);
    a', b', c', d', e' := a, b, c, d, e;
    var x := NextWord(q, m, t);
    e', b' := P(t, a', b', c', d', e', x);
    x := NextWord(q, m, t + 1);
    d', a' := P(t + 1, e', a', b', c', d', x);
    x := NextWord(q, m, t + 2);
    c', e' := P(t + 2, d', e', a', b', c', x);
    x := NextWord(q, m, t + 3);
    b', d' := P(t + 3, c', d', e', a', b', x);
    x := NextWord(q, m, t + 4);
    a', c' := P(t + 4, b', c', d', e', a', x);
  }

  lemma NextRounds(h: Registers, m: Words, t: nat)
    ensures Rounds(h, m, t + 1) == Round(Rounds(h, m, t), t, W(m, t))
  {}

  function Chain(s: seq<bv32>): Registers
    requires |s| == 5
  {
    Registers(s[0], s[1], s[2], s[3], s[4])
  }

  /** mbedtls_internal_sha1_process. */
  method Process(state: array<bv32>, data: Block64)
    requires state.Length == 5
    modifies state
    ensures Chain(state[..]) == Compress(Chain(old(state[..])), BlockWords(data))
  {
    hide Queue, Word, Rounds, Add;
    var m := BlockWords(data);
    NoRounds(Chain(state[..]), m);
    var w := new bv32[16];
    for i := 0 to 16
      invariant w[..i] == m[..i] && state[..] == old(state[..])
    {
      w[i] := Word(data, 4 * i);
    }
    assert w[..] == m;
    FirstQueue(m);
    var a, b, c, d, e := state[0], state[1], state[2], state[3], state[4];
    ghost var h := Chain(state[..]);
    var t := 0;
    while t < 80
      invariant t % 5 == 0 && 0 <= t <= 80 && state[..] == old(state[..])
      invariant Queue(w[..], m, t) && Registers(a, b, c, d, e) == Rounds(h, m, t)
    {
      a, b, c, d, e := FiveSteps(w, m, t, a, b, c, d, e, h);
      t := t + 5;
    }
    state[0], state[1], state[2], state[3], state[4] :=
      Add(state[0], a), Add(state[1], b), Add(state[2], c), Add(state[3], d), Add(state[4], e);
  }

  lemma NoRounds(h: Registers, m: Words)
    ensures Rounds(h, m, 0) == h
  {}

  lemma FirstQueue(m: Words)
    ensures Queue(m, m, 0)
  {}

  // ----- the length of the message in two words

  const WORD: nat := 0x1_0000_0000

  /** total[1] and total[0] as one number. */
  function CountOf(total1: nat, total0: nat): nat {
    WORD * total1 + total0
  }

  /** The carry test finds the overflow of the low word. */
  lemma CountUp(total1: nat, total0: nat, n: nat, counted: nat)
    requires total1 < WORD && total0 < WORD && n < WORD && CountOf(total1, total0) == counted % BITS
    ensures var low := (total0 + n) % WORD; var high := if low < n then (total1 + 1) % WORD else total1;
      CountOf(high, low) == (counted + n) % BITS && low % 64 == (total0 + n) % 64
  {
    var low := (total0 + n) % WORD;
    var high := if low < n then (total1 + 1) % WORD else total1;
    var q := counted / BITS;
    if total0 + n < WORD {
      assert low == total0 + n;
      DivModUnique(counted + n, BITS, q, CountOf(high, low));
    } else {
      assert low == total0 + n - WORD;
      if total1 + 1 < WORD {
        DivModUnique(counted + n, BITS, q, CountOf(high, low));
      } else {
        assert BITS * (q + 1) == BITS * q + BITS;
        DivModUnique(counted + n, BITS, q + 1, CountOf(high, low));
      }
    }
  }

  /** The words that finish stores: the bit length, carried from the low word to the high one. */
  function High(total1: nat, total0: nat): (h: nat)
    requires total1 < WORD && total0 < WORD
    ensures h < WORD
  {
    total0 / 0x2000_0000 + total1 * 8 % WORD
  }

  function Low(total0: nat): (l: nat)
    ensures l < WORD
  {
    total0 * 8 % WORD
  }

  lemma BitLength(total1: nat, total0: nat, counted: nat)
    requires total1 < WORD && total0 < WORD && CountOf(total1, total0) == counted % BITS
    ensures CountOf(High(total1, total0), Low(total0)) == 8 * counted % BITS
  {
    var q, k := counted / BITS, total1 / 0x2000_0000;
    assert total0 * 8 == WORD * (total0 / 0x2000_0000) + Low(total0);
    assert total1 * 8 == WORD * k + total1 * 8 % WORD;
    assert 8 * counted == 8 * (BITS * q) + 8 * CountOf(total1, total0);
    assert 8 * CountOf(total1, total0) == BITS * k + CountOf(High(total1, total0), Low(total0));
    assert BITS * (8 * q + k) == 8 * (BITS * q) + BITS * k;
    DivModUnique(8 * counted, BITS, 8 * q + k, CountOf(High(total1, total0), Low(total0)));
  }

  lemma LengthBytes(h: nat, l: nat)
    requires h < WORD && l < WORD
    ensures BigEndian(h, 4) + BigEndian(l, 4) == BigEndian(CountOf(h, l), 8)
  {
    hide BigEndian, FromBigEndian, Power256;
    var b := BigEndian(h, 4) + BigEndian(l, 4);
    FourBytes(h);
    FourBytes(l);
    Power256Four();
    Concatenated(BigEndian(h, 4), BigEndian(l, 4));
    FromBigEndianRoundTrip(b);
  }

  // ----- streaming

  lemma FoldStep(h: Registers, x: Octets, b: Block64)
    requires |x| % 64 == 0
    ensures |x + b| % 64 == 0 && Fold(h, x + b) == Compress(Fold(h, x), BlockWords(b))
  {
    hide Compress, BlockWords;
    assert (x + b)[..|x|] == x && (x + b)[|x|..] == b;
  }

  class Context {
    var total0: nat
    var total1: nat
    const state: array<bv32>
    const buffer: array<bv8>

    /** The blocks that have been processed, and the number that the two words count modulo 2^64. */
    ghost var done: Octets
    ghost var counted: nat

    ghost predicate Shape() {
      state.Length == 5 && buffer.Length == 64
    }

    /** The chaining value is that of the blocks processed. */
    ghost predicate Folded()
      reads this, state
    {
      Shape() && |done| % 64 == 0 && Chain(state[..]) == Fold(H0, done)
    }

    ghost predicate Valid()
      reads this, state
    {
      Folded() && total0 < WORD && total1 < WORD && CountOf(total1, total0) == counted % BITS
    }

    ghost function Message(): Octets
      reads this, buffer
      requires Shape()
    {
      done + buffer[..total0 % 64]
    }

    /** mbedtls_sha1_init and mbedtls_sha1_starts. */
    constructor ()
      ensures Valid() && fresh(state) && fresh(buffer) && Message() == [] && counted == 0
    {
      total0, total1, done, counted := 0, 0, [], 0;
      state := new bv32[] [0x6745_2301, 0xEFCD_AB89, 0x98BA_DCFE, 0x1032_5476, 0xC3D2_E1F0];
      buffer := new bv8[64];
    }

    /** mbedtls_sha1_starts, on a context that may have been used. */
    method Starts()
      requires Shape()
      modifies this`total0, this`total1, this`done, this`counted, state
      ensures Valid() && Message() == [] && counted == 0
    {
      total0, total1 := 0, 0;
      state[0] := 0x6745_2301;
      state[1] := 0xEFCD_AB89;
      state[2] := 0x98BA_DCFE;
      state[3] := 0x1032_5476;
      state[4] := 0xC3D2_E1F0;
      done, counted := [], 0;
    }

    /** One block of the message. */
    method Absorb(b: Block64)
      requires Folded()
      modifies state, this`done
      ensures Folded() && done == old(done) + b
    {
      hide Fold, Compress, BlockWords;
      FoldStep(H0, done, b);
      Process(state, b);
      done := done + b;
    }

    /** The length is counted, in two words. */
    method Count(n: nat)
      requires total0 < WORD && total1 < WORD && CountOf(total1, total0) == counted % BITS
      modifies this`total0, this`total1, this`counted
      ensures total0 < WORD && total1 < WORD && CountOf(total1, total0) == counted % BITS
      ensures counted == old(counted) + n % WORD && total0 % 64 == (old(total0) + n) % 64
    {
      hide CountOf;
      CountUp(total1, total0, n % WORD, counted);
      Mod64(total0, n);
      total0 := (total0 + n % WORD) % WORD;
      if total0 < n % WORD {
        total1 := (total1 + 1) % WORD;
      }
      counted := counted + n % WORD;
    }

    /** If the buffer holds something and can be filled, it is, and processed. */
    method FillBuffer(left: nat, input: Octets) returns (left': nat, rest: Octets)
      requires Folded() && left < 64
      modifies state, buffer, this`done
      ensures Folded() && left' < 64 && (left' == 0 || left' + |rest| < 64)
      ensures (left' + |rest|) % 64 == (left + |input|) % 64
      ensures done + buffer[..left'] + rest == old(done + buffer[..left]) + input
    {
      hide Fold;
      left', rest := left, input;
      var fill := 64 - left;
      if left > 0 && |rest| >= fill {
        CopyTo(buffer, left, rest[..fill]);
        Absorb(buffer[..]);
        rest := rest[fill..];
        left' := 0;
      }
    }

    /** Whole blocks are processed from where they are. */
    method AbsorbBlocks(input: Octets) returns (rest: Octets)
      requires Folded()
      modifies state, this`done
      ensures Folded() && done + rest == old(done) + input && |rest| == |input| % 64
    {
      hide Fold;
      rest := input;
      while |rest| >= 64
        invariant Folded() && done + rest == old(done) + input && |rest| % 64 == |input| % 64
      {
        ghost var before := done;
        Absorb(rest[..64]);
        assert done + rest[64..] == before + rest;
        rest := rest[64..];
      }
    }

    /** The bytes of one call go through the buffer and the compression function. */
    method Consume(left: nat, input: Octets) returns (left': nat)
      requires Folded() && left < 64
      modifies state, buffer, this`done
      ensures Folded() && left' == (left + |input|) % 64
      ensures done + buffer[..left'] == old(done + buffer[..left]) + input
    {
      hide Fold, Chain;
      var rest;
      left', rest := FillBuffer(left, input);
      if |rest| >= 64 {
        assert buffer[..0] == [] && done + [] == done;
        rest := AbsorbBlocks(rest);
      }
      left' := Keep(left', rest);
    }

    /** What does not fill a block stays in the buffer. */
    method Keep(left: nat, rest: Octets) returns (left': nat)
      requires Folded() && left + |rest| < 64
      modifies buffer
      ensures Folded() && left' == left + |rest| && buffer[..left'] == old(buffer[..left]) + rest
    {
      hide Fold;
      left' := left;
      if |rest| > 0 {
        CopyTo(buffer, left, rest);
        left' := left' + |rest|;
      }
    }

    /** mbedtls_sha1_update. */
    method Update(input: Octets)
      requires Valid()
      modifies state, buffer, this`done, this`total0, this`total1, this`counted
      ensures Valid() && Message() == old(Message()) + input && counted == old(counted) + |input| % WORD
    {
      hide Fold, CountOf;
      if |input| == 0 {
        assert old(Message()) + input == old(Message());
        return;
      }
      var left := total0 % 64;
      Count(|input|);
      ModSum(old(total0), |input|);
      left := Consume(left, input);
    }

    /** 0x80 and zeros, until eight bytes remain for the length: in this block, or in an extra one. */
    method PadBuffer()
      requires Valid()
      modifies state, buffer, this`done
      ensures Folded() && done + buffer[..56] == old(Message()) + [0x80] + Zeros(Filler(|old(Message())|))
    {
      hide Fold, Filler, CountOf, Zeros, Chain;
      var used := total0 % 64;
      FillerOf(|done|, used);
      buffer[used] := 0x80;
      used := used + 1;
      if used <= 56 {
        PadHere(used);
      } else {
        PadTwice(used);
      }
    }

    method PadHere(used: nat)
      requires Folded() && used <= 56
      modifies buffer
      ensures Folded() && buffer[..56] == old(buffer[..used]) + Zeros(56 - used)
    {
      hide Fold, Zeros, Chain;
      CopyTo(buffer, used, Zeros(56 - used));
    }

    method PadTwice(used: nat)
      requires Folded() && 56 < used <= 64
      modifies state, buffer, this`done
      ensures Folded() && done + buffer[..56] == old(done + buffer[..used]) + Zeros(120 - used)
    {
      hide Fold, Zeros, Chain;
      ghost var t := buffer[..used];
      CopyTo(buffer, used, Zeros(64 - used));
      assert buffer[..] == t + Zeros(64 - used);
      Absorb(buffer[..]);
      CopyTo(buffer, 0, Zeros(56));
      assert buffer[..56] == Zeros(56);
      ZerosMeet(64 - used, 56);
    }

    /** mbedtls_sha1_finish. */
    method Finish(output: array<bv8>)
      requires Valid() && output.Length == 20 && output != buffer
      modifies state, buffer, output, this`done
      ensures output[..] == Output(Fold(H0, PaddedAs(old(Message()), old(counted))))
    {
      hide Fold, Filler, CountOf, High, Low, BigEndian, Output, Chain;
      ghost var m := Message();
      var high, low := High(total1, total0), Low(total0);
      BitLength(total1, total0, counted);
      LengthBytes(high, low);
      PadBuffer();
      ghost var padded := done + buffer[..56];
      CopyTo(buffer, 56, BigEndian(high, 4));
      CopyTo(buffer, 60, BigEndian(low, 4));
      assert done + buffer[..] == PaddedAs(m, counted);
      Absorb(buffer[..]);
      StoreState(output);
    }

    /** The chaining value, most significant bytes first. */
    method StoreState(output: array<bv8>)
      requires Shape() && output.Length == 20 && output != buffer
      modifies output
      ensures output[..] == Output(Chain(state[..]))
    {
      hide WordBytes;
      PutWord(output, 0, state[0]);
      PutWord(output, 4, state[1]);
      PutWord(output, 8, state[2]);
      PutWord(output, 12, state[3]);
      PutWord(output, 16, state[4]);
      assert output[..] == output[..20];
    }

    /** MBEDTLS_PUT_UINT32_BE behind what has been stored already. */
    method PutWord(output: array<bv8>, at: nat, w: bv32)
      requires at + 4 <= output.Length
      modifies output
      ensures output[..at + 4] == old(output[..at]) + WordBytes(w)
    {
      hide WordBytes;
      CopyTo(output, at, WordBytes(w));
    }
  }

  lemma ZerosMeet(m: nat, n: nat)
    ensures Zeros(m) + Zeros(n) == Zeros(m + n)
  {}

  lemma FillerOf(n: nat, used: nat)
    requires n % 64 == 0 && used < 64
    ensures Filler(n + used) == if used + 1 <= 56 then 56 - (used + 1) else 120 - (used + 1)
  {}

  lemma Mod64(x: nat, n: nat)
    ensures (x + n % WORD) % 64 == (x + n) % 64
  {}

  lemma ModSum(x: nat, n: nat)
    ensures (x % 64 + n) % 64 == (x + n) % 64
  {}

  // ----- whole messages

  /** What update counts for a message in pieces: each length modulo 2^32. */
  function Counted(pieces: seq<Octets>): nat {
    if |pieces| == 0 then 0 else Counted(pieces[..|pieces| - 1]) + |pieces[|pieces| - 1]| % WORD
  }

  /** One update for each piece, then finish: the digest depends on the message, and on the pieces only
      through the length that was counted. */
  method Hash(pieces: seq<Octets>) returns (digest: Octets)
    ensures digest == Output(Fold(H0, PaddedAs(Flatten(pieces), Counted(pieces))))
    ensures (forall x | x in pieces :: |x| < WORD) ==> digest == Digest(Flatten(pieces))
  {
    hide Fold, PaddedAs, CountOf, Output;
    var ctx := new Context();
    for i := 0 to |pieces|
      invariant ctx.Valid() && fresh(ctx) && fresh(ctx.state) && fresh(ctx.buffer)
      invariant ctx.Message() == Flatten(pieces[..i]) && ctx.counted == Counted(pieces[..i])
    {
      ctx.Update(pieces[i]);
      assert pieces[..i + 1][..i] == pieces[..i];
    }
    assert pieces[..|pieces|] == pieces;
    var output := new bv8[20];
    ctx.Finish(output);
    digest := output[..];
    if forall x | x in pieces :: |x| < WORD {
      CountedAll(pieces);
      DigestIs(Flatten(pieces));
    }
  }

  lemma DigestIs(m: Octets)
    ensures Digest(m) == Output(Fold(H0, PaddedAs(m, |m|)))
  {}

  lemma {:induction false} CountedAll(pieces: seq<Octets>)
    requires forall x | x in pieces :: |x| < WORD
    ensures Counted(pieces) == |Flatten(pieces)|
  {
    if |pieces| > 0 {
      CountedAll(pieces[..|pieces| - 1]);
      assert pieces[|pieces| - 1] in pieces;
    }
  }

  /** The padding is right if and only if the count is right modulo 2^61. */
  lemma PaddedRight(m: Octets, n: nat)
    ensures PaddedAs(m, n) == PaddedAs(m, |m|) <==> n % 0x2000_0000_0000_0000 == |m| % 0x2000_0000_0000_0000
  {
    hide BigEndian, FromBigEndian, Power256;
    EightBytes(8 * n % BITS);
    EightBytes(8 * |m| % BITS);
    BitsOf(n);
    BitsOf(|m|);
    var x, y := PaddedAs(m, n), PaddedAs(m, |m|);
    assert x[|x| - 8..] == BigEndian(8 * n % BITS, 8) && y[|x| - 8..] == BigEndian(8 * |m| % BITS, 8);
  }

  lemma EightBytes(v: nat)
    requires v < BITS
    ensures FromBigEndian(BigEndian(v, 8)) == v
  {
    hide BigEndian, FromBigEndian;
    Power256Four();
    PowerSum(4, 4);
    BigEndianRoundTrip(v, 8);
  }

  lemma BitsOf(n: nat)
    ensures 8 * n % BITS == 8 * (n % 0x2000_0000_0000_0000)
  {
    var q := n / 0x2000_0000_0000_0000;
    DivModUnique(8 * n, BITS, q, 8 * (n % 0x2000_0000_0000_0000));
  }

  /** One call with 2^32 bytes, which only a wider size_t allows, is counted as none: the padding is wrong. */
  lemma LongPieceMiscounted(m: Octets)
    requires |m| == WORD
    ensures PaddedAs(m, Counted([m])) != PaddedAs(m, |m|)
  {
    hide PaddedAs;
    assert [m][..0] == [];
    assert Counted([m]) == 0;
    PaddedRight(m, 0);
  }
}
