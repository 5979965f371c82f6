/** CTR, OFB and CFB128, sections 6.3 to 6.5 of SP 800-38A, and how aes.twl.c computes them. */
module StreamModes {
  import opened AesMode
  import opened Arithmetic
  import opened Buffers
  import opened Counters
  import opened Octets
  import opened Pieces

  // ----- the counter

  lemma Carry(x: nat, x': nat, p: nat, s: nat, s': nat)
    requires x < 0x1_0000_0000 && x' == (x + 1) % 0x1_0000_0000 && s' + p == s + 1
    ensures x' * p + s' + (if x' == 0 then 0x1_0000_0000 * p else 0) == x * p + s + 1
  {
    assert (x + 1) * p == x * p + p;
    if x + 1 == 0x1_0000_0000 {
      assert x' == 0;
    }
  }

  /** One word of the counter is counted up because everything below it has wrapped to zero. */
  lemma WordCounts(w: Octets, w': Octets, s: Octets, s': Octets)
    requires |w| == |w'| == 4 && |s'| == |s|
    requires FromBigEndian(s') + Power256(|s|) == FromBigEndian(s) + 1
    requires FromBigEndian(w') == (FromBigEndian(w) + 1) % 0x1_0000_0000
    ensures FromBigEndian(w' + s') + (if FromBigEndian(w') == 0 then Power256(4 + |s|) else 0) == FromBigEndian(w + s) + 1
  {
    hide FromBigEndian, BigEndian, Power256;
    Concatenated(w, s);
    Concatenated(w', s');
    FromBigEndianRoundTrip(w);
    Power256Four();
    PowerSum(4, |s|);
    Carry(FromBigEndian(w), FromBigEndian(w'), Power256(|s|), FromBigEndian(s), FromBigEndian(s'));
  }

  /** One word of the counter, with the words below it already wrapped. */
  method CountWord(n: array<bv8>, at: nat, ghost before: Block) returns (x: nat)
    requires n.Length == 16 && at + 4 <= 16 && n[..at + 4] == before[..at + 4]
    requires FromBigEndian(n[at + 4..]) + Power256(12 - at) == FromBigEndian(before[at + 4..]) + 1
    modifies n
    ensures n[..at] == before[..at]
    ensures FromBigEndian(n[at..]) + (if x == 0 then Power256(16 - at) else 0) == FromBigEndian(before[at..]) + 1
  {
    hide FromBigEndian, Power256, BigEndian;
    ghost var s, s' := before[at + 4..], n[at + 4..];
    assert n[at..at + 4] == n[..at + 4][at..] == before[..at + 4][at..] == before[at..at + 4];
    x := FromBigEndian(n[at..at + 4]);
    x := (x + 1) % 0x1_0000_0000;
    FourBytes(x);
    WordCounts(before[at..at + 4], BigEndian(x, 4), s, s');
    CopyTo(n, at, BigEndian(x, 4));
    assert n[at..] == BigEndian(x, 4) + s';
    assert before[at..] == before[at..at + 4] + s;
  }

  /** mbedtls_ctr_increment_counter: the 16 bytes count up by one modulo 2^128. */
  method IncrementCounter(n: array<bv8>)
    requires n.Length == 16
    modifies n
    ensures FromBigEndian(n[..]) == (FromBigEndian(old(n[..])) + 1) % Power256(16)
  {
    hide FromBigEndian, Power256, BigEndian;
    ghost var before := n[..];
    var i := 3;
    var x := 1;
    EmptyNumber();
    assert n[16..] == before[16..] == [];
    while true
      invariant 0 <= i <= 3 && n[..4 * i + 4] == before[..4 * i + 4]
      invariant FromBigEndian(n[4 * i + 4..]) + Power256(12 - 4 * i) == FromBigEndian(before[4 * i + 4..]) + 1
      decreases i
    {
      x := CountWord(n, 4 * i, before);
      if x != 0 || i == 0 {
        break;
      }
      i := i - 1;
    }
    assert n[..] == before[..4 * i] + n[4 * i..];
    assert before == before[..4 * i] + before[4 * i..];
    CounterDone(before[..4 * i], before[4 * i..], n[4 * i..], x, 16);
  }

  // ----- key streams

  function Iterate(enc: Block -> Block, x: Block, k: nat): Block {
    if k == 0 then x else enc(Iterate(enc, x, k - 1))
  }

  /** The counter block that is j behind c, modulo 2^128. */
  function Counter(c: Block, j: nat): Block {
    BigEndian((FromBigEndian(c) + j) % Power256(16), 16)
  }

  /** The key streams of CTR, from the first counter block, and of OFB, from the initialisation vector. */
  datatype KeyStream = Ctr(enc: Block -> Block, start: Block) | Ofb(enc: Block -> Block, start: Block) {
    function BlockAt(j: nat): Block {
      match this
      case Ctr(_, _) => enc(Counter(start, j))
      case Ofb(_, _) => Iterate(enc, start, j + 1)
    }

    function At(p: nat): bv8 {
      BlockAt(p / 16)[p % 16]
    }
  }

  /** x with the key stream from position p on. */
  function Masked(ks: KeyStream, p: nat, x: Octets): (y: Octets)
    ensures |y| == |x|
  {
    seq(|x|, i requires 0 <= i < |x| => Flip(x[i], ks.At(p + i)))
  }

  /** Processing a and then b, where the first call left off, is processing a + b. */
  lemma MaskedConcat(ks: KeyStream, p: nat, a: Octets, b: Octets)
    ensures Masked(ks, p, a + b) == Masked(ks, p, a) + Masked(ks, p + |a|, b)
  {}

  /** Processing twice from the same position restores the input. */
  lemma MaskedTwice(ks: KeyStream, p: nat, x: Octets)
    ensures Masked(ks, p, Masked(ks, p, x)) == x
  {
    forall i | 0 <= i < |x| ensures Masked(ks, p, Masked(ks, p, x))[i] == x[i] {
      FlipTwice(x[i], ks.At(p + i));
    }
  }

  /** What the context carries from call to call, p bytes into the key stream. */
  ghost predicate Resumes(ks: KeyStream, p: nat, off: nat, counter: Octets, stream: Octets) {
    && off == p % 16
    && match ks
       case Ctr(_, _) =>
         && counter == Counter(ks.start, if off == 0 then p / 16 else p / 16 + 1)
         && (off != 0 ==> stream == ks.BlockAt(p / 16))
       case Ofb(_, _) => counter == Iterate(ks.enc, ks.start, if off == 0 then p / 16 else p / 16 + 1)
  }

  lemma Inside(p: nat, i: nat)
    requires p % 16 + i < 16
    ensures (p + i) / 16 == p / 16 && (p + i) % 16 == p % 16 + i
  {}

  lemma Leaving(p: nat, n: nat)
    requires p % 16 + n == 16
    ensures (p + n) / 16 == p / 16 + 1 && (p + n) % 16 == 0
  {}

  /** Bytes within one block of the key stream. */
  lemma WithinBlock(ks: KeyStream, p: nat, x: Octets)
    requires |x| <= 16 - p % 16
    ensures Masked(ks, p, x) == Xor(x, ks.BlockAt(p / 16)[p % 16..p % 16 + |x|])
  {
    hide Counter, Iterate, Flip;
    var b := ks.BlockAt(p / 16);
    forall i | 0 <= i < |x| ensures Masked(ks, p, x)[i] == Xor(x, b[p % 16..p % 16 + |x|])[i] {
      Inside(p, i);
      assert ks.At(p + i) == b[p % 16 + i] == b[p % 16..p % 16 + |x|][i];
    }
  }

  lemma NextCounter(c: Block, j: nat, n: Block)
    requires FromBigEndian(n) == (FromBigEndian(Counter(c, j)) + 1) % Power256(16)
    ensures n == Counter(c, j + 1)
  {
    hide FromBigEndian, BigEndian, Power256;
    var v, m := FromBigEndian(c), Power256(16);
    BigEndianRoundTrip((v + j) % m, 16);
    FromBigEndianRoundTrip(n);
    ModSuccessor(v + j, m);
    assert v + j + 1 == v + (j + 1);
  }

  lemma ModSuccessor(x: nat, m: nat)
    requires m > 0
    ensures (x % m + 1) % m == (x + 1) % m
  {
    var q := x / m;
    if x % m + 1 < m {
      DivModUnique(x + 1, m, q, x % m + 1);
    } else {
      assert m * (q + 1) == m * q + m;
      DivModUnique(x + 1, m, q + 1, 0);
    }
  }

  /** The next block of the key stream, and the counter after it. */
  method NextBlock(ghost ks: KeyStream, ghost p: nat, enc: Block -> Block, counter: array<bv8>, stream: array<bv8>)
    requires counter.Length == stream.Length == 16 && counter != stream
    requires ks.Ctr? && ks.enc == enc && Resumes(ks, p, 0, counter[..], stream[..])
    modifies counter, stream
    ensures counter[..] == Counter(ks.start, p / 16 + 1) && stream[..] == ks.BlockAt(p / 16)
  {
    hide Counter, Iterate;
    CopyTo(stream, 0, enc(counter[..]));
    assert stream[..] == ks.BlockAt(p / 16);
    IncrementCounter(counter);
    NextCounter(ks.start, p / 16, counter[..]);
  }

  lemma ChunkResumes(ks: KeyStream, p: nat, n: nat, counter: Octets, stream: Octets)
    requires ks.Ctr? && 0 < n <= 16 - p % 16
    requires counter == Counter(ks.start, p / 16 + 1) && stream == ks.BlockAt(p / 16)
    ensures Resumes(ks, p + n, (p + n) % 16, counter, stream)
  {
    hide Counter, Iterate;
    if n < 16 - p % 16 {
      Inside(p, n);
    } else {
      Leaving(p, n);
    }
  }

  /** One turn of the loop: at most the rest of one block of the key stream. */
  method CtrChunk(ghost ks: KeyStream, ghost p: nat, enc: Block -> Block, offset: nat, counter: array<bv8>, stream: array<bv8>,
                  x: Octets, output: array<bv8>, at: nat)
    requires counter.Length == stream.Length == 16 && at + |x| <= output.Length
    requires counter != stream && counter != output && stream != output
    requires 0 < |x| <= 16 - offset
    requires ks.Ctr? && ks.enc == enc && Resumes(ks, p, offset, counter[..], stream[..])
    modifies counter, stream, output
    ensures Resumes(ks, p + |x|, (p + |x|) % 16, counter[..], stream[..])
    ensures output[..at + |x|] == old(output[..at]) + Masked(ks, p, x)
    ensures forall k | at + |x| <= k < output.Length :: output[k] == old(output[k])
  {
    hide Counter, Iterate, Masked, Xor;
    if offset == 0 {
      NextBlock(ks, p, enc, counter, stream);
    }
    assert stream[offset..offset + |x|] == stream[..][offset..offset + |x|];
    WithinBlock(ks, p, x);
    ChunkResumes(ks, p, |x|, counter[..], stream[..]);
    Append(output, at, Xor(x, stream[offset..offset + |x|]));
  }

  /** mbedtls_aes_crypt_ctr, on a context that is p bytes into the key stream. */
  method CryptCtr(ghost ks: KeyStream, ghost p: nat, enc: Block -> Block, off: nat, counter: array<bv8>, stream: array<bv8>,
                  input: Octets, output: array<bv8>)
    returns (ret: int, off': nat)
    requires counter.Length == stream.Length == 16 && |input| <= output.Length
    requires counter != stream && counter != output && stream != output
    requires off <= 15 ==> ks.Ctr? && ks.enc == enc && Resumes(ks, p, off, counter[..], stream[..])
    modifies counter, stream, output
    ensures off > 15 ==> ret == ERR_AES_BAD_INPUT_DATA && off' == off
    ensures off > 15 ==> counter[..] == old(counter[..]) && stream[..] == old(stream[..]) && output[..] == old(output[..])
    ensures off <= 15 ==> ret == 0 && Resumes(ks, p + |input|, off', counter[..], stream[..])
    ensures off <= 15 ==> output[..|input|] == Masked(ks, p, input)
    ensures off <= 15 ==> forall k | |input| <= k < output.Length :: output[k] == old(output[k])
  {
    hide Masked, Resumes;
    ret, off' := 0, off;
    if off > 0x0F {
      return ERR_AES_BAD_INPUT_DATA, off;
    }
    var offset := off;
    var i := 0;
    Offset(ks, p, off, counter[..], stream[..]);
    EmptyMask(ks, p);
    assert input[..0] == output[..0] == [];
    while i < |input|
      invariant 0 <= i <= |input|
      invariant Resumes(ks, p + i, (p + i) % 16, counter[..], stream[..])
      invariant i < |input| ==> offset == (p + i) % 16
      invariant output[..i] == Masked(ks, p, input[..i])
      invariant forall k | i <= k < output.Length :: output[k] == old(output[k])
    {
      var n := 16;
      if offset != 0 {
        n := n - offset;
      }
      if n > |input| - i {
        n := |input| - i;
      }
      var x := input[i..i + n];
      CtrChunk(ks, p + i, enc, offset, counter, stream, x, output, i);
      MaskedConcat(ks, p, input[..i], x);
      assert input[..i + n] == input[..i] + x;
      if i + n < |input| {
        Leaving(p + i, n);
      }
      offset := 0;
      i := i + n;
    }
    off' := (off + |input|) % 16;
    OffsetSum(p, |input|);
    assert input[..|input|] == input;
  }

  lemma Offset(ks: KeyStream, p: nat, off: nat, counter: Octets, stream: Octets)
    requires Resumes(ks, p, off, counter, stream)
    ensures off == p % 16
  {}

  lemma OffsetSum(p: nat, n: nat)
    ensures (p % 16 + n) % 16 == (p + n) % 16
  {}

  lemma EmptyMask(ks: KeyStream, p: nat)
    ensures Masked(ks, p, []) == []
  {}

  /** A whole message through one context, one call a piece. */
  method CtrPieces(enc: Block -> Block, nonce: Block, pieces: seq<Octets>) returns (out: Octets)
    ensures out == Masked(Ctr(enc, nonce), 0, Flatten(pieces))
  {
    hide Masked, Resumes;
    var counter, stream := new bv8[16], new bv8[16];
    CopyTo(counter, 0, nonce);
    ghost var ks := Ctr(enc, nonce);
    assert counter[..] == nonce;
    CounterStart(enc, nonce, stream[..]);
    EmptyMask(ks, 0);
    var off := 0;
    out := [];
    for i := 0 to |pieces|
      invariant Resumes(ks, |out|, off, counter[..], stream[..])
      invariant out == Masked(ks, 0, Flatten(pieces[..i]))
    {
      var output := new bv8[|pieces[i]|];
      Offset(ks, |out|, off, counter[..], stream[..]);
      var ret;
      ret, off := CryptCtr(ks, |out|, enc, off, counter, stream, pieces[i], output);
      assert output[..] == output[..|pieces[i]|];
      assert pieces[..i + 1][..i] == pieces[..i];
      MaskedConcat(ks, 0, Flatten(pieces[..i]), pieces[i]);
      out := out + output[..];
    }
    assert pieces[..|pieces|] == pieces;
  }

  lemma CounterStart(enc: Block -> Block, c: Block, stream: Octets)
    ensures Resumes(Ctr(enc, c), 0, 0, c, stream)
  {
    hide FromBigEndian, BigEndian, Power256;
    FromBigEndianRoundTrip(c);
    assert FromBigEndian(c) % Power256(16) == FromBigEndian(c) by {
      DivModUnique(FromBigEndian(c), Power256(16), 0, FromBigEndian(c));
    }
  }

  /** Encryption of a message in pieces and its decryption in other pieces: however the two are cut,
      the message comes back. */
  method CtrRoundTrip(enc: Block -> Block, nonce: Block, pieces: seq<Octets>, cuts: seq<nat>) returns (back: Octets)
    requires Total(cuts) == |Flatten(pieces)|
    ensures back == Flatten(pieces)
  {
    var ks := Ctr(enc, nonce);
    var cipher := CtrPieces(enc, nonce, pieces);
    CutFlattens(cipher, cuts);
    back := CtrPieces(enc, nonce, Cut(cipher, cuts));
    MaskedTwice(ks, 0, Flatten(pieces));
  }

  lemma OfbStep(ks: KeyStream, p: nat, n: nat, iv: Block)
    requires ks.Ofb? && Resumes(ks, p, n, iv, [])
    ensures var iv' := if n == 0 then ks.enc(iv) else iv;
      iv' == ks.BlockAt(p / 16) && iv'[n] == ks.At(p) && Resumes(ks, p + 1, (n + 1) % 16, iv', [])
  {
    if n == 15 {
      Leaving(p, 1);
    } else {
      Inside(p, 1);
    }
  }

  lemma MaskedByte(ks: KeyStream, p: nat, x: Octets, i: nat)
    requires i < |x|
    ensures Masked(ks, p, x[..i + 1]) == Masked(ks, p, x[..i]) + [Flip(x[i], ks.At(p + i))]
  {}

  /** mbedtls_aes_crypt_ofb, on a context that is p bytes into the key stream. */
  method CryptOfb(ghost ks: KeyStream, ghost p: nat, enc: Block -> Block, off: nat, iv: array<bv8>,
                  input: Octets, output: array<bv8>)
    returns (ret: int, off': nat)
    requires iv.Length == 16 && iv != output && |input| <= output.Length
    requires off <= 15 ==> ks.Ofb? && ks.enc == enc && Resumes(ks, p, off, iv[..], [])
    modifies iv, output
    ensures off > 15 ==> ret == ERR_AES_BAD_INPUT_DATA && off' == off && iv[..] == old(iv[..]) && output[..] == old(output[..])
    ensures off <= 15 ==> ret == 0 && Resumes(ks, p + |input|, off', iv[..], [])
    ensures off <= 15 ==> output[..|input|] == Masked(ks, p, input)
    ensures off <= 15 ==> forall k | |input| <= k < output.Length :: output[k] == old(output[k])
  {
    hide Masked, Iterate, Resumes;
    ret, off' := 0, off;
    if off > 15 {
      return ERR_AES_BAD_INPUT_DATA, off;
    }
    var n := off;
    Offset(ks, p, off, iv[..], []);
    EmptyMask(ks, p);
    assert input[..0] == output[..0] == [];
    for i := 0 to |input|
      invariant 0 <= n <= 15 && Resumes(ks, p + i, n, iv[..], [])
      invariant output[..i] == Masked(ks, p, input[..i])
      invariant forall k | i <= k < output.Length :: output[k] == old(output[k])
    {
      Offset(ks, p + i, n, iv[..], []);
      OfbStep(ks, p + i, n, iv[..]);
      ghost var iv' := if n == 0 then enc(iv[..]) else iv[..];
      if n == 0 {
        CopyTo(iv, 0, enc(iv[..]));
      }
      assert iv[..] == iv';
      output[i] := Flip(input[i], iv[n]);
      n := (n + 1) % 16;
      MaskedByte(ks, p, input, i);
    }
    off' := n;
    assert input[..|input|] == input;
  }

  /** A whole message through one context, one call a piece. */
  method OfbPieces(enc: Block -> Block, start: Block, pieces: seq<Octets>) returns (out: Octets)
    ensures out == Masked(Ofb(enc, start), 0, Flatten(pieces))
  {
    hide Masked, Resumes;
    var iv := new bv8[16];
    CopyTo(iv, 0, start);
    ghost var ks := Ofb(enc, start);
    assert iv[..] == start;
    FeedbackStart(enc, start);
    EmptyMask(ks, 0);
    var off := 0;
    out := [];
    for i := 0 to |pieces|
      invariant Resumes(ks, |out|, off, iv[..], [])
      invariant out == Masked(ks, 0, Flatten(pieces[..i]))
    {
      var output := new bv8[|pieces[i]|];
      Offset(ks, |out|, off, iv[..], []);
      var ret;
      ret, off := CryptOfb(ks, |out|, enc, off, iv, pieces[i], output);
      assert output[..] == output[..|pieces[i]|];
      assert pieces[..i + 1][..i] == pieces[..i];
      MaskedConcat(ks, 0, Flatten(pieces[..i]), pieces[i]);
      out := out + output[..];
    }
    assert pieces[..|pieces|] == pieces;
  }

  lemma FeedbackStart(enc: Block -> Block, iv: Block)
    ensures Resumes(Ofb(enc, iv), 0, 0, iv, [])
  {}

  /** Encryption of a message in pieces and its decryption in other pieces: however the two are cut,
      the message comes back. */
  method OfbRoundTrip(enc: Block -> Block, start: Block, pieces: seq<Octets>, cuts: seq<nat>) returns (back: Octets)
    requires Total(cuts) == |Flatten(pieces)|
    ensures back == Flatten(pieces)
  {
    var ks := Ofb(enc, start);
    var cipher := OfbPieces(enc, start, pieces);
    CutFlattens(cipher, cuts);
    back := OfbPieces(enc, start, Cut(cipher, cuts));
    MaskedTwice(ks, 0, Flatten(pieces));
  }
}
