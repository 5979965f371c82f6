/** PBKDF2, section 5.2 of RFC 2898, and the loops of pkcs5.twl.c. */
module Pbkdf2 {
  import opened Arithmetic
  import opened Buffers
  import opened ByteNumbers
  import opened Counters
  import opened Hmac
  import opened Octets

  /** What stays the same while a key is derived: the pseudorandom function, the salt and the count. */
  datatype Setting = Setting(hash: Hash, password: Octets, salt: Octets, count: nat) {
    ghost predicate Proper() {
      hash.Proper() && count > 0
    }

    function Prf(m: Octets): Octets
      requires |UsedKey(hash, password)| <= hash.blockSize
    {
      Mac(hash, password, m)
    }
  }

  /** U1 is made from the salt and the block index, Uj from the one before. */
  ghost function U(s: Setting, i: nat, j: nat): (u: Octets)
    requires s.Proper() && j > 0
    ensures |u| == s.hash.size
  {
    MacProper(s.hash, s.password);
    if j == 1 then s.Prf(s.salt + BigEndian(i, 4)) else s.Prf(U(s, i, j - 1))
  }

  /** F: the first j of them, xored. */
  ghost function XoredU(s: Setting, i: nat, j: nat): (t: Octets)
    requires s.Proper() && j > 0
    ensures |t| == s.hash.size
  {
    if j == 1 then U(s, i, 1) else Xor(XoredU(s, i, j - 1), U(s, i, j))
  }

  /** T1 to Tk, one behind the other. */
  ghost function Blocks(s: Setting, k: nat): (b: Octets)
    requires s.Proper()
    ensures |b| >= k
  {
    if k == 0 then [] else Blocks(s, k - 1) + XoredU(s, k, s.count)
  }

  /** The derived key of n bytes: n blocks are always enough. */
  ghost function Derived(s: Setting, n: nat): (key: Octets)
    requires s.Proper()
    ensures |key| == n
  {
    Blocks(s, n)[..n]
  }

  lemma {:induction false} BlocksPrefix(s: Setting, j: nat, k: nat)
    requires s.Proper() && j <= k
    ensures |Blocks(s, j)| <= |Blocks(s, k)| && Blocks(s, k)[..|Blocks(s, j)|] == Blocks(s, j)
  {
    hide XoredU;
    if j < k {
      BlocksPrefix(s, j, k - 1);
      var (x, y) := (Blocks(s, k - 1), Blocks(s, k));
      assert y[..|x|] == x;
      assert y[..|Blocks(s, j)|] == x[..|Blocks(s, j)|];
    }
  }

  /** As many blocks as it takes: the derived key is the start of T1 to Tk. */
  lemma DerivedPrefix(s: Setting, n: nat, k: nat)
    requires s.Proper() && n <= |Blocks(s, k)|
    ensures Derived(s, n) == Blocks(s, k)[..n]
  {
    hide Blocks;
    if k <= n {
      BlocksPrefix(s, k, n);
      assert Blocks(s, n)[..n] == Blocks(s, n)[..|Blocks(s, k)|][..n];
    } else {
      BlocksPrefix(s, n, k);
      assert Blocks(s, k)[..n] == Blocks(s, k)[..|Blocks(s, n)|][..n];
    }
  }

  // ----- the derived key written out

  /** The index i as four bytes, most significant first. */
  function IndexBytes(i: nat): Octets
    requires i < 0x1_0000_0000
  {
    [Byte(i / 0x100_0000), Byte(i / 0x1_0000 % 0x100), Byte(i / 0x100 % 0x100), Byte(i % 0x100)]
  }

  /** The count messages of block i: the first is the Mac of the salt and the index, in this order, and each of the
      others the Mac of the one before. */
  ghost predicate Iterates(s: Setting, i: nat, u: seq<Octets>)
    requires i < 0x1_0000_0000
  {
    && s.Proper() && |UsedKey(s.hash, s.password)| <= s.hash.blockSize && |u| == s.count
    && u[0] == Mac(s.hash, s.password, s.salt + IndexBytes(i))
    && forall j | 0 < j < |u| :: u[j] == Mac(s.hash, s.password, u[j - 1])
  }

  /** The bytes at place p of all the messages, xored. */
  function Column(u: seq<Octets>, p: nat): bv8
    requires forall x | x in u :: p < |x|
  {
    if u == [] then 0 else Column(u[..|u| - 1], p) ^ u[|u| - 1][p]
  }

  lemma IndexBytesAre(i: nat)
    requires i < 0x1_0000_0000
    ensures BigEndian(i, 4) == IndexBytes(i)
  {
    hide Byte;
    var (a, b, c) := (i / 0x100, i / 0x1_0000, i / 0x100_0000);
    assert a / 0x100 == b && b / 0x100 == c && c / 0x100 == 0;
    assert BigEndian(c, 1) == BigEndian(0, 0) + [Byte(c % 0x100)];
    assert BigEndian(b, 2) == BigEndian(c, 1) + [Byte(b % 0x100)];
    assert BigEndian(a, 3) == BigEndian(b, 2) + [Byte(a % 0x100)];
    assert BigEndian(i, 4) == BigEndian(a, 3) + [Byte(i % 0x100)];
  }

  /** Such messages are the U of the block. */
  lemma {:induction false} IteratesAre(s: Setting, i: nat, u: seq<Octets>, j: nat)
    requires i < 0x1_0000_0000 && Iterates(s, i, u) && j < |u|
    ensures u[j] == U(s, i, j + 1)
  {
    hide Mac, UsedKey, IndexBytes, BigEndian;
    IndexBytesAre(i);
    if j > 0 {
      IteratesAre(s, i, u, j - 1);
    }
  }

  lemma {:induction false} ColumnIs(s: Setting, i: nat, u: seq<Octets>, n: nat, p: nat)
    requires i < 0x1_0000_0000 && Iterates(s, i, u) && 0 < n <= |u| && p < s.hash.size
    ensures (forall x | x in u[..n] :: p < |x|) && Column(u[..n], p) == XoredU(s, i, n)[p]
  {
    hide U, Iterates;
    MessageSizes(s, i, u);
    IteratesAre(s, i, u, n - 1);
    assert u[..n][..n - 1] == u[..n - 1];
    FlipBytes();
    if n > 1 {
      ColumnIs(s, i, u, n - 1, p);
    } else {
      assert Column(u[..0], p) == 0;
      NothingXored(u[0][p]);
    }
  }

  lemma MessageSizes(s: Setting, i: nat, u: seq<Octets>)
    requires i < 0x1_0000_0000 && Iterates(s, i, u)
    ensures s.Proper() && |u| == s.count && forall x | x in u :: |x| == s.hash.size
  {
    hide Mac, UsedKey, IndexBytes;
    MacProper(s.hash, s.password);
    forall x | x in u ensures |x| == s.hash.size {
      var j :| 0 <= j < |u| && u[j] == x;
      assert x == Mac(s.hash, s.password, if j == 0 then s.salt + IndexBytes(i) else u[j - 1]);
    }
  }

  lemma FlipBytes()
    ensures forall x, y: bv8 :: Flip(x, y) == x ^ y
  {}

  lemma NothingXored(x: bv8)
    ensures 0 ^ x == x
  {}

  /** Byte k of the derived key, whatever the count and the length: it comes from block k / size + 1, and is the xor of
      the bytes at its place in the messages of that block. */
  lemma DerivedByte(s: Setting, n: nat, k: nat, u: seq<Octets>)
    requires s.Proper() && k < n && k / s.hash.size + 1 < 0x1_0000_0000 && Iterates(s, k / s.hash.size + 1, u)
    ensures (forall x | x in u :: k % s.hash.size < |x|) && Derived(s, n)[k] == Column(u, k % s.hash.size)
  {
    hide Iterates, XoredU, Derived, Blocks;
    var i, p := k / s.hash.size + 1, k % s.hash.size;
    BlocksLength(s, i - 1);
    BlocksLength(s, i);
    BlocksLength(s, n);
    MessageSizes(s, i, u);
    ColumnIs(s, i, u, |u|, p);
    assert u[..|u|] == u;
    ByteOfBlock(s, n, k);
  }

  lemma {:induction false} BlocksLength(s: Setting, k: nat)
    requires s.Proper()
    ensures |Blocks(s, k)| == k * s.hash.size
  {
    hide XoredU;
    if k > 0 {
      BlocksLength(s, k - 1);
    }
  }

  lemma ByteOfBlock(s: Setting, n: nat, k: nat)
    requires s.Proper() && k < n
    ensures Derived(s, n)[k] == XoredU(s, k / s.hash.size + 1, s.count)[k % s.hash.size]
  {
    hide XoredU, Blocks;
    var i, z := k / s.hash.size + 1, s.hash.size;
    BlocksLength(s, i - 1);
    BlocksLength(s, i);
    Place(k, z);
    LastBlock(s, i);
    assert Blocks(s, i)[k] == XoredU(s, i, s.count)[k - (i - 1) * z];
    BlocksPrefix(s, i, n);
    assert Blocks(s, n)[k] == Blocks(s, n)[..|Blocks(s, i)|][k];
  }

  lemma LastBlock(s: Setting, i: nat)
    requires s.Proper() && i > 0
    ensures Blocks(s, i) == Blocks(s, i - 1) + XoredU(s, i, s.count)
  {
    hide XoredU;
  }

  lemma Place(k: nat, z: nat)
    requires z > 0
    ensures k == k / z * z + k % z && k / z <= k && k < (k / z + 1) * z
  {
    AtLeast(k / z, z);
    NextProduct(z, k / z);
  }

  lemma {:induction false} AtLeast(q: nat, z: nat)
    requires z > 0
    ensures q <= q * z
  {
    if q > 0 {
      AtLeast(q - 1, z);
      NextProduct(z, q - 1);
    }
  }

  /** With one iteration, the first block is the Mac of the salt and 00 00 00 01, and the second that of the salt and
      00 00 00 02; with two, the Mac of each is xored in. */
  lemma FirstBlocks(s: Setting, n: nat)
    requires s.Proper() && s.count == 1 && n <= 2 * s.hash.size
    ensures |UsedKey(s.hash, s.password)| <= s.hash.blockSize
    ensures var t := Mac(s.hash, s.password, s.salt + [0, 0, 0, 1]) + Mac(s.hash, s.password, s.salt + [0, 0, 0, 2]);
      |t| == 2 * s.hash.size && Derived(s, n) == t[..n]
  {
    hide Mac, UsedKey, BigEndian, Derived;
    MacProper(s.hash, s.password);
    CounterOne();
    CounterTwo();
    BlocksLength(s, 2);
    DerivedPrefix(s, n, 2);
    assert Blocks(s, 2) == Blocks(s, 1) + XoredU(s, 2, 1) && Blocks(s, 1) == Blocks(s, 0) + XoredU(s, 1, 1);
  }

  lemma CounterTwo()
    ensures BigEndian(2, 4) == [0, 0, 0, 2]
  {
    hide Byte;
    IndexBytesAre(2);
    SmallBytes();
  }

  // ----- the counter

  lemma ByteCounts(b: bv8, s: Octets, s': Octets)
    requires |s'| == |s| && FromBigEndian(s') + Power256(|s|) == FromBigEndian(s) + 1
    ensures FromBigEndian([b + 1] + s') + (if b + 1 == 0 then Power256(1 + |s|) else 0) == FromBigEndian([b] + s) + 1
  {
    hide FromBigEndian, Power256;
    Concatenated([b], s);
    Concatenated([b + 1], s');
    OneByte(b);
    OneByte(b + 1);
    ByteStep(b);
    PowerStep(|s|);
    Products(b as nat, (b + 1) as nat, Power256(|s|));
  }

  lemma OneByte(b: bv8)
    ensures FromBigEndian([b]) == b as nat
  {
    assert [b][..0] == [];
    assert FromBigEndian([]) == 0;
  }

  lemma ByteStep(b: bv8)
    ensures if b == 0xFF then b + 1 == 0 && b as nat == 255 && (b + 1) as nat == 0 else b + 1 != 0 && (b + 1) as nat == b as nat + 1
  {
    NextByte(b);
    NotLast(b);
  }

  lemma NotLast(b: bv8)
    ensures b != 0xFF ==> b as int < 255 && b + 1 != 0
  {}

  lemma PowerStep(n: nat)
    ensures Power256(1 + n) == 256 * Power256(n)
  {}

  lemma Products(x: nat, y: nat, p: nat)
    ensures y == x + 1 ==> y * p == x * p + p
    ensures x == 255 ==> x * p + p == 256 * p
  {}

  /** One byte of the counter, with the bytes below it already wrapped. */
  method CountByte(counter: array<bv8>, at: nat, ghost before: Octets) returns (x: bv8)
    requires at < counter.Length == |before| && counter[..at + 1] == before[..at + 1]
    requires FromBigEndian(counter[at + 1..]) + Power256(|before| - at - 1) == FromBigEndian(before[at + 1..]) + 1
    modifies counter
    ensures counter[..at] == before[..at]
    ensures FromBigEndian(counter[at..]) + (if x == 0 then Power256(|before| - at) else 0) == FromBigEndian(before[at..]) + 1
  {
    hide FromBigEndian, Power256;
    ghost var s, s' := before[at + 1..], counter[at + 1..];
    assert counter[at] == counter[..at + 1][at] == before[..at + 1][at] == before[at];
    ByteCounts(counter[at], s, s');
    x := counter[at] + 1;
    assert before[at..] == [before[at]] + s;
    counter[at] := x;
    assert counter[at..] == [x] + s';
  }

  /** The last loop: the four bytes count up modulo 2^32. */
  method CountUp(counter: array<bv8>)
    requires counter.Length == 4
    modifies counter
    ensures FromBigEndian(counter[..]) == (FromBigEndian(old(counter[..])) + 1) % 0x1_0000_0000
  {
    hide FromBigEndian, Power256;
    ghost var before := counter[..];
    EmptyNumber();
    assert counter[4..] == before[4..] == [];
    var i := 4;
    var x: bv8 := 0;
    while i > 0
      invariant 0 <= i <= 4 && counter[..i] == before[..i]
      invariant FromBigEndian(counter[i..]) + (if x == 0 then Power256(4 - i) else 0) == FromBigEndian(before[i..]) + 1
      invariant x == 0
    {
      x := CountByte(counter, i - 1, before);
      i := i - 1;
      if x != 0 {
        break;
      }
    }
    Finished(before, counter[..], i, x);
  }

  lemma Finished(b: Octets, c: Octets, at: nat, x: bv8)
    requires at <= |b| == |c| == 4 && c[..at] == b[..at] && (x != 0 || at == 0)
    requires FromBigEndian(c[at..]) + (if x == 0 then Power256(4 - at) else 0) == FromBigEndian(b[at..]) + 1
    ensures FromBigEndian(c) == (FromBigEndian(b) + 1) % 0x1_0000_0000
  {
    hide *;
    assert c == b[..at] + c[at..] && b == b[..at] + b[at..];
    CounterDone(b[..at], b[at..], c[at..], if x == 0 then 0 else 1, 4);
    Power256Four();
  }

  // ----- pkcs5_pbkdf2_hmac

  /** U1, in work. The context is left ready for the next message under the same key. */
  method FirstU(ghost s: Setting, ghost i: nat, ctx: Context, salt: Octets, counter: array<bv8>, work: array<bv8>)
    requires s.Proper() && ctx.hash == s.hash && ctx.Ready(s.password, []) && salt == s.salt
    requires counter.Length == 4 && counter[..] == BigEndian(i, 4)
    requires work.Length == s.hash.size && work != ctx.pads && work != counter
    modifies ctx`absorbed, work
    ensures ctx.Ready(s.password, []) && work[..] == U(s, i, 1)
  {
    hide BigEndian, Mac, UsedKey;
    MacProper(s.hash, s.password);
    ctx.HmacUpdate(s.password, [], salt);
    ctx.HmacUpdate(s.password, [] + salt, counter[..]);
    assert [] + salt + counter[..] == s.salt + BigEndian(i, 4);
    ctx.HmacFinish(s.password, [] + salt + counter[..], work);
    ctx.HmacReset(s.password);
    assert work[..] == work[..s.hash.size];
  }

  /** U(j + 1), in place of Uj. */
  method NextU(ghost s: Setting, ghost i: nat, ghost j: nat, ctx: Context, md1: array<bv8>)
    requires s.Proper() && ctx.hash == s.hash && ctx.Ready(s.password, []) && j > 0
    requires md1.Length == s.hash.size && md1 != ctx.pads && md1[..] == U(s, i, j)
    modifies ctx`absorbed, md1
    ensures ctx.Ready(s.password, []) && md1[..] == U(s, i, j + 1)
  {
    hide Mac, UsedKey;
    MacProper(s.hash, s.password);
    ctx.HmacUpdate(s.password, [], md1[..]);
    assert [] + md1[..] == U(s, i, j);
    ctx.HmacFinish(s.password, [] + md1[..], md1);
    ctx.HmacReset(s.password);
    assert md1[..] == md1[..s.hash.size];
  }

  /** One turn of the inner loop. */
  method Accumulate(ghost s: Setting, ghost i: nat, ghost j: nat, ctx: Context, md1: array<bv8>, work: array<bv8>)
    requires s.Proper() && ctx.hash == s.hash && ctx.Ready(s.password, []) && j > 0
    requires md1.Length == work.Length == s.hash.size && md1 != ctx.pads && work != ctx.pads && md1 != work
    requires md1[..] == U(s, i, j) && work[..] == XoredU(s, i, j)
    modifies ctx`absorbed, md1, work
    ensures ctx.Ready(s.password, []) && md1[..] == U(s, i, j + 1) && work[..] == XoredU(s, i, j + 1)
  {
    hide U, Xor, UsedKey, KeyPad;
    NextU(s, i, j, ctx, md1);
    XorAll(work, md1[..]);
  }

  /** One block of the derived key. */
  method OneBlock(ghost s: Setting, ghost i: nat, ctx: Context, salt: Octets, iterationCount: nat, counter: array<bv8>,
                  md1: array<bv8>, work: array<bv8>)
    requires s.Proper() && ctx.hash == s.hash && ctx.Ready(s.password, []) && salt == s.salt
    requires s.count == if iterationCount == 0 then 1 else iterationCount
    requires counter.Length == 4 && counter[..] == BigEndian(i, 4)
    requires work.Length == md1.Length == s.hash.size && work != ctx.pads && md1 != ctx.pads
    requires work != md1 && work != counter && md1 != counter
    modifies ctx`absorbed, md1, work
    ensures ctx.Ready(s.password, []) && work[..] == XoredU(s, i, s.count)
  {
    hide U, BigEndian, UsedKey, KeyPad;
    FirstU(s, i, ctx, salt, counter, work);
    CopyTo(md1, 0, work[..]);
    var j := 1;
    assert md1[..] == work[..];
    while j < iterationCount
      invariant 1 <= j <= s.count && ctx.Ready(s.password, [])
      invariant md1[..] == U(s, i, j) && work[..] == XoredU(s, i, j)
    {
      Accumulate(s, i, j, ctx, md1, work);
      j := j + 1;
    }
  }

  /** The block goes behind the others, cut off where the key ends. */
  method Emit(ghost s: Setting, ghost i: nat, work: array<bv8>, output: array<bv8>, outP: nat, left: nat) returns (useLen: nat)
    requires s.Proper() && work.Length == s.hash.size && work[..] == XoredU(s, i + 1, s.count)
    requires outP + left <= output.Length && output != work
    requires output[..outP] == Blocks(s, i)
    modifies output
    ensures useLen == if left < s.hash.size then left else s.hash.size
    ensures outP + useLen <= |Blocks(s, i + 1)| && output[..outP + useLen] == Blocks(s, i + 1)[..outP + useLen]
    ensures useLen < left ==> outP + useLen == |Blocks(s, i + 1)|
    ensures forall k | outP + useLen <= k < output.Length :: output[k] == old(output[k])
  {
    hide XoredU;
    useLen := if left < work.Length then left else work.Length;
    Append(output, outP, work[..useLen]);
    assert Blocks(s, i + 1)[..outP + useLen] == Blocks(s, i) + XoredU(s, i + 1, s.count)[..useLen];
  }

  /** pkcs5_pbkdf2_hmac: the key of keyLength bytes, in output. */
  method Derive(ctx: Context, password: Octets, salt: Octets, iterationCount: nat, keyLength: nat, output: array<bv8>)
    requires ctx.Shape() && keyLength < 0x1_0000_0000 && keyLength <= output.Length && output != ctx.pads
    modifies ctx`absorbed, ctx.pads, output
    ensures output[..keyLength] ==
      Derived(Setting(ctx.hash, password, salt, if iterationCount == 0 then 1 else iterationCount), keyLength)
    ensures forall k | keyLength <= k < output.Length :: output[k] == old(output[k])
  {
    hide XoredU, Derived, UsedKey, KeyPad, FromBigEndian, BigEndian;
    ghost var s := Setting(ctx.hash, password, salt, if iterationCount == 0 then 1 else iterationCount);
    var md1, work, counter := new bv8[ctx.hash.size], new bv8[ctx.hash.size], new bv8[] [0, 0, 0, 1];
    CounterOne();
    NoBlocks(s);
    ctx.HmacStarts(password);
    var left, outP := keyLength, 0;
    ghost var i := 0;
    while left > 0
      invariant ctx.Ready(password, []) && outP + left == keyLength && 0 <= left && 0 <= outP
      invariant outP <= |Blocks(s, i)| && output[..outP] == Blocks(s, i)[..outP]
      invariant left > 0 ==> outP == |Blocks(s, i)| && i < keyLength && counter[..] == BigEndian(i + 1, 4)
      invariant forall k | outP <= k < output.Length :: output[k] == old(output[k])
      decreases left
    {
      OneBlock(s, i + 1, ctx, salt, iterationCount, counter, md1, work);
      var useLen := Emit(s, i, work, output, outP, left);
      left, outP := left - useLen, outP + useLen;
      CountUp(counter);
      NextIndex(i + 1, counter[..]);
      i := i + 1;
    }
    DerivedPrefix(s, keyLength, i);
  }

  lemma NoBlocks(s: Setting)
    requires s.Proper()
    ensures Blocks(s, 0) == []
  {}

  lemma CounterOne()
    ensures BigEndian(1, 4) == [0, 0, 0, 1]
  {
    hide Byte;
    assert BigEndian(0, 1) == BigEndian(0, 0) + [Byte(0)];
    assert BigEndian(0, 2) == BigEndian(0, 1) + [Byte(0)];
    assert BigEndian(0, 3) == BigEndian(0, 2) + [Byte(0)];
    assert BigEndian(1, 4) == BigEndian(0, 3) + [Byte(1)];
    SmallBytes();
  }

  lemma SmallBytes()
    ensures Byte(0) == 0 && Byte(1) == 1 && Byte(2) == 2
  {}

  lemma NextIndex(i: nat, c: Octets)
    requires |c| == 4 && FromBigEndian(c) == (FromBigEndian(BigEndian(i, 4)) + 1) % 0x1_0000_0000
    ensures i < 0xFFFF_FFFF ==> c == BigEndian(i + 1, 4)
  {
    hide FromBigEndian, BigEndian;
    if i < 0xFFFF_FFFF {
      FourBytes(i);
      FromBigEndianRoundTrip(c);
    }
  }
}
