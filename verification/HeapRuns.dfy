/** Whole runs of the buffer heap. */
module HeapRuns {
  import opened ByteNumbers
  import opened HeapBlocks
  import opened HeapLists
  import opened HeapMemory
  import opened HeapRelease
  import opened HeapTaking
  import opened HeapVerify
  import opened BufferHeap

  /** What a caller gets: the block becomes live, its bytes are aligned, lie in the buffer, and are
      disjoint from every block that was live before, header included. */
  lemma GrantedRange(bs: seq<Block>, free: seq<nat>, bs': seq<Block>, free': seq<nat>, lo: nat, hi: nat,
                     len: nat, i: nat, k: nat, p: nat)
    requires Tiling(bs, lo, hi) && 0 < len && len % ALIGN == 0 && Granted(bs, free, bs', free', len, i, k, p)
    ensures Tiling(bs', lo, hi)
    ensures p % ALIGN == 0 && lo + HEADER <= p && p + len <= hi
    ensures i < |bs'| && bs'[i].addr + HEADER == p && len <= bs'[i].size && Live(bs') == Live(bs) + {bs'[i]}
    ensures forall b | b in Live(bs) :: b.End() <= p - HEADER || p + len <= b.addr
  {
    hide FirstFit, Tiling, Linked, Take;
    TakeTiling(bs, lo, hi, i, len);
    TakeLive(bs, i, len);
    InRange(bs, lo, hi, i);
    AlignedAt(bs, lo, hi, i);
    TilingLinked(bs, lo, hi);
    forall b | b in Live(bs) ensures b.End() <= p - HEADER || p + len <= b.addr {
      var j :| 0 <= j < |bs| && bs[j] == b;
      if j < i {
        Ordered(bs, j, i);
      } else {
        Ordered(bs, i, j);
      }
    }
  }

  lemma AlignedAt(bs: seq<Block>, lo: nat, hi: nat, i: nat)
    requires Tiling(bs, lo, hi) && i < |bs|
    ensures bs[i].addr % ALIGN == 0
  {
    assert bs[i] in bs;
  }

  /** Headers and sizes add up to the whole buffer. */
  lemma {:induction false} SizesAddUp(bs: seq<Block>, lo: nat, hi: nat)
    requires Tiling(bs, lo, hi)
    ensures HEADER + Sizes(bs) == hi - lo
  {
    SizesEnd(bs, 0, |bs| - 1);
    assert bs[0..|bs| - 1 + 1] == bs;
  }

  // ----- data that read as a header

  /** Bytes of a caller that happen to read as the header of a block that is handed out. */
  const LOOKALIKE: seq<Octet> := [
    0x55, 0xAA, 0x00, 0xFF, 64, 0, 0, 0, 1, 0, 0, 0, 0, 0, 0, 0,
    0, 0, 0, 0, 0, 0, 0, 0, 0, 0, 0, 0, 0x66, 0x99, 0x11, 0xEE]

  /** A run in which the release of a pointer that was never handed out is not turned down: the free list
      then begins inside a block that is handed out. */
  method LookalikeReleased(memory: Memory) returns (ok: bool, ret: Ptr, firstFree: Ptr, ghost bs: seq<Block>)
    ensures ok && |bs| == 2 && bs[0] == Block(4096, 128, true) && ret == At(4096 + HEADER)
    ensures !HandedOut(bs, 4096 + 2 * HEADER) && firstFree == At(4096 + HEADER)
  {
    hide HeapOk, Shows, Starts, NoFit, Granted, ZeroedOnly, Within, Passes, HandedOut, LOOKALIKE, Put, HeadAt, LinksAt, WellChained, Outside, ReleasedAs, UsedAt;
    var h := new Heap(memory);
    h.Init(4096, 1024);
    FirstRequest(h.blocks, h.free);
    ghost var i, k;
    ok, ret, i, k := h.Calloc(1, 128);
    FirstAnswer(h.blocks, h.free, i, k, ret);
    ghost var m := h.mem;
    LookalikeReads(m, 4128);
    h.Store(4128, LOOKALIKE);
    LookalikePasses(h.mem);
    ok, i := h.Free(At(4160));
    firstFree, bs := h.firstFree, h.blocks;
  }

  /** A run with other data of the same caller: without the magic word the release is turned down, and nothing
      has changed. */
  method UnlikeRejected(memory: Memory) returns (ok: bool, ret: Ptr, same: bool, ghost bs: seq<Block>)
    ensures !ok && same && |bs| == 2 && bs[0] == Block(4096, 128, true) && ret == At(4096 + HEADER)
  {
    hide HeapOk, Shows, Starts, NoFit, Granted, ZeroedOnly, Within, Passes, HandedOut, Put, HeadAt, LinksAt, WellChained, Outside, ReleasedAs, UsedAt;
    var h := new Heap(memory);
    h.Init(4096, 1024);
    FirstRequest(h.blocks, h.free);
    ghost var i, k, m0 := 0, 0, h.mem;
    ok, ret, i, k := h.Calloc(1, 128);
    FirstAnswer(h.blocks, h.free, i, k, ret);
    ghost var m := h.mem;
    var f := h.firstFree;
    FirstZero(m0, m, Starts(h.blocks));
    StoreWithin(h.blocks);
    h.Store(4136, [1, 0, 0, 0]);
    UnlikeFails(m, h.mem);
    ok, i := h.Free(At(4160));
    same, bs := f == h.firstFree, h.blocks;
  }

  lemma FirstZero(m: Memory, m': Memory, s: set<nat>)
    requires ZeroedOnly(m, m', s, 4128, 4128 + Bytes(1, 128))
    ensures m'(4128) == 0
  {}

  lemma StoreWithin(bs: seq<Block>)
    requires bs == [Block(4096, 128, true), Block(4256, 832, false)]
    ensures Within(bs, 4136, 4)
  {
    assert bs[0].addr + HEADER <= 4136 && 4136 + 4 <= bs[0].End();
  }

  lemma UnlikeFails(m: Memory, m': Memory)
    requires m(4128) == 0 && m' == Put(m, 4136, [1, 0, 0, 0])
    ensures !Passes(m', At(4096), 1024, At(4160))
  {
    hide HeadAt, LinksAt, GoodHeader;
    GoodBytes(m', 4128);
  }

  /** A request for three times two bytes from a buffer at an odd address: eight bytes behind the first aligned
      header, and the rest behind a header of its own. */
  method SmallRequest(memory: Memory) returns (ret: Ptr, ghost bs: seq<Block>)
    ensures ret == At(4132) && bs == [Block(4100, 8, true), Block(4140, 949, false)]
  {
    hide HeapOk, Shows, Starts, NoFit, Granted, ZeroedOnly, HeadAt, LinksAt;
    var h := new Heap(memory);
    h.Init(4097, 1024);
    SmallFits(h.blocks, h.free);
    var ok;
    ghost var i, k;
    ok, ret, i, k := h.Calloc(3, 2);
    SmallAnswer(h.blocks, h.free, i, k, ret);
    bs := h.blocks;
  }

  lemma SmallFits(bs: seq<Block>, free: seq<nat>)
    requires bs == [Block(4100, 989, false)] && free == [4100]
    ensures !NoFit(bs, free, RoundUp(Bytes(3, 2)))
  {
    assert HasBlock(bs, free[0]) ==> SizeAt(bs, free[0]) == 989;
  }

  lemma SmallAnswer(bs: seq<Block>, free: seq<nat>, i: nat, k: nat, ret: Ptr)
    requires ret.At? && Granted([Block(4100, 989, false)], [4100], bs, free, RoundUp(Bytes(3, 2)), i, k, ret.addr)
    ensures bs == [Block(4100, 8, true), Block(4140, 949, false)] && ret == At(4132)
  {
    hide FirstFit;
  }

  lemma FirstRequest(bs: seq<Block>, free: seq<nat>)
    requires bs == [Block(4096, 992, false)] && free == [4096]
    ensures !NoFit(bs, free, RoundUp(Bytes(1, 128)))
  {
    assert HasBlock(bs, free[0]) ==> SizeAt(bs, free[0]) == 992;
  }

  lemma FirstAnswer(bs: seq<Block>, free: seq<nat>, i: nat, k: nat, ret: Ptr)
    requires ret.At? && Granted([Block(4096, 992, false)], [4096], bs, free, RoundUp(Bytes(1, 128)), i, k, ret.addr)
    ensures bs == [Block(4096, 128, true), Block(4256, 832, false)] && ret == At(4128)
    ensures Within(bs, 4128, 32) && !HandedOut(bs, 4160)
  {
    hide FirstFit;
    assert bs[0].addr + HEADER <= 4128 && 4128 + 32 <= bs[0].End();
  }

  lemma LookalikeReads(m: Memory, a: nat)
    ensures |LOOKALIKE| == HEADER && HeadAt(Put(m, a, LOOKALIKE), a) == Head(MAGIC1, 64, 1, Null, Null, MAGIC2)
    ensures LinksAt(Put(m, a, LOOKALIKE), a) == ZERO_LINKS
  {}

  lemma LookalikePasses(m: Memory)
    requires HeadAt(m, 4128) == Head(MAGIC1, 64, 1, Null, Null, MAGIC2) && LinksAt(m, 4128) == ZERO_LINKS
    ensures HeaderOf(4160) == 4128 && Passes(m, At(4096), 1024, At(4160))
  {}

  // ----- what the callers of the heap see

  /** What a program asks of the heap, or does with what it was given; Check sets the verification flags. */
  datatype Request = Allocate(n: nat, size: nat) | Deallocate(ptr: Ptr) | Write(q: nat, at: nat, bytes: seq<Octet>) | Check(flags: nat)

  /** The program's own record: the bytes it holds behind each pointer it was given. */
  type Held = map<nat, seq<Octet>>

  function Zeros(n: nat): (z: seq<Octet>)
    ensures |z| == n
  {
    seq(n, _ => 0)
  }

  /** The request releases nothing but what is held, and writes nowhere else. */
  predicate Proper(held: Held, r: Request) {
    match r
    case Allocate(n, size) => n < WORDS && size < WORDS
    case Deallocate(ptr) => ptr.At? ==> ptr.addr in held
    case Write(q, at, bytes) => q in held && at + |bytes| <= |held[q]|
    case Check(_) => true
  }

  /** Bytes b are written over s at position k. */
  function Overwrite(s: seq<Octet>, k: nat, b: seq<Octet>): seq<Octet>
    requires k + |b| <= |s|
  {
    s[..k] + b + s[k + |b|..]
  }

  /** What is held after a request that was answered with answer. */
  function After(held: Held, r: Request, answer: Ptr): Held {
    if !Proper(held, r) then held else
    match r
    case Allocate(n, size) => if answer.At? then held[answer.addr := Zeros(Bytes(n, size))] else held
    case Deallocate(ptr) => if ptr.At? then held - {ptr.addr} else held
    case Write(q, at, bytes) => held[q := Overwrite(held[q], at, bytes)]
    case Check(_) => held
  }

  /** A block of the heap that is handed out starts at q and holds at least n bytes. */
  ghost predicate Owns(bs: seq<Block>, q: nat, n: nat) {
    exists i :: 0 <= i < |bs| && bs[i].used && bs[i].addr + HEADER == q && n <= bs[i].size
  }

  ghost predicate Reads(m: Memory, q: nat, s: seq<Octet>) {
    forall k | 0 <= k < |s| :: m(q + k) == s[k]
  }

  /** Exactly the blocks that are handed out are held, and the memory is as the program has left it. */
  ghost predicate Agrees(m: Memory, bs: seq<Block>, held: Held) {
    && (forall q | q in held :: Owns(bs, q, |held[q]|) && Reads(m, q, held[q]))
    && (forall q | HandedOut(bs, q) :: q in held)
  }

  /** What is held behind different pointers never overlaps. */
  lemma HeldApart(m: Memory, bs: seq<Block>, held: Held, q: nat, r: nat)
    requires Linked(bs) && Agrees(m, bs, held) && q in held && r in held && q < r
    ensures q + |held[q]| + HEADER <= r
  {
    hide Linked, Reads;
    assert Owns(bs, q, |held[q]|) && Owns(bs, r, |held[r]|);
    var i :| 0 <= i < |bs| && bs[i].used && bs[i].addr + HEADER == q && |held[q]| <= bs[i].size;
    var j :| 0 <= j < |bs| && bs[j].used && bs[j].addr + HEADER == r && |held[r]| <= bs[j].size;
    if i < j {
      Ordered(bs, i, j);
    } else if j < i {
      Ordered(bs, j, i);
    }
  }

  /** Bytes that lie in one block and outside all headers have not changed. */
  lemma ReadsKept(m: Memory, m': Memory, bs: seq<Block>, j: nat, q: nat, s: seq<Octet>)
    requires Linked(bs) && j < |bs| && bs[j].addr + HEADER == q && |s| <= bs[j].size && Reads(m, q, s)
    requires forall x: nat | bs[j].addr + HEADER <= x < bs[j].End() && !Covered(x, Starts(bs)) :: m'(x) == m(x)
    ensures Reads(m', q, s)
  {
    hide Linked, Starts, Covered;
    forall k | 0 <= k < |s| ensures m'(q + k) == s[k] {
      PayloadUncovered(bs, j, q + k);
    }
  }

  // ----- allocation

  /** Where a block that was handed out before is found after an allocation. */
  lemma TakeMoves(bs: seq<Block>, i: nat, need: nat, j: nat) returns (k: nat)
    requires i < |bs| && need <= bs[i].size && j < |bs| && j != i
    ensures k < |Take(bs, i, need)| && Take(bs, i, need)[k] == bs[j] && k != i
  {
    k := if j < i then j else j + |Take(bs, i, need)| - |bs|;
  }

  lemma TakeFrom(bs: seq<Block>, i: nat, need: nat, k: nat) returns (j: nat)
    requires i < |bs| && need <= bs[i].size && k < |Take(bs, i, need)| && k != i && Take(bs, i, need)[k].used
    ensures j < |bs| && bs[j] == Take(bs, i, need)[k]
  {
    j := if k < i then k else k + |bs| - |Take(bs, i, need)|;
  }

  lemma AllocateAgrees(m: Memory, m': Memory, bs: seq<Block>, bs': seq<Block>, held: Held, i: nat, need: nat, n: nat, p: nat, lo: nat, hi: nat)
    requires Agrees(m, bs, held) && Tiling(bs, lo, hi) && i < |bs| && !bs[i].used && 0 < need <= bs[i].size && need % ALIGN == 0
    requires bs' == Take(bs, i, need) && p == bs[i].addr + HEADER && n <= need && ZeroedOnly(m, m', Starts(bs'), p, p + n)
    ensures p !in held && Agrees(m', bs', held[p := Zeros(n)])
  {
    hide Tiling, Linked, Take, Starts, Covered, Reads, ZeroedOnly;
    TakeLive(bs, i, need);
    TakeTiling(bs, lo, hi, i, need);
    TilingLinked(bs, lo, hi);
    TilingLinked(bs', lo, hi);
    NotHeld(m, bs, held, i);
    var held' := held[p := Zeros(n)];
    forall q | q in held' ensures Owns(bs', q, |held'[q]|) && Reads(m', q, held'[q]) {
      if q == p {
        assert bs'[i].addr + HEADER == q;
        ZeroedReads(m, m', Starts(bs'), p, n);
      } else {
        HeldTaken(m, m', bs, held, i, need, n, q);
      }
    }
    forall q | HandedOut(bs', q) ensures q in held' {
      var k :| 0 <= k < |bs'| && bs'[k].used && bs'[k].addr + HEADER == q;
      if k != i {
        var j := TakeFrom(bs, i, need, k);
        assert HandedOut(bs, q);
      }
    }
  }

  lemma NotHeld(m: Memory, bs: seq<Block>, held: Held, i: nat)
    requires Agrees(m, bs, held) && Linked(bs) && i < |bs| && !bs[i].used
    ensures bs[i].addr + HEADER !in held
  {
    hide Linked, Reads;
    var q := bs[i].addr + HEADER;
    if q in held {
      assert Owns(bs, q, |held[q]|);
      var j :| 0 <= j < |bs| && bs[j].used && bs[j].addr + HEADER == q && |held[q]| <= bs[j].size;
      SameAddress(bs, i, j);
    }
  }

  lemma ZeroedReads(m: Memory, m': Memory, s: set<nat>, p: nat, n: nat)
    requires ZeroedOnly(m, m', s, p, p + n)
    ensures Reads(m', p, Zeros(n))
  {}

  lemma HeldTaken(m: Memory, m': Memory, bs: seq<Block>, held: Held, i: nat, need: nat, n: nat, q: nat)
    requires Agrees(m, bs, held) && Linked(bs) && i < |bs| && !bs[i].used && need <= bs[i].size && Linked(Take(bs, i, need)) && n <= need
    requires ZeroedOnly(m, m', Starts(Take(bs, i, need)), bs[i].addr + HEADER, bs[i].addr + HEADER + n) && q in held
    ensures Owns(Take(bs, i, need), q, |held[q]|) && Reads(m', q, held[q])
  {
    hide Linked, Starts, Covered, Reads, Take;
    var bs' := Take(bs, i, need);
    assert Owns(bs, q, |held[q]|);
    var j :| 0 <= j < |bs| && bs[j].used && bs[j].addr + HEADER == q && |held[q]| <= bs[j].size;
    var k := TakeMoves(bs, i, need, j);
    if j < i {
      Ordered(bs, j, i);
    } else {
      Ordered(bs, i, j);
    }
    ReadsKept(m, m', bs', k, q, held[q]);
  }

  // ----- release

  /** Where a block that stays handed out is found after a release, and where it was. */
  lemma ReleaseMoves(bs: seq<Block>, i: nat, j: nat) returns (k: nat)
    requires Linked(bs) && i < |bs| && bs[i].used && j < |bs| && bs[j].used && j != i
    ensures k < |Release(bs, i)| && Release(bs, i)[k] == bs[j]
  {
    hide Release, Linked;
    ReleaseLive(bs, i);
    Differ(bs, i, j);
    assert bs[j] in Live(Release(bs, i));
    k :| 0 <= k < |Release(bs, i)| && Release(bs, i)[k] == bs[j];
  }

  lemma ReleaseFrom(bs: seq<Block>, i: nat, k: nat) returns (j: nat)
    requires Linked(bs) && i < |bs| && bs[i].used && k < |Release(bs, i)| && Release(bs, i)[k].used
    ensures j < |bs| && j != i && bs[j] == Release(bs, i)[k]
  {
    hide Release, Linked;
    ReleaseLive(bs, i);
    assert Release(bs, i)[k] in Live(Release(bs, i));
    j :| 0 <= j < |bs| && bs[j] == Release(bs, i)[k];
  }

  lemma DeallocateAgrees(m: Memory, m': Memory, bs: seq<Block>, held: Held, i: nat, q: nat)
    requires Agrees(m, bs, held) && Linked(bs) && i < |bs| && bs[i].used && bs[i].addr + HEADER == q && Outside(m, m', Starts(bs))
    ensures Agrees(m', Release(bs, i), held - {q})
  {
    hide Linked, Release, Starts, Covered, Reads, Outside;
    forall x | x in held && x != q ensures Owns(Release(bs, i), x, |held[x]|) && Reads(m', x, held[x]) {
      HeldReleased(m, m', bs, held, i, x);
    }
    forall x | HandedOut(Release(bs, i), x) ensures x in held && x != q {
      var k :| 0 <= k < |Release(bs, i)| && Release(bs, i)[k].used && Release(bs, i)[k].addr + HEADER == x;
      var j := ReleaseFrom(bs, i, k);
      Differ(bs, i, j);
      assert HandedOut(bs, x);
    }
  }

  lemma HeldReleased(m: Memory, m': Memory, bs: seq<Block>, held: Held, i: nat, x: nat)
    requires Agrees(m, bs, held) && Linked(bs) && i < |bs| && bs[i].used && x in held && x != bs[i].addr + HEADER && Outside(m, m', Starts(bs))
    ensures Owns(Release(bs, i), x, |held[x]|) && Reads(m', x, held[x])
  {
    hide Linked, Release, Starts, Covered, Reads;
    assert Owns(bs, x, |held[x]|);
    var j :| 0 <= j < |bs| && bs[j].used && bs[j].addr + HEADER == x && |held[x]| <= bs[j].size;
    var k := ReleaseMoves(bs, i, j);
    ReadsKept(m, m', bs, j, x, held[x]);
  }

  // ----- writing

  lemma WriteWithin(m: Memory, bs: seq<Block>, held: Held, q: nat, at: nat, n: nat)
    requires Agrees(m, bs, held) && q in held && at + n <= |held[q]|
    ensures Within(bs, q + at, n)
  {
    hide Reads;
    assert Owns(bs, q, |held[q]|);
    var i :| 0 <= i < |bs| && bs[i].used && bs[i].addr + HEADER == q && |held[q]| <= bs[i].size;
    assert bs[i].addr + HEADER <= q + at && q + at + n <= bs[i].End();
  }

  lemma WriteAgrees(m: Memory, bs: seq<Block>, held: Held, q: nat, at: nat, b: seq<Octet>)
    requires Agrees(m, bs, held) && Linked(bs) && q in held && at + |b| <= |held[q]|
    ensures Agrees(Put(m, q + at, b), bs, held[q := Overwrite(held[q], at, b)])
  {
    hide Linked, Reads, Put, Overwrite;
    var held' := held[q := Overwrite(held[q], at, b)];
    forall x | x in held' ensures Owns(bs, x, |held'[x]|) && Reads(Put(m, q + at, b), x, held'[x]) {
      assert Owns(bs, x, |held[x]|);
      if x == q {
        Overwritten(m, q, held[q], at, b);
      } else {
        if x < q {
          HeldApart(m, bs, held, x, q);
        } else {
          HeldApart(m, bs, held, q, x);
        }
        ReadsElsewhere(m, q + at, b, x, held[x]);
      }
    }
  }

  lemma Overwritten(m: Memory, q: nat, s: seq<Octet>, at: nat, b: seq<Octet>)
    requires Reads(m, q, s) && at + |b| <= |s|
    ensures |Overwrite(s, at, b)| == |s| && Reads(Put(m, q + at, b), q, Overwrite(s, at, b))
  {}

  lemma ReadsElsewhere(m: Memory, p: nat, b: seq<Octet>, x: nat, s: seq<Octet>)
    requires Reads(m, x, s) && (x + |s| <= p || p + |b| <= x)
    ensures Reads(Put(m, p, b), x, s)
  {}

  // ----- runs

  /** What is held after these requests have been answered. */
  function HeldAfter(requests: seq<Request>, answers: seq<Ptr>): Held
    requires |answers| <= |requests|
    decreases |answers|
  {
    if answers == [] then map[] else
    var last := |answers| - 1;
    After(HeldAfter(requests, answers[..last]), requests[last], answers[last])
  }

  /** The heap and the record of the program after some requests. */
  ghost predicate Keeps(h: Heap, held: Held)
    reads h
  {
    h.Valid() && Agrees(h.mem, h.blocks, held) && (h.buf == Null ==> held == map[])
  }

  /** A proper request is always served, and afterwards the memory is again as the program has left it. */
  method Serve(h: Heap, r: Request, ghost held: Held) returns (ok: bool, answer: Ptr)
    requires Keeps(h, held) && Proper(held, r)
    modifies h
    ensures ok && Keeps(h, After(held, r, answer)) && h.buf == old(h.buf)
    ensures answer.At? ==> r.Allocate? && answer.addr !in held
    ensures r.Allocate? && h.buf != Null ==>
      (answer == Null <==> r.n == 0 || r.size == 0 || Bytes(r.n, r.size) > WORDS - ALIGN || NoFit(old(h.blocks), old(h.free), RoundUp(Bytes(r.n, r.size))))
  {
    hide Agrees, Keeps, After, NoFit, RoundUp, HeapOk, Shows, Starts;
    ok, answer := true, Null;
    match r {
      case Allocate(n, size) =>
        ok, answer := Grant(h, n, size, held);
      case Deallocate(ptr) =>
        ok := Revoke(h, ptr, held);
      case Write(q, at, bytes) =>
        Fill(h, q, at, bytes, held);
      case Check(flags) =>
        Watch(h, flags, held);
    }
  }

  method Grant(h: Heap, n: nat, size: nat, ghost held: Held) returns (ok: bool, answer: Ptr)
    requires Keeps(h, held) && n < WORDS && size < WORDS
    modifies h
    ensures ok && Keeps(h, After(held, Allocate(n, size), answer)) && h.buf == old(h.buf)
    ensures answer.At? ==> answer.addr !in held
    ensures h.buf != Null ==>
      (answer == Null <==> n == 0 || size == 0 || Bytes(n, size) > WORDS - ALIGN || NoFit(old(h.blocks), old(h.free), RoundUp(Bytes(n, size))))
  {
    hide Agrees, NoFit, HeapOk, Shows, Starts, ZeroedOnly, Granted, Zeros, RoundUp;
    ghost var m, bs, i, k := h.mem, h.blocks, 0, 0;
    if h.buf != Null {
      ValidTiling(h);
    }
    ok, answer, i, k := h.Calloc(n, size);
    if answer != Null {
      GrantAgrees(m, h.mem, bs, old(h.free), h.blocks, h.free, held, n, size, i, k, answer.addr, h.buf.addr, h.buf.addr + h.len);
    }
  }

  lemma GrantAgrees(m: Memory, m': Memory, bs: seq<Block>, free: seq<nat>, bs': seq<Block>, free': seq<nat>, held: Held, n: nat, size: nat,
                    i: nat, k: nat, p: nat, lo: nat, hi: nat)
    requires Agrees(m, bs, held) && Tiling(bs, lo, hi) && n > 0 && size > 0
    requires Granted(bs, free, bs', free', RoundUp(Bytes(n, size)), i, k, p) && ZeroedOnly(m, m', Starts(bs'), p, p + Bytes(n, size))
    ensures p !in held && Agrees(m', bs', held[p := Zeros(Bytes(n, size))])
  {
    hide Tiling, Agrees, Starts, ZeroedOnly, Zeros, FirstFit, Take;
    RoundUpIs(n * size);
    PositiveBytes(n, size);
    AllocateAgrees(m, m', bs, bs', held, i, RoundUp(n * size), n * size, p, lo, hi);
  }

  method Revoke(h: Heap, ptr: Ptr, ghost held: Held) returns (ok: bool)
    requires Keeps(h, held) && (ptr.At? ==> ptr.addr in held)
    modifies h
    ensures ok && Keeps(h, After(held, Deallocate(ptr), Null)) && h.buf == old(h.buf)
  {
    hide Agrees, HeapOk, Shows, Starts, HandedOut, ReleasedAs, Outside, Tiling, Linked, UsedAt, HeaderOf, Accepts, WellChained;
    ghost var m, bs, i := h.mem, h.blocks, 0;
    if ptr.At? {
      ValidTiling(h);
      HeldHandedOut(m, bs, held, ptr.addr, h.buf.addr, h.buf.addr + h.len);
    }
    ok, i := h.Free(ptr);
    if ptr.At? {
      RevokeAgrees(m, h.mem, bs, old(h.free), h.blocks, h.free, held, i, ptr.addr);
    }
  }

  lemma HeldHandedOut(m: Memory, bs: seq<Block>, held: Held, q: nat, lo: nat, hi: nat)
    requires Agrees(m, bs, held) && q in held && Tiling(bs, lo, hi)
    ensures HandedOut(bs, q) && 0 < q < hi
  {
    hide Tiling, Reads;
    assert Owns(bs, q, |held[q]|);
    var i :| 0 <= i < |bs| && bs[i].used && bs[i].addr + HEADER == q && |held[q]| <= bs[i].size;
    InRange(bs, lo, hi, i);
  }

  lemma RevokeAgrees(m: Memory, m': Memory, bs: seq<Block>, free: seq<nat>, bs': seq<Block>, free': seq<nat>, held: Held, i: nat, q: nat)
    requires Agrees(m, bs, held) && Linked(bs) && q >= HEADER && UsedAt(bs, i, q - HEADER)
    requires ReleasedAs(bs, free, bs', free', i) && Outside(m, m', Starts(bs))
    ensures Agrees(m', bs', held - {q})
  {
    hide Agrees, Linked, Outside, Starts, FreeSet, Release, ReleaseFree;
    DeallocateAgrees(m, m', bs, held, i, q);
  }

  method Fill(h: Heap, q: nat, at: nat, bytes: seq<Octet>, ghost held: Held)
    requires Keeps(h, held) && q in held && at + |bytes| <= |held[q]|
    modifies h
    ensures Keeps(h, After(held, Write(q, at, bytes), Null)) && h.buf == old(h.buf)
  {
    hide Agrees, HeapOk, Shows, Starts, Put, Within, Overwrite, Linked, Tiling;
    ValidTiling(h);
    WriteWithin(h.mem, h.blocks, held, q, at, |bytes|);
    WriteAgrees(h.mem, h.blocks, held, q, at, bytes);
    h.Store(q + at, bytes);
  }

  method Watch(h: Heap, flags: nat, ghost held: Held)
    requires Keeps(h, held)
    modifies h
    ensures Keeps(h, After(held, Check(flags), Null)) && h.buf == old(h.buf)
  {
    hide Agrees, HeapOk, Shows, Starts;
    h.SetVerify(flags);
  }

  /** Any run. As long as the program releases only what it holds and writes only there, every request is
      served, verify_chain succeeds after each, and behind every pointer the memory is what the program has
      left there. The run ends early only where the program asks for something else. */
  method Session(h: Heap, b: nat, n: nat, requests: seq<Request>) returns (answers: seq<Ptr>, verified: seq<int>, held: Held)
    requires b > 0 && b + n < WORDS
    modifies h
    ensures |answers| <= |requests| && held == HeldAfter(requests, answers)
    ensures |answers| < |requests| ==> !Proper(held, requests[|answers|])
    ensures Keeps(h, held)
    ensures n >= HEADER + ALIGN ==> |verified| == |answers| && forall v | v in verified :: v == 0
  {
    hide Agrees, HeapOk, Shows, Starts, Proper, After, NoFit, RoundUp;
    h.Init(b, n);
    answers, verified, held := [], [], map[];
    NothingHeld(h.mem, h.blocks);
    while |answers| < |requests|
      invariant |answers| <= |requests| && held == HeldAfter(requests, answers)
      invariant Keeps(h, held) && (h.buf == Null <==> n < HEADER + ALIGN)
      invariant h.buf == Null || |verified| == |answers|
      invariant forall v | v in verified :: v == 0
      decreases |requests| - |answers|
    {
      var r := requests[|answers|];
      if !Proper(held, r) {
        return;
      }
      var ok, answer := Serve(h, r, held);
      if !ok {
        return;
      }
      held := After(held, r, answer);
      HeldNext(requests, answers, answer);
      answers := answers + [answer];
      if h.buf != Null {
        ValidChained(h.head, h.link, h.mem, h.firstFree, h.blocks, h.free, h.buf.addr, h.buf.addr + h.len);
        var v := h.VerifyChain();
        verified := verified + [v];
      }
    }
  }

  lemma NothingHeld(m: Memory, bs: seq<Block>)
    requires forall i | 0 <= i < |bs| :: !bs[i].used
    ensures Agrees(m, bs, map[])
  {}

  lemma HeldNext(requests: seq<Request>, answers: seq<Ptr>, answer: Ptr)
    requires |answers| < |requests|
    ensures HeldAfter(requests, answers + [answer]) == After(HeldAfter(requests, answers), requests[|answers|], answer)
  {
    assert (answers + [answer])[..|answers|] == answers;
  }

  /** Releasing all live blocks, in any order, restores the state after initialisation. */
  method ReleaseEverything(h: Heap, order: seq<Block>)
    requires h.Valid() && h.buf.At? && Lists(order, h.blocks)
    modifies h
    ensures h.Valid() && h.buf == old(h.buf) && h.len == old(h.len)
    ensures OneFreeBlock(h.blocks, h.buf.addr, h.buf.addr + h.len)
    ensures h.first == h.firstFree == h.buf
  {
    hide HeapOk, Release, ReleaseFree, FreeSet;
    ghost var bs := h.blocks;
    ValidTiling(h);
    ReleaseAllRestores(bs, h.buf.addr, h.buf.addr + h.len, order);
    for j := 0 to |order|
      invariant h.Valid() && h.buf == old(h.buf) && h.len == old(h.len)
      invariant Lists(order[j..], h.blocks)
      invariant ReleaseAll(h.blocks, order[j..]) == ReleaseAll(bs, order)
    {
      ValidTiling(h);
      ReleaseNext(h.blocks, h.buf.addr, h.buf.addr + h.len, order[j..]);
      assert order[j..][1..] == order[j + 1..];
      ghost var before := h.blocks;
      InRange(before, h.buf.addr, h.buf.addr + h.len, IndexOf(before, order[j]));
      var ok;
      ghost var i;
      ok, i := h.Free(At(order[j].addr + HEADER));
      SameAddress(before, i, IndexOf(before, order[j]));
    }
    assert order[|order|..] == [];
    WholeFree(h);
  }

  lemma ValidTiling(h: Heap)
    requires h.Valid() && h.buf.At?
    ensures Tiling(h.blocks, h.buf.addr, h.buf.addr + h.len) && Linked(h.blocks)
  {
    HeapParts(h.head, h.link, h.firstFree, h.blocks, h.free, h.buf.addr, h.buf.addr + h.len);
  }

  /** The next block to release is handed out, and releasing it is the next step of ReleaseAll. */
  lemma ReleaseNext(bs: seq<Block>, lo: nat, hi: nat, order: seq<Block>)
    requires Tiling(bs, lo, hi) && Lists(order, bs) && order != []
    ensures order[0] in bs && order[0].used && HandedOut(bs, order[0].addr + HEADER)
    ensures var cs := Release(bs, IndexOf(bs, order[0]));
      ReleaseAll(bs, order) == ReleaseAll(cs, order[1..]) && Lists(order[1..], cs)
  {
    hide Release, Tiling;
    assert order[0] in Live(bs);
    TilingLinked(bs, lo, hi);
    var i := IndexOf(bs, order[0]);
    ReleaseLive(bs, i);
    ListsRest(order, bs, Release(bs, i));
  }

  /** With a single free block the free list is that block. */
  lemma WholeFree(h: Heap)
    requires h.Valid() && h.buf.At? && OneFreeBlock(h.blocks, h.buf.addr, h.buf.addr + h.len)
    ensures h.firstFree == h.buf
  {
    hide HeapOk, Shows, Starts, OneFreeBlock;
    OneListed(h.head, h.link, h.firstFree, h.blocks, h.free, h.buf.addr, h.buf.addr + h.len);
  }

  lemma OneListed(head: map<nat, Head>, link: map<nat, Links>, first: Ptr, bs: seq<Block>, free: seq<nat>, lo: nat, hi: nat)
    requires HeapOk(head, link, first, bs, free, lo, hi) && OneFreeBlock(bs, lo, hi)
    ensures first == At(lo)
  {
    hide Tiling, Chain, FreeChain, UsedLinks;
    assert bs[0].addr in free;
    assert free[0] in free;
    assert HasBlock(bs, free[0]);
  }
}
