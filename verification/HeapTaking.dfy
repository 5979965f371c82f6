/** Why handing out a block keeps the two lists of the buffer heap in step with its blocks. */
module HeapTaking {
  import opened ByteNumbers
  import opened HeapBlocks
  import opened HeapLists
  import opened HeapMemory
  import opened HeapRelease

  /** The two lists, the blocks and the free set agree, and the blocks tile the buffer. */
  ghost predicate HeapOk(head: map<nat, Head>, link: map<nat, Links>, first: Ptr, bs: seq<Block>, free: seq<nat>,
                         lo: nat, hi: nat) {
    && Tiling(bs, lo, hi) && Chain(head, bs)
    && FreeChain(link, free) && first == FirstFree(free) && FreeSet(bs, free) && UsedLinks(link, bs)
  }

  lemma HeapParts(head: map<nat, Head>, link: map<nat, Links>, first: Ptr, bs: seq<Block>, free: seq<nat>, lo: nat, hi: nat)
    requires HeapOk(head, link, first, bs, free, lo, hi)
    ensures HeadsOk(head, bs) && LinksOk(link, first, bs, free) && FreeSet(bs, free) && Linked(bs) && Tiling(bs, lo, hi)
  {
    hide Chain, FreeChain, FreeSet, UsedLinks;
  }

  /** The size of the block at a. */
  ghost function SizeAt(bs: seq<Block>, a: nat): nat
    requires HasBlock(bs, a)
  {
    var i :| 0 <= i < |bs| && bs[i].addr == a;
    bs[i].size
  }

  /** The rounded-up length of a request. */
  function RoundUp(len: nat): nat {
    if len % ALIGN != 0 then len - len % ALIGN + ALIGN else len
  }

  // ----- allocation

  /** Block i, at address a, is free and in position k of the free list. */
  ghost predicate Spot(bs: seq<Block>, free: seq<nat>, a: nat, i: nat, k: nat) {
    k < |free| && free[k] == a && i < |bs| && bs[i].addr == a && !bs[i].used
  }

  /** Block i is large enough for need bytes, and for another header and more behind them. */
  predicate Suits(bs: seq<Block>, i: nat, need: nat) {
    i < |bs| && 0 < need <= bs[i].size && need % ALIGN == 0
  }

  predicate Splits(bs: seq<Block>, i: nat, need: nat) {
    Suits(bs, i, need) && need + HEADER < bs[i].size
  }

  /** At a, block i holds n bytes. */
  predicate HoldsAt(bs: seq<Block>, i: nat, a: nat, n: nat) {
    i < |bs| && a == bs[i].addr + HEADER && n <= bs[i].size
  }

  ghost predicate TookWhole(bs: seq<Block>, free: seq<nat>, bs': seq<Block>, free': seq<nat>, i: nat, k: nat) {
    i < |bs| && k < |free| && bs' == TakeWhole(bs, i) && free' == Without(free, k)
  }

  ghost predicate TookPart(bs: seq<Block>, free: seq<nat>, bs': seq<Block>, free': seq<nat>, i: nat, k: nat, need: nat) {
    && Splits(bs, i, need) && k < |free|
    && bs' == TakePart(bs, i, need) && free' == free[k := bs[i].addr + HEADER + need]
  }

  ghost predicate Took(bs: seq<Block>, free: seq<nat>, bs': seq<Block>, free': seq<nat>, i: nat, k: nat, need: nat) {
    Suits(bs, i, need) && k < |free| && bs' == Take(bs, i, need) && free' == TakeFree(bs, free, i, k, need)
  }

  /** Free block k is the first in the list with room for len bytes. */
  ghost predicate FirstFit(bs: seq<Block>, free: seq<nat>, len: nat, k: nat) {
    && k < |free| && HasBlock(bs, free[k]) && SizeAt(bs, free[k]) >= len
    && (forall j | 0 <= j < k :: HasBlock(bs, free[j]) && SizeAt(bs, free[j]) < len)
  }

  ghost predicate NoFit(bs: seq<Block>, free: seq<nat>, len: nat) {
    forall j | 0 <= j < |free| :: HasBlock(bs, free[j]) && SizeAt(bs, free[j]) < len
  }

  /** A request for len bytes is met by the first fitting block, which is block i of the heap. */
  ghost predicate Granted(bs: seq<Block>, free: seq<nat>, bs': seq<Block>, free': seq<nat>, len: nat, i: nat, k: nat, p: nat) {
    && FirstFit(bs, free, len, k)
    && i < |bs| && bs[i].addr == free[k] && !bs[i].used && len <= bs[i].size
    && bs' == Take(bs, i, len) && free' == TakeFree(bs, free, i, k, len)
    && p == bs[i].addr + HEADER
  }

  lemma FirstFits(head: map<nat, Head>, link: map<nat, Links>, first: Ptr, bs: seq<Block>, free: seq<nat>, lo: nat, hi: nat)
    requires HeapOk(head, link, first, bs, free, lo, hi) && lo > 0 && hi < WORDS
    ensures Fits(first)
  {
    hide Chain, FreeChain, UsedLinks, Tiling;
    if first.At? {
      assert free[0] in free;
      var i :| 0 <= i < |bs| && bs[i].addr == free[0];
      InRange(bs, lo, hi, i);
    }
  }

  lemma InitialOk(head: map<nat, Head>, link: map<nat, Links>, b: nat, n: nat)
    requires b % ALIGN == 0 && n > HEADER
    requires head == map[b := Head(MAGIC1, n - HEADER, 0, Null, Null, MAGIC2)] && link == map[b := ZERO_LINKS]
    ensures var bs, free := [Block(b, n - HEADER, false)], [b];
      && Tiling(bs, b, b + n) && Chain(head, bs)
      && FreeChain(link, free) && At(b) == FirstFree(free) && FreeSet(bs, free) && UsedLinks(link, bs)
  {
    assert [Block(b, n - HEADER, false)][0].addr == b;
  }

  lemma InitialShown(m: Memory, a: nat, size: nat)
    requires HeadAt(m, a) == Head(MAGIC1, size, 0, Null, Null, MAGIC2) && LinksAt(m, a) == ZERO_LINKS
    ensures var (head, link) := (map[a := Head(MAGIC1, size, 0, Null, Null, MAGIC2)], map[a := ZERO_LINKS]);
      Shows(m, head, link) && head.Keys == link.Keys == Starts([Block(a, size, false)])
  {
    hide HeadAt, LinksAt;
    assert Block(a, size, false) in [Block(a, size, false)];
  }

  /** The size field of a listed block is the size of the block. */
  lemma FreeSize(head: map<nat, Head>, bs: seq<Block>, free: seq<nat>, k: nat)
    requires Linked(bs) && Chain(head, bs) && FreeSet(bs, free) && k < |free|
    ensures HasBlock(bs, free[k]) && free[k] in head && head[free[k]].size == SizeAt(bs, free[k]) && head[free[k]].alloc == 0
  {
    hide Linked, Chain;
    assert free[k] in free;
    var i :| 0 <= i < |bs| && bs[i].addr == free[k] && SizeAt(bs, free[k]) == bs[i].size;
    ChainAt(head, bs, i);
  }

  /** The free list after block i, at position k of the list, has been handed out. */
  function TakeFree(bs: seq<Block>, free: seq<nat>, i: nat, k: nat, len: nat): seq<nat>
    requires i < |bs| && k < |free|
  {
    if len + HEADER + ALIGN <= bs[i].size then free[k := bs[i].addr + HEADER + len] else Without(free, k)
  }

  lemma TakeWholeSets(bs: seq<Block>, free: seq<nat>, i: nat, k: nat)
    requires Linked(bs) && FreeSet(bs, free) && NoRepeats(free) && i < |bs| && k < |free| && bs[i].addr == free[k]
    ensures FreeSet(TakeWhole(bs, i), Without(free, k))
  {
    hide Linked, NoRepeats;
    var cs := TakeWhole(bs, i);
    WithoutNoRepeats(free, k);
    forall j | 0 <= j < |cs| ensures cs[j].addr in Without(free, k) <==> !cs[j].used {
      if j != i {
        Differ(bs, j, i);
      }
    }
    forall a | a in Without(free, k) ensures HasBlock(cs, a) {
      assert HasBlock(bs, a);
      var j :| 0 <= j < |bs| && bs[j].addr == a;
      assert cs[j].addr == a;
    }
  }

  lemma TakePartSets(bs: seq<Block>, free: seq<nat>, i: nat, k: nat, len: nat)
    requires Linked(bs) && FreeSet(bs, free) && NoRepeats(free) && i < |bs| && k < |free| && bs[i].addr == free[k]
    requires len + HEADER <= bs[i].size
    ensures bs[i].addr + HEADER + len !in free
    ensures FreeSet(TakePart(bs, i, len), free[k := bs[i].addr + HEADER + len])
  {
    hide Linked, NoRepeats;
    var n, cs := bs[i].addr + HEADER + len, TakePart(bs, i, len);
    assert n !in free by {
      if n in free {
        assert HasBlock(bs, n);
        var j :| 0 <= j < |bs| && bs[j].addr == n;
        InsideBlock(bs, i, j, n);
      }
    }
    ReplaceNoRepeats(free, k, n);
    forall j | 0 <= j < |cs| ensures cs[j].addr in free[k := n] <==> !cs[j].used {
      if j != i && j != i + 1 {
        var q := if j < i then j else j - 1;
        assert cs[j] == bs[q];
        Differ(bs, q, i);
        InsideBlock(bs, i, q, n);
      } else {
        InsideBlock(bs, i, i, n);
      }
    }
    forall a | a in free[k := n] ensures HasBlock(cs, a) {
      if a == n {
        assert cs[i + 1].addr == n;
      } else {
        assert HasBlock(bs, a);
        var j :| 0 <= j < |bs| && bs[j].addr == a;
        assert cs[if j <= i then j else j + 1].addr == a;
      }
    }
  }

  lemma TakeWholeOk(head: map<nat, Head>, link: map<nat, Links>, first: Ptr, bs: seq<Block>, free: seq<nat>, a: nat, i: nat, k: nat, lo: nat, hi: nat)
    requires HeapOk(head, link, first, bs, free, lo, hi) && Spot(bs, free, a, i, k)
    ensures FreeChain(link, free) && first == FirstFree(free) && k < |free| && free[k] == a && i < |bs|
    ensures
      && a in head && a in link
      && (link[a].prev.At? ==> link[a].prev.addr in link) && (link[a].next.At? ==> link[a].next.addr in link)
      && HeapOk(head[a := head[a].(alloc := 1)], UnlinkLinks(link, a)[a := ZERO_LINKS],
                UnlinkFirst(link, FirstFree(free), a), TakeWhole(bs, i), Without(free, k), lo, hi)
    ensures TookWhole(bs, free, TakeWhole(bs, i), Without(free, k), i, k)
  {
    hide Tiling, Chain, FreeChain, FreeSet, UsedLinks, UnlinkLinks, UnlinkFirst, Without;
    TilingLinked(bs, lo, hi);
    ChainAt(head, bs, i);
    FreeNoRepeats(link, free);
    FreeUnlink(link, free, k);
    TakeWholeTiling(bs, lo, hi, i);
    ChainUsed(head, bs, i, true);
    TakeWholeSets(bs, free, i, k);
    WithoutNoRepeats(free, k);
    FreeChainFrame(UnlinkLinks(link, a), Without(free, k), a, ZERO_LINKS);
    TakeWholeLinks(link, bs, free, i, k);
  }

  /** Rewriting the links of a block that is not in the list. */
  lemma FreeChainFrame(link: map<nat, Links>, free: seq<nat>, a: nat, l: Links)
    requires FreeChain(link, free) && a !in free
    ensures FreeChain(link[a := l], free)
  {}

  lemma TakeWholeLinks(link: map<nat, Links>, bs: seq<Block>, free: seq<nat>, i: nat, k: nat)
    requires UsedLinks(link, bs) && FreeSet(bs, free) && FreeChain(link, free) && i < |bs| && k < |free| && bs[i].addr == free[k]
    ensures var a := bs[i].addr;
      && a in link
      && (link[a].prev.At? ==> link[a].prev.addr in link) && (link[a].next.At? ==> link[a].next.addr in link)
      && UsedLinks(UnlinkLinks(link, a)[a := ZERO_LINKS], TakeWhole(bs, i))
  {
    hide FreeChain, UnlinkLinks;
    FreeUnlink(link, free, k);
  }

  lemma SplitOk(head: map<nat, Head>, link: map<nat, Links>, first: Ptr, bs: seq<Block>, free: seq<nat>, a: nat, i: nat, k: nat, len: nat, lo: nat, hi: nat)
    requires HeapOk(head, link, first, bs, free, lo, hi) && Spot(bs, free, a, i, k) && Splits(bs, i, len)
    ensures var n := a + HEADER + len;
      && TookPart(bs, free, TakePart(bs, i, len), free[k := n], i, k, len)
      && n !in free && a in head && head[a].size == bs[i].size && (head[a].next.At? ==> head[a].next.addr in head && head[a].next.addr != n && head[a].next.addr != a)
      && a in link && (link[a].prev.At? ==> link[a].prev.addr in link) && (link[a].next.At? ==> link[a].next.addr in link)
      && HeapOk(SplitHeads(head, a, n, len), InheritLinks(link, n, a)[a := ZERO_LINKS],
                InheritFirst(link, FirstFree(free), n, a), TakePart(bs, i, len), free[k := n], lo, hi)
  {
    hide Tiling, Chain, FreeChain, FreeSet, UsedLinks, InheritLinks, InheritFirst, SplitHeads, TakePart;
    var n := a + HEADER + len;
    TilingLinked(bs, lo, hi);
    FreeNoRepeats(link, free);
    TakePartSets(bs, free, i, k, len);
    FreeInherit(link, free, k, n);
    TakePartTiling(bs, lo, hi, i, len);
    ChainSplit(head, bs, i, len);
    SplitNext(head, bs, i, n);
    ReplaceNoRepeats(free, k, n);
    FreeChainFrame(InheritLinks(link, n, a), free[k := n], a, ZERO_LINKS);
    SplitLinks(link, bs, free, i, k, len);
  }

  lemma SplitKeys(head: map<nat, Head>, a: nat, n: nat, len: nat)
    requires a in head && len + HEADER <= head[a].size && (head[a].next.At? ==> head[a].next.addr in head)
    ensures SplitHeads(head, a, n, len).Keys == head.Keys + {n}
  {}

  /** What a split needs, and what it leaves. */
  lemma SplitStoredOk(head: map<nat, Head>, link: map<nat, Links>, first: Ptr, bs: seq<Block>, free: seq<nat>, a: nat, i: nat, k: nat, need: nat, lo: nat, hi: nat)
    requires HeapOk(head, link, first, bs, free, lo, hi) && Spot(bs, free, a, i, k) && Splits(bs, i, need) && head.Keys == link.Keys == Starts(bs)
    ensures var n := a + HEADER + need;
      && TookPart(bs, free, TakePart(bs, i, need), free[k := n], i, k, need)
      && CanSplit(head, link, first, free, a, n, need, k) && lo <= a && n < hi
      && Starts(TakePart(bs, i, need)) == head.Keys + link.Keys + {n}
      && forall h, l, f | SplitStored(head, link, h, l, f, free, a, n, need) ::
           HeapOk(h, l, f, TakePart(bs, i, need), free[k := n], lo, hi) && h.Keys == l.Keys == Starts(TakePart(bs, i, need))
  {
    hide HeapOk, Tiling, Chain, FreeChain, FreeSet, UsedLinks, InheritLinks, InheritFirst, SplitHeads, TakePart, TookPart, Apart, Starts;
    SplitOk(head, link, first, bs, free, a, i, k, need, lo, hi);
    HeapParts(head, link, first, bs, free, lo, hi);
    SplitStarts(bs, i, need, lo, hi);
    assert head.Keys + link.Keys == Starts(bs);
    SplitKeys(head, a, a + HEADER + need, need);
    InheritKeys(link, a + HEADER + need, a);
  }

  lemma SplitNext(head: map<nat, Head>, bs: seq<Block>, i: nat, n: nat)
    requires Linked(bs) && Chain(head, bs) && i < |bs| && bs[i].addr < n < bs[i].End()
    ensures bs[i].addr in head && (head[bs[i].addr].next.At? ==> head[bs[i].addr].next.addr !in {n, bs[i].addr})
  {
    hide Linked;
    ChainAt(head, bs, i);
    if i + 1 < |bs| {
      InsideBlock(bs, i, i + 1, n);
      Differ(bs, i, i + 1);
    }
  }

  lemma SplitLinks(link: map<nat, Links>, bs: seq<Block>, free: seq<nat>, i: nat, k: nat, len: nat)
    requires UsedLinks(link, bs) && FreeSet(bs, free) && FreeChain(link, free) && i < |bs| && k < |free| && bs[i].addr == free[k]
    requires Linked(bs) && len + HEADER <= bs[i].size && bs[i].addr + HEADER + len !in free
    ensures var (a, n) := (bs[i].addr, bs[i].addr + HEADER + len);
      && a in link
      && (link[a].prev.At? ==> link[a].prev.addr in link) && (link[a].next.At? ==> link[a].next.addr in link)
      && UsedLinks(InheritLinks(link, n, a)[a := ZERO_LINKS], TakePart(bs, i, len))
  {
    hide FreeChain, InheritLinks, Linked;
    var a, n, cs := bs[i].addr, bs[i].addr + HEADER + len, TakePart(bs, i, len);
    FreeInherit(link, free, k, n);
    var l := InheritLinks(link, n, a)[a := ZERO_LINKS];
    forall j | 0 <= j < |cs| ensures cs[j].addr in l && (cs[j].used ==> l[cs[j].addr] == ZERO_LINKS) {
      if j != i && j != i + 1 {
        var q := if j < i then j else j - 1;
        assert cs[j] == bs[q];
        InsideBlock(bs, i, q, n);
      }
    }
  }

  lemma RoundUpIs(total: nat)
    ensures total <= RoundUp(total) < total + ALIGN && RoundUp(total) % ALIGN == 0
  {}

  /** The block at place k of the list holds len bytes, and those listed before it do not. */
  ghost predicate FitsFirst(bs: seq<Block>, free: seq<nat>, len: nat, k: nat) {
    && k < |free|
    && (forall i | 0 <= i < |bs| && bs[i].addr == free[k] :: bs[i].size >= len)
    && (forall i, j | 0 <= i < |bs| && 0 <= j < k && bs[i].addr == free[j] :: bs[i].size < len)
  }

  /** No fit means that every free block is too small; a fit is a free block that is large enough, while those
      before it in the list are too small. */
  lemma FitMeans(bs: seq<Block>, free: seq<nat>, len: nat)
    requires Linked(bs) && FreeSet(bs, free)
    ensures NoFit(bs, free, len) <==> forall i | 0 <= i < |bs| && !bs[i].used :: bs[i].size < len
    ensures forall k: nat | FirstFit(bs, free, len, k) :: FitsFirst(bs, free, len, k)
  {
    hide Linked, FreeSet, FirstFit, NoFit, SizeAt;
    forall i | 0 <= i < |bs| ensures HasBlock(bs, bs[i].addr) && SizeAt(bs, bs[i].addr) == bs[i].size {
      SizeOf(bs, i);
    }
    NoFitMeans(bs, free, len);
    forall k: nat | FirstFit(bs, free, len, k) ensures FitsFirst(bs, free, len, k) {
      FirstFitMeans(bs, free, len, k);
    }
  }

  lemma SizeOf(bs: seq<Block>, i: nat)
    requires Linked(bs) && i < |bs|
    ensures HasBlock(bs, bs[i].addr) && SizeAt(bs, bs[i].addr) == bs[i].size
  {
    hide Linked;
    var j :| 0 <= j < |bs| && bs[j].addr == bs[i].addr && SizeAt(bs, bs[i].addr) == bs[j].size;
    SameAddress(bs, i, j);
  }

  lemma NoFitMeans(bs: seq<Block>, free: seq<nat>, len: nat)
    requires FreeSet(bs, free) && forall i | 0 <= i < |bs| :: HasBlock(bs, bs[i].addr) && SizeAt(bs, bs[i].addr) == bs[i].size
    ensures NoFit(bs, free, len) <==> forall i | 0 <= i < |bs| && !bs[i].used :: bs[i].size < len
  {
    hide SizeAt;
    forall j | 0 <= j < |free| ensures HasBlock(bs, free[j]) && exists i :: 0 <= i < |bs| && bs[i].addr == free[j] && !bs[i].used {
      assert free[j] in free;
      var i :| 0 <= i < |bs| && bs[i].addr == free[j];
      assert !bs[i].used;
    }
    if NoFit(bs, free, len) {
      forall i | 0 <= i < |bs| && !bs[i].used ensures bs[i].size < len {
        var j :| 0 <= j < |free| && free[j] == bs[i].addr;
      }
    }
  }

  lemma FirstFitMeans(bs: seq<Block>, free: seq<nat>, len: nat, k: nat)
    requires FirstFit(bs, free, len, k) && forall i | 0 <= i < |bs| :: HasBlock(bs, bs[i].addr) && SizeAt(bs, bs[i].addr) == bs[i].size
    ensures FitsFirst(bs, free, len, k)
  {
    hide SizeAt;
  }

  lemma FitExcludes(bs: seq<Block>, free: seq<nat>, len: nat, k: nat)
    requires FirstFit(bs, free, len, k)
    ensures !NoFit(bs, free, len)
  {}

  /** The block that the search has found. */
  lemma FitBlock(head: map<nat, Head>, link: map<nat, Links>, first: Ptr, bs: seq<Block>, free: seq<nat>, len: nat, k: nat, lo: nat, hi: nat)
    returns (i: nat)
    requires HeapOk(head, link, first, bs, free, lo, hi) && FirstFit(bs, free, len, k)
    ensures k < |free| && i < |bs| && bs[i].addr == free[k] && !bs[i].used && len <= bs[i].size
    ensures free[k] in head && head[free[k]].size == bs[i].size && head[free[k]].alloc == 0
    ensures lo <= bs[i].addr && bs[i].End() <= hi
  {
    hide Chain, FreeChain, UsedLinks, Tiling;
    i :| 0 <= i < |bs| && bs[i].addr == free[k] && SizeAt(bs, free[k]) == bs[i].size;
    assert free[k] in free;
    ChainAt(head, bs, i);
    InRange(bs, lo, hi, i);
  }

  lemma TakeCases(bs: seq<Block>, i: nat, len: nat)
    requires i < |bs| && len <= bs[i].size
    ensures Take(bs, i, len) == if bs[i].size - len < HEADER + ALIGN then TakeWhole(bs, i) else TakePart(bs, i, len)
  {}

  /** The header of a block, in a heap that is intact. */
  lemma BlockHead(head: map<nat, Head>, link: map<nat, Links>, first: Ptr, bs: seq<Block>, free: seq<nat>, i: nat, lo: nat, hi: nat)
    requires HeapOk(head, link, first, bs, free, lo, hi) && i < |bs|
    ensures bs[i].addr in head && bs[i].addr in link && head[bs[i].addr] == HeadOf(bs, i)
    ensures lo <= bs[i].addr && bs[i].End() <= hi
  {
    hide Tiling, Chain, FreeChain, FreeSet;
    ChainAt(head, bs, i);
    InRange(bs, lo, hi, i);
  }

  lemma TakeWholeStarts(bs: seq<Block>, i: nat)
    requires i < |bs|
    ensures Starts(TakeWhole(bs, i)) == Starts(bs)
  {
    hide Starts;
    forall a ensures a in Starts(TakeWhole(bs, i)) <==> a in Starts(bs) {
      StartsAre(bs, a);
      StartsAre(TakeWhole(bs, i), a);
      SameStarts(bs, TakeWhole(bs, i), a);
    }
  }

  lemma SameStarts(bs: seq<Block>, cs: seq<Block>, a: nat)
    requires |bs| == |cs| && forall j | 0 <= j < |bs| :: bs[j].addr == cs[j].addr
    ensures HasBlock(bs, a) <==> HasBlock(cs, a)
  {}

  /** A split adds one header, which overlaps no other. */
  lemma SplitStarts(bs: seq<Block>, i: nat, need: nat, lo: nat, hi: nat)
    requires Tiling(bs, lo, hi) && i < |bs| && !bs[i].used && Splits(bs, i, need)
    ensures var n := bs[i].addr + HEADER + need;
      && Starts(TakePart(bs, i, need)) == Starts(bs) + {n} && n !in Starts(bs) && Apart(Starts(bs) + {n})
      && lo <= bs[i].addr && n < hi
  {
    hide Tiling, Linked, Starts, Apart, TakePart;
    var n, cs := bs[i].addr + HEADER + need, TakePart(bs, i, need);
    TilingLinked(bs, lo, hi);
    InRange(bs, lo, hi, i);
    TakePartTiling(bs, lo, hi, i, need);
    TilingLinked(cs, lo, hi);
    StartsApart(cs);
    StartsAre(bs, n);
    forall j | 0 <= j < |bs| ensures bs[j].addr != n {
      InsideBlock(bs, i, j, n);
    }
    forall a ensures a in Starts(cs) <==> a in Starts(bs) + {n} {
      StartsAre(bs, a);
      StartsAre(cs, a);
      SplitHas(bs, i, need, a);
    }
    assert Starts(cs) == Starts(bs) + {n};
  }

  /** A header for the rest can be stored at n, and the lists lead on from a. */
  ghost predicate CanSplit(head: map<nat, Head>, link: map<nat, Links>, first: Ptr, free: seq<nat>, a: nat, n: nat, need: nat, k: nat) {
    && a in head && a in link && need + HEADER < head[a].size
    && n !in head && n !in link && Apart(head.Keys + link.Keys + {n}) && n !in free
    && (head[a].next.At? ==> head[a].next.addr in head && head[a].next.addr != a)
    && FreeChain(link, free) && first == FirstFree(free) && k < |free| && free[k] == a
  }

  /** The header of the rest is stored, and what follows points back to it. */
  ghost predicate HeaderStored(head: map<nat, Head>, head': map<nat, Head>, a: nat, n: nat, need: nat) {
    && a in head && need + HEADER <= head[a].size && (head[a].next.At? ==> head[a].next.addr in head)
    && (var h := head[n := Head(MAGIC1, head[a].size - need - HEADER, 0, At(a), head[a].next, MAGIC2)];
        head' == if head[a].next.At? then h[head[a].next.addr := h[head[a].next.addr].(prev := At(n))] else h)
  }

  /** The header of the rest is stored, and has taken its place in both lists. */
  ghost predicate RestStored(head: map<nat, Head>, link: map<nat, Links>, head': map<nat, Head>, link': map<nat, Links>, first': Ptr,
                             free: seq<nat>, a: nat, n: nat, need: nat) {
    && HeaderStored(head, head', a, n, need) && a in link && a in link'
    && (link[a].prev.At? ==> link[a].prev.addr in link) && (link[a].next.At? ==> link[a].next.addr in link)
    && link' == InheritLinks(link, n, a) && first' == InheritFirst(link, FirstFree(free), n, a)
  }

  /** All the stores of a split are done. */
  ghost predicate SplitStored(head: map<nat, Head>, link: map<nat, Links>, head': map<nat, Head>, link': map<nat, Links>, first': Ptr,
                              free: seq<nat>, a: nat, n: nat, need: nat) {
    && a in head && need + HEADER <= head[a].size && a in link
    && (head[a].next.At? ==> head[a].next.addr in head)
    && (link[a].prev.At? ==> link[a].prev.addr in link) && (link[a].next.At? ==> link[a].next.addr in link)
    && head' == SplitHeads(head, a, n, need) && link' == InheritLinks(link, n, a)[a := ZERO_LINKS]
    && first' == InheritFirst(link, FirstFree(free), n, a)
  }

  lemma ShrinkSplits(head: map<nat, Head>, link: map<nat, Links>, h: map<nat, Head>, l: map<nat, Links>, first': Ptr,
                     free: seq<nat>, a: nat, n: nat, need: nat)
    requires RestStored(head, link, h, l, first', free, a, n, need) && a in h && a in l
    ensures SplitStored(head, link, h[a := h[a].(alloc := 1, size := need, next := At(n))], l[a := ZERO_LINKS], first', free, a, n, need)
  {
    hide InheritLinks, InheritFirst;
  }

  lemma SplitHas(bs: seq<Block>, i: nat, need: nat, a: nat)
    requires i < |bs| && need + HEADER <= bs[i].size
    ensures HasBlock(TakePart(bs, i, need), a) <==> HasBlock(bs, a) || a == bs[i].addr + HEADER + need
  {
    var cs := TakePart(bs, i, need);
    assert cs[i].addr == bs[i].addr && cs[i + 1].addr == bs[i].addr + HEADER + need;
    if HasBlock(bs, a) {
      var j :| 0 <= j < |bs| && bs[j].addr == a;
      assert cs[if j <= i then j else j + 1].addr == a;
    }
    if HasBlock(cs, a) {
      var j :| 0 <= j < |cs| && cs[j].addr == a;
      assert j == i + 1 || bs[if j <= i then j else j - 1].addr == a;
    }
  }

  /** Clearing what a block holds touches no header. */
  lemma ClearedInside(m: Memory, bs: seq<Block>, i: nat, a: nat, n: nat)
    requires Linked(bs) && HoldsAt(bs, i, a, n)
    ensures ZeroedOnly(m, Clear(m, a, n), {}, a, a + n)
    ensures forall x: nat | Covered(x, Starts(bs)) :: Clear(m, a, n)(x) == m(x)
  {
    hide Linked, Starts, Covered;
    forall x: nat | Covered(x, Starts(bs)) ensures !(a <= x < a + n) {
      if a <= x < a + n {
        PayloadUncovered(bs, i, x);
      }
    }
  }

  lemma ClearedShown(head: map<nat, Head>, link: map<nat, Links>, m: Memory, first: Ptr, bs: seq<Block>, free: seq<nat>, i: nat, a: nat, n: nat,
                     lo: nat, hi: nat)
    requires HeapOk(head, link, first, bs, free, lo, hi) && Shows(m, head, link) && head.Keys == link.Keys == Starts(bs) && HoldsAt(bs, i, a, n)
    ensures Shows(Clear(m, a, n), head, link) && ZeroedOnly(m, Clear(m, a, n), {}, a, a + n)
  {
    hide HeapOk, Shows, Starts, Covered, HoldsAt, Clear, ZeroedOnly, Linked;
    HeapParts(head, link, first, bs, free, lo, hi);
    ClearedInside(m, bs, i, a, n);
    assert head.Keys + link.Keys == Starts(bs);
    ShowsElsewhere(m, Clear(m, a, n), head, link);
  }

  // ----- release

  /** Block i, whose header is at a, is handed out. */
  predicate UsedAt(bs: seq<Block>, i: nat, a: nat) {
    i < |bs| && bs[i].used && bs[i].addr == a
  }

  /** Block i has been released. */
  ghost predicate ReleasedAs(bs: seq<Block>, free: seq<nat>, bs': seq<Block>, free': seq<nat>, i: nat) {
    i < |bs| && bs[i].used && FreeSet(bs, free) && bs' == Release(bs, i) && free' == ReleaseFree(bs, free, i)
  }

  lemma ReleaseStart(head: map<nat, Head>, link: map<nat, Links>, first: Ptr, bs: seq<Block>, free: seq<nat>, i: nat, a: nat, lo: nat, hi: nat)
    requires HeapOk(head, link, first, bs, free, lo, hi) && lo > 0 && UsedAt(bs, i, a)
    ensures a in head && Tiling(bs, lo, hi) && OnlyMarked(head[a := head[a].(alloc := 0)], link, first, bs, free, i, a, lo, hi)
  {
    hide LinksOk, HeadsOk, Tiling, HeapOk, Linked, Release, ReleaseFree, FreeSet;
    HeapParts(head, link, first, bs, free, lo, hi);
    MarkFree(head, bs, i);
  }

  lemma ReleaseEnd(head: map<nat, Head>, link: map<nat, Links>, first: Ptr, bs: seq<Block>, free: seq<nat>, i: nat, lo: nat, hi: nat)
    requires Released(head, link, first, bs, free, i) && Tiling(bs, lo, hi) && i < |bs| && bs[i].used
    ensures HeapOk(head, link, first, Release(bs, i), ReleaseFree(bs, free, i), lo, hi)
  {
    hide Tiling, Chain, Linked, Release, ReleaseFree, FreeSet, FreeChain, UsedLinks;
    ReleaseTiling(bs, lo, hi, i);
  }

  /** Only the entries at s. */
  ghost function Only<T>(f: map<nat, T>, s: set<nat>): map<nat, T> {
    map a | a in f && a in s :: f[a]
  }

  /** The headers that no longer belong to a block may be forgotten. */
  lemma Trim(head: map<nat, Head>, link: map<nat, Links>, m: Memory, first: Ptr, bs: seq<Block>, free: seq<nat>, lo: nat, hi: nat)
    requires HeapOk(head, link, first, bs, free, lo, hi) && Shows(m, head, link)
    ensures var (h, l) := (Only(head, Starts(bs)), Only(link, Starts(bs)));
      HeapOk(h, l, first, bs, free, lo, hi) && Shows(m, h, l) && h.Keys == l.Keys == Starts(bs)
  {
    hide HeapOk, Tiling, Starts, HeadAt, LinksAt;
    var s := Starts(bs);
    var h, l := Only(head, s), Only(link, s);
    HeapParts(head, link, first, bs, free, lo, hi);
    forall i | 0 <= i < |bs| ensures bs[i].addr in s {
      BlockStarts(bs, i);
    }
    TrimLists(head, link, bs, free, s);
    forall a | a in s ensures a in head && a in link {
      StartsAre(bs, a);
      var i :| 0 <= i < |bs| && bs[i].addr == a;
      BlockHead(head, link, first, bs, free, i, lo, hi);
    }
    assert h.Keys == s && l.Keys == s;
    TrimWhole(h, l, head, link, first, bs, free, lo, hi);
  }

  lemma BlockStarts(bs: seq<Block>, i: nat)
    requires i < |bs|
    ensures bs[i].addr in Starts(bs)
  {
    assert bs[i] in bs;
  }

  lemma TrimLists(head: map<nat, Head>, link: map<nat, Links>, bs: seq<Block>, free: seq<nat>, s: set<nat>)
    requires HeadsOk(head, bs) && FreeSet(bs, free) && forall i | 0 <= i < |bs| :: bs[i].addr in s
    ensures HeadsOk(Only(head, s), bs) && forall k | 0 <= k < |free| :: free[k] in s
  {
    hide Linked;
    forall i | 0 <= i < |bs| ensures bs[i].addr in Only(head, s) && Only(head, s)[bs[i].addr] == HeadOf(bs, i) {
      ChainAt(head, bs, i);
    }
    forall k | 0 <= k < |free| ensures free[k] in s {
      assert free[k] in free;
      assert HasBlock(bs, free[k]);
    }
  }

  lemma TrimWhole(h: map<nat, Head>, l: map<nat, Links>, head: map<nat, Head>, link: map<nat, Links>, first: Ptr, bs: seq<Block>, free: seq<nat>,
                  lo: nat, hi: nat)
    requires HeapOk(head, link, first, bs, free, lo, hi) && HeadsOk(h, bs) && l == Only(link, l.Keys)
    requires (forall i | 0 <= i < |bs| :: bs[i].addr in l) && forall k | 0 <= k < |free| :: free[k] in l
    ensures HeapOk(h, l, first, bs, free, lo, hi)
  {
    hide Tiling, Chain, FreeSet, NoRepeats, Linked;
  }

  /** What is left to say when the stores of a release are done. */
  lemma ReleaseTrimmed(head: map<nat, Head>, link: map<nat, Links>, m: Memory, first: Ptr, bs: seq<Block>, free: seq<nat>, i: nat, a: nat, lo: nat, hi: nat)
    requires Released(head, link, first, bs, free, i) && Tiling(bs, lo, hi) && UsedAt(bs, i, a) && Shows(m, head, link)
    ensures i < |bs| && FreeSet(bs, free)
    ensures var (cs, fr) := (Release(bs, i), ReleaseFree(bs, free, i));
      var (h, l) := (Only(head, Starts(cs)), Only(link, Starts(cs)));
      && ReleasedAs(bs, free, cs, fr, i)
      && HeapOk(h, l, first, cs, fr, lo, hi) && Shows(m, h, l) && h.Keys == l.Keys == Starts(cs)
  {
    hide HeapOk, Tiling, Starts, Shows, Only, HeadsOk, LinksOk, FreeSet, Release, ReleaseFree;
    ReleaseEnd(head, link, first, bs, free, i, lo, hi);
    Trim(head, link, m, first, Release(bs, i), ReleaseFree(bs, free, i), lo, hi);
  }

  // ----- what callers store

  /** The n bytes at p lie in what one block holds that is handed out. */
  ghost predicate Within(bs: seq<Block>, p: nat, n: nat) {
    exists i :: 0 <= i < |bs| && bs[i].used && bs[i].addr + HEADER <= p && p + n <= bs[i].End()
  }

  lemma StoredShown(head: map<nat, Head>, link: map<nat, Links>, m: Memory, first: Ptr, bs: seq<Block>, free: seq<nat>, p: nat, b: seq<Octet>,
                    lo: nat, hi: nat)
    requires HeapOk(head, link, first, bs, free, lo, hi) && Shows(m, head, link) && head.Keys == link.Keys == Starts(bs) && Within(bs, p, |b|)
    ensures Shows(Put(m, p, b), head, link)
  {
    hide HeapOk, Shows, Starts, Covered, Within, Linked, Put;
    HeapParts(head, link, first, bs, free, lo, hi);
    StoredInside(m, bs, p, b);
    assert head.Keys + link.Keys == Starts(bs);
    ShowsElsewhere(m, Put(m, p, b), head, link);
  }

  lemma StoredInside(m: Memory, bs: seq<Block>, p: nat, b: seq<Octet>)
    requires Linked(bs) && Within(bs, p, |b|)
    ensures forall x: nat | Covered(x, Starts(bs)) :: Put(m, p, b)(x) == m(x)
  {
    hide Starts, Covered, Linked;
    var i :| 0 <= i < |bs| && bs[i].used && bs[i].addr + HEADER <= p && p + |b| <= bs[i].End();
    forall x: nat | Covered(x, Starts(bs)) ensures !(p <= x < p + |b|) {
      if p <= x < p + |b| {
        PayloadUncovered(bs, i, x);
      }
    }
  }
}
