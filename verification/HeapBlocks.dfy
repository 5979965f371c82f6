/** The blocks of the buffer heap as a sequence in address order, and what allocation and release
    do to it. */
module HeapBlocks {

  /** sizeof(memory_header): eight 32-bit fields. */
  const HEADER: nat := 32

  /** MBEDTLS_MEMORY_ALIGN_MULTIPLE. */
  const ALIGN: nat := 4

  /** A header at addr with size bytes behind it. */
  datatype Block = Block(addr: nat, size: nat, used: bool) {
    function End(): nat {
      addr + HEADER + size
    }
  }

  ghost predicate Linked(bs: seq<Block>) {
    forall i {:trigger bs[i].End()} | 0 <= i < |bs| - 1 :: bs[i].End() == bs[i + 1].addr
  }

  ghost predicate NonEmpty(bs: seq<Block>) {
    forall b | b in bs :: b.size > 0
  }

  ghost predicate Aligned(bs: seq<Block>) {
    forall b | b in bs :: b.addr % ALIGN == 0
  }

  ghost predicate NoFreeNeighbours(bs: seq<Block>) {
    forall i, j {:trigger bs[i].used, bs[j].used} | 0 <= i < |bs| && j == i + 1 < |bs| :: bs[i].used || bs[j].used
  }

  /** The blocks tile [lo, hi) without gaps, every header is aligned, and no two neighbours are both free. */
  ghost predicate Tiling(bs: seq<Block>, lo: nat, hi: nat) {
    && bs != [] && bs[0].addr == lo && bs[|bs| - 1].End() == hi
    && Linked(bs) && NonEmpty(bs) && Aligned(bs) && NoFreeNeighbours(bs)
  }

  /** The blocks handed out and not yet released. */
  ghost function Live(bs: seq<Block>): set<Block> {
    set b | b in bs && b.used
  }

  lemma {:induction false} Ordered(bs: seq<Block>, i: nat, j: nat)
    requires Linked(bs) && i < j < |bs|
    ensures bs[i].End() <= bs[j].addr
    decreases j
  {
    if i + 1 < j {
      Ordered(bs, i, j - 1);
    }
    assert bs[j - 1].End() == bs[j].addr;
  }

  /** Distinct blocks have distinct, disjoint address ranges. */
  lemma SameAddress(bs: seq<Block>, i: nat, j: nat)
    requires Linked(bs) && i < |bs| && j < |bs| && bs[i].addr == bs[j].addr
    ensures i == j
  {
    if i < j {
      Ordered(bs, i, j);
    } else if j < i {
      Ordered(bs, j, i);
    }
  }

  lemma InRange(bs: seq<Block>, lo: nat, hi: nat, i: nat)
    requires Tiling(bs, lo, hi) && i < |bs|
    ensures lo <= bs[i].addr && bs[i].End() <= hi && bs[i].size > 0
  {
    assert bs[i] in bs;
    if i > 0 {
      Ordered(bs, 0, i);
    }
    if i < |bs| - 1 {
      Ordered(bs, i, |bs| - 1);
    }
  }

  // ----- allocation

  /** The whole free block i is handed out. */
  function TakeWhole(bs: seq<Block>, i: nat): seq<Block>
    requires i < |bs|
  {
    bs[i := bs[i].(used := true)]
  }

  /** Block i is split: its first len bytes are handed out, the rest becomes a free block. */
  function TakePart(bs: seq<Block>, i: nat, len: nat): seq<Block>
    requires i < |bs| && len + HEADER <= bs[i].size
  {
    bs[..i] + [Block(bs[i].addr, len, true), Block(bs[i].addr + HEADER + len, bs[i].size - len - HEADER, false)] + bs[i + 1..]
  }

  /** Block i is split only if another header and one aligned unit fit behind the len bytes. */
  function Take(bs: seq<Block>, i: nat, len: nat): seq<Block>
    requires i < |bs| && len <= bs[i].size
  {
    if bs[i].size - len < HEADER + ALIGN then TakeWhole(bs, i) else TakePart(bs, i, len)
  }

  lemma TakeTiling(bs: seq<Block>, lo: nat, hi: nat, i: nat, len: nat)
    requires Tiling(bs, lo, hi) && i < |bs| && !bs[i].used && 0 < len <= bs[i].size && len % ALIGN == 0
    ensures Tiling(Take(bs, i, len), lo, hi)
  {
    if bs[i].size - len < HEADER + ALIGN {
      TakeWholeTiling(bs, lo, hi, i);
    } else {
      TakePartTiling(bs, lo, hi, i, len);
    }
  }

  lemma TakeWholeTiling(bs: seq<Block>, lo: nat, hi: nat, i: nat)
    requires Tiling(bs, lo, hi) && i < |bs|
    ensures Tiling(TakeWhole(bs, i), lo, hi)
  {
    var cs := TakeWhole(bs, i);
    forall j | 0 <= j < |cs| - 1 ensures cs[j].End() == cs[j + 1].addr {
      assert bs[j].End() == bs[j + 1].addr;
    }
    forall b | b in cs ensures b.addr % ALIGN == 0 && b.size > 0 {
      var j :| 0 <= j < |cs| && cs[j] == b;
      assert bs[j] in bs;
    }
  }

  lemma TakePartTiling(bs: seq<Block>, lo: nat, hi: nat, i: nat, len: nat)
    requires Tiling(bs, lo, hi) && i < |bs| && !bs[i].used && 0 < len && len + HEADER < bs[i].size && len % ALIGN == 0
    ensures Tiling(TakePart(bs, i, len), lo, hi)
  {
    hide Linked, NonEmpty, Aligned, NoFreeNeighbours;
    TakePartLinked(bs, i, len);
    TakePartAligned(bs, i, len);
    TakePartNoFreeNeighbours(bs, i, len);
  }

  lemma TakePartLinked(bs: seq<Block>, i: nat, len: nat)
    requires Linked(bs) && i < |bs| && len + HEADER <= bs[i].size
    ensures Linked(TakePart(bs, i, len))
  {
    var cs := TakePart(bs, i, len);
    forall j | 0 <= j < |cs| - 1 ensures cs[j].End() == cs[j + 1].addr {
      if j > i {
        assert bs[j - 1].End() == cs[j].End();
      } else if j < i {
        assert bs[j].End() == bs[j + 1].addr;
      }
    }
  }

  lemma TakePartAligned(bs: seq<Block>, i: nat, len: nat)
    requires NonEmpty(bs) && Aligned(bs) && i < |bs| && 0 < len && len + HEADER < bs[i].size && len % ALIGN == 0
    ensures NonEmpty(TakePart(bs, i, len)) && Aligned(TakePart(bs, i, len))
  {
    var cs := TakePart(bs, i, len);
    forall b | b in cs ensures b.addr % ALIGN == 0 && b.size > 0 {
      assert bs[i] in bs;
      assert b in bs || b in cs[i..i + 2];
    }
  }

  lemma TakePartNoFreeNeighbours(bs: seq<Block>, i: nat, len: nat)
    requires NoFreeNeighbours(bs) && i < |bs| && !bs[i].used && len + HEADER <= bs[i].size
    ensures NoFreeNeighbours(TakePart(bs, i, len))
  {
    var cs := TakePart(bs, i, len);
    forall j, k | 0 <= j < |cs| && k == j + 1 < |cs| ensures cs[j].used || cs[k].used {
      if j > i + 1 {
        assert bs[j - 1].used || bs[j].used;
      } else if j == i + 1 {
        assert bs[i].used || bs[i + 1].used;
      } else if k < i {
        assert bs[j].used || bs[k].used;
      }
    }
  }

  /** Handing out wastes less than a header and one aligned unit, and gives back everything beyond: a block of
      exactly len bytes is cut off wherever a header and one unit fit behind it. */
  lemma TakeWastesLittle(bs: seq<Block>, i: nat, len: nat)
    requires i < |bs| && len <= bs[i].size
    ensures var cs := Take(bs, i, len);
      && i < |cs| && cs[i].addr == bs[i].addr && len <= cs[i].size < len + 36
      && (bs[i].size < len + 36 ==> |cs| == |bs| && cs[i].size == bs[i].size)
      && (bs[i].size >= len + 36 ==>
           |cs| == |bs| + 1 && cs[i].size == len && cs[i + 1] == Block(bs[i].addr + 32 + len, bs[i].size - len - 32, false))
  {}

  // ----- release

  /** Whether the block before, or after, block i is there and free. */
  predicate FreeBefore(bs: seq<Block>, i: nat) {
    0 < i <= |bs| && !bs[i - 1].used
  }

  predicate FreeAfter(bs: seq<Block>, i: nat) {
    i + 1 < |bs| && !bs[i + 1].used
  }

  /** Block i becomes free and is merged with its free neighbours. */
  function Release(bs: seq<Block>, i: nat): seq<Block>
    requires i < |bs|
  {
    var lo := if FreeBefore(bs, i) then i - 1 else i;
    var hi := if FreeAfter(bs, i) then i + 1 else i;
    Merge(bs, lo, hi)
  }

  /** Blocks lo to hi become one free block. */
  function Merge(bs: seq<Block>, lo: nat, hi: nat): seq<Block>
    requires lo <= hi < |bs|
  {
    bs[..lo] + [Block(bs[lo].addr, Sizes(bs[lo..hi + 1]), false)] + bs[hi + 1..]
  }

  /** The bytes behind the first header when the blocks become one. */
  function Sizes(bs: seq<Block>): nat {
    if |bs| == 0 then 0 else if |bs| == 1 then bs[0].size else bs[0].size + HEADER + Sizes(bs[1..])
  }

  lemma {:induction false} SizesEnd(bs: seq<Block>, lo: nat, hi: nat)
    requires Linked(bs) && lo <= hi < |bs|
    ensures bs[lo].addr + HEADER + Sizes(bs[lo..hi + 1]) == bs[hi].End()
    decreases hi - lo
  {
    if lo < hi {
      SizesEnd(bs, lo + 1, hi);
      assert bs[lo..hi + 1][1..] == bs[lo + 1..hi + 1];
      assert bs[lo].End() == bs[lo + 1].addr;
    }
  }

  lemma MergeLinked(bs: seq<Block>, from: nat, to: nat)
    requires Linked(bs) && from <= to < |bs|
    ensures Linked(Merge(bs, from, to))
  {
    var cs := Merge(bs, from, to);
    SizesEnd(bs, from, to);
    var d := to - from;
    forall j | 0 <= j < |cs| - 1 ensures cs[j].End() == cs[j + 1].addr {
      if j < from {
        assert bs[j].End() == bs[j + 1].addr;
      } else {
        assert bs[j + d].End() == bs[j + d + 1].addr;
      }
    }
  }

  lemma MergeAligned(bs: seq<Block>, from: nat, to: nat)
    requires Linked(bs) && NonEmpty(bs) && Aligned(bs) && from <= to < |bs|
    ensures NonEmpty(Merge(bs, from, to)) && Aligned(Merge(bs, from, to))
  {
    var cs := Merge(bs, from, to);
    SizesEnd(bs, from, to);
    if from < to {
      Ordered(bs, from, to);
    }
    forall b | b in cs ensures b.addr % ALIGN == 0 && b.size > 0 {
      assert bs[from] in bs && bs[to] in bs;
      assert b in bs || b == cs[from];
    }
  }

  lemma MergeNoFreeNeighbours(bs: seq<Block>, from: nat, to: nat)
    requires NoFreeNeighbours(bs) && from <= to < |bs|
    requires from > 0 ==> bs[from - 1].used
    requires to < |bs| - 1 ==> bs[to + 1].used
    ensures NoFreeNeighbours(Merge(bs, from, to))
  {
    var cs := Merge(bs, from, to);
    var d := to - from;
    forall j, k | 0 <= j < |cs| && k == j + 1 < |cs| ensures cs[j].used || cs[k].used {
      if j > from {
        assert bs[j + d].used || bs[k + d].used;
      } else if k < from {
        assert bs[j].used || bs[k].used;
      }
    }
  }

  lemma MergeTiling(bs: seq<Block>, lo: nat, hi: nat, from: nat, to: nat)
    requires Tiling(bs, lo, hi) && from <= to < |bs|
    requires from > 0 ==> bs[from - 1].used
    requires to < |bs| - 1 ==> bs[to + 1].used
    ensures Tiling(Merge(bs, from, to), lo, hi)
  {
    hide Linked, NonEmpty, Aligned, NoFreeNeighbours;
    MergeLinked(bs, from, to);
    MergeAligned(bs, from, to);
    MergeNoFreeNeighbours(bs, from, to);
    SizesEnd(bs, from, to);
  }

  lemma ReleaseTiling(bs: seq<Block>, lo: nat, hi: nat, i: nat)
    requires Tiling(bs, lo, hi) && i < |bs| && bs[i].used
    ensures Tiling(Release(bs, i), lo, hi)
  {
    var from := if FreeBefore(bs, i) then i - 1 else i;
    var to := if FreeAfter(bs, i) then i + 1 else i;
    assert FreeBefore(bs, i) && i > 1 ==> bs[i - 1].used || bs[i - 2].used;
    assert FreeAfter(bs, i) && i + 2 < |bs| ==> bs[i + 1].used || bs[i + 2].used;
    MergeTiling(bs, lo, hi, from, to);
  }

  // ----- what is live afterwards

  lemma TakeLive(bs: seq<Block>, i: nat, len: nat)
    requires i < |bs| && !bs[i].used && len <= bs[i].size
    ensures i < |Take(bs, i, len)| && Take(bs, i, len)[i].addr == bs[i].addr
    ensures Take(bs, i, len)[i].used && len <= Take(bs, i, len)[i].size
    ensures Live(Take(bs, i, len)) == Live(bs) + {Take(bs, i, len)[i]}
  {
    var cs := Take(bs, i, len);
    forall b: Block | b.used ensures b in cs <==> b in bs || b == cs[i] {
      if b in bs {
        var j :| 0 <= j < |bs| && bs[j] == b;
        assert j < i || j > i;
        assert b == cs[if j < i then j else j + |cs| - |bs|];
      }
      if b in cs {
        var j :| 0 <= j < |cs| && cs[j] == b;
        assert j == i || b == bs[if j < i then j else j - (|cs| - |bs|)];
      }
    }
  }

  /** Releasing changes the size of no live block and kills only the one that is released. */
  lemma ReleaseLive(bs: seq<Block>, i: nat)
    requires Linked(bs) && i < |bs| && bs[i].used
    ensures Live(Release(bs, i)) == Live(bs) - {bs[i]}
  {
    var cs := Release(bs, i);
    var lo := if FreeBefore(bs, i) then i - 1 else i;
    var hi := if FreeAfter(bs, i) then i + 1 else i;
    forall b: Block | b.used ensures b in cs <==> b in bs && b != bs[i] {
      if b in bs && b != bs[i] {
        var j :| 0 <= j < |bs| && bs[j] == b;
        assert j < lo || j > hi;
        assert b == cs[if j < lo then j else j - (hi - lo)];
      }
      if b in cs {
        var j :| 0 <= j < |cs| && cs[j] == b;
        var k := if j < lo then j else j + (hi - lo);
        assert b == bs[k] && k != i;
        if bs[k].addr == bs[i].addr {
          SameAddress(bs, k, i);
        }
      }
    }
  }

  ghost predicate OneFreeBlock(bs: seq<Block>, lo: nat, hi: nat) {
    |bs| == 1 && bs[0].addr == lo && bs[0].End() == hi && !bs[0].used
  }

  lemma SomeUsed(bs: seq<Block>)
    requires NoFreeNeighbours(bs) && |bs| > 1
    ensures bs[0] in Live(bs) || bs[1] in Live(bs)
  {
    assert bs[0] in bs && bs[1] in bs;
  }

  /** If nothing is live, the heap is one free block over the whole buffer. */
  lemma NothingLive(bs: seq<Block>, lo: nat, hi: nat)
    requires Tiling(bs, lo, hi) && Live(bs) == {}
    ensures OneFreeBlock(bs, lo, hi)
  {
    if |bs| > 1 {
      SomeUsed(bs);
    } else {
      assert bs[0] !in Live(bs);
    }
  }

  // ----- releasing everything

  /** Where b is in the sequence. */
  ghost function IndexOf<T>(bs: seq<T>, b: T): (i: nat)
    requires b in bs
    ensures i < |bs| && bs[i] == b
  {
    var i :| 0 <= i < |bs| && bs[i] == b;
    i
  }

  /** The live blocks of bs are the elements of order, each listed once. */
  ghost predicate Lists(order: seq<Block>, bs: seq<Block>) {
    && (forall b :: b in order <==> b in Live(bs))
    && (forall i, j | 0 <= i < j < |order| :: order[i] != order[j])
  }

  ghost function ReleaseAll(bs: seq<Block>, order: seq<Block>): seq<Block>
    decreases |order|
  {
    if order == [] || order[0] !in bs then bs
    else ReleaseAll(Release(bs, IndexOf(bs, order[0])), order[1..])
  }

  /** Removing the first block of the list and of the heap. */
  lemma ListsRest(order: seq<Block>, bs: seq<Block>, cs: seq<Block>)
    requires Lists(order, bs) && order != [] && Live(cs) == Live(bs) - {order[0]}
    ensures Lists(order[1..], cs)
  {
    hide Live;
    forall b ensures b in order[1..] <==> b in Live(cs) {
      if b in order[1..] {
        var j :| 0 <= j < |order[1..]| && order[1..][j] == b;
        assert order[j + 1] == b && b != order[0];
      }
      if b in Live(cs) {
        var j :| 0 <= j < |order| && order[j] == b;
        assert b == order[1..][j - 1];
      }
    }
  }

  /** Whatever the order in which the live blocks are released, the single initial block is back. */
  lemma {:induction false} ReleaseAllRestores(bs: seq<Block>, lo: nat, hi: nat, order: seq<Block>)
    requires Tiling(bs, lo, hi) && Lists(order, bs)
    ensures OneFreeBlock(ReleaseAll(bs, order), lo, hi)
    decreases |order|
  {
    hide Tiling, Release;
    if order == [] {
      NothingLive(bs, lo, hi);
    } else {
      assert order[0] in Live(bs);
      var i := IndexOf(bs, order[0]);
      ReleaseTiling(bs, lo, hi, i);
      TilingLinked(bs, lo, hi);
      ReleaseLive(bs, i);
      ListsRest(order, bs, Release(bs, i));
      ReleaseAllRestores(Release(bs, i), lo, hi, order[1..]);
    }
  }

  lemma TilingLinked(bs: seq<Block>, lo: nat, hi: nat)
    requires Tiling(bs, lo, hi)
    ensures Linked(bs)
  {}
}
