/** The buffer allocator of memory_buffer_alloc.twl.c: initialisation, allocation, release, verification. */
module BufferHeap {
  import opened Arithmetic
  import opened ByteNumbers
  import opened HeapBlocks
  import opened HeapLists
  import opened HeapMemory
  import opened HeapRelease
  import opened HeapTaking
  import opened HeapVerify

  /** Flags of heap.verify. */
  const VERIFY_ALLOC: nat := 1
  const VERIFY_FREE: nat := 2

  /** Whether a flag is set in heap.verify. */
  predicate Flag(verify: nat, flag: nat)
    requires flag > 0
  {
    verify / flag % 2 == 1
  }

  /** The flags are bits 0 and 1. */
  lemma FlagBits(verify: nat)
    ensures Flag(verify, VERIFY_ALLOC) <==> verify % 4 == 1 || verify % 4 == 3
    ensures Flag(verify, VERIFY_FREE) <==> verify % 4 == 2 || verify % 4 == 3
  {}

  /** The true number of bytes of a request. */
  function Bytes(n: nat, size: nat): nat {
    n * size
  }

  /** How far a start address is moved up to become aligned. */
  function Padding(b: nat): nat {
    if b % ALIGN != 0 then ALIGN - b % ALIGN else 0
  }

  class Heap {
    var buf: Ptr
    var len: nat
    var first: Ptr
    var firstFree: Ptr
    var verify: nat

    /** All of memory; the buffer is the part of it at buf. */
    var mem: Memory

    /** The headers of the blocks, the blocks in address order, and the free list. */
    ghost var head: map<nat, Head>
    ghost var link: map<nat, Links>
    ghost var blocks: seq<Block>
    ghost var free: seq<nat>

    ghost predicate Valid()
      reads this
    {
      if buf.Null? then first.Null?
      else
        first == buf && Intact()
    }

    /** The lists and the blocks agree, and the memory holds exactly the headers of the blocks. */
    ghost predicate Intact()
      reads this
    {
      && buf.At? && buf.addr > 0 && buf.addr + len < WORDS
      && HeapOk(head, link, firstFree, blocks, free, buf.addr, buf.addr + len)
      && Shown() && head.Keys == link.Keys == Starts(blocks)
    }

    /** The memory holds the headers. */
    ghost predicate Shown()
      reads this
    {
      Shows(mem, head, link)
    }

    ghost function Keys(): set<nat>
      reads this
    {
      head.Keys + link.Keys
    }

    /** What the bytes at a say, if a is taken for a header. */
    function GetHead(a: nat): (h: Head)
      reads this
      ensures h == HeadAt(mem, a) && h.size < WORDS && Fits(h.prev) && Fits(h.next)
    {
      HeadAt(mem, a)
    }

    function GetLinks(a: nat): (l: Links)
      reads this
      ensures l == LinksAt(mem, a) && Fits(l.prev) && Fits(l.next)
    {
      LinksAt(mem, a)
    }

    constructor (memory: Memory)
      ensures Valid() && buf == Null && mem == memory && verify == 0
    {
      buf, len, first, firstFree, verify := Null, 0, Null, Null, 0;
      mem := memory;
      head, link, blocks, free := map[], map[], [], [];
    }

    // ----- stores to one field of a header

    method SetSize(a: nat, v: nat)
      modifies this`mem, this`head
      ensures SameOutside(old(mem), mem, a)
      ensures old(Shown()) && a in old(head) && v < WORDS ==>
        Shown() && Keys() == old(Keys()) && head == old(head)[a := old(head)[a].(size := v)]
      ensures a in old(Keys()) ==> Outside(old(mem), mem, old(Keys()))
    {
      hide Outside, HeadAt, LinksAt, Shows, SameOutside, PutWord;
      PutInside(mem, a, SIZE_AT, v);
      ghost var m, s := mem, Keys();
      mem := PutWord(mem, a + SIZE_AT, v);
      if a in s {
        OutsideOne(m, mem, a, s);
      }
      if Shows(m, head, link) && a in head && v < WORDS {
        SetSizeIs(m, a, v);
        head := StoreHead(m, mem, head, link, a);
      }
    }

    method SetAlloc(a: nat, v: nat)
      requires v < WORDS
      modifies this`mem, this`head
      ensures SameOutside(old(mem), mem, a) && GetHead(a) == old(GetHead(a)).(alloc := v)
      ensures old(Shown()) && a in old(head) ==>
        Shown() && Keys() == old(Keys()) && head == old(head)[a := old(head)[a].(alloc := v)]
      ensures a in old(Keys()) ==> Outside(old(mem), mem, old(Keys()))
    {
      hide Outside, HeadAt, LinksAt, Shows, SameOutside, PutWord;
      SetAllocIs(mem, a, v);
      ghost var m, s := mem, Keys();
      mem := PutWord(mem, a + ALLOC_AT, v);
      if a in s {
        OutsideOne(m, mem, a, s);
      }
      if Shows(m, head, link) && a in head {
        head := StoreHead(m, mem, head, link, a);
      }
    }

    method SetPrev(a: nat, p: Ptr)
      requires Fits(p)
      modifies this`mem, this`head
      ensures SameOutside(old(mem), mem, a)
      ensures old(Shown()) && a in old(head) ==>
        Shown() && Keys() == old(Keys()) && head == old(head)[a := old(head)[a].(prev := p)]
      ensures a in old(Keys()) ==> Outside(old(mem), mem, old(Keys()))
    {
      hide Outside, HeadAt, LinksAt, Shows, SameOutside, PutWord;
      SetPrevIs(mem, a, p);
      ghost var m, s := mem, Keys();
      mem := PutWord(mem, a + PREV_AT, WordOf(p));
      if a in s {
        OutsideOne(m, mem, a, s);
      }
      if Shows(m, head, link) && a in head {
        head := StoreHead(m, mem, head, link, a);
      }
    }

    method SetNext(a: nat, p: Ptr)
      requires Fits(p)
      modifies this`mem, this`head
      ensures SameOutside(old(mem), mem, a)
      ensures old(Shown()) && a in old(head) ==>
        Shown() && Keys() == old(Keys()) && head == old(head)[a := old(head)[a].(next := p)]
      ensures a in old(Keys()) ==> Outside(old(mem), mem, old(Keys()))
    {
      hide Outside, HeadAt, LinksAt, Shows, SameOutside, PutWord;
      SetNextIs(mem, a, p);
      ghost var m, s := mem, Keys();
      mem := PutWord(mem, a + NEXT_AT, WordOf(p));
      if a in s {
        OutsideOne(m, mem, a, s);
      }
      if Shows(m, head, link) && a in head {
        head := StoreHead(m, mem, head, link, a);
      }
    }

    method SetPrevFree(a: nat, p: Ptr)
      requires Fits(p)
      modifies this`mem, this`link
      ensures SameOutside(old(mem), mem, a)
      ensures old(Shown()) && a in old(link) ==>
        Shown() && Keys() == old(Keys()) && link == old(link)[a := old(link)[a].(prev := p)]
      ensures a in old(Keys()) ==> Outside(old(mem), mem, old(Keys()))
    {
      hide Outside, HeadAt, LinksAt, Shows, SameOutside, PutWord;
      SetPrevFreeIs(mem, a, p);
      ghost var m, s := mem, Keys();
      mem := PutWord(mem, a + PREV_FREE_AT, WordOf(p));
      if a in s {
        OutsideOne(m, mem, a, s);
      }
      if Shows(m, head, link) && a in link {
        link := StoreLinks(m, mem, head, link, a);
      }
    }

    method SetNextFree(a: nat, p: Ptr)
      requires Fits(p)
      modifies this`mem, this`link
      ensures SameOutside(old(mem), mem, a)
      ensures old(Shown()) && a in old(link) ==>
        Shown() && Keys() == old(Keys()) && link == old(link)[a := old(link)[a].(next := p)]
      ensures a in old(Keys()) ==> Outside(old(mem), mem, old(Keys()))
    {
      hide Outside, HeadAt, LinksAt, Shows, SameOutside, PutWord;
      SetNextFreeIs(mem, a, p);
      ghost var m, s := mem, Keys();
      mem := PutWord(mem, a + NEXT_FREE_AT, WordOf(p));
      if a in s {
        OutsideOne(m, mem, a, s);
      }
      if Shows(m, head, link) && a in link {
        link := StoreLinks(m, mem, head, link, a);
      }
    }

    /** Both free links of hdr are stored, which may be new. */
    method CopyLinks(hdr: nat, was: nat)
      modifies this`mem, this`link
      ensures SameOutside(old(mem), mem, hdr)
      ensures old(Shown()) && was in old(link) && Apart(old(Keys()) + {hdr}) ==>
        Shown() && link == old(link)[hdr := old(link)[was]]
    {
      hide HeadAt, LinksAt, Shows, SameOutside, PutWord;
      ghost var m, l, good := mem, link, Shown() && was in link && Apart(Keys() + {hdr});
      SetPrevFreeIs(mem, hdr, GetLinks(was).prev);
      mem := PutWord(mem, hdr + PREV_FREE_AT, WordOf(GetLinks(was).prev));
      ghost var m1 := mem;
      SetNextFreeIs(mem, hdr, GetLinks(was).next);
      mem := PutWord(mem, hdr + NEXT_FREE_AT, WordOf(GetLinks(was).next));
      SameOutsideThen(m, m1, mem, hdr);
      if good {
        CopiedLinks(m, m1, mem, head, l, hdr, was);
        link := l[hdr := l[was]];
      }
    }

    /** A header is erased. */
    method Erase(a: nat)
      modifies this`mem, this`head, this`link
      ensures SameOutside(old(mem), mem, a)
      ensures old(Shown()) && a in old(head) && a in old(link) ==>
        Shown() && head == old(head)[a := ZERO_HEAD] && link == old(link)[a := ZERO_LINKS]
    {
      hide HeadAt, LinksAt, Shows, SameOutside, Clear;
      EraseIs(mem, a);
      ghost var m := mem;
      mem := Clear(mem, a, HEADER);
      if Shows(m, head, link) && a in head && a in link {
        StoreBoth(m, mem, head, link, a);
        head, link := head[a := ZERO_HEAD], link[a := ZERO_LINKS];
      }
    }

    /** The fields of a new header, but for its free links. */
    method NewHeader(n: nat, size: nat, prev: Ptr, next: Ptr)
      requires Shown() && size < WORDS && Fits(prev) && Fits(next) && n !in head && n !in link && Apart(Keys() + {n})
      modifies this`mem, this`head
      ensures SameOutside(old(mem), mem, n) && Shown()
      ensures head == old(head)[n := Head(MAGIC1, size, 0, prev, next, MAGIC2)]
    {
      hide HeadAt, LinksAt, Shows, SameOutside, PutWord;
      ghost var m := mem;
      SetSizeIs(mem, n, size);
      mem := PutWord(mem, n + SIZE_AT, size);
      ghost var m1 := mem;
      SetAllocIs(mem, n, 0);
      mem := PutWord(mem, n + ALLOC_AT, 0);
      ghost var m2 := mem;
      SetPrevIs(mem, n, prev);
      mem := PutWord(mem, n + PREV_AT, WordOf(prev));
      ghost var m3 := mem;
      SetNextIs(mem, n, next);
      mem := PutWord(mem, n + NEXT_AT, WordOf(next));
      ghost var m4 := mem;
      SetMagic1Is(mem, n, MAGIC1);
      mem := PutWord(mem, n + MAGIC1_AT, MAGIC1);
      ghost var m5 := mem;
      SetMagic2Is(mem, n, MAGIC2);
      mem := PutWord(mem, n + MAGIC2_AT, MAGIC2);
      SameOutsideThen(m, m1, m2, n);
      SameOutsideThen(m, m2, m3, n);
      SameOutsideThen(m, m3, m4, n);
      SameOutsideThen(m, m4, m5, n);
      SameOutsideThen(m, m5, mem, n);
      AddHead(m, mem, head, link, n);
      head := head[n := HeadAt(mem, n)];
    }

    // ----- initialisation

    /** mbedtls_memory_buffer_alloc_init: one free block over the aligned part of the buffer. */
    method Init(b: nat, n: nat)
      requires b > 0 && b + n < WORDS
      modifies this
      ensures Valid() && verify == 0
      ensures n < HEADER + ALIGN ==> buf == Null && blocks == []
      ensures n >= HEADER + ALIGN ==>
        && buf == At(b + Padding(b)) && len == n - Padding(b) && free == [b + Padding(b)]
        && blocks == [Block(b + Padding(b), n - Padding(b) - HEADER, false)]
    {
      hide HeapOk, Padding, Shows, Starts;
      buf, len, first, firstFree, verify := Null, 0, Null, Null, 0;
      head, link, blocks, free := map[], map[], [], [];
      if n < HEADER + ALIGN {
        return;
      }
      PaddingAligns(b);
      Start(b + Padding(b), n - Padding(b));
    }

    /** The aligned buffer is cleared and becomes one free block. */
    method Start(b: nat, n: nat)
      requires b > 0 && b % ALIGN == 0 && n > HEADER && b + n < WORDS
      modifies this`buf, this`len, this`first, this`firstFree, this`mem, this`head, this`link, this`blocks, this`free
      ensures Valid() && buf == At(b) && len == n
      ensures blocks == [Block(b, n - HEADER, false)] && free == [b]
    {
      hide Tiling, Chain, FreeChain, FreeSet, UsedLinks, Shows, Starts, HeadAt, LinksAt;
      ClearedHeader(mem, b, n);
      mem := Clear(mem, b, n);
      buf, len := At(b), n;
      first := At(b);
      FirstHeader(b, n - HEADER);
      firstFree := first;
      head := map[b := Head(MAGIC1, n - HEADER, 0, Null, Null, MAGIC2)];
      link := map[b := ZERO_LINKS];
      blocks := [Block(b, n - HEADER, false)];
      free := [b];
      InitialOk(head, link, b, n);
      InitialShown(mem, b, n - HEADER);
    }

    /** The fields of the first header, in zeroed memory. */
    method FirstHeader(a: nat, size: nat)
      requires size < WORDS && HeadAt(mem, a) == ZERO_HEAD && LinksAt(mem, a) == ZERO_LINKS
      modifies this`mem
      ensures HeadAt(mem, a) == Head(MAGIC1, size, 0, Null, Null, MAGIC2) && LinksAt(mem, a) == ZERO_LINKS
    {
      hide HeadAt, LinksAt, SameOutside, PutWord;
      SetSizeIs(mem, a, size);
      mem := PutWord(mem, a + SIZE_AT, size);
      SetMagic1Is(mem, a, MAGIC1);
      mem := PutWord(mem, a + MAGIC1_AT, MAGIC1);
      SetMagic2Is(mem, a, MAGIC2);
      mem := PutWord(mem, a + MAGIC2_AT, MAGIC2);
    }

    /** mbedtls_memory_buffer_set_verify. */
    method SetVerify(v: nat)
      requires Valid()
      modifies this`verify
      ensures Valid() && verify == v
    {
      hide HeapOk, Shows, Starts;
      verify := v;
    }

    // ----- the free list. What these methods promise holds if the heap is good; they are run on any memory.

    /** The removal of a block from the free list, as both functions write it. */
    method Unlink(a: nat, ghost k: nat, ghost fr: seq<nat>, ghost good: bool)
      requires good ==> Shown() && FreeChain(link, fr) && firstFree == FirstFree(fr) && k < |fr| && fr[k] == a
      requires Fits(firstFree)
      modifies this`mem, this`link, this`firstFree
      ensures Fits(firstFree)
      ensures good ==>
        && a in old(link) && (old(link)[a].prev.At? ==> old(link)[a].prev.addr in old(link))
        && (old(link)[a].next.At? ==> old(link)[a].next.addr in old(link))
        && link == UnlinkLinks(old(link), a) && firstFree == UnlinkFirst(old(link), FirstFree(fr), a)
        && Shown() && Keys() == old(Keys()) && Outside(old(mem), mem, old(Keys()))
    {
      hide Shows, SameOutside, Outside, HeadAt, LinksAt, FreeChain;
      ghost var m, s := mem, Keys();
      OutsideNone(m, s);
      if good {
        FreeAt(link, fr, k);
        LinksShown(mem, head, link, a);
      }
      if GetLinks(a).prev != Null {
        SetNextFree(GetLinks(a).prev.addr, GetLinks(a).next);
      } else {
        firstFree := GetLinks(a).next;
      }
      ghost var m1 := mem;
      if good {
        LinksShown(mem, head, link, a);
      }
      if GetLinks(a).next != Null {
        SetPrevFree(GetLinks(a).next.addr, GetLinks(a).prev);
      }
      if good {
        OutsideNone(m1, s);
        OutsideThen(m, m1, mem, s);
      }
    }

    /** hdr takes the place of old in the free list, as both functions write it. */
    method Inherit(hdr: nat, was: nat, ghost k: nat, ghost fr: seq<nat>, ghost good: bool)
      requires hdr < WORDS
      requires good ==> Shown() && FreeChain(link, fr) && firstFree == FirstFree(fr) && k < |fr| && fr[k] == was
      requires good ==> hdr !in fr && hdr > 0 && Apart(Keys() + {hdr})
      requires Fits(firstFree)
      modifies this`mem, this`link, this`firstFree
      ensures Fits(firstFree)
      ensures good ==>
        && was in old(link) && (old(link)[was].prev.At? ==> old(link)[was].prev.addr in old(link))
        && (old(link)[was].next.At? ==> old(link)[was].next.addr in old(link))
        && link == InheritLinks(old(link), hdr, was) && firstFree == InheritFirst(old(link), FirstFree(fr), hdr, was)
        && Shown() && Keys() == old(Keys()) + {hdr} && Outside(old(mem), mem, old(Keys()) + {hdr})
    {
      hide Shows, SameOutside, Outside, HeadAt, LinksAt, FreeChain;
      ghost var m, s := mem, Keys() + {hdr};
      if good {
        FreeAt(link, fr, k);
      }
      CopyLinks(hdr, was);
      ghost var m1 := mem;
      if good {
        LinksShown(mem, head, link, hdr);
        OutsideOne(m, mem, hdr, s);
        assert Keys() == s;
      }
      if GetLinks(hdr).prev != Null {
        SetNextFree(GetLinks(hdr).prev.addr, PtrOf(hdr));
      } else {
        firstFree := PtrOf(hdr);
      }
      ghost var m2 := mem;
      if good {
        LinksShown(mem, head, link, hdr);
        OutsideNone(m1, s);
        OutsideThen(m, m1, mem, s);
      }
      if GetLinks(hdr).next != Null {
        SetPrevFree(GetLinks(hdr).next.addr, PtrOf(hdr));
      }
      if good {
        OutsideNone(m2, s);
        OutsideThen(m, m2, mem, s);
      }
    }

    // ----- buffer_alloc_calloc

    /** The search loop of the allocator. */
    method FindFit(need: nat) returns (cur: Ptr, ghost k: nat)
      requires Intact()
      ensures cur == Null ==> NoFit(blocks, free, need)
      ensures cur != Null ==> FirstFit(blocks, free, need, k) && cur == At(free[k])
    {
      hide Tiling, Chain, FreeChain, FreeSet, UsedLinks, SizeAt, HasBlock, Shows, HeadAt, LinksAt, Starts;
      TilingLinked(blocks, buf.addr, buf.addr + len);
      cur, k := firstFree, 0;
      while cur != Null
        invariant k <= |free| && cur == (if k < |free| then At(free[k]) else Null)
        invariant forall j | 0 <= j < k :: HasBlock(blocks, free[j]) && SizeAt(blocks, free[j]) < need
        decreases |free| - k
      {
        FreeSize(head, blocks, free, k);
        FreeAt(link, free, k);
        HeadShown(mem, head, link, cur.addr);
        LinksShown(mem, head, link, cur.addr);
        if GetHead(cur.addr).size >= need {
          break;
        }
        cur := GetLinks(cur.addr).next;
        k := k + 1;
      }
    }

    /** The branch without a split. */
    method TakeWholeBlock(a: nat, ghost i: nat, ghost k: nat)
      requires Intact() && Spot(blocks, free, a, i, k)
      modifies this`mem, this`head, this`link, this`firstFree, this`blocks, this`free
      ensures TookWhole(old(blocks), old(free), blocks, free, i, k)
      ensures Intact() && Outside(old(mem), mem, Starts(blocks))
    {
      hide HeapOk, FreeChain, UnlinkLinks, UnlinkFirst, Without, TakeWhole, Spot, TookWhole, Shows, Starts, Outside;
      TakeWholeOk(head, link, firstFree, blocks, free, a, i, k, buf.addr, buf.addr + len);
      TakeWholeStarts(blocks, i);
      UnlinkKeys(link, a);
      assert Keys() == Starts(blocks);
      FirstFits(head, link, firstFree, blocks, free, buf.addr, buf.addr + len);
      TakeOut(a, k);
      blocks, free := TakeWhole(blocks, i), Without(free, k);
    }

    /** The block leaves the free list and is marked as handed out. */
    method TakeOut(a: nat, ghost k: nat)
      requires Shown() && FreeChain(link, free) && firstFree == FirstFree(free) && k < |free| && free[k] == a && a in head && a in link
      requires Fits(firstFree)
      modifies this`mem, this`head, this`link, this`firstFree
      ensures (old(link)[a].prev.At? ==> old(link)[a].prev.addr in old(link)) && (old(link)[a].next.At? ==> old(link)[a].next.addr in old(link))
      ensures head == old(head)[a := old(head)[a].(alloc := 1)] && link == UnlinkLinks(old(link), a)[a := ZERO_LINKS]
      ensures firstFree == UnlinkFirst(old(link), FirstFree(free), a)
      ensures Shown() && Outside(old(mem), mem, old(Keys()))
    {
      hide FreeChain, UnlinkLinks, UnlinkFirst, Shows, Outside, SameOutside, HeadAt, LinksAt;
      ghost var m, s, l0 := mem, Keys(), link;
      SetAlloc(a, 1);
      ghost var m1 := mem;
      Unlink(a, k, free, true);
      OutsideThen(m, m1, mem, s);
      m1 := mem;
      UnlinkKeys(l0, a);
      SetPrevFree(a, Null);
      OutsideThen(m, m1, mem, s);
      m1 := mem;
      SetNextFree(a, Null);
      OutsideThen(m, m1, mem, s);
      assert link == UnlinkLinks(l0, a)[a := ZERO_LINKS];
    }

    /** The branch with a split: the rest becomes a new free block in the place of the old one. */
    method SplitBlock(a: nat, need: nat, ghost i: nat, ghost k: nat)
      requires Intact() && Spot(blocks, free, a, i, k) && Splits(blocks, i, need)
      modifies this`mem, this`head, this`link, this`firstFree, this`blocks, this`free
      ensures TookPart(old(blocks), old(free), blocks, free, i, k, need)
      ensures Intact() && Outside(old(mem), mem, Starts(blocks))
    {
      hide HeapOk, TakePart, TookPart, CanSplit, SplitStored, Shows, Starts, Outside;
      SplitStoredOk(head, link, firstFree, blocks, free, a, i, k, need, buf.addr, buf.addr + len);
      FirstFits(head, link, firstFree, blocks, free, buf.addr, buf.addr + len);
      SplitInTwo(a, need, k);
      blocks, free := TakePart(blocks, i, need), free[k := a + HEADER + need];
    }

    /** The stores of the branch with a split. */
    method SplitInTwo(a: nat, need: nat, ghost k: nat)
      requires Fits(firstFree) && Shown() && 0 < a && a + HEADER + need < WORDS && CanSplit(head, link, firstFree, free, a, a + HEADER + need, need, k)
      modifies this`mem, this`head, this`link, this`firstFree
      ensures SplitStored(old(head), old(link), head, link, firstFree, free, a, a + HEADER + need, need)
      ensures Shown() && Keys() == old(Keys()) + {a + HEADER + need}
      ensures Outside(old(mem), mem, Keys())
    {
      hide CanSplit, SplitStored, Shows, Outside;
      var n := a + HEADER + need;
      ghost var m := mem;
      SplitRest(a, n, need, k);
      ghost var m1, h1, l1 := mem, head, link;
      ShrinkFirst(a, need, n, Keys());
      OutsideThen(m, m1, mem, Keys());
      ShrinkSplits(old(head), old(link), h1, l1, firstFree, free, a, n, need);
    }

    /** The header of the rest, which takes the place of the block in both lists. */
    method SplitRest(a: nat, n: nat, need: nat, ghost k: nat)
      requires Fits(firstFree) && Shown() && 0 < a < n < WORDS && CanSplit(head, link, firstFree, free, a, n, need, k)
      modifies this`mem, this`head, this`link, this`firstFree
      ensures RestStored(old(head), old(link), head, link, firstFree, free, a, n, need)
      ensures Shown() && Keys() == old(Keys()) + {n} && Outside(old(mem), mem, Keys())
    {
      hide FreeChain, InheritLinks, InheritFirst, HeaderStored, Shows, Outside, Apart;
      ghost var m, s := mem, Keys() + {n};
      RestHeader(a, n, need, k);
      ghost var m1 := mem;
      assert Keys() + {n} == s;
      Inherit(n, a, k, free, true);
      InheritKeys(old(link), n, a);
      OutsideThen(m, m1, mem, s);
    }

    /** The header of the rest, and the pointer back to it. */
    method RestHeader(a: nat, n: nat, need: nat, ghost k: nat)
      requires Shown() && 0 < a < n < WORDS && CanSplit(head, link, firstFree, free, a, n, need, k)
      modifies this`mem, this`head
      ensures HeaderStored(old(head), head, a, n, need)
      ensures Shown() && Keys() == old(Keys()) + {n} && Outside(old(mem), mem, Keys())
    {
      hide FreeChain, Shows, Outside, SameOutside, Apart, HeadAt, LinksAt;
      ghost var m, s := mem, Keys() + {n};
      HeadShown(mem, head, link, a);
      NewHeader(n, GetHead(a).size - need - HEADER, At(a), GetHead(a).next);
      OutsideOne(m, mem, n, s);
      assert Keys() == s;
      ghost var m1 := mem;
      HeadShown(mem, head, link, n);
      if GetHead(n).next != Null {
        SetPrev(GetHead(n).next.addr, At(n));
      }
      OutsideNone(m1, s);
      OutsideThen(m, m1, mem, s);
    }

    /** What is left of the block is handed out. */
    method ShrinkFirst(a: nat, need: nat, n: nat, ghost s: set<nat>)
      requires Shown() && a in head && a in link && need < WORDS && 0 < n < WORDS && Keys() == s
      modifies this`mem, this`head, this`link
      ensures head == old(head)[a := old(head)[a].(alloc := 1, size := need, next := At(n))] && link == old(link)[a := ZERO_LINKS]
      ensures Shown() && Keys() == s && Outside(old(mem), mem, s)
    {
      hide Shows, Outside, SameOutside, HeadAt, LinksAt;
      ghost var m := mem;
      SetAlloc(a, 1);
      ghost var m1 := mem;
      SetSize(a, need);
      OutsideThen(m, m1, mem, s);
      m1 := mem;
      SetNext(a, At(n));
      OutsideThen(m, m1, mem, s);
      m1 := mem;
      SetPrevFree(a, Null);
      OutsideThen(m, m1, mem, s);
      m1 := mem;
      SetNextFree(a, Null);
      OutsideThen(m, m1, mem, s);
    }

    /** memset of the bytes that were asked for, within a block that has just been handed out. */
    method Zero(a: nat, n: nat, ghost i: nat)
      requires Intact() && HoldsAt(blocks, i, a, n)
      modifies this`mem
      ensures Intact() && ZeroedOnly(old(mem), mem, {}, a, a + n)
    {
      hide HeapOk, Shows, Starts, HoldsAt, Clear, ZeroedOnly;
      ClearedShown(head, link, mem, firstFree, blocks, free, i, a, n, buf.addr, buf.addr + len);
      mem := Clear(mem, a, n);
    }

    /** buffer_alloc_calloc. The result is null exactly if the heap is not initialised, the request is
        empty or overflows, or no free block is large enough; otherwise the first fitting block of the
        free list is handed out, its first n * size bytes are zero, and nothing else has changed but
        headers: no byte of a block behind its header. */
    method Calloc(n: nat, size: nat) returns (ok: bool, ret: Ptr, ghost i: nat, ghost k: nat)
      requires Valid() && n < WORDS && size < WORDS
      modifies this`mem, this`head, this`link, this`firstFree, this`blocks, this`free
      ensures Valid() && ok
      ensures ret == Null <==>
        buf == Null || n == 0 || size == 0 || Bytes(n, size) > WORDS - ALIGN || NoFit(old(blocks), old(free), RoundUp(Bytes(n, size)))
      ensures ret == Null ==> mem == old(mem) && firstFree == old(firstFree) && blocks == old(blocks) && free == old(free)
      ensures ret != Null ==> Granted(old(blocks), old(free), blocks, free, RoundUp(Bytes(n, size)), i, k, ret.addr)
      ensures ret != Null ==> buf.At? && ZeroedOnly(old(mem), mem, Starts(blocks), ret.addr, ret.addr + Bytes(n, size))
    {
      hide HeapOk, NoFit, FirstFit, Take, TakeWhole, TakePart, Without, RoundUp, Shows, Starts, Outside, HeadAt, LinksAt, WellChained;
      ok, ret, i, k := true, Null, 0, 0;
      if buf == Null || first == Null {
        return;
      }
      if n == 0 || size == 0 {
        return;
      }
      OverflowTest(n, size);
      var total := n * size % WORDS;
      if total / n != size {
        return;
      } else if total > WORDS - ALIGN {
        return;
      }
      var need := RoundUp(total);
      RoundUpIs(total);
      PositiveBytes(n, size);
      var cur;
      cur, k := FindFit(need);
      if cur == Null {
        return;
      }
      FitExcludes(blocks, free, need, k);
      i := FitBlock(head, link, firstFree, blocks, free, need, k, buf.addr, buf.addr + len);
      HeadShown(mem, head, link, cur.addr);
      if GetHead(cur.addr).alloc != 0 {
        ok := false;
        return;
      }
      ghost var m := mem;
      HandOut(cur.addr, need, i, k);
      if Flag(verify, VERIFY_ALLOC) {
        ValidChained(head, link, mem, firstFree, blocks, free, buf.addr, buf.addr + len);
        var r := VerifyChain();
        if r != 0 {
          ok := false;
          return;
        }
      }
      ret := At(cur.addr + HEADER);
      ghost var m1 := mem;
      Zero(cur.addr + HEADER, total, i);
      ZeroedAfter(m, m1, mem, Starts(blocks), cur.addr + HEADER, cur.addr + HEADER + total);
    }

    /** Either branch of handing out the block that was found. */
    method HandOut(a: nat, need: nat, ghost i: nat, ghost k: nat)
      requires Intact() && Spot(blocks, free, a, i, k) && Suits(blocks, i, need)
      modifies this`mem, this`head, this`link, this`firstFree, this`blocks, this`free
      ensures Took(old(blocks), old(free), blocks, free, i, k, need)
      ensures Intact() && Outside(old(mem), mem, Starts(blocks))
      ensures HoldsAt(blocks, i, a + HEADER, need)
    {
      hide HeapOk, Take, Shows, Starts, Outside, HeadAt, LinksAt, Without;
      TakeCases(blocks, i, need);
      BlockHead(head, link, firstFree, blocks, free, i, buf.addr, buf.addr + len);
      HeadShown(mem, head, link, a);
      if GetHead(a).size - need < HEADER + ALIGN {
        TakeWholeBlock(a, i, k);
      } else {
        SplitBlock(a, need, i, k);
      }
    }

    // ----- buffer_alloc_free

    /** The size and the successor of hdr go to the block before. */
    method ExtendBefore(hdr: nat, ghost p: nat, ghost good: bool)
      requires good ==> Shown() && hdr in head && head[hdr].prev == At(p) && Absorbable(head, p, hdr, WORDS)
      modifies this`mem, this`head
      ensures good ==> p in old(head) && hdr in old(head) && head == TakeOver(old(head), p, hdr)
      ensures good ==> Shown() && Keys() == old(Keys()) && Outside(old(mem), mem, old(Keys()))
    {
      hide Shows, SameOutside, Outside, HeadAt, LinksAt;
      ghost var m, s := mem, Keys();
      if good {
        HeadShown(mem, head, link, hdr);
        HeadShown(mem, head, link, p);
      }
      SetSize(WordOf(GetHead(hdr).prev), GetHead(WordOf(GetHead(hdr).prev)).size + HEADER + GetHead(hdr).size);
      ghost var m1 := mem;
      if good {
        HeadShown(mem, head, link, hdr);
      }
      SetNext(WordOf(GetHead(hdr).prev), GetHead(hdr).next);
      if good {
        OutsideThen(m, m1, mem, s);
      }
    }

    /** The size and the successor of the block after go to hdr. */
    method ExtendAfter(hdr: nat, ghost b: nat, ghost good: bool) returns (was: nat)
      requires good ==> Shown() && Absorbable(head, hdr, b, WORDS)
      modifies this`mem, this`head
      ensures was < WORDS
      ensures good ==> was == b && hdr in old(head) && b in old(head) && head == TakeOver(old(head), hdr, b)
      ensures good ==> Shown() && Keys() == old(Keys()) && Outside(old(mem), mem, old(Keys()))
    {
      hide Shows, SameOutside, Outside, HeadAt, LinksAt;
      ghost var m, s := mem, Keys();
      if good {
        HeadShown(mem, head, link, hdr);
        HeadShown(mem, head, link, b);
      }
      SetSize(hdr, GetHead(hdr).size + HEADER + GetHead(WordOf(GetHead(hdr).next)).size);
      ghost var m1 := mem;
      if good {
        HeadShown(mem, head, link, hdr);
        HeadShown(mem, head, link, b);
      }
      was := WordOf(GetHead(hdr).next);
      SetNext(hdr, GetHead(WordOf(GetHead(hdr).next)).next);
      if good {
        OutsideThen(m, m1, mem, s);
      }
    }

    /** What follows hdr points back to it, and the header that has been absorbed is erased. */
    method Complete(hdr: nat, was: nat, ghost good: bool)
      requires hdr < WORDS
      requires good ==> Shown() && hdr > 0 && hdr in head && was in head && was in link && (head[hdr].next.At? ==> head[hdr].next.addr in head)
      modifies this`mem, this`head, this`link
      ensures good ==> hdr in old(head) && (old(head)[hdr].next.At? ==> old(head)[hdr].next.addr in old(head))
      ensures good ==> head == FinishAbsorb(old(head), hdr, was) && link == old(link)[was := ZERO_LINKS]
      ensures good ==> Shown() && Keys() == old(Keys()) && Outside(old(mem), mem, old(Keys()))
    {
      hide Shows, SameOutside, Outside, HeadAt, LinksAt;
      ghost var m, s := mem, Keys();
      OutsideNone(m, s);
      if good {
        HeadShown(mem, head, link, hdr);
      }
      if GetHead(hdr).next != Null {
        SetPrev(GetHead(hdr).next.addr, PtrOf(hdr));
      }
      ghost var m1 := mem;
      Erase(was);
      if good {
        OutsideOne(m1, mem, was, s);
        OutsideThen(m, m1, mem, s);
      }
    }

    /** Regroup with the block before. */
    method RegroupBefore(a: nat, ghost i: nat, ghost lo: nat, ghost hi: nat, ghost good: bool) returns (hdr: nat, merged: bool)
      requires a < WORDS
      requires good ==> Shown() && OnlyMarked(head, link, firstFree, blocks, free, i, a, lo, hi) && hi < WORDS
      modifies this`mem, this`head, this`link
      ensures hdr < WORDS
      ensures old(GetHead(a)).prev == Null ==> hdr == a && !merged && mem == old(mem)
      ensures good ==> merged == FreeBefore(blocks, i) && HalfReleased(head, link, firstFree, blocks, free, i, hdr, lo, hi)
      ensures good ==> Shown() && Keys() == old(Keys()) && Outside(old(mem), mem, old(Keys()))
    {
      hide Shows, Outside, HeadAt, LinksAt, FreeBefore, OnlyMarked, HalfReleased, FinishAbsorb, AbsorbHeads, TakeOver;
      ghost var m, s, h, l := mem, Keys(), head, link;
      OutsideNone(m, s);
      if good {
        BeforeStates(head, link, firstFree, blocks, free, i, a, lo, hi);
        BackShown(mem, head, link, a);
      }
      hdr, merged := a, false;
      if GetHead(hdr).prev != Null && GetHead(GetHead(hdr).prev.addr).alloc == 0 {
        ghost var p := GetHead(hdr).prev.addr;
        if good {
          AbsorbHalves(head, p, a);
        }
        ExtendBefore(hdr, p, good);
        ghost var m1 := mem;
        if good {
          HeadShown(mem, head, link, hdr);
          ExtendKeepsBack(h, p, a);
        }
        hdr, merged := WordOf(GetHead(a).prev), true;
        Complete(hdr, a, good);
        if good {
          OutsideThen(m, m1, mem, s);
        }
      }
    }

    /** Regroup with the block after, which also joins the two places in the free list. */
    method RegroupAfter(hdr: nat, ghost i: nat, ghost lo: nat, ghost hi: nat, ghost good: bool) returns (merged: bool)
      requires hdr < WORDS && Fits(firstFree)
      requires good ==> Shown() && HalfReleased(head, link, firstFree, blocks, free, i, hdr, lo, hi) && hi < WORDS
      modifies this`mem, this`head, this`link, this`firstFree
      ensures Fits(firstFree)
      ensures old(GetHead(hdr)).next == Null ==> !merged && mem == old(mem)
      ensures good ==> merged == FreeAfter(blocks, i) && hdr > 0 && AlmostReleased(head, link, firstFree, blocks, free, i, hdr)
      ensures good ==> Shown() && Keys() == old(Keys()) && Outside(old(mem), mem, old(Keys()))
    {
      hide Shows, Outside, HeadAt, LinksAt, FreeAfter, HalfReleased, AlmostReleased, CanJoin, LinksOk, FreeSet, FinishAbsorb, AbsorbHeads, TakeOver;
      ghost var m, s, h, l := mem, Keys(), head, link;
      OutsideNone(m, s);
      if good {
        AfterStates(head, link, firstFree, blocks, free, i, hdr, lo, hi);
        BackShown(mem, head, link, hdr);
      }
      merged := false;
      if GetHead(hdr).next != Null && GetHead(GetHead(hdr).next.addr).alloc == 0 {
        ghost var b := GetHead(hdr).next.addr;
        if good {
          AbsorbHalves(head, hdr, b);
        }
        var was := ExtendAfter(hdr, b, good);
        ghost var m1 := mem;
        JoinPlaces(hdr, was, i, good);
        ghost var m2 := mem;
        Complete(hdr, was, good);
        merged := true;
        if good {
          OutsideThen(m, m1, m2, s);
          OutsideThen(m, m2, mem, s);
        }
      }
    }

    /** The free-list part of regrouping with the block after. */
    method JoinPlaces(hdr: nat, was: nat, ghost i: nat, ghost good: bool)
      requires hdr < WORDS && Fits(firstFree)
      requires good ==> Shown() && CanJoin(link, firstFree, blocks, free, i, hdr, was) && hdr > 0
      modifies this`mem, this`link, this`firstFree
      ensures Fits(firstFree)
      ensures good ==> HasJoined(link, firstFree, blocks, free, i, was)
      ensures good ==> Shown() && Keys() == old(Keys()) && Outside(old(mem), mem, old(Keys()))
    {
      hide Shows, Outside, Apart, HeadAt, LinksAt, CanJoin, HasJoined, FreeBefore, FreeChain, UnlinkLinks, UnlinkFirst, InheritLinks, InheritFirst, Without;
      ghost var m, s, l0, f0, fr := mem, Keys(), link, firstFree, free;
      OutsideNone(m, s);
      if good {
        JoinReads(link, firstFree, blocks, free, i, hdr, was);
        LinksShown(mem, head, link, hdr);
        ShownApart(mem, head, link);
        assert s + {hdr} == s;
      }
      if GetLinks(hdr).prev != Null || GetLinks(hdr).next != Null {
        ghost var k := if good then IndexOf(free, hdr) else 0;
        Unlink(hdr, k, free, good);
        if good {
          fr := Without(free, k);
        }
      }
      ghost var m1 := mem;
      if good {
        JoinDone(l0, f0, blocks, free, i, hdr, was, link, firstFree, fr);
      }
      ghost var q := if good then IndexOf(fr, was) else 0;
      Inherit(hdr, was, q, fr, good);
      if good {
        OutsideThen(m, m1, mem, s);
      }
    }

    /** A block that was not merged is put in front of the free list. */
    method Prepend(hdr: nat, ghost good: bool)
      requires hdr < WORDS && Fits(firstFree)
      requires good ==> Shown() && hdr > 0 && hdr in link && (firstFree.At? ==> firstFree.addr in link && firstFree.addr != hdr)
      modifies this`mem, this`link, this`firstFree
      ensures firstFree == PtrOf(hdr)
      ensures good ==> hdr in old(link) && (old(firstFree).At? ==> old(firstFree).addr in old(link))
      ensures good ==> link == PrependLinks(old(link), old(firstFree), hdr) && Shown() && Outside(old(mem), mem, old(Keys()))
    {
      hide Shows, Outside, SameOutside, HeadAt, LinksAt;
      ghost var m, s := mem, Keys();
      SetNextFree(hdr, firstFree);
      ghost var m1 := mem;
      OutsideNone(m1, s);
      if firstFree != Null {
        SetPrevFree(firstFree.addr, PtrOf(hdr));
      }
      if good {
        OutsideThen(m, m1, mem, s);
      }
      firstFree := PtrOf(hdr);
    }

    /** The stores of a release, once the pointer has been accepted. */
    method Regroup(a: nat, ghost i: nat, ghost lo: nat, ghost hi: nat, ghost good: bool)
      requires a < WORDS && Fits(firstFree)
      requires good ==> Shown() && OnlyMarked(head, link, firstFree, blocks, free, i, a, lo, hi) && hi < WORDS
      modifies this`mem, this`head, this`link, this`firstFree
      ensures good ==> Released(head, link, firstFree, blocks, free, i) && Shown() && Outside(old(mem), mem, old(Keys()))
      ensures old(GetHead(a)).prev == Null && old(GetHead(a)).next == Null ==> firstFree == PtrOf(a)
    {
      hide Shows, Outside, HeadAt, LinksAt, OnlyMarked, HalfReleased, AlmostReleased, Released, PrependLinks, FreeBefore, FreeAfter;
      ghost var m, s := mem, Keys();
      var hdr, merged := RegroupBefore(a, i, lo, hi, good);
      ghost var m1 := mem;
      var after := RegroupAfter(hdr, i, lo, hi, good);
      merged := merged || after;
      ghost var m2 := mem;
      if good {
        OutsideThen(m, m1, m2, s);
        LastState(head, link, firstFree, blocks, free, i, hdr);
      }
      if !merged {
        Prepend(hdr, good);
        if good {
          OutsideThen(m, m2, mem, s);
        }
      }
    }

    /** The body of the release. */
    method ReleaseBlock(a: nat, ghost i: nat, ghost good: bool)
      requires a < WORDS && Fits(firstFree)
      requires good ==> Intact() && UsedAt(blocks, i, a)
      modifies this`mem, this`head, this`link, this`firstFree, this`blocks, this`free
      ensures good ==> ReleasedAs(old(blocks), old(free), blocks, free, i) && Intact() && Outside(old(mem), mem, Starts(old(blocks)))
      ensures !good ==> blocks == old(blocks) && free == old(free)
      ensures old(GetHead(a)).prev == Null && old(GetHead(a)).next == Null ==> firstFree == PtrOf(a)
    {
      hide HeapOk, Shows, Outside, Starts, HeadAt, LinksAt, OnlyMarked, Released, ReleasedAs, UsedAt, Release, ReleaseFree, FreeSet, Only, Tiling;
      ghost var m, s, lo, hi := mem, Starts(blocks), if good then buf.addr else 0, if good then buf.addr + len else 0;
      if good {
        ReleaseStart(head, link, firstFree, blocks, free, i, a, lo, hi);
        assert Keys() == s;
      }
      SetAlloc(a, 0);
      ghost var m1 := mem;
      Regroup(a, i, lo, hi, good);
      if good {
        OutsideThen(m, m1, mem, s);
        ReleaseTrimmed(head, link, mem, firstFree, blocks, free, i, a, lo, hi);
        blocks, free := Release(blocks, i), ReleaseFree(blocks, free, i);
        head, link := Only(head, Starts(blocks)), Only(link, Starts(blocks));
      }
    }

    /** buffer_alloc_free. A null pointer, or a heap that is not initialised, is ignored. Otherwise the
        program goes on exactly if the pointer lies in the buffer, the bytes in front of it pass for the
        header of a block that is handed out, and, if asked for, the chain verifies afterwards. If such a
        block does start there, it is released, and only headers have changed; if the pointer is turned
        down, nothing has. */
    method Free(ptr: Ptr) returns (ok: bool, ghost i: nat)
      requires Valid() && Fits(ptr)
      modifies this`mem, this`head, this`link, this`firstFree, this`blocks, this`free
      ensures ptr == Null || buf == Null ==> ok
      ensures ptr != Null && buf != Null ==>
        (ok <==> Passes(old(mem), buf, len, ptr) && (Flag(verify, VERIFY_FREE) ==> WellChained(mem, first)))
      ensures !Passes(old(mem), buf, len, ptr) ==>
        Valid() && mem == old(mem) && firstFree == old(firstFree) && blocks == old(blocks) && free == old(free)
      ensures ptr.At? && buf.At? && HandedOut(old(blocks), ptr.addr) ==>
        && ok && Valid() && ptr.addr >= HEADER && UsedAt(old(blocks), i, ptr.addr - HEADER)
        && ReleasedAs(old(blocks), old(free), blocks, free, i) && Outside(old(mem), mem, Starts(old(blocks)))
      ensures Passes(old(mem), buf, len, ptr) && !HandedOut(old(blocks), ptr.addr) ==>
        && blocks == old(blocks) && free == old(free)
        && (old(GetHead(HeaderOf(ptr.addr))).prev == Null && old(GetHead(HeaderOf(ptr.addr))).next == Null
            ==> firstFree == PtrOf(HeaderOf(ptr.addr)))
    {
      hide HeapOk, Shows, Starts, Outside, HeadAt, LinksAt, GoodHeader, WellChained, HandedOut, UsedAt, ReleasedAs, HeaderOf, PtrOf, PassingBytes;
      ok, i := true, 0;
      if ptr == Null || buf == Null || first == Null {
        return;
      }
      ghost var good := HandedOut(blocks, ptr.addr);
      if good {
        HandedOutPasses(head, link, mem, firstFree, blocks, free, buf.addr, len, ptr.addr);
        i := HandedOutBlock(blocks, ptr.addr - HEADER);
      }
      if ptr.addr < buf.addr || ptr.addr >= buf.addr + len {
        return false, i;
      }
      var a := HeaderOf(ptr.addr);
      var r := VerifyHeader(a);
      if r != 0 {
        return false, i;
      }
      if GetHead(a).alloc != 1 {
        return false, i;
      }
      FirstFits(head, link, firstFree, blocks, free, buf.addr, buf.addr + len);
      ReleaseBlock(a, i, good);
      if good {
        ValidChained(head, link, mem, firstFree, blocks, free, buf.addr, buf.addr + len);
      }
      if Flag(verify, VERIFY_FREE) {
        r := VerifyChain();
        ok := r == 0;
      }
    }

    // ----- what callers do

    /** A caller stores b at p. If this stays within a block that is handed out, the heap remains intact. */
    method Store(p: nat, b: seq<Octet>)
      requires Valid()
      modifies this`mem
      ensures mem == Put(old(mem), p, b)
      ensures Within(blocks, p, |b|) ==> Valid()
    {
      hide HeapOk, Shows, Starts, Put, Within;
      if buf.At? && Within(blocks, p, |b|) {
        StoredShown(head, link, mem, firstFree, blocks, free, p, b, buf.addr, buf.addr + len);
      }
      mem := Put(mem, p, b);
    }

    // ----- verification

    /** verify_header: it succeeds exactly if the bytes at a pass its five tests. */
    method VerifyHeader(a: nat) returns (ret: int)
      ensures ret == if GoodHeader(GetHead(a), GetLinks(a)) then 0 else 1
      ensures ret == 0 <==> PassingBytes(mem, a)
    {
      hide HeadAt, LinksAt, PassingBytes;
      GoodBytes(mem, a);
      var h, l := GetHead(a), GetLinks(a);
      if h.magic1 != MAGIC1 { return 1; }
      if h.magic2 != MAGIC2 { return 1; }
      if h.alloc > 1 { return 1; }
      if h.prev != Null && h.prev == h.next { return 1; }
      if l.prev != Null && l.prev == l.next { return 1; }
      return 0;
    }

    /** verify_chain, on any memory: it ends, and it succeeds exactly if the headers from the first one
        on are good, mirror each other and end with a null. */
    method VerifyChain() returns (ret: int)
      requires first.At? ==> first.addr < WORDS
      ensures ret == if WellChained(mem, first) then 0 else 1
    {
      hide HeadAt, LinksAt, GoodHeader, IsChain, ChainPrefix;
      var prv := first;
      if prv == Null {
        return 1;
      }
      var r := VerifyHeader(prv.addr);
      if r != 0 {
        NoChain(mem, first.addr, []);
        return 1;
      }
      if GetHead(first.addr).prev != Null {
        NoChain(mem, first.addr, []);
        return 1;
      }
      var cur := GetHead(first.addr).next;
      ghost var path := [first.addr];
      FirstPrefix(mem, first.addr);
      while cur != Null
        invariant ChainPrefix(mem, first.addr, path) && prv == At(path[|path| - 1]) && cur == HeadAt(mem, path[|path| - 1]).next
        decreases WORDS - |path|
      {
        r := VerifyHeader(cur.addr);
        if r != 0 {
          NoChain(mem, first.addr, path);
          return 1;
        }
        if GetHead(cur.addr).prev != prv {
          NoChain(mem, first.addr, path);
          return 1;
        }
        NextPrefix(mem, first.addr, path, cur.addr);
        path := path + [cur.addr];
        prv := cur;
        cur := GetHead(cur.addr).next;
      }
      WholeChain(mem, first.addr, path);
      return 0;
    }
  }

  lemma PaddingAligns(b: nat)
    ensures (b + Padding(b)) % ALIGN == 0 && Padding(b) < ALIGN
  {}

  lemma PositiveBytes(n: nat, size: nat)
    requires n > 0 && size > 0
    ensures n * size > 0
  {}

  /** The overflow test of the allocator is exact. */
  lemma OverflowTest(n: nat, size: nat)
    requires n > 0 && size < WORDS
    ensures n * size % WORDS / n == size <==> n * size < WORDS
  {
    if n * size >= WORDS {
      assert n * size % WORDS < WORDS;
      assert n * size % WORDS <= n * size - WORDS;
      if n * size % WORDS / n == size {
        DivTimes(n * size % WORDS, n);
      }
    } else {
      assert n * size % WORDS == n * size;
      DivModUnique(n * size, n, size, 0);
    }
  }

  lemma DivTimes(x: nat, n: nat)
    requires n > 0
    ensures n * (x / n) <= x
  {}

  lemma BackShown(m: Memory, head: map<nat, Head>, link: map<nat, Links>, a: nat)
    requires Shows(m, head, link) && a in head
    ensures HeadAt(m, a) == head[a]
    ensures head[a].prev.At? && head[a].prev.addr in head ==> HeadAt(m, head[a].prev.addr) == head[head[a].prev.addr]
    ensures head[a].next.At? && head[a].next.addr in head ==> HeadAt(m, head[a].next.addr) == head[head[a].next.addr]
  {
    hide HeadAt, LinksAt;
  }

  lemma ExtendKeepsBack(head: map<nat, Head>, p: nat, a: nat)
    requires p in head && a in head && p != a
    ensures var h := TakeOver(head, p, a); a in h && h[a] == head[a] && p in h
  {}

  lemma ShownApart(m: Memory, head: map<nat, Head>, link: map<nat, Links>)
    requires Shows(m, head, link)
    ensures Apart(head.Keys + link.Keys)
  {}
}
