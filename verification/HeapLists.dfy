/** The two doubly linked lists of the buffer heap: all blocks in address order, and the free blocks
    in no particular order. */
module HeapLists {
  import opened HeapBlocks

  datatype Ptr = Null | At(addr: nat)

  const MAGIC1 := 0xFF00_AA55
  const MAGIC2 := 0xEE11_9966

  /** The fields of memory_header, without the free links. */
  datatype Head = Head(magic1: nat, size: nat, alloc: nat, prev: Ptr, next: Ptr, magic2: nat)

  /** The fields prev_free and next_free. */
  datatype Links = Links(prev: Ptr, next: Ptr)

  /** A header after memset. */
  const ZERO_HEAD := Head(0, 0, 0, Null, Null, 0)
  const ZERO_LINKS := Links(Null, Null)

  // ----- the list of blocks

  function PrevBlock(bs: seq<Block>, i: nat): Ptr
    requires i < |bs|
  {
    if i == 0 then Null else At(bs[i - 1].addr)
  }

  function NextBlock(bs: seq<Block>, i: nat): Ptr
    requires i < |bs|
  {
    if i + 1 == |bs| then Null else At(bs[i + 1].addr)
  }

  function HeadOf(bs: seq<Block>, i: nat): Head
    requires i < |bs|
  {
    Head(MAGIC1, bs[i].size, if bs[i].used then 1 else 0, PrevBlock(bs, i), NextBlock(bs, i), MAGIC2)
  }

  /** prev and next mirror each other along the blocks, and every header is intact. */
  ghost predicate Chain(head: map<nat, Head>, bs: seq<Block>) {
    forall i | 0 <= i < |bs| :: bs[i].addr in head && head[bs[i].addr] == HeadOf(bs, i)
  }

  ghost predicate HasBlock(bs: seq<Block>, a: nat) {
    exists i :: 0 <= i < |bs| && bs[i].addr == a
  }

  lemma Differ(bs: seq<Block>, i: nat, j: nat)
    requires Linked(bs) && i < |bs| && j < |bs| && i != j
    ensures bs[i].addr != bs[j].addr
  {
    if bs[i].addr == bs[j].addr {
      SameAddress(bs, i, j);
    }
  }

  /** Block i changes its state only. */
  lemma ChainUsed(head: map<nat, Head>, bs: seq<Block>, i: nat, used: bool)
    requires Chain(head, bs) && Linked(bs) && i < |bs|
    ensures var a := bs[i].addr;
            Chain(head[a := head[a].(alloc := if used then 1 else 0)], bs[i := bs[i].(used := used)])
  {
    hide Linked;
    var a := bs[i].addr;
    var h, cs := head[a := head[a].(alloc := if used then 1 else 0)], bs[i := bs[i].(used := used)];
    forall j | 0 <= j < |bs| ensures cs[j].addr in h && h[cs[j].addr] == HeadOf(cs, j) {
      if j != i {
        Differ(bs, j, i);
      }
    }
  }

  /** The header map after block a has taken over its successor b; c is what follows b. */
  function AbsorbHeads(head: map<nat, Head>, a: nat, b: nat): map<nat, Head>
    requires a in head && b in head && (head[b].next.At? ==> head[b].next.addr in head)
  {
    var h := head[a := head[a].(size := head[a].size + HEADER + head[b].size, next := head[b].next)];
    var h' := if head[b].next.At? then h[head[b].next.addr := h[head[b].next.addr].(prev := At(a))] else h;
    h'[b := ZERO_HEAD]
  }

  /** The first half: block a has the size and the successor of both. */
  function TakeOver(head: map<nat, Head>, a: nat, b: nat): map<nat, Head>
    requires a in head && b in head
  {
    head[a := head[a].(size := head[a].size + HEADER + head[b].size, next := head[b].next)]
  }

  /** The second half: what follows points back to a, and the header of b is erased. */
  function FinishAbsorb(head: map<nat, Head>, a: nat, b: nat): map<nat, Head>
    requires a in head && (head[a].next.At? ==> head[a].next.addr in head)
  {
    var h := if head[a].next.At? then head[head[a].next.addr := head[head[a].next.addr].(prev := At(a))] else head;
    h[b := ZERO_HEAD]
  }

  lemma AbsorbHalves(head: map<nat, Head>, a: nat, b: nat)
    requires a in head && b in head && (head[b].next.At? ==> head[b].next.addr in head)
    ensures var h := TakeOver(head, a, b);
      a in h && b in h && h.Keys == head.Keys && (h[a].next.At? ==> h[a].next.addr in h) && FinishAbsorb(h, a, b) == AbsorbHeads(head, a, b)
  {}

  lemma ChainAbsorb(head: map<nat, Head>, bs: seq<Block>, i: nat)
    requires Chain(head, bs) && Linked(bs) && i + 1 < |bs| && !bs[i].used
    ensures head[bs[i + 1].addr].next.At? ==> head[bs[i + 1].addr].next.addr in head
    ensures Chain(AbsorbHeads(head, bs[i].addr, bs[i + 1].addr), Merge(bs, i, i + 1))
  {
    hide Linked, Merge, Chain, AbsorbHeads, HeadOf;
    AbsorbNext(head, bs, i);
    var h, cs := AbsorbHeads(head, bs[i].addr, bs[i + 1].addr), Merge(bs, i, i + 1);
    forall j | 0 <= j < |cs| ensures cs[j].addr in h && h[cs[j].addr] == HeadOf(cs, j) {
      AbsorbEach(head, bs, i, j);
    }
    ChainIntro(h, cs);
  }

  lemma AbsorbNext(head: map<nat, Head>, bs: seq<Block>, i: nat)
    requires Chain(head, bs) && i + 1 < |bs|
    ensures bs[i].addr in head && bs[i + 1].addr in head
    ensures head[bs[i + 1].addr].next.At? ==> head[bs[i + 1].addr].next.addr in head
  {
    hide Chain;
    ChainAt(head, bs, i);
    ChainAt(head, bs, i + 1);
    if i + 2 < |bs| {
      ChainAt(head, bs, i + 2);
    }
  }

  lemma AbsorbEach(head: map<nat, Head>, bs: seq<Block>, i: nat, j: nat)
    requires Chain(head, bs) && Linked(bs) && i + 1 < |bs| && !bs[i].used && j < |Merge(bs, i, i + 1)|
    requires head[bs[i + 1].addr].next.At? ==> head[bs[i + 1].addr].next.addr in head
    ensures var (h, cs) := (AbsorbHeads(head, bs[i].addr, bs[i + 1].addr), Merge(bs, i, i + 1));
      cs[j].addr in h && h[cs[j].addr] == HeadOf(cs, j)
  {
    hide Linked, Merge, Chain, AbsorbHeads;
    MergeTwo(bs, i);
    var k := if j <= i then j else j + 1;
    ChainAt(head, bs, k);
    AbsorbOne(head, bs, i, k);
  }

  lemma ChainAt(head: map<nat, Head>, bs: seq<Block>, i: nat)
    requires Chain(head, bs) && i < |bs|
    ensures bs[i].addr in head && head[bs[i].addr] == HeadOf(bs, i)
  {}

  /** What absorbing does to the header of one remaining block. */
  lemma AbsorbOne(head: map<nat, Head>, bs: seq<Block>, i: nat, k: nat)
    requires Chain(head, bs) && Linked(bs) && i + 1 < |bs| && k < |bs| && k != i + 1
    requires head[bs[i + 1].addr].next.At? ==> head[bs[i + 1].addr].next.addr in head
    ensures var h := AbsorbHeads(head, bs[i].addr, bs[i + 1].addr);
      && bs[k].addr in h
      && h[bs[k].addr] == if k == i then
           head[bs[i].addr].(size := bs[i].size + HEADER + bs[i + 1].size, next := NextBlock(bs, i + 1))
         else if k == i + 2 then head[bs[k].addr].(prev := At(bs[i].addr))
         else head[bs[k].addr]
  {
    hide Linked, AbsorbHeads, Chain;
    var a, b := bs[i].addr, bs[i + 1].addr;
    ChainAt(head, bs, i);
    ChainAt(head, bs, i + 1);
    ChainAt(head, bs, k);
    if i + 2 < |bs| {
      ChainAt(head, bs, i + 2);
    }
    Differ(bs, i, i + 1);
    Differ(bs, k, i + 1);
    if i + 2 < |bs| {
      Differ(bs, i + 2, i);
      Differ(bs, i + 2, i + 1);
      if k != i + 2 {
        Differ(bs, k, i + 2);
      }
    }
    if k != i {
      Differ(bs, k, i);
    }
    AbsorbAt(head, a, b, bs[k].addr);
  }

  lemma AbsorbAt(head: map<nat, Head>, a: nat, b: nat, x: nat)
    requires a in head && b in head && a != b && x in head && x != b
    requires head[b].next.At? ==> head[b].next.addr in head && head[b].next.addr != a && head[b].next.addr != b
    ensures var h := AbsorbHeads(head, a, b);
      && x in h
      && h[x] == if x == a then head[a].(size := head[a].size + HEADER + head[b].size, next := head[b].next)
                 else if head[b].next == At(x) then head[x].(prev := At(a))
                 else head[x]
  {}

  lemma MergeTwo(bs: seq<Block>, i: nat)
    requires i + 1 < |bs|
    ensures var cs := Merge(bs, i, i + 1);
      && |cs| == |bs| - 1 && cs[i] == Block(bs[i].addr, bs[i].size + HEADER + bs[i + 1].size, false)
      && (forall j | 0 <= j < i :: cs[j] == bs[j]) && (forall j | i < j < |cs| :: cs[j] == bs[j + 1])
  {
    assert bs[i..i + 2] == [bs[i], bs[i + 1]];
    assert Sizes([bs[i + 1]]) == bs[i + 1].size;
  }

  /** The header map after block a, of which len bytes are handed out, has been split at n. */
  function SplitHeads(head: map<nat, Head>, a: nat, n: nat, len: nat): map<nat, Head>
    requires a in head && len + HEADER <= head[a].size && (head[a].next.At? ==> head[a].next.addr in head)
  {
    var h := head[n := Head(MAGIC1, head[a].size - len - HEADER, 0, At(a), head[a].next, MAGIC2)];
    var h' := if head[a].next.At? then h[head[a].next.addr := h[head[a].next.addr].(prev := At(n))] else h;
    h'[a := h'[a].(alloc := 1, size := len, next := At(n))]
  }

  lemma SplitAt(head: map<nat, Head>, a: nat, n: nat, len: nat, x: nat)
    requires a in head && len + HEADER <= head[a].size && a != n && (x in head || x == n)
    requires head[a].next.At? ==> head[a].next.addr in head && head[a].next.addr != a && head[a].next.addr != n
    ensures var h := SplitHeads(head, a, n, len);
      && x in h
      && h[x] == if x == a then head[a].(alloc := 1, size := len, next := At(n))
                 else if x == n then Head(MAGIC1, head[a].size - len - HEADER, 0, At(a), head[a].next, MAGIC2)
                 else if head[a].next == At(x) then head[x].(prev := At(n))
                 else head[x]
  {}

  /** The header of the rest lies strictly inside the block that is split. */
  lemma InsideBlock(bs: seq<Block>, i: nat, k: nat, n: nat)
    requires Linked(bs) && i < |bs| && k < |bs| && bs[i].addr < n < bs[i].End()
    ensures bs[k].addr != n
  {
    if k < i {
      Ordered(bs, k, i);
    } else if i < k {
      Ordered(bs, i, k);
    }
  }

  lemma ChainSplit(head: map<nat, Head>, bs: seq<Block>, i: nat, len: nat)
    requires Chain(head, bs) && Linked(bs) && i < |bs| && len + HEADER <= bs[i].size
    ensures var a := bs[i].addr;
      && a in head && head[a].size == bs[i].size && (head[a].next.At? ==> head[a].next.addr in head)
      && Chain(SplitHeads(head, a, a + HEADER + len, len), TakePart(bs, i, len))
  {
    hide Linked, SplitHeads, Chain;
    var a, n := bs[i].addr, bs[i].addr + HEADER + len;
    ChainAt(head, bs, i);
    InsideBlock(bs, i, i, n);
    if i + 1 < |bs| {
      ChainAt(head, bs, i + 1);
      Differ(bs, i, i + 1);
      InsideBlock(bs, i, i + 1, n);
    }
    var h, cs := SplitHeads(head, a, n, len), TakePart(bs, i, len);
    forall j | 0 <= j < |cs| ensures cs[j].addr in h && h[cs[j].addr] == HeadOf(cs, j) {
      if j == i {
        SplitAt(head, a, n, len, a);
      } else if j == i + 1 {
        SplitAt(head, a, n, len, n);
      } else {
        var k := if j < i then j else j - 1;
        ChainAt(head, bs, k);
        Differ(bs, k, i);
        InsideBlock(bs, i, k, n);
        if i + 1 < |bs| && k != i + 1 {
          Differ(bs, k, i + 1);
        }
        SplitAt(head, a, n, len, bs[k].addr);
      }
    }
    ChainIntro(h, cs);
  }

  lemma ChainIntro(h: map<nat, Head>, cs: seq<Block>)
    requires forall j | 0 <= j < |cs| :: cs[j].addr in h && h[cs[j].addr] == HeadOf(cs, j)
    ensures Chain(h, cs)
  {}

  // ----- the free list

  function PrevFree(free: seq<nat>, k: nat): Ptr
    requires k < |free|
  {
    if k == 0 then Null else At(free[k - 1])
  }

  function NextFree(free: seq<nat>, k: nat): Ptr
    requires k < |free|
  {
    if k + 1 == |free| then Null else At(free[k + 1])
  }

  function FirstFree(free: seq<nat>): Ptr {
    if free == [] then Null else At(free[0])
  }

  /** prev_free and next_free mirror each other along the free list, which is acyclic. */
  ghost predicate FreeChain(link: map<nat, Links>, free: seq<nat>) {
    && (forall k | 0 <= k < |free| :: free[k] in link && link[free[k]] == Links(PrevFree(free, k), NextFree(free, k)))
    && NoRepeats(free)
  }

  ghost predicate NoRepeats(free: seq<nat>) {
    forall j, k | 0 <= j < k < |free| :: free[j] != free[k]
  }

  function Without(free: seq<nat>, k: nat): seq<nat>
    requires k < |free|
  {
    free[..k] + free[k + 1..]
  }

  /** The links after a has been unlinked; those of a itself stay. */
  function UnlinkLinks(link: map<nat, Links>, a: nat): map<nat, Links>
    requires a in link && (link[a].prev.At? ==> link[a].prev.addr in link) && (link[a].next.At? ==> link[a].next.addr in link)
  {
    var (p, n) := (link[a].prev, link[a].next);
    var l := if p.At? then link[p.addr := link[p.addr].(next := n)] else link;
    if n.At? then l[n.addr := l[n.addr].(prev := p)] else l
  }

  function UnlinkFirst(link: map<nat, Links>, first: Ptr, a: nat): Ptr
    requires a in link
  {
    if link[a].prev.At? then first else link[a].next
  }

  lemma FreeAt(link: map<nat, Links>, free: seq<nat>, k: nat)
    requires FreeChain(link, free) && k < |free|
    ensures free[k] in link && link[free[k]] == Links(PrevFree(free, k), NextFree(free, k))
    ensures k > 0 ==> free[k - 1] in link && free[k - 1] != free[k]
    ensures k + 1 < |free| ==> free[k + 1] in link && free[k + 1] != free[k]
    ensures 0 < k < |free| - 1 ==> free[k - 1] != free[k + 1]
  {}

  lemma FreeDiffer(free: seq<nat>, j: nat, k: nat)
    requires NoRepeats(free) && j < |free| && k < |free| && j != k
    ensures free[j] != free[k]
  {}

  lemma UnlinkAt(link: map<nat, Links>, a: nat, x: nat)
    requires a in link && (link[a].prev.At? ==> link[a].prev.addr in link) && (link[a].next.At? ==> link[a].next.addr in link)
    requires x in link && (link[a].prev == link[a].next ==> link[a].prev == Null)
    ensures var l := UnlinkLinks(link, a);
      && x in l
      && l[x] == if link[a].prev == At(x) then link[x].(next := link[a].next)
                 else if link[a].next == At(x) then link[x].(prev := link[a].prev)
                 else link[x]
  {}

  lemma FreeUnlinkOne(link: map<nat, Links>, free: seq<nat>, k: nat, j: nat)
    requires FreeChain(link, free) && k < |free| && j < |free| - 1
    ensures var a, rest := free[k], Without(free, k);
      && a in link && (link[a].prev.At? ==> link[a].prev.addr in link) && (link[a].next.At? ==> link[a].next.addr in link)
      && rest[j] in UnlinkLinks(link, a) && UnlinkLinks(link, a)[rest[j]] == Links(PrevFree(rest, j), NextFree(rest, j))
  {
    hide UnlinkLinks, FreeChain;
    var q := if j < k then j else j + 1;
    FreeAt(link, free, k);
    FreeAt(link, free, q);
    UnlinkAt(link, free[k], free[q]);
    FreeNoRepeats(link, free);
    if k > 0 && q != k - 1 {
      FreeDiffer(free, q, k - 1);
    }
    if k + 1 < |free| && q != k + 1 {
      FreeDiffer(free, q, k + 1);
    }
  }

  lemma FreeNoRepeats(link: map<nat, Links>, free: seq<nat>)
    requires FreeChain(link, free)
    ensures NoRepeats(free)
  {}

  lemma WithoutNoRepeats(free: seq<nat>, k: nat)
    requires NoRepeats(free) && k < |free|
    ensures NoRepeats(Without(free, k)) && free[k] !in Without(free, k)
    ensures forall x :: x in Without(free, k) <==> x in free && x != free[k]
  {
    forall x | x in free && x != free[k] ensures x in Without(free, k) {
      var j :| 0 <= j < |free| && free[j] == x;
      assert x == Without(free, k)[if j < k then j else j - 1];
    }
  }

  /** The unlinking code removes exactly block a from the free list. */
  lemma FreeUnlink(link: map<nat, Links>, free: seq<nat>, k: nat)
    requires FreeChain(link, free) && k < |free|
    ensures var a := free[k];
      && a in link && (link[a].prev.At? ==> link[a].prev.addr in link) && (link[a].next.At? ==> link[a].next.addr in link)
      && FreeChain(UnlinkLinks(link, a), Without(free, k))
      && UnlinkFirst(link, FirstFree(free), a) == FirstFree(Without(free, k))
      && UnlinkLinks(link, a).Keys == link.Keys
      && UnlinkLinks(link, a)[a] == link[a]
      && (forall x | x in link && x !in free :: UnlinkLinks(link, a)[x] == link[x])
  {
    hide UnlinkLinks, NoRepeats;
    var a, rest := free[k], Without(free, k);
    FreeAt(link, free, k);
    FreeNoRepeats(link, free);
    WithoutNoRepeats(free, k);
    UnlinkKeys(link, a);
    forall j | 0 <= j < |rest| ensures rest[j] in UnlinkLinks(link, a) && UnlinkLinks(link, a)[rest[j]] == Links(PrevFree(rest, j), NextFree(rest, j)) {
      FreeUnlinkOne(link, free, k, j);
    }
    UnlinkFrame(link, free, k);
  }

  lemma UnlinkKeys(link: map<nat, Links>, a: nat)
    requires a in link && (link[a].prev.At? ==> link[a].prev.addr in link) && (link[a].next.At? ==> link[a].next.addr in link)
    ensures UnlinkLinks(link, a).Keys == link.Keys
  {}

  lemma UnlinkFrame(link: map<nat, Links>, free: seq<nat>, k: nat)
    requires FreeChain(link, free) && k < |free|
    ensures var a := free[k];
      && a in link && (link[a].prev.At? ==> link[a].prev.addr in link) && (link[a].next.At? ==> link[a].next.addr in link)
      && (forall x | x in link && (x == a || x !in free) :: x in UnlinkLinks(link, a) && UnlinkLinks(link, a)[x] == link[x])
  {
    hide UnlinkLinks, FreeChain;
    FreeAt(link, free, k);
    forall x | x in link && (x == free[k] || x !in free) ensures x in UnlinkLinks(link, free[k]) && UnlinkLinks(link, free[k])[x] == link[x] {
      UnlinkAt(link, free[k], x);
    }
  }

  /** The links after hdr has taken the place of old. */
  function InheritLinks(link: map<nat, Links>, hdr: nat, was: nat): map<nat, Links>
    requires was in link && (link[was].prev.At? ==> link[was].prev.addr in link) && (link[was].next.At? ==> link[was].next.addr in link)
  {
    var (p, n) := (link[was].prev, link[was].next);
    var l := link[hdr := link[was]];
    var l' := if p.At? then l[p.addr := l[p.addr].(next := At(hdr))] else l;
    if n.At? then l'[n.addr := l'[n.addr].(prev := At(hdr))] else l'
  }

  function InheritFirst(link: map<nat, Links>, first: Ptr, hdr: nat, was: nat): Ptr
    requires was in link
  {
    if link[was].prev.At? then first else At(hdr)
  }

  lemma InheritAt(link: map<nat, Links>, hdr: nat, b: nat, x: nat)
    requires b in link && (link[b].prev.At? ==> link[b].prev.addr in link) && (link[b].next.At? ==> link[b].next.addr in link)
    requires (link[b].prev == link[b].next ==> link[b].prev == Null) && link[b].prev != At(hdr) && link[b].next != At(hdr)
    requires x in link || x == hdr
    ensures var l := InheritLinks(link, hdr, b);
      && x in l
      && l[x] == if x == hdr then link[b]
                 else if link[b].prev == At(x) then link[x].(next := At(hdr))
                 else if link[b].next == At(x) then link[x].(prev := At(hdr))
                 else link[x]
  {}

  lemma FreeInheritOne(link: map<nat, Links>, free: seq<nat>, k: nat, hdr: nat, j: nat)
    requires FreeChain(link, free) && k < |free| && j < |free| && hdr !in free
    ensures var b, rest := free[k], free[k := hdr];
      && b in link && (link[b].prev.At? ==> link[b].prev.addr in link) && (link[b].next.At? ==> link[b].next.addr in link)
      && rest[j] in InheritLinks(link, hdr, b) && InheritLinks(link, hdr, b)[rest[j]] == Links(PrevFree(rest, j), NextFree(rest, j))
  {
    hide InheritLinks, FreeChain;
    FreeAt(link, free, k);
    FreeAt(link, free, j);
    InheritAt(link, hdr, free[k], if j == k then hdr else free[j]);
    FreeNoRepeats(link, free);
    if k > 0 && j != k - 1 {
      FreeDiffer(free, j, k - 1);
    }
    if k + 1 < |free| && j != k + 1 {
      FreeDiffer(free, j, k + 1);
    }
  }

  lemma ReplaceNoRepeats(free: seq<nat>, k: nat, hdr: nat)
    requires NoRepeats(free) && k < |free| && hdr !in free
    ensures NoRepeats(free[k := hdr])
    ensures forall x :: x in free[k := hdr] <==> x == hdr || (x in free && x != free[k])
  {
    var rest := free[k := hdr];
    forall x | x == hdr || (x in free && x != free[k]) ensures x in rest {
      if x == hdr {
        assert rest[k] == hdr;
      } else {
        var j :| 0 <= j < |free| && free[j] == x;
        assert rest[j] == x;
      }
    }
  }

  /** The code that puts hdr in the place of old into the free list does so. */
  lemma FreeInherit(link: map<nat, Links>, free: seq<nat>, k: nat, hdr: nat)
    requires FreeChain(link, free) && k < |free| && hdr !in free
    ensures var b := free[k];
      && b in link && (link[b].prev.At? ==> link[b].prev.addr in link) && (link[b].next.At? ==> link[b].next.addr in link)
      && FreeChain(InheritLinks(link, hdr, b), free[k := hdr])
      && InheritFirst(link, FirstFree(free), hdr, b) == FirstFree(free[k := hdr])
      && InheritLinks(link, hdr, b).Keys == link.Keys + {hdr}
      && (forall x | x in link && x !in free && x != hdr :: InheritLinks(link, hdr, b)[x] == link[x])
  {
    hide InheritLinks, NoRepeats;
    var b, rest := free[k], free[k := hdr];
    FreeAt(link, free, k);
    FreeNoRepeats(link, free);
    ReplaceNoRepeats(free, k, hdr);
    InheritKeys(link, hdr, b);
    forall j | 0 <= j < |rest| ensures rest[j] in InheritLinks(link, hdr, b) && InheritLinks(link, hdr, b)[rest[j]] == Links(PrevFree(rest, j), NextFree(rest, j)) {
      FreeInheritOne(link, free, k, hdr, j);
    }
    InheritFrame(link, free, k, hdr);
  }

  lemma InheritKeys(link: map<nat, Links>, hdr: nat, b: nat)
    requires b in link && (link[b].prev.At? ==> link[b].prev.addr in link) && (link[b].next.At? ==> link[b].next.addr in link)
    ensures InheritLinks(link, hdr, b).Keys == link.Keys + {hdr}
  {}

  lemma InheritFrame(link: map<nat, Links>, free: seq<nat>, k: nat, hdr: nat)
    requires FreeChain(link, free) && k < |free| && hdr !in free
    ensures var b := free[k];
      && b in link && (link[b].prev.At? ==> link[b].prev.addr in link) && (link[b].next.At? ==> link[b].next.addr in link)
      && (forall x | x in link && x !in free && x != hdr :: x in InheritLinks(link, hdr, b) && InheritLinks(link, hdr, b)[x] == link[x])
  {
    hide InheritLinks, FreeChain;
    FreeAt(link, free, k);
    forall x | x in link && x !in free && x != hdr
      ensures x in InheritLinks(link, hdr, free[k]) && InheritLinks(link, hdr, free[k])[x] == link[x]
    {
      InheritAt(link, hdr, free[k], x);
    }
  }

  /** The links after hdr has been put in front. */
  function PrependLinks(link: map<nat, Links>, first: Ptr, hdr: nat): map<nat, Links>
    requires hdr in link && (first.At? ==> first.addr in link)
  {
    var l := link[hdr := link[hdr].(next := first)];
    if first.At? then l[first.addr := l[first.addr].(prev := At(hdr))] else l
  }

  lemma FreePrepend(link: map<nat, Links>, free: seq<nat>, hdr: nat)
    requires FreeChain(link, free) && hdr !in free && hdr in link && link[hdr] == ZERO_LINKS
    ensures FirstFree(free).At? ==> FirstFree(free).addr in link
    ensures FreeChain(PrependLinks(link, FirstFree(free), hdr), [hdr] + free)
    ensures PrependLinks(link, FirstFree(free), hdr).Keys == link.Keys
    ensures forall x | x in link && x !in free && x != hdr :: PrependLinks(link, FirstFree(free), hdr)[x] == link[x]
  {
    var all := [hdr] + free;
    var l := PrependLinks(link, FirstFree(free), hdr);
    forall k | 0 <= k < |all| ensures all[k] in l && l[all[k]] == Links(PrevFree(all, k), NextFree(all, k)) {
      if k > 0 {
        assert all[k] == free[k - 1];
        if k > 1 {
          FreeDiffer(free, k - 1, 0);
        }
      }
    }
  }
}
