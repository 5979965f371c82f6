/** Why releasing a block keeps the two lists of the buffer heap in step with its blocks. */
module HeapRelease {
  import opened HeapBlocks
  import opened HeapLists

  /** Some free block, and only free blocks, start at the listed addresses. */
  ghost predicate FreeSet(bs: seq<Block>, free: seq<nat>) {
    && (forall i | 0 <= i < |bs| :: bs[i].addr in free <==> !bs[i].used)
    && (forall a | a in free :: HasBlock(bs, a))
  }

  /** A block that is handed out has no free links. */
  ghost predicate UsedLinks(link: map<nat, Links>, bs: seq<Block>) {
    forall i | 0 <= i < |bs| :: bs[i].addr in link && (bs[i].used ==> link[bs[i].addr] == ZERO_LINKS)
  }

  /** x is the address of one of the blocks lo to hi. */
  ghost predicate Among(bs: seq<Block>, lo: nat, hi: nat, x: nat)
    requires hi < |bs|
  {
    exists j :: lo <= j <= hi && bs[j].addr == x
  }

  /** Where block j of a merged sequence comes from. */
  lemma MergeFrom(bs: seq<Block>, lo: nat, hi: nat, j: nat)
    requires lo <= hi < |bs| && j < |bs| - (hi - lo)
    ensures |Merge(bs, lo, hi)| == |bs| - (hi - lo)
    ensures j < lo ==> Merge(bs, lo, hi)[j] == bs[j]
    ensures j > lo ==> Merge(bs, lo, hi)[j] == bs[j + (hi - lo)]
    ensures j == lo ==> Merge(bs, lo, hi)[j].addr == bs[lo].addr && !Merge(bs, lo, hi)[j].used
  {}

  lemma NotAmong(bs: seq<Block>, lo: nat, hi: nat, j: nat)
    requires Linked(bs) && lo <= hi < |bs| && j < |bs| && (j < lo || j > hi)
    ensures !Among(bs, lo, hi, bs[j].addr)
  {
    if Among(bs, lo, hi, bs[j].addr) {
      var q :| lo <= q <= hi && bs[q].addr == bs[j].addr;
      SameAddress(bs, j, q);
    }
  }

  /** If the free list changes as the merge of blocks lo to hi demands, it still lists the free blocks. */
  lemma MergeFreeSet(bs: seq<Block>, lo: nat, hi: nat, free: seq<nat>, free': seq<nat>)
    requires Linked(bs) && lo <= hi < |bs| && FreeSet(bs, free)
    requires forall x :: x in free' <==> x == bs[lo].addr || (x in free && !Among(bs, lo, hi, x))
    ensures FreeSet(Merge(bs, lo, hi), free')
  {
    hide Linked, Among, Merge;
    var cs := Merge(bs, lo, hi);
    MergeFrom(bs, lo, hi, lo);
    forall j | 0 <= j < |cs| ensures cs[j].addr in free' <==> !cs[j].used {
      MergeFrom(bs, lo, hi, j);
      if j != lo {
        var q := if j < lo then j else j + (hi - lo);
        NotAmong(bs, lo, hi, q);
        Differ(bs, q, lo);
      }
    }
    forall a | a in free' ensures HasBlock(cs, a) {
      if a == bs[lo].addr {
        assert cs[lo].addr == a;
      } else {
        assert HasBlock(bs, a);
        KeptBlock(bs, lo, hi, a);
      }
    }
  }

  lemma KeptBlock(bs: seq<Block>, lo: nat, hi: nat, a: nat)
    requires lo <= hi < |bs| && HasBlock(bs, a) && !Among(bs, lo, hi, a)
    ensures HasBlock(Merge(bs, lo, hi), a)
  {
    hide Merge;
    var j :| 0 <= j < |bs| && bs[j].addr == a;
    MergeFrom(bs, lo, hi, lo);
    var q := if j < lo then j else j - (hi - lo);
    MergeFrom(bs, lo, hi, q);
  }

  lemma MergeUsedLinks(bs: seq<Block>, lo: nat, hi: nat, free: seq<nat>, link: map<nat, Links>, link': map<nat, Links>)
    requires Linked(bs) && lo <= hi < |bs| && FreeSet(bs, free) && UsedLinks(link, bs)
    requires link.Keys <= link'.Keys
    requires forall x | x in link && x !in free && !Among(bs, lo, hi, x) :: link'[x] == link[x]
    ensures UsedLinks(link', Merge(bs, lo, hi))
  {
    hide Linked, Among, Merge;
    var cs := Merge(bs, lo, hi);
    MergeFrom(bs, lo, hi, lo);
    forall j | 0 <= j < |cs| ensures cs[j].addr in link' && (cs[j].used ==> link'[cs[j].addr] == ZERO_LINKS) {
      MergeFrom(bs, lo, hi, j);
      if j != lo {
        NotAmong(bs, lo, hi, if j < lo then j else j + (hi - lo));
      }
    }
  }

  // ----- the four ways in which the free list changes

  /** The free list after block i has been released. */
  ghost function ReleaseFree(bs: seq<Block>, free: seq<nat>, i: nat): seq<nat>
    requires i < |bs| && FreeSet(bs, free)
  {
    if !FreeAfter(bs, i) then
      if FreeBefore(bs, i) then free else [bs[i].addr] + free
    else if !FreeBefore(bs, i) then free[IndexOf(free, bs[i + 1].addr) := bs[i].addr]
    else
      var rest := Without(free, IndexOf(free, bs[i - 1].addr));
      if bs[i + 1].addr in rest then rest[IndexOf(rest, bs[i + 1].addr) := bs[i - 1].addr] else rest
  }

  /** Blocks, links and free list before or after a release. */
  ghost predicate LinksOk(link: map<nat, Links>, first: Ptr, bs: seq<Block>, free: seq<nat>) {
    FreeChain(link, free) && first == FirstFree(free) && FreeSet(bs, free) && UsedLinks(link, bs)
  }

  lemma LinksNone(link: map<nat, Links>, bs: seq<Block>, free: seq<nat>, i: nat)
    requires LinksOk(link, FirstFree(free), bs, free) && Linked(bs) && i < |bs| && bs[i].used
    requires !FreeBefore(bs, i) && !FreeAfter(bs, i)
    ensures bs[i].addr in link && (FirstFree(free).At? ==> FirstFree(free).addr in link)
    ensures LinksOk(PrependLinks(link, FirstFree(free), bs[i].addr), At(bs[i].addr), Release(bs, i), ReleaseFree(bs, free, i))
  {
    hide FreeChain, PrependLinks, Linked, Merge;
    FreePrepend(link, free, bs[i].addr);
    forall x ensures Among(bs, i, i, x) <==> x == bs[i].addr {
      assert x == bs[i].addr ==> bs[i].addr == x;
    }
    MergeFreeSet(bs, i, i, free, [bs[i].addr] + free);
    MergeUsedLinks(bs, i, i, free, link, PrependLinks(link, FirstFree(free), bs[i].addr));
  }

  lemma LinksBefore(link: map<nat, Links>, bs: seq<Block>, free: seq<nat>, i: nat)
    requires LinksOk(link, FirstFree(free), bs, free) && Linked(bs) && i < |bs| && bs[i].used
    requires FreeBefore(bs, i) && !FreeAfter(bs, i)
    ensures LinksOk(link[bs[i].addr := ZERO_LINKS], FirstFree(free), Release(bs, i), ReleaseFree(bs, free, i))
  {
    hide FreeChain, Linked, Merge;
    AmongTwo(bs, i - 1, i);
    MergeFreeSet(bs, i - 1, i, free, free);
    assert link[bs[i].addr := ZERO_LINKS] == link;
    MergeUsedLinks(bs, i - 1, i, free, link, link);
  }

  lemma AmongTwo(bs: seq<Block>, i: nat, j: nat)
    requires j == i + 1 < |bs|
    ensures forall x :: Among(bs, i, j, x) <==> x == bs[i].addr || x == bs[i + 1].addr
  {
    forall x | x == bs[i].addr || x == bs[i + 1].addr ensures Among(bs, i, j, x) {
      assert bs[if x == bs[i].addr then i else i + 1].addr == x;
    }
  }

  lemma LinksAfter(link: map<nat, Links>, bs: seq<Block>, free: seq<nat>, i: nat)
    requires LinksOk(link, FirstFree(free), bs, free) && Linked(bs) && i < |bs| && bs[i].used
    requires !FreeBefore(bs, i) && FreeAfter(bs, i)
    ensures var (a, b) := (bs[i].addr, bs[i + 1].addr);
      && a !in free && b in free && b in link
      && (link[b].prev.At? ==> link[b].prev.addr in link) && (link[b].next.At? ==> link[b].next.addr in link)
      && LinksOk(InheritLinks(link, a, b)[b := ZERO_LINKS], InheritFirst(link, FirstFree(free), a, b), Release(bs, i), ReleaseFree(bs, free, i))
  {
    hide FreeChain, InheritLinks, InheritFirst, Linked, Merge;
    var a, b := bs[i].addr, bs[i + 1].addr;
    var k := IndexOf(free, b);
    var free' := free[k := a];
    FreeInherit(link, free, k, a);
    FreeNoRepeats(link, free);
    ReplaceNoRepeats(free, k, a);
    AmongTwo(bs, i, i + 1);
    Differ(bs, i, i + 1);
    MergeFreeSet(bs, i, i + 1, free, free');
    EraseLinks(InheritLinks(link, a, b), free', b);
    MergeUsedLinks(bs, i, i + 1, free, link, InheritLinks(link, a, b)[b := ZERO_LINKS]);
  }

  lemma EraseLinks(link: map<nat, Links>, free: seq<nat>, b: nat)
    requires FreeChain(link, free) && b !in free
    ensures FreeChain(link[b := ZERO_LINKS], free)
  {}

  /** The block before block i leaves the list; the block after it stays. */
  lemma LinksBothUnlink(link: map<nat, Links>, bs: seq<Block>, free: seq<nat>, i: nat)
    requires LinksOk(link, FirstFree(free), bs, free) && Linked(bs) && i < |bs| && bs[i].used
    requires FreeBefore(bs, i) && FreeAfter(bs, i)
    ensures var (p, b) := (bs[i - 1].addr, bs[i + 1].addr);
      && p in free && b in free && p in link && link[p] != ZERO_LINKS
      && (link[p].prev.At? ==> link[p].prev.addr in link) && (link[p].next.At? ==> link[p].next.addr in link)
      && var rest := Without(free, IndexOf(free, p));
      && var l := UnlinkLinks(link, p);
      && p !in rest && b in rest && (forall x :: x in rest <==> x in free && x != p)
      && FreeChain(l, rest) && UnlinkFirst(link, FirstFree(free), p) == FirstFree(rest)
      && l.Keys == link.Keys && (forall x | x in link && x !in free :: l[x] == link[x])
  {
    hide FreeChain, UnlinkLinks, UnlinkFirst, Linked, Without, UsedLinks;
    var p, b := bs[i - 1].addr, bs[i + 1].addr;
    Differ(bs, i - 1, i + 1);
    var q := IndexOf(free, p);
    TwoFree(link, free, q, IndexOf(free, b));
    FreeUnlink(link, free, q);
    FreeNoRepeats(link, free);
    WithoutNoRepeats(free, q);
  }

  lemma LinksBoth(link: map<nat, Links>, bs: seq<Block>, free: seq<nat>, i: nat, l: map<nat, Links>, rest: seq<nat>)
    requires LinksOk(link, FirstFree(free), bs, free) && Linked(bs) && i < |bs| && bs[i].used
    requires FreeBefore(bs, i) && FreeAfter(bs, i)
    requires bs[i - 1].addr in free && rest == Without(free, IndexOf(free, bs[i - 1].addr)) && bs[i + 1].addr in rest
    requires forall x :: x in rest <==> x in free && x != bs[i - 1].addr
    requires FreeChain(l, rest) && l.Keys == link.Keys && forall x | x in link && x !in free :: l[x] == link[x]
    ensures var (p, b) := (bs[i - 1].addr, bs[i + 1].addr);
      && b in l && (l[b].prev.At? ==> l[b].prev.addr in l) && (l[b].next.At? ==> l[b].next.addr in l)
      && LinksOk(InheritLinks(l, p, b)[b := ZERO_LINKS], InheritFirst(l, FirstFree(rest), p, b), Release(bs, i), ReleaseFree(bs, free, i))
  {
    hide FreeChain, InheritLinks, InheritFirst, Linked, Merge, Without, FreeSet, UsedLinks;
    var p, b := bs[i - 1].addr, bs[i + 1].addr;
    Differ(bs, i - 1, i + 1);
    var k := IndexOf(rest, b);
    FreeInherit(l, rest, k, p);
    FreeNoRepeats(l, rest);
    ReplaceNoRepeats(rest, k, p);
    var free' := rest[k := p];
    AmongThree(bs, i - 1, i + 1);
    UsedNotListed(bs, free, i);
    MergeFreeSet(bs, i - 1, i + 1, free, free');
    EraseLinks(InheritLinks(l, p, b), free', b);
    MergeUsedLinks(bs, i - 1, i + 1, free, link, InheritLinks(l, p, b)[b := ZERO_LINKS]);
  }

  lemma UsedNotListed(bs: seq<Block>, free: seq<nat>, i: nat)
    requires FreeSet(bs, free) && i < |bs| && bs[i].used
    ensures bs[i].addr !in free
  {}

  lemma AmongThree(bs: seq<Block>, i: nat, j: nat)
    requires j == i + 2 < |bs|
    ensures forall x :: Among(bs, i, j, x) <==> x == bs[i].addr || x == bs[i + 1].addr || x == bs[i + 2].addr
  {
    forall x | x == bs[i].addr || x == bs[i + 1].addr || x == bs[i + 2].addr ensures Among(bs, i, j, x) {
      assert bs[if x == bs[i].addr then i else if x == bs[i + 1].addr then i + 1 else i + 2].addr == x;
    }
  }

  /** In a list of two or more, every element has a neighbour. */
  lemma TwoFree(link: map<nat, Links>, free: seq<nat>, q: nat, k: nat)
    requires FreeChain(link, free) && q < |free| && k < |free| && q != k
    ensures free[q] in link && link[free[q]] != ZERO_LINKS
  {
    FreeAt(link, free, q);
  }

  // ----- the headers

  ghost predicate HeadsOk(head: map<nat, Head>, bs: seq<Block>) {
    Linked(bs) && Chain(head, bs)
  }

  lemma MarkFree(head: map<nat, Head>, bs: seq<Block>, i: nat)
    requires HeadsOk(head, bs) && i < |bs|
    ensures bs[i].addr in head
    ensures HeadsOk(head[bs[i].addr := head[bs[i].addr].(alloc := 0)], bs[i := bs[i].(used := false)])
  {
    hide Chain;
    var cs := bs[i := bs[i].(used := false)];
    ChainAt(head, bs, i);
    ChainUsed(head, bs, i, false);
    forall j | 0 <= j < |cs| - 1 ensures cs[j].End() == cs[j + 1].addr {
      assert bs[j].End() == bs[j + 1].addr;
    }
  }

  lemma AbsorbOk(head: map<nat, Head>, bs: seq<Block>, i: nat)
    requires HeadsOk(head, bs) && i + 1 < |bs| && !bs[i].used
    ensures var (a, b) := (bs[i].addr, bs[i + 1].addr);
      && a in head && b in head && a != b && head[a].next == At(b)
      && (head[b].next.At? ==> head[b].next.addr in head && head[b].next.addr != a && head[b].next.addr != b)
      && HeadsOk(AbsorbHeads(head, a, b), Merge(bs, i, i + 1))
  {
    hide Chain, Linked, AbsorbHeads, Merge;
    ChainAt(head, bs, i);
    ChainAt(head, bs, i + 1);
    Differ(bs, i, i + 1);
    if i + 2 < |bs| {
      ChainAt(head, bs, i + 2);
      Differ(bs, i, i + 2);
      Differ(bs, i + 1, i + 2);
    }
    ChainAbsorb(head, bs, i);
    MergeLinked(bs, i, i + 1);
  }

  /** Marking block i free and absorbing its free neighbours one by one is the release. */
  lemma ReleaseSteps(bs: seq<Block>, i: nat)
    requires i < |bs| && bs[i].used
    ensures var cs := bs[i := bs[i].(used := false)];
      && (!FreeBefore(bs, i) && !FreeAfter(bs, i) ==> Release(bs, i) == cs)
      && (FreeBefore(bs, i) && !FreeAfter(bs, i) ==> Release(bs, i) == Merge(cs, i - 1, i))
      && (!FreeBefore(bs, i) && FreeAfter(bs, i) ==> Release(bs, i) == Merge(cs, i, i + 1))
      && (FreeBefore(bs, i) && FreeAfter(bs, i) ==>
           |Merge(cs, i - 1, i)| > i && Release(bs, i) == Merge(Merge(cs, i - 1, i), i - 1, i))
  {
    var cs := bs[i := bs[i].(used := false)];
    if FreeBefore(bs, i) {
      MergeTwo(cs, i - 1);
      MergeTwo(bs, i - 1);
      var ds := Merge(cs, i - 1, i);
      if FreeAfter(bs, i) {
        MergeTwo(ds, i - 1);
        MergeThree(bs, i - 1);
        assert Release(bs, i) == Merge(ds, i - 1, i);
      } else {
        assert Release(bs, i) == ds;
      }
    } else if FreeAfter(bs, i) {
      MergeTwo(cs, i);
      MergeTwo(bs, i);
      assert Release(bs, i) == Merge(cs, i, i + 1);
    } else {
      assert Sizes([bs[i]]) == bs[i].size && bs[i..i + 1] == [bs[i]];
      assert Release(bs, i) == cs;
    }
  }

  lemma MergeThree(bs: seq<Block>, i: nat)
    requires i + 2 < |bs|
    ensures var cs := Merge(bs, i, i + 2);
      && |cs| == |bs| - 2
      && cs[i] == Block(bs[i].addr, bs[i].size + HEADER + bs[i + 1].size + HEADER + bs[i + 2].size, false)
      && (forall j | 0 <= j < i :: cs[j] == bs[j]) && (forall j | i < j < |cs| :: cs[j] == bs[j + 2])
  {
    assert bs[i..i + 3] == [bs[i], bs[i + 1], bs[i + 2]];
    assert [bs[i], bs[i + 1], bs[i + 2]][1..] == [bs[i + 1], bs[i + 2]];
    assert [bs[i + 1], bs[i + 2]][1..] == [bs[i + 2]];
    assert Sizes([bs[i + 2]]) == bs[i + 2].size;
    assert Sizes([bs[i + 1], bs[i + 2]]) == bs[i + 1].size + HEADER + bs[i + 2].size;
  }

  // ----- what the code reads on the way

  lemma LinksFirst(link: map<nat, Links>, first: Ptr, bs: seq<Block>, free: seq<nat>)
    requires LinksOk(link, first, bs, free)
    ensures first == FirstFree(free) && FreeChain(link, free) && FreeSet(bs, free)
  {
    hide FreeChain, FreeSet, UsedLinks;
  }

  lemma UsedZero(link: map<nat, Links>, first: Ptr, bs: seq<Block>, free: seq<nat>, i: nat)
    requires LinksOk(link, first, bs, free) && i < |bs| && bs[i].used
    ensures bs[i].addr in link && link[bs[i].addr] == ZERO_LINKS && bs[i].addr !in free
    ensures link[bs[i].addr := ZERO_LINKS] == link
  {
    hide FreeChain;
  }

  /** The header fields that the regrouping tests read. */
  lemma HeadFacts(head: map<nat, Head>, bs: seq<Block>, i: nat)
    requires HeadsOk(head, bs) && i < |bs|
    ensures bs[i].addr in head && head[bs[i].addr] == HeadOf(bs, i)
    ensures i > 0 ==> bs[i - 1].addr in head && head[bs[i - 1].addr] == HeadOf(bs, i - 1)
    ensures i + 1 < |bs| ==> bs[i + 1].addr in head && head[bs[i + 1].addr] == HeadOf(bs, i + 1)
  {
    hide Linked, Chain;
    ChainAt(head, bs, i);
    if i > 0 {
      ChainAt(head, bs, i - 1);
    }
    if i + 1 < |bs| {
      ChainAt(head, bs, i + 1);
    }
  }

  /** The blocks once the header of block i says that it is free. */
  function Marked(bs: seq<Block>, i: nat): seq<Block>
    requires i < |bs|
  {
    bs[i := bs[i].(used := false)]
  }

  /** The blocks once block i has been regrouped with the block before; the result is block Place. */
  function Joined(bs: seq<Block>, i: nat): seq<Block>
    requires i < |bs|
  {
    if FreeBefore(bs, i) then Merge(Marked(bs, i), i - 1, i) else Marked(bs, i)
  }

  function Place(bs: seq<Block>, i: nat): (j: nat)
    ensures j <= i
  {
    if FreeBefore(bs, i) then i - 1 else i
  }

  /** The header at a can absorb the one at b, and no size passes hi. */
  predicate Absorbable(head: map<nat, Head>, a: nat, b: nat, hi: nat) {
    && a in head && b in head && a != b && 0 < a < hi && head[a].next == At(b)
    && head[a].size + HEADER + head[b].size < hi
    && (head[b].next.At? ==> head[b].next.addr in head && head[b].next.addr != a && head[b].next.addr != b)
  }

  /** Block i of a heap that is intact but for the alloc field of its header. */
  ghost predicate Marks(head: map<nat, Head>, bs: seq<Block>, i: nat, lo: nat, hi: nat) {
    Tiling(bs, lo, hi) && lo > 0 && i < |bs| && bs[i].used && HeadsOk(head, Marked(bs, i))
  }

  /** The same, once block i has been regrouped with the block before. */
  ghost predicate Joins(head: map<nat, Head>, bs: seq<Block>, i: nat, lo: nat, hi: nat) {
    Tiling(bs, lo, hi) && lo > 0 && i < |bs| && bs[i].used && HeadsOk(head, Joined(bs, i))
  }

  /** The first regrouping test, and what the regrouping does. */
  lemma BeforeReads(head: map<nat, Head>, bs: seq<Block>, i: nat, lo: nat, hi: nat)
    requires Marks(head, bs, i, lo, hi)
    ensures var a := bs[i].addr;
      && a in head && 0 < a < hi
      && (head[a].prev.At? ==> head[a].prev.addr in head)
      && (head[a].prev.At? && head[head[a].prev.addr].alloc == 0 <==> FreeBefore(bs, i))
      && (FreeBefore(bs, i) ==> (
           && head[a].prev == At(bs[i - 1].addr) && Absorbable(head, bs[i - 1].addr, a, hi)
           && HeadsOk(AbsorbHeads(head, bs[i - 1].addr, a), Joined(bs, i))))
      && (!FreeBefore(bs, i) ==> HeadsOk(head, Joined(bs, i)))
  {
    hide Chain, Linked, Tiling, AbsorbHeads, Merge, HeadsOk;
    var cs := Marked(bs, i);
    InRange(bs, lo, hi, i);
    HeadFacts(head, cs, i);
    if FreeBefore(bs, i) {
      InRange(bs, lo, hi, i - 1);
      AbsorbOk(head, cs, i - 1);
      TwoFit(bs, lo, hi, i - 1);
    }
  }

  /** Two neighbours together fit below hi. */
  lemma TwoFit(bs: seq<Block>, lo: nat, hi: nat, i: nat)
    requires Tiling(bs, lo, hi) && lo > 0 && i + 1 < |bs|
    ensures bs[i].size + HEADER + bs[i + 1].size < hi
  {
    InRange(bs, lo, hi, i);
    InRange(bs, lo, hi, i + 1);
    assert bs[i].End() == bs[i + 1].addr;
  }

  /** The second regrouping test, and what the regrouping does to the headers. */
  lemma AfterReads(head: map<nat, Head>, bs: seq<Block>, i: nat, lo: nat, hi: nat)
    requires Joins(head, bs, i, lo, hi)
    ensures var a := bs[Place(bs, i)].addr;
      && a in head && 0 < a < hi
      && (head[a].next.At? ==> head[a].next.addr in head)
      && (head[a].next.At? && head[head[a].next.addr].alloc == 0 <==> FreeAfter(bs, i))
      && (FreeAfter(bs, i) ==> Absorbable(head, a, bs[i + 1].addr, hi) && HeadsOk(AbsorbHeads(head, a, bs[i + 1].addr), Release(bs, i)))
      && (!FreeAfter(bs, i) ==> HeadsOk(head, Release(bs, i)))
  {
    hide Chain, Linked, Tiling, AbsorbHeads, Merge, HeadsOk, Release;
    var cs, j := Joined(bs, i), Place(bs, i);
    JoinedAt(bs, lo, hi, i);
    InRange(bs, lo, hi, j);
    HeadFacts(head, cs, j);
    ReleaseSteps(bs, i);
    if FreeAfter(bs, i) {
      AbsorbOk(head, cs, j);
    }
  }

  /** What the regrouped block is, and what follows it. */
  lemma JoinedAt(bs: seq<Block>, lo: nat, hi: nat, i: nat)
    requires Tiling(bs, lo, hi) && lo > 0 && i < |bs|
    ensures var (cs, j) := (Joined(bs, i), Place(bs, i));
      && j < |cs| && cs[j].addr == bs[j].addr && !cs[j].used && |cs| - j == |bs| - i
      && (i + 1 < |bs| ==> cs[j + 1] == bs[i + 1] && cs[j].size + HEADER + bs[i + 1].size < hi)
  {
    hide Tiling, Merge;
    var cs, j := Joined(bs, i), Place(bs, i);
    if FreeBefore(bs, i) {
      MergeTwo(Marked(bs, i), i - 1);
      InRange(bs, lo, hi, i - 1);
    }
    InRange(bs, lo, hi, i);
    if i + 1 < |bs| {
      TwoFit(bs, lo, hi, i);
      InRange(bs, lo, hi, i + 1);
      ThreeMeet(bs, lo, hi, i);
    }
  }

  lemma ThreeMeet(bs: seq<Block>, lo: nat, hi: nat, i: nat)
    requires Tiling(bs, lo, hi) && i < |bs|
    ensures i + 1 < |bs| ==> bs[i].End() == bs[i + 1].addr
    ensures i > 0 ==> bs[i - 1].End() == bs[i].addr
  {
    if i > 0 {
      assert bs[i - 1].End() == bs[i - 1 + 1].addr;
    }
  }

  // ----- the states of a release

  /** Block i, whose header is at a, has been marked free in that header and nowhere else. */
  ghost predicate OnlyMarked(head: map<nat, Head>, link: map<nat, Links>, first: Ptr, bs: seq<Block>, free: seq<nat>, i: nat, a: nat, lo: nat, hi: nat) {
    Marks(head, bs, i, lo, hi) && bs[i].addr == a && LinksOk(link, first, bs, free)
  }

  /** It has been regrouped with the block before; hdr is the header of the result. */
  ghost predicate HalfReleased(head: map<nat, Head>, link: map<nat, Links>, first: Ptr, bs: seq<Block>, free: seq<nat>, i: nat, hdr: nat, lo: nat, hi: nat) {
    Joins(head, bs, i, lo, hi) && hdr == bs[Place(bs, i)].addr && LinksOk(link, first, bs, free)
  }

  /** It has also been regrouped with the block after; only a block without free neighbours is not listed yet. */
  ghost predicate AlmostReleased(head: map<nat, Head>, link: map<nat, Links>, first: Ptr, bs: seq<Block>, free: seq<nat>, i: nat, hdr: nat) {
    && i < |bs| && bs[i].used && Linked(bs) && FreeSet(bs, free) && HeadsOk(head, Release(bs, i)) && hdr == bs[Place(bs, i)].addr
    && (if FreeBefore(bs, i) || FreeAfter(bs, i) then LinksOk(link, first, Release(bs, i), ReleaseFree(bs, free, i)) else LinksOk(link, first, bs, free))
  }

  /** The release is complete. */
  ghost predicate Released(head: map<nat, Head>, link: map<nat, Links>, first: Ptr, bs: seq<Block>, free: seq<nat>, i: nat) {
    && i < |bs| && FreeSet(bs, free) && HeadsOk(head, Release(bs, i)) && LinksOk(link, first, Release(bs, i), ReleaseFree(bs, free, i))
  }

  /** What the first regrouping reads and leaves. */
  lemma BeforeStates(head: map<nat, Head>, link: map<nat, Links>, first: Ptr, bs: seq<Block>, free: seq<nat>, i: nat, a: nat, lo: nat, hi: nat)
    requires OnlyMarked(head, link, first, bs, free, i, a, lo, hi)
    ensures a in head && a in link && 0 < a < hi && (head[a].prev.At? ==> head[a].prev.addr in head)
    ensures head[a].prev.At? && head[head[a].prev.addr].alloc == 0 <==> FreeBefore(bs, i)
    ensures !FreeBefore(bs, i) ==> HalfReleased(head, link, first, bs, free, i, a, lo, hi)
    ensures FreeBefore(bs, i) ==>
      var p := head[a].prev.addr;
      Absorbable(head, p, a, hi) && HalfReleased(AbsorbHeads(head, p, a), link[a := ZERO_LINKS], first, bs, free, i, p, lo, hi)
  {
    hide LinksOk, HeadsOk, Tiling, AbsorbHeads, Joined;
    BeforeReads(head, bs, i, lo, hi);
    UsedZero(link, first, bs, free, i);
  }

  /** What the second regrouping reads and leaves. */
  lemma AfterStates(head: map<nat, Head>, link: map<nat, Links>, first: Ptr, bs: seq<Block>, free: seq<nat>, i: nat, a: nat, lo: nat, hi: nat)
    requires HalfReleased(head, link, first, bs, free, i, a, lo, hi)
    ensures a in head && 0 < a < hi && (head[a].next.At? ==> head[a].next.addr in head)
    ensures head[a].next.At? && head[head[a].next.addr].alloc == 0 <==> FreeAfter(bs, i)
    ensures !FreeAfter(bs, i) ==> AlmostReleased(head, link, first, bs, free, i, a)
    ensures FreeAfter(bs, i) ==>
      var b := head[a].next.addr;
      Absorbable(head, a, b, hi) && CanJoin(link, first, bs, free, i, a, b)
      && forall l, f | HasJoined(l, f, bs, free, i, b) :: AlmostReleased(AbsorbHeads(head, a, b), l[b := ZERO_LINKS], f, bs, free, i, a)
  {
    hide LinksOk, HeadsOk, Tiling, AbsorbHeads, Joined, FreeSet, Linked, Release, ReleaseFree;
    AfterReads(head, bs, i, lo, hi);
    TilingLinked(bs, lo, hi);
    LinksFirst(link, first, bs, free);
    if FreeBefore(bs, i) && !FreeAfter(bs, i) {
      LinksBefore(link, bs, free, i);
      UsedZero(link, first, bs, free, i);
    }
  }

  /** A block that was not regrouped is put in front of the list. */
  lemma LastState(head: map<nat, Head>, link: map<nat, Links>, first: Ptr, bs: seq<Block>, free: seq<nat>, i: nat, a: nat)
    requires AlmostReleased(head, link, first, bs, free, i, a)
    ensures FreeBefore(bs, i) || FreeAfter(bs, i) ==> Released(head, link, first, bs, free, i)
    ensures !FreeBefore(bs, i) && !FreeAfter(bs, i) ==>
      && a in link && (first.At? ==> first.addr in link && first.addr != a)
      && Released(head, PrependLinks(link, first, a), At(a), bs, free, i)
  {
    hide LinksOk, HeadsOk, FreeSet, Linked, Release, ReleaseFree, PrependLinks;
    if !FreeBefore(bs, i) && !FreeAfter(bs, i) {
      LinksFirst(link, first, bs, free);
      LinksNone(link, bs, free, i);
      UsedZero(link, first, bs, free, i);
    }
  }

  // ----- the free list while two blocks are regrouped

  /** The block at hdr is about to take the place of its free successor was. */
  ghost predicate CanJoin(link: map<nat, Links>, first: Ptr, bs: seq<Block>, free: seq<nat>, i: nat, hdr: nat, was: nat) {
    && LinksOk(link, first, bs, free) && Linked(bs) && i < |bs| && bs[i].used && FreeAfter(bs, i)
    && hdr == bs[Place(bs, i)].addr && was == bs[i + 1].addr
  }

  /** It has done so, but for the header of its successor, which is not erased yet. */
  ghost predicate HasJoined(link: map<nat, Links>, first: Ptr, bs: seq<Block>, free: seq<nat>, i: nat, was: nat) {
    && i < |bs| && FreeSet(bs, free) && was in link
    && LinksOk(link[was := ZERO_LINKS], first, Release(bs, i), ReleaseFree(bs, free, i))
  }

  /** The list without the block before block i, if that is free. */
  ghost predicate Unlinked(link: map<nat, Links>, first: Ptr, bs: seq<Block>, free: seq<nat>, i: nat, hdr: nat, was: nat,
                           l: map<nat, Links>, f: Ptr, rest: seq<nat>) {
    && FreeChain(l, rest) && f == FirstFree(rest) && was in rest && hdr !in rest && l.Keys == link.Keys
    && (FreeBefore(bs, i) ==> hdr in free && rest == Without(free, IndexOf(free, hdr)) && (forall x | x in link && x !in free :: l[x] == link[x]))
    && (!FreeBefore(bs, i) ==> l == link && rest == free)
  }

  /** Whether the block has a place of its own in the list, and what is left when it is unlinked. */
  lemma JoinReads(link: map<nat, Links>, first: Ptr, bs: seq<Block>, free: seq<nat>, i: nat, hdr: nat, was: nat)
    requires CanJoin(link, first, bs, free, i, hdr, was)
    ensures hdr in link && (link[hdr] != ZERO_LINKS <==> FreeBefore(bs, i)) && first == FirstFree(free) && FreeChain(link, free)
    ensures FreeBefore(bs, i) ==>
      && hdr in free && (link[hdr].prev.At? ==> link[hdr].prev.addr in link) && (link[hdr].next.At? ==> link[hdr].next.addr in link)
      && Unlinked(link, first, bs, free, i, hdr, was, UnlinkLinks(link, hdr), UnlinkFirst(link, first, hdr), Without(free, IndexOf(free, hdr)))
    ensures !FreeBefore(bs, i) ==> Unlinked(link, first, bs, free, i, hdr, was, link, first, free)
  {
    hide Linked, FreeSet, Release, ReleaseFree, FreeChain, UnlinkLinks, UnlinkFirst, InheritLinks, InheritFirst, Without, LinksOk;
    LinksFirst(link, first, bs, free);
    if FreeBefore(bs, i) {
      LinksBothUnlink(link, bs, free, i);
    } else {
      UsedZero(link, first, bs, free, i);
      LinksAfter(link, bs, free, i);
    }
  }

  /** Taking the place of the successor completes the list changes. */
  lemma JoinDone(link: map<nat, Links>, first: Ptr, bs: seq<Block>, free: seq<nat>, i: nat, hdr: nat, was: nat,
                 l: map<nat, Links>, f: Ptr, rest: seq<nat>)
    requires CanJoin(link, first, bs, free, i, hdr, was) && Unlinked(link, first, bs, free, i, hdr, was, l, f, rest)
    ensures was in l && (l[was].prev.At? ==> l[was].prev.addr in l) && (l[was].next.At? ==> l[was].next.addr in l)
    ensures HasJoined(InheritLinks(l, hdr, was), InheritFirst(l, FirstFree(rest), hdr, was), bs, free, i, was)
  {
    hide Linked, FreeSet, Release, ReleaseFree, FreeChain, UnlinkLinks, UnlinkFirst, InheritLinks, InheritFirst, Without, LinksOk;
    LinksFirst(link, first, bs, free);
    if FreeBefore(bs, i) {
      LinksBothUnlink(link, bs, free, i);
      LinksBoth(link, bs, free, i, l, rest);
    } else {
      LinksAfter(link, bs, free, i);
    }
    InheritKeys(l, hdr, was);
  }
}
