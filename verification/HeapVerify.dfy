/** What verify_header and verify_chain test, on any memory. */
module HeapVerify {
  import opened ByteNumbers
  import opened HeapBlocks
  import opened HeapLists
  import opened HeapMemory
  import opened HeapRelease
  import opened HeapTaking

  /** The flag tests of verify_header. */
  predicate GoodHeader(h: Head, l: Links) {
    && h.magic1 == MAGIC1 && h.magic2 == MAGIC2 && h.alloc <= 1
    && !(h.prev.At? && h.prev == h.next) && !(l.prev.At? && l.prev == l.next)
  }

  /** The four bytes at a, the least significant first. */
  predicate Bytes4(m: Memory, a: nat, b0: Octet, b1: Octet, b2: Octet, b3: Octet) {
    m(a) == b0 && m(a + 1) == b1 && m(a + 2) == b2 && m(a + 3) == b3
  }

  /** The four bytes at a and those at b are the same, and not all zero. */
  predicate SamePointers(m: Memory, a: nat, b: nat) {
    Bytes4(m, a, m(b), m(b + 1), m(b + 2), m(b + 3)) && !Bytes4(m, a, 0, 0, 0, 0)
  }

  /** The five tests of verify_header, byte by byte: the two magic words, an alloc word of 0 or 1, and no two
      equal neighbours in either list. */
  predicate PassingBytes(m: Memory, a: nat) {
    && Bytes4(m, a, 0x55, 0xAA, 0x00, 0xFF) && Bytes4(m, a + 28, 0x66, 0x99, 0x11, 0xEE)
    && (Bytes4(m, a + 8, 0, 0, 0, 0) || Bytes4(m, a + 8, 1, 0, 0, 0))
    && !SamePointers(m, a + 12, a + 16) && !SamePointers(m, a + 20, a + 24)
  }

  lemma WordIsBytes(m: Memory, a: nat, b0: Octet, b1: Octet, b2: Octet, b3: Octet)
    ensures Word(m, a) == b0 + 0x100 * b1 + 0x1_0000 * b2 + 0x100_0000 * b3 <==> Bytes4(m, a, b0, b1, b2, b3)
  {
    if Word(m, a) == b0 + 0x100 * b1 + 0x1_0000 * b2 + 0x100_0000 * b3 {
      LowDigit(m(a), m(a + 1) + 0x100 * (m(a + 2) + 0x100 * m(a + 3)), b0, b1 + 0x100 * (b2 + 0x100 * b3));
      LowDigit(m(a + 1), m(a + 2) + 0x100 * m(a + 3), b1, b2 + 0x100 * b3);
      LowDigit(m(a + 2), m(a + 3), b2, b3);
    }
  }

  lemma LowDigit(x: Octet, high: nat, y: Octet, high': nat)
    requires x + 0x100 * high == y + 0x100 * high'
    ensures x == y && high == high'
  {}

  lemma SameWords(m: Memory, a: nat, b: nat)
    ensures PtrOf(Word(m, a)).At? && PtrOf(Word(m, a)) == PtrOf(Word(m, b)) <==> SamePointers(m, a, b)
  {
    hide Word, Bytes4;
    WordIsBytes(m, a, 0, 0, 0, 0);
    WordIsBytes(m, a, m(b), m(b + 1), m(b + 2), m(b + 3));
    WordIsBytes(m, b, m(b), m(b + 1), m(b + 2), m(b + 3));
    Itself(m, b);
  }

  lemma Itself(m: Memory, a: nat)
    ensures Bytes4(m, a, m(a), m(a + 1), m(a + 2), m(a + 3))
  {}

  /** A header is good exactly if its bytes pass. */
  lemma GoodBytes(m: Memory, a: nat)
    ensures GoodHeader(HeadAt(m, a), LinksAt(m, a)) <==> PassingBytes(m, a)
  {
    hide Word, Bytes4, SamePointers, PtrOf;
    WordIsBytes(m, a, 0x55, 0xAA, 0x00, 0xFF);
    WordIsBytes(m, a + 28, 0x66, 0x99, 0x11, 0xEE);
    WordIsBytes(m, a + 8, 0, 0, 0, 0);
    WordIsBytes(m, a + 8, 1, 0, 0, 0);
    SameWords(m, a + 12, a + 16);
    SameWords(m, a + 20, a + 24);
  }

  lemma FirstBlock(bs: seq<Block>, lo: nat, hi: nat)
    requires Tiling(bs, lo, hi)
    ensures bs != [] && bs[0].addr == lo
  {}

  /** Every header of a valid heap passes verify_header. */
  lemma HeaderGood(head: map<nat, Head>, link: map<nat, Links>, bs: seq<Block>, free: seq<nat>, lo: nat, hi: nat, i: nat)
    requires Tiling(bs, lo, hi) && Chain(head, bs) && FreeChain(link, free) && FreeSet(bs, free) && UsedLinks(link, bs)
    requires i < |bs|
    ensures bs[i].addr in head && head[bs[i].addr] == HeadOf(bs, i) && bs[i].addr in link
    ensures GoodHeader(head[bs[i].addr], link[bs[i].addr])
  {
    hide FreeChain, Tiling, Linked, Chain;
    TilingLinked(bs, lo, hi);
    ChainAt(head, bs, i);
    if 0 < i < |bs| - 1 {
      Differ(bs, i - 1, i + 1);
    }
    if !bs[i].used {
      var k :| 0 <= k < |free| && free[k] == bs[i].addr;
      FreeAt(link, free, k);
    }
  }

  // ----- the tests of a release

  /** Where the release looks for the header of what starts at p; addresses are words. */
  function HeaderOf(p: nat): (a: nat)
    ensures a < WORDS
  {
    (p + WORDS - HEADER) % WORDS
  }

  /** The bytes at a pass for the header of a block that is handed out. */
  ghost predicate Accepts(m: Memory, a: nat) {
    GoodHeader(HeadAt(m, a), LinksAt(m, a)) && HeadAt(m, a).alloc == 1
  }

  /** A pointer that the release does not turn down. */
  ghost predicate Passes(m: Memory, buf: Ptr, len: nat, ptr: Ptr) {
    ptr.At? && buf.At? && buf.addr <= ptr.addr < buf.addr + len && Accepts(m, HeaderOf(ptr.addr))
  }

  /** A block that is handed out starts at p. */
  ghost predicate HandedOut(bs: seq<Block>, p: nat) {
    exists i :: 0 <= i < |bs| && bs[i].used && bs[i].addr + HEADER == p
  }

  lemma HandedOutBlock(bs: seq<Block>, a: nat) returns (i: nat)
    requires HandedOut(bs, a + HEADER)
    ensures UsedAt(bs, i, a)
  {
    i :| 0 <= i < |bs| && bs[i].used && bs[i].addr + HEADER == a + HEADER;
  }

  /** Where a block starts, the header test accepts exactly the blocks that are handed out. */
  lemma FoundByHeader(head: map<nat, Head>, link: map<nat, Links>, m: Memory, first: Ptr, bs: seq<Block>, free: seq<nat>, lo: nat, hi: nat, a: nat)
    requires HeapOk(head, link, first, bs, free, lo, hi) && Shows(m, head, link) && HasBlock(bs, a)
    ensures Accepts(m, a) <==> HandedOut(bs, a + HEADER)
  {
    hide Tiling, Chain, FreeChain, FreeSet, UsedLinks, GoodHeader, HeadAt, LinksAt, Shows;
    var i :| 0 <= i < |bs| && bs[i].addr == a;
    HeaderGood(head, link, bs, free, lo, hi, i);
    HeadShown(m, head, link, a);
    LinksShown(m, head, link, a);
    HandedOutAt(bs, lo, hi, i);
  }

  lemma HandedOutAt(bs: seq<Block>, lo: nat, hi: nat, i: nat)
    requires Tiling(bs, lo, hi) && i < |bs|
    ensures HandedOut(bs, bs[i].addr + HEADER) <==> bs[i].used
  {
    if HandedOut(bs, bs[i].addr + HEADER) {
      var j :| 0 <= j < |bs| && bs[j].used && bs[j].addr + HEADER == bs[i].addr + HEADER;
      SameAddress(bs, i, j);
    }
  }

  /** A pointer to a block that is handed out passes. */
  lemma HandedOutPasses(head: map<nat, Head>, link: map<nat, Links>, m: Memory, first: Ptr, bs: seq<Block>, free: seq<nat>, buf: nat, len: nat, p: nat)
    requires HeapOk(head, link, first, bs, free, buf, buf + len) && Shows(m, head, link) && buf + len < WORDS && HandedOut(bs, p)
    ensures p >= HEADER && HeaderOf(p) == p - HEADER && Passes(m, At(buf), len, At(p))
  {
    hide Tiling, Chain, FreeChain, FreeSet, UsedLinks, GoodHeader, HeadAt, LinksAt, Shows, Accepts;
    var i :| 0 <= i < |bs| && bs[i].used && bs[i].addr + HEADER == p;
    InRange(bs, buf, buf + len, i);
    assert p + WORDS - HEADER == p - HEADER + WORDS;
    FoundByHeader(head, link, m, first, bs, free, buf, buf + len, bs[i].addr);
  }

  // ----- verify_chain

  /** What comes before, and after, position i of a path. */
  function Before(path: seq<nat>, i: nat): Ptr
    requires i < |path|
  {
    if i == 0 then Null else At(path[i - 1])
  }

  function After(path: seq<nat>, i: nat): Ptr
    requires i < |path|
  {
    if i + 1 == |path| then Null else At(path[i + 1])
  }

  /** Good headers that mirror each other, starting at f. */
  ghost predicate ChainPrefix(m: Memory, f: nat, path: seq<nat>) {
    path != [] && path[0] == f && NoRepeats(path) && |path| <= WORDS && forall i | 0 <= i < |path| :: Mirrors(m, path, i)
  }

  /** The header at place i is good, and the pointers along the path agree with it. */
  ghost predicate Mirrors(m: Memory, path: seq<nat>, i: nat)
    requires i < |path|
  {
    && path[i] < WORDS && GoodHeader(HeadAt(m, path[i]), LinksAt(m, path[i]))
    && HeadAt(m, path[i]).prev == Before(path, i)
    && (i < |path| - 1 ==> HeadAt(m, path[i]).next == After(path, i))
  }

  /** All the headers from f on, in order. */
  ghost predicate IsChain(m: Memory, f: nat, path: seq<nat>) {
    && path != [] && path[0] == f
    && (forall i | 0 <= i < |path| :: GoodHeader(HeadAt(m, path[i]), LinksAt(m, path[i])))
    && (forall i | 0 <= i < |path| :: HeadAt(m, path[i]).prev == Before(path, i))
    && (forall i | 0 <= i < |path| :: HeadAt(m, path[i]).next == After(path, i))
  }

  /** What verify_chain tests. */
  ghost predicate WellChained(m: Memory, first: Ptr) {
    first.At? && exists path :: IsChain(m, first.addr, path)
  }

  lemma FirstPrefix(m: Memory, f: nat)
    requires f < WORDS && GoodHeader(HeadAt(m, f), LinksAt(m, f)) && HeadAt(m, f).prev == Null
    ensures ChainPrefix(m, f, [f])
  {
    hide HeadAt, LinksAt, GoodHeader;
  }

  /** A header that was visited before cannot point back to where the walk is now. */
  lemma NotVisited(m: Memory, f: nat, path: seq<nat>, i: nat)
    requires ChainPrefix(m, f, path) && i < |path|
    ensures HeadAt(m, path[i]).prev != At(path[|path| - 1]) && path[i] < WORDS
  {
    hide HeadAt, LinksAt, GoodHeader;
    assert Mirrors(m, path, i);
    if i > 0 {
      FreeDiffer(path, i - 1, |path| - 1);
    }
  }

  lemma NextPrefix(m: Memory, f: nat, path: seq<nat>, n: nat)
    requires ChainPrefix(m, f, path) && n < WORDS && HeadAt(m, path[|path| - 1]).next == At(n)
    requires GoodHeader(HeadAt(m, n), LinksAt(m, n)) && HeadAt(m, n).prev == At(path[|path| - 1])
    ensures ChainPrefix(m, f, path + [n]) && |path| < WORDS
  {
    hide HeadAt, LinksAt, GoodHeader, NoRepeats, Mirrors;
    forall i | 0 <= i < |path| ensures path[i] != n && path[i] < WORDS {
      NotVisited(m, f, path, i);
    }
    OneLonger(path, n);
    forall i | 0 <= i < |path + [n]| ensures Mirrors(m, path + [n], i) {
      MirrorsLonger(m, path, n, i);
    }
  }

  lemma MirrorsLonger(m: Memory, path: seq<nat>, n: nat, i: nat)
    requires path != [] && i <= |path| && n < WORDS && HeadAt(m, path[|path| - 1]).next == At(n)
    requires GoodHeader(HeadAt(m, n), LinksAt(m, n)) && HeadAt(m, n).prev == At(path[|path| - 1])
    requires i < |path| ==> Mirrors(m, path, i)
    ensures Mirrors(m, path + [n], i)
  {
    hide HeadAt, LinksAt, GoodHeader;
  }

  lemma OneLonger(path: seq<nat>, n: nat)
    requires NoRepeats(path) && n < WORDS && forall i | 0 <= i < |path| :: path[i] != n && path[i] < WORDS
    ensures NoRepeats(path + [n]) && |path| < WORDS
  {
    Pigeonhole(path + [n], WORDS);
  }

  lemma {:induction false} Pigeonhole(s: seq<nat>, n: nat)
    requires NoRepeats(s) && forall i | 0 <= i < |s| :: s[i] < n
    ensures |s| <= n
    decreases n
  {
    if s == [] {
      return;
    }
    assert s[0] < n;
    if k :| 0 <= k < |s| && s[k] == n - 1 {
      WithoutNoRepeats(s, k);
      var t := Without(s, k);
      forall i | 0 <= i < |t| ensures t[i] < n - 1 {
        assert t[i] in t;
      }
      Pigeonhole(t, n - 1);
    } else {
      Pigeonhole(s, n - 1);
    }
  }

  lemma WholeChain(m: Memory, f: nat, path: seq<nat>)
    requires ChainPrefix(m, f, path) && HeadAt(m, path[|path| - 1]).next == Null
    ensures WellChained(m, At(f))
  {
    hide HeadAt, LinksAt, GoodHeader, NoRepeats;
    forall i | 0 <= i < |path|
      ensures GoodHeader(HeadAt(m, path[i]), LinksAt(m, path[i]))
      ensures HeadAt(m, path[i]).prev == Before(path, i) && HeadAt(m, path[i]).next == After(path, i)
    {
      assert Mirrors(m, path, i);
    }
    assert IsChain(m, f, path);
  }

  /** Every chain from f follows the same headers. */
  lemma {:induction false} ChainFollows(m: Memory, f: nat, path: seq<nat>, chain: seq<nat>, i: nat)
    requires ChainPrefix(m, f, path) && IsChain(m, f, chain) && i < |path|
    ensures i < |chain| && chain[i] == path[i]
  {
    hide HeadAt, LinksAt, GoodHeader, NoRepeats;
    if i > 0 {
      ChainFollows(m, f, path, chain, i - 1);
      assert Mirrors(m, path, i - 1);
      assert After(path, i - 1) == After(chain, i - 1);
    } else {
      assert path[0] == chain[0];
    }
  }

  /** The header that a chain demands where a walk has arrived. */
  lemma ChainDemands(m: Memory, f: nat, path: seq<nat>, chain: seq<nat>)
    requires IsChain(m, f, chain) && (path == [] || (ChainPrefix(m, f, path) && HeadAt(m, path[|path| - 1]).next.At?))
    ensures var n := if path == [] then f else HeadAt(m, path[|path| - 1]).next.addr;
      GoodHeader(HeadAt(m, n), LinksAt(m, n)) && HeadAt(m, n).prev == if path == [] then Null else At(path[|path| - 1])
  {
    hide HeadAt, LinksAt, GoodHeader, ChainPrefix;
    if path != [] {
      ChainFollows(m, f, path, chain, |path| - 1);
      assert HeadAt(m, chain[|path| - 1]).next == After(chain, |path| - 1);
      assert HeadAt(m, chain[|path|]).prev == Before(chain, |path|);
    } else {
      assert HeadAt(m, chain[0]).prev == Before(chain, 0);
    }
  }

  /** A walk that stops at a bad header, or one that does not point back, proves that there is no chain. */
  lemma NoChain(m: Memory, f: nat, path: seq<nat>)
    requires path == [] || (ChainPrefix(m, f, path) && HeadAt(m, path[|path| - 1]).next.At?)
    requires var n := if path == [] then f else HeadAt(m, path[|path| - 1]).next.addr;
      !GoodHeader(HeadAt(m, n), LinksAt(m, n)) || HeadAt(m, n).prev != if path == [] then Null else At(path[|path| - 1])
    ensures !WellChained(m, At(f))
  {
    hide HeadAt, LinksAt, GoodHeader, ChainPrefix, IsChain;
    if WellChained(m, At(f)) {
      var chain :| IsChain(m, f, chain);
      ChainDemands(m, f, path, chain);
    }
  }

  function Addresses(bs: seq<Block>): (s: seq<nat>)
    ensures |s| == |bs|
  {
    seq(|bs|, i requires 0 <= i < |bs| => bs[i].addr)
  }

  /** verify_chain succeeds on a heap that is intact. */
  lemma ValidChained(head: map<nat, Head>, link: map<nat, Links>, m: Memory, first: Ptr, bs: seq<Block>, free: seq<nat>, lo: nat, hi: nat)
    requires HeapOk(head, link, first, bs, free, lo, hi) && Shows(m, head, link)
    ensures WellChained(m, At(lo))
  {
    hide Tiling, Chain, FreeChain, FreeSet, UsedLinks, GoodHeader, HeadAt, LinksAt, Shows;
    var path := Addresses(bs);
    FirstBlock(bs, lo, hi);
    forall i | 0 <= i < |path|
      ensures GoodHeader(HeadAt(m, path[i]), LinksAt(m, path[i]))
      ensures HeadAt(m, path[i]).prev == Before(path, i) && HeadAt(m, path[i]).next == After(path, i)
    {
      HeaderGood(head, link, bs, free, lo, hi, i);
      HeadShown(m, head, link, bs[i].addr);
      LinksShown(m, head, link, bs[i].addr);
    }
    assert IsChain(m, lo, path);
  }
}
