/** Block headers as bytes of memory: eight little-endian 32-bit fields. */
module HeapMemory {
  import opened ByteNumbers
  import opened HeapBlocks
  import opened HeapLists

  /** One more than the largest size_t. */
  const WORDS: nat := 0x1_0000_0000

  /** All of memory, byte by byte. */
  type Memory = nat -> Octet

  function Word(m: Memory, a: nat): (w: nat)
    ensures w < WORDS
  {
    m(a) + 0x100 * m(a + 1) + 0x1_0000 * m(a + 2) + 0x100_0000 * m(a + 3)
  }

  function WordBytes(v: nat): (b: seq<Octet>)
    ensures |b| == 4
  {
    [v % 0x100, v / 0x100 % 0x100, v / 0x1_0000 % 0x100, v / 0x100_0000 % 0x100]
  }

  /** The bytes b at a, and everything else as it was. */
  function Put(m: Memory, a: nat, b: seq<Octet>): Memory {
    (x: nat) => if a <= x < a + |b| then b[x - a] else m(x)
  }

  function PutWord(m: Memory, a: nat, v: nat): Memory {
    Put(m, a, WordBytes(v))
  }

  /** n zero bytes. */
  function Clear(m: Memory, a: nat, n: nat): Memory {
    (x: nat) => if a <= x < a + n then 0 else m(x)
  }

  lemma WordBack(m: Memory, a: nat, v: nat)
    requires v < WORDS
    ensures Word(PutWord(m, a, v), a) == v
  {
    Digits(v);
  }

  lemma Digits(v: nat)
    requires v < WORDS
    ensures v == v % 0x100 + 0x100 * (v / 0x100 % 0x100) + 0x1_0000 * (v / 0x1_0000 % 0x100) + 0x100_0000 * (v / 0x100_0000 % 0x100)
  {
    assert v / 0x1_0000 == v / 0x100 / 0x100 && v / 0x100_0000 == v / 0x1_0000 / 0x100;
  }

  // ----- memory_header

  const MAGIC1_AT: nat := 0
  const SIZE_AT: nat := 4
  const ALLOC_AT: nat := 8
  const PREV_AT: nat := 12
  const NEXT_AT: nat := 16
  const PREV_FREE_AT: nat := 20
  const NEXT_FREE_AT: nat := 24
  const MAGIC2_AT: nat := 28

  /** A pointer that a word can hold. */
  predicate Fits(p: Ptr) {
    p.At? ==> 0 < p.addr < WORDS
  }

  function PtrOf(w: nat): (p: Ptr)
    ensures w < WORDS ==> Fits(p)
  {
    if w == 0 then Null else At(w)
  }

  function WordOf(p: Ptr): nat {
    match p
    case Null => 0
    case At(a) => a
  }

  /** The field at offset k of a header at a. */
  function Field(m: Memory, a: nat, k: nat): (w: nat)
    ensures w < WORDS
  {
    Word(m, a + k)
  }

  /** What the bytes at a say, if they are read as a header. */
  function HeadAt(m: Memory, a: nat): (h: Head)
    ensures h.size < WORDS && Fits(h.prev) && Fits(h.next)
  {
    Head(Field(m, a, MAGIC1_AT), Field(m, a, SIZE_AT), Field(m, a, ALLOC_AT), PtrOf(Field(m, a, PREV_AT)), PtrOf(Field(m, a, NEXT_AT)),
         Field(m, a, MAGIC2_AT))
  }

  function LinksAt(m: Memory, a: nat): (l: Links)
    ensures Fits(l.prev) && Fits(l.next)
  {
    Links(PtrOf(Field(m, a, PREV_FREE_AT)), PtrOf(Field(m, a, NEXT_FREE_AT)))
  }

  /** The layout of memory_header: eight words in the order of its fields. */
  lemma HeaderLayout(m: Memory, a: nat)
    ensures HEADER == 32
    ensures HeadAt(m, a) == Head(Word(m, a), Word(m, a + 4), Word(m, a + 8), PtrOf(Word(m, a + 12)), PtrOf(Word(m, a + 16)), Word(m, a + 28))
    ensures LinksAt(m, a) == Links(PtrOf(Word(m, a + 20)), PtrOf(Word(m, a + 24)))
  {}

  /** Only bytes of the header at a differ. */
  ghost predicate SameOutside(m: Memory, m': Memory, a: nat) {
    forall x: nat | !(a <= x < a + HEADER) :: m'(x) == m(x)
  }

  lemma WordAside(m: Memory, a: nat, v: nat, c: nat)
    requires c + 4 <= a || a + 4 <= c
    ensures Word(PutWord(m, a, v), c) == Word(m, c)
  {}

  lemma PutInside(m: Memory, a: nat, k: nat, v: nat)
    requires k + 4 <= HEADER
    ensures SameOutside(m, PutWord(m, a + k, v), a)
  {
    hide WordBytes;
  }

  /** A field of the header at a is stored; the other fields keep their values. */
  lemma FieldStored(m: Memory, a: nat, k: nat, v: nat)
    requires k % 4 == 0 && k < HEADER && v < WORDS
    ensures var m' := PutWord(m, a + k, v);
      SameOutside(m, m', a) && forall j | 0 <= j < HEADER && j % 4 == 0 :: Field(m', a, j) == if j == k then v else Field(m, a, j)
  {
    hide Word, PutWord, SameOutside;
    PutInside(m, a, k, v);
    forall j | 0 <= j < HEADER && j % 4 == 0 ensures Field(PutWord(m, a + k, v), a, j) == if j == k then v else Field(m, a, j) {
      if j == k {
        WordBack(m, a + k, v);
      } else {
        WordAside(m, a + k, v, a + j);
      }
    }
  }

  lemma SetSizeIs(m: Memory, a: nat, v: nat)
    requires v < WORDS
    ensures var m' := PutWord(m, a + SIZE_AT, v);
      SameOutside(m, m', a) && HeadAt(m', a) == HeadAt(m, a).(size := v) && LinksAt(m', a) == LinksAt(m, a)
  {
    hide Field, PutWord, SameOutside;
    FieldStored(m, a, SIZE_AT, v);
  }

  lemma SetAllocIs(m: Memory, a: nat, v: nat)
    requires v < WORDS
    ensures var m' := PutWord(m, a + ALLOC_AT, v);
      SameOutside(m, m', a) && HeadAt(m', a) == HeadAt(m, a).(alloc := v) && LinksAt(m', a) == LinksAt(m, a)
  {
    hide Field, PutWord, SameOutside;
    FieldStored(m, a, ALLOC_AT, v);
  }

  lemma SetMagic1Is(m: Memory, a: nat, v: nat)
    requires v < WORDS
    ensures var m' := PutWord(m, a + MAGIC1_AT, v);
      SameOutside(m, m', a) && HeadAt(m', a) == HeadAt(m, a).(magic1 := v) && LinksAt(m', a) == LinksAt(m, a)
  {
    hide Field, PutWord, SameOutside;
    FieldStored(m, a, MAGIC1_AT, v);
  }

  lemma SetMagic2Is(m: Memory, a: nat, v: nat)
    requires v < WORDS
    ensures var m' := PutWord(m, a + MAGIC2_AT, v);
      SameOutside(m, m', a) && HeadAt(m', a) == HeadAt(m, a).(magic2 := v) && LinksAt(m', a) == LinksAt(m, a)
  {
    hide Field, PutWord, SameOutside;
    FieldStored(m, a, MAGIC2_AT, v);
  }

  lemma SetPrevIs(m: Memory, a: nat, p: Ptr)
    requires Fits(p)
    ensures var m' := PutWord(m, a + PREV_AT, WordOf(p));
      SameOutside(m, m', a) && HeadAt(m', a) == HeadAt(m, a).(prev := p) && LinksAt(m', a) == LinksAt(m, a)
  {
    hide Field, PutWord, SameOutside;
    FieldStored(m, a, PREV_AT, WordOf(p));
  }

  lemma SetNextIs(m: Memory, a: nat, p: Ptr)
    requires Fits(p)
    ensures var m' := PutWord(m, a + NEXT_AT, WordOf(p));
      SameOutside(m, m', a) && HeadAt(m', a) == HeadAt(m, a).(next := p) && LinksAt(m', a) == LinksAt(m, a)
  {
    hide Field, PutWord, SameOutside;
    FieldStored(m, a, NEXT_AT, WordOf(p));
  }

  lemma SetPrevFreeIs(m: Memory, a: nat, p: Ptr)
    requires Fits(p)
    ensures var m' := PutWord(m, a + PREV_FREE_AT, WordOf(p));
      SameOutside(m, m', a) && HeadAt(m', a) == HeadAt(m, a) && LinksAt(m', a) == LinksAt(m, a).(prev := p)
  {
    hide Field, PutWord, SameOutside;
    FieldStored(m, a, PREV_FREE_AT, WordOf(p));
  }

  lemma SetNextFreeIs(m: Memory, a: nat, p: Ptr)
    requires Fits(p)
    ensures var m' := PutWord(m, a + NEXT_FREE_AT, WordOf(p));
      SameOutside(m, m', a) && HeadAt(m', a) == HeadAt(m, a) && LinksAt(m', a) == LinksAt(m, a).(next := p)
  {
    hide Field, PutWord, SameOutside;
    FieldStored(m, a, NEXT_FREE_AT, WordOf(p));
  }

  lemma EraseIs(m: Memory, a: nat)
    ensures var m' := Clear(m, a, HEADER);
      SameOutside(m, m', a) && HeadAt(m', a) == ZERO_HEAD && LinksAt(m', a) == ZERO_LINKS
  {}

  // ----- headers that are known, and the memory that holds them

  /** No two headers overlap. */
  ghost predicate Apart(s: set<nat>) {
    forall a, b | a in s && b in s && a < b :: a + HEADER <= b
  }

  /** The memory holds these headers, and they do not overlap. */
  ghost predicate Shows(m: Memory, head: map<nat, Head>, link: map<nat, Links>) {
    && (forall a | a in head :: HeadAt(m, a) == head[a])
    && (forall a | a in link :: LinksAt(m, a) == link[a])
    && Apart(head.Keys + link.Keys)
  }

  lemma SameHeader(m: Memory, m': Memory, a: nat)
    requires forall x: nat | a <= x < a + HEADER :: m'(x) == m(x)
    ensures HeadAt(m', a) == HeadAt(m, a) && LinksAt(m', a) == LinksAt(m, a)
  {}

  /** Storing to the header at a leaves the others as they are. */
  lemma ShowsPut(m: Memory, m': Memory, head: map<nat, Head>, link: map<nat, Links>, head': map<nat, Head>, link': map<nat, Links>, a: nat)
    requires Shows(m, head, link) && SameOutside(m, m', a) && Apart(head'.Keys + link'.Keys + {a})
    requires forall x | x in head' && x != a :: x in head && head'[x] == head[x]
    requires forall x | x in link' && x != a :: x in link && link'[x] == link[x]
    requires a in head' ==> head'[a] == HeadAt(m', a)
    requires a in link' ==> link'[a] == LinksAt(m', a)
    ensures Shows(m', head', link')
  {
    hide HeadAt, LinksAt;
    var s := head'.Keys + link'.Keys + {a};
    forall x | x in head' || x in link' ensures x != a ==> HeadAt(m', x) == HeadAt(m, x) && LinksAt(m', x) == LinksAt(m, x) {
      assert x in s && a in s;
      if x != a {
        SameHeader(m, m', x);
      }
    }
  }

  /** x is a byte of one of the headers. */
  ghost predicate Covered(x: nat, s: set<nat>) {
    exists a :: a in s && a <= x < a + HEADER
  }

  /** Only bytes of the headers at s differ. */
  ghost predicate Outside(m: Memory, m': Memory, s: set<nat>) {
    forall x: nat | !Covered(x, s) :: m'(x) == m(x)
  }

  lemma OutsideOne(m: Memory, m': Memory, a: nat, s: set<nat>)
    requires SameOutside(m, m', a) && a in s
    ensures Outside(m, m', s)
  {
    assert forall x: nat | a <= x < a + HEADER :: Covered(x, s);
  }

  lemma OutsideThen(m: Memory, m': Memory, m'': Memory, s: set<nat>)
    requires Outside(m, m', s) && Outside(m', m'', s)
    ensures Outside(m, m'', s)
  {}

  /** What lies outside the headers may be stored to. */
  lemma ShowsElsewhere(m: Memory, m': Memory, head: map<nat, Head>, link: map<nat, Links>)
    requires Shows(m, head, link)
    requires forall x: nat | Covered(x, head.Keys + link.Keys) :: m'(x) == m(x)
    ensures Shows(m', head, link)
  {
    hide HeadAt, LinksAt;
    var s := head.Keys + link.Keys;
    forall a | a in head || a in link ensures HeadAt(m', a) == HeadAt(m, a) && LinksAt(m', a) == LinksAt(m, a) {
      forall x: nat | a <= x < a + HEADER ensures m'(x) == m(x) {
        assert a in s;
        assert Covered(x, s);
      }
      SameHeader(m, m', a);
    }
  }

  // ----- headers and payloads

  ghost function Starts(bs: seq<Block>): set<nat> {
    set b | b in bs :: b.addr
  }

  lemma StartsAre(bs: seq<Block>, a: nat)
    ensures a in Starts(bs) <==> HasBlock(bs, a)
  {
    if a in Starts(bs) {
      var b :| b in bs && b.addr == a;
      var i :| 0 <= i < |bs| && bs[i] == b;
    }
  }

  lemma StartsApart(bs: seq<Block>)
    requires Linked(bs)
    ensures Apart(Starts(bs))
  {
    hide Linked, Starts;
    forall a, b | a in Starts(bs) && b in Starts(bs) && a < b ensures a + HEADER <= b {
      StartsAre(bs, a);
      StartsAre(bs, b);
      var i :| 0 <= i < |bs| && bs[i].addr == a;
      var j :| 0 <= j < |bs| && bs[j].addr == b;
      if i < j {
        Ordered(bs, i, j);
      } else if j < i {
        Ordered(bs, j, i);
      }
    }
  }

  /** No header lies in what a block holds. */
  lemma PayloadUncovered(bs: seq<Block>, i: nat, x: nat)
    requires Linked(bs) && i < |bs| && bs[i].addr + HEADER <= x < bs[i].End()
    ensures !Covered(x, Starts(bs))
  {
    hide Linked, Starts;
    if Covered(x, Starts(bs)) {
      var a :| a in Starts(bs) && a <= x < a + HEADER;
      StartsAre(bs, a);
      var j :| 0 <= j < |bs| && bs[j].addr == a;
      if i < j {
        Ordered(bs, i, j);
      } else if j < i {
        Ordered(bs, j, i);
      }
    }
  }

  /** The headers after a store to the header at a. */
  lemma StoreHead(m: Memory, m': Memory, head: map<nat, Head>, link: map<nat, Links>, a: nat) returns (h: map<nat, Head>)
    requires Shows(m, head, link) && SameOutside(m, m', a) && a in head && LinksAt(m', a) == LinksAt(m, a)
    ensures h == head[a := HeadAt(m', a)] && Shows(m', h, link) && HeadAt(m, a) == head[a]
  {
    hide HeadAt, LinksAt;
    h := head[a := HeadAt(m', a)];
    assert h.Keys + link.Keys + {a} == head.Keys + link.Keys;
    ShowsPut(m, m', head, link, h, link, a);
  }

  lemma StoreLinks(m: Memory, m': Memory, head: map<nat, Head>, link: map<nat, Links>, a: nat) returns (l: map<nat, Links>)
    requires Shows(m, head, link) && SameOutside(m, m', a) && a in link && HeadAt(m', a) == HeadAt(m, a)
    ensures l == link[a := LinksAt(m', a)] && Shows(m', head, l) && LinksAt(m, a) == link[a]
  {
    hide HeadAt, LinksAt;
    l := link[a := LinksAt(m', a)];
    assert head.Keys + l.Keys + {a} == head.Keys + link.Keys;
    ShowsPut(m, m', head, link, head, l, a);
  }

  lemma StoreBoth(m: Memory, m': Memory, head: map<nat, Head>, link: map<nat, Links>, a: nat)
    requires Shows(m, head, link) && SameOutside(m, m', a) && a in head && a in link
    ensures Shows(m', head[a := HeadAt(m', a)], link[a := LinksAt(m', a)])
  {
    hide HeadAt, LinksAt;
    var h, l := head[a := HeadAt(m', a)], link[a := LinksAt(m', a)];
    assert h.Keys + l.Keys + {a} == head.Keys + link.Keys;
    ShowsPut(m, m', head, link, h, l, a);
  }

  lemma AddHead(m: Memory, m': Memory, head: map<nat, Head>, link: map<nat, Links>, n: nat)
    requires Shows(m, head, link) && SameOutside(m, m', n) && n !in head && n !in link && Apart(head.Keys + link.Keys + {n})
    ensures Shows(m', head[n := HeadAt(m', n)], link)
  {
    hide HeadAt, LinksAt;
    var h := head[n := HeadAt(m', n)];
    assert h.Keys + link.Keys + {n} == head.Keys + link.Keys + {n};
    ShowsPut(m, m', head, link, h, link, n);
  }

  lemma SameOutsideThen(m: Memory, m': Memory, m'': Memory, a: nat)
    requires SameOutside(m, m', a) && SameOutside(m', m'', a)
    ensures SameOutside(m, m'', a)
  {}

  lemma CopiedLinks(m: Memory, m1: Memory, m2: Memory, head: map<nat, Head>, link: map<nat, Links>, hdr: nat, was: nat)
    requires Shows(m, head, link) && was in link && Apart(head.Keys + link.Keys + {hdr})
    requires SameOutside(m, m1, hdr) && SameOutside(m1, m2, hdr)
    requires HeadAt(m1, hdr) == HeadAt(m, hdr) && HeadAt(m2, hdr) == HeadAt(m1, hdr)
    requires LinksAt(m1, hdr) == LinksAt(m, hdr).(prev := LinksAt(m, was).prev)
    requires LinksAt(m2, hdr) == LinksAt(m1, hdr).(next := LinksAt(m1, was).next)
    ensures Shows(m2, head, link[hdr := link[was]])
  {
    hide HeadAt, LinksAt, SameOutside;
    SameOutsideThen(m, m1, m2, hdr);
    var s := head.Keys + link.Keys + {hdr};
    if was != hdr {
      assert was in s && hdr in s;
      OtherHeader(m, m1, hdr, was);
    }
    var l := link[hdr := link[was]];
    assert head.Keys + l.Keys + {hdr} == s;
    ShowsPut(m, m2, head, link, head, l, hdr);
  }

  lemma OtherHeader(m: Memory, m': Memory, a: nat, b: nat)
    requires SameOutside(m, m', a) && (a + HEADER <= b || b + HEADER <= a)
    ensures HeadAt(m', b) == HeadAt(m, b) && LinksAt(m', b) == LinksAt(m, b)
  {
    hide HeadAt, LinksAt;
    SameHeader(m, m', b);
  }

  lemma OutsideNone(m: Memory, s: set<nat>)
    ensures Outside(m, m, s)
  {}

  lemma LinksShown(m: Memory, head: map<nat, Head>, link: map<nat, Links>, a: nat)
    requires Shows(m, head, link) && a in link
    ensures LinksAt(m, a) == link[a]
  {}

  lemma HeadShown(m: Memory, head: map<nat, Head>, link: map<nat, Links>, a: nat)
    requires Shows(m, head, link) && a in head
    ensures HeadAt(m, a) == head[a]
  {}

  lemma ClearedHeader(m: Memory, a: nat, n: nat)
    requires n >= HEADER
    ensures HeadAt(Clear(m, a, n), a) == ZERO_HEAD && LinksAt(Clear(m, a, n), a) == ZERO_LINKS
  {}

  /** The bytes from lo up to hi have become zero; but for the headers at s the others are as before. */
  ghost predicate ZeroedOnly(m: Memory, m': Memory, s: set<nat>, lo: nat, hi: nat) {
    && (forall x: nat | lo <= x < hi :: m'(x) == 0)
    && (forall x: nat | !Covered(x, s) && !(lo <= x < hi) :: m'(x) == m(x))
  }

  lemma ZeroedAfter(m: Memory, m': Memory, m'': Memory, s: set<nat>, lo: nat, hi: nat)
    requires Outside(m, m', s) && ZeroedOnly(m', m'', {}, lo, hi)
    ensures ZeroedOnly(m, m'', s, lo, hi)
  {}
}
