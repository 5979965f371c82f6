/** Counters in bytes, most significant first, counted up from their end. */
module Counters {
  import opened Arithmetic
  import opened Octets

  lemma EmptyNumber()
    ensures FromBigEndian([]) == 0 && Power256(0) == 1
  {}

  lemma SamePrefix(p: Octets, s: Octets, s': Octets)
    requires |s| == |s'| && FromBigEndian(s') == FromBigEndian(s) + 1
    ensures FromBigEndian(p + s') == FromBigEndian(p + s) + 1
  {
    hide FromBigEndian, Power256;
    Concatenated(p, s);
    Concatenated(p, s');
  }

  lemma Wrapped(v: nat, v': nat, m: nat)
    requires v < m && v' < m && (v' == v + 1 || v' + m == v + 1)
    ensures v' == (v + 1) % m
  {
    DivModUnique(v + 1, m, if v' == v + 1 then 0 else 1, v');
  }

  /** A counter has counted up when its last part has, or has wrapped and is all of it. */
  lemma CounterDone(p: Octets, s: Octets, s': Octets, x: nat, n: nat)
    requires n == |p| + |s| && |s'| == |s| && (x != 0 || p == [])
    requires FromBigEndian(s') + (if x == 0 then Power256(|s|) else 0) == FromBigEndian(s) + 1
    ensures FromBigEndian(p + s') == (FromBigEndian(p + s) + 1) % Power256(n)
  {
    hide *;
    assert |p + s| == |p + s'| == n;
    FromBigEndianRoundTrip(p + s);
    FromBigEndianRoundTrip(p + s');
    if x != 0 {
      SamePrefix(p, s, s');
    } else {
      assert p + s == s && p + s' == s' && |s| == n;
    }
    Wrapped(FromBigEndian(p + s), FromBigEndian(p + s'), Power256(n));
  }
}
