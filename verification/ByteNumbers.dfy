/** Bytes as numbers. */
module ByteNumbers {
  type Octet = x: int | 0 <= x < 0x100

  /** The byte with the value k. */
  function Byte(k: nat): bv8
    requires k < 256
  {
    k as bv8
  }

  lemma ByteValue(k: int)
    requires 0 <= k < 256
    ensures (k as bv8) as int == k
  {
    var b := ByteExists(k);
    ByteRange(b);
  }

  lemma {:induction false} ByteExists(k: nat) returns (b: bv8)
    requires k < 256
    ensures b as int == k
  {
    if k == 0 {
      b := 0;
    } else {
      b := ByteExists(k - 1);
      NextByte(b);
      b := b + 1;
    }
  }

  lemma NextByte(b: bv8)
    ensures b as int < 255 ==> (b + 1) as int == b as int + 1
  {}

  lemma ByteRange(b: bv8)
    ensures b as int < 256 && (b as int) as bv8 == b
  {}
}
