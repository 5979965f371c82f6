/** Writing to byte buffers. */
module Buffers {
  import opened Octets

  /** memcpy of the bytes b to out + at. */
  method CopyTo(out: array<bv8>, at: nat, b: Octets)
    requires at + |b| <= out.Length
    modifies out
    ensures out[..] == old(out[..at]) + b + old(out[at + |b|..])
  {
    for i := 0 to |b|
      invariant out[..at + i] == old(out[..at]) + b[..i]
      invariant forall k | at + i <= k < out.Length :: out[k] == old(out[k])
    {
      out[at + i] := b[i];
    }
  }

  /** Copy b behind the bytes that are already in place. */
  method Append(out: array<bv8>, at: nat, b: Octets)
    requires at + |b| <= out.Length
    modifies out
    ensures out[..at + |b|] == old(out[..at]) + b
    ensures forall k | at + |b| <= k < out.Length :: out[k] == old(out[k])
  {
    CopyTo(out, at, b);
  }

  /** memset. */
  method Fill(out: array<bv8>, at: nat, n: nat, x: bv8)
    requires at + n <= out.Length
    modifies out
    ensures forall k | at <= k < at + n :: out[k] == x
    ensures forall k | 0 <= k < out.Length && !(at <= k < at + n) :: out[k] == old(out[k])
  {
    for i := at to at + n
      invariant forall k | at <= k < i :: out[k] == x
      invariant forall k | 0 <= k < out.Length && !(at <= k < i) :: out[k] == old(out[k])
    {
      out[i] := x;
    }
  }

  /** mbedtls_xor of the bytes b into those at out + at. */
  method XorInto(out: array<bv8>, at: nat, b: Octets)
    requires at + |b| <= out.Length
    modifies out
    ensures forall k | at <= k < at + |b| :: out[k] == Flip(old(out[k]), b[k - at])
    ensures forall k | 0 <= k < out.Length && !(at <= k < at + |b|) :: out[k] == old(out[k])
  {
    hide Flip;
    for i := 0 to |b|
      invariant forall k | at <= k < at + i :: out[k] == Flip(old(out[k]), b[k - at])
      invariant forall k | 0 <= k < out.Length && !(at <= k < at + i) :: out[k] == old(out[k])
    {
      out[at + i] := Flip(out[at + i], b[i]);
    }
  }

  /** mbedtls_xor of two whole buffers. */
  method XorAll(out: array<bv8>, b: Octets)
    requires |b| == out.Length
    modifies out
    ensures out[..] == Xor(old(out[..]), b)
  {
    hide Flip, Xor;
    ghost var a := out[..];
    XorInto(out, 0, b);
    XorIs(a, b, out[..]);
  }

  lemma XorIs(a: Octets, b: Octets, c: Octets)
    requires |a| == |b| == |c| && forall k | 0 <= k < |c| :: c[k] == Flip(a[k], b[k])
    ensures c == Xor(a, b)
  {
    hide Flip;
  }
}
