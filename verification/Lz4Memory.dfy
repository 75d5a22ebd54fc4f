/** The block copies the LZ4 codec is written with. They move whole words, so they write past the end of
    what they are asked to copy. */
module Lz4Memory {
  import opened ByteType

  /** Copies between disjoint regions of one buffer. */
  method CopyWithin(dst: array<byte>, d: nat, s: nat, n: nat)
    requires s + n <= d && d + n <= dst.Length
    modifies dst
    ensures forall i :: 0 <= i < d ==> dst[i] == old(dst[i])
    ensures forall i :: d <= i < d + n ==> dst[i] == dst[i - (d - s)]
    ensures forall i :: d + n <= i < dst.Length ==> dst[i] == old(dst[i])
  {
    forall k | 0 <= k < n {
      dst[d + k] := dst[s + k];
    }
    forall i | d <= i < d + n ensures dst[i] == dst[i - (d - s)] {
      assert i == d + (i - d);
    }
  }

  /** Copies from the input block into the buffer. */
  method CopyFrom(dst: array<byte>, d: nat, src: seq<byte>, s: nat, n: nat)
    requires s + n <= |src| && d + n <= dst.Length
    modifies dst
    ensures forall i :: 0 <= i < d ==> dst[i] == old(dst[i])
    ensures forall i :: d <= i < d + n ==> dst[i] == src[s + (i - d)]
    ensures forall i :: d + n <= i < dst.Length ==> dst[i] == old(dst[i])
  {
    forall k | 0 <= k < n {
      dst[d + k] := src[s + k];
    }
    forall i | d <= i < d + n ensures dst[i] == src[s + (i - d)] {
      assert i == d + (i - d);
    }
  }

  /** Copies eight bytes at a time until `e` is reached: at least once, and up to seven bytes too many. */
  method WildCopy8Within(dst: array<byte>, d0: nat, s0: nat, e: nat)
    requires s0 + 8 <= d0 && d0 + 8 <= dst.Length && e + 7 <= dst.Length
    modifies dst
    ensures forall i :: 0 <= i < d0 ==> dst[i] == old(dst[i])
    ensures forall i :: d0 <= i < e || d0 <= i < d0 + 8 ==> dst[i] == dst[i - (d0 - s0)]
    ensures forall i :: e + 7 <= i < dst.Length && d0 + 8 <= i ==> dst[i] == old(dst[i])
  {
    CopyWithin(dst, d0, s0, 8);
    var d, s := d0 + 8, s0 + 8;
    while d < e
      invariant d - s == d0 - s0 && d0 + 8 <= d && (d == d0 + 8 || d <= e + 7)
      invariant forall i :: 0 <= i < d0 ==> dst[i] == old(dst[i])
      invariant forall i :: d0 <= i < d ==> dst[i] == dst[i - (d0 - s0)]
      invariant forall i :: d <= i < dst.Length ==> dst[i] == old(dst[i])
    {
      CopyWithin(dst, d, s, 8);
      d, s := d + 8, s + 8;
    }
  }

  /** The same from the input block, which must also be readable up to seven bytes past the end. */
  method WildCopy8From(dst: array<byte>, d0: nat, src: seq<byte>, s0: nat, e: nat)
    requires d0 <= e && e + 7 <= dst.Length && d0 + 8 <= dst.Length
    requires s0 + 8 <= |src| && s0 + (e - d0) + 7 <= |src|
    modifies dst
    ensures forall i :: 0 <= i < d0 ==> dst[i] == old(dst[i])
    ensures forall i :: d0 <= i < e ==> dst[i] == src[s0 + (i - d0)]
    ensures forall i :: e + 7 <= i < dst.Length && d0 + 8 <= i ==> dst[i] == old(dst[i])
  {
    CopyFrom(dst, d0, src, s0, 8);
    var d, s := d0 + 8, s0 + 8;
    while d < e
      invariant d - s == d0 - s0 && d0 + 8 <= d && (d == d0 + 8 || d <= e + 7)
      invariant forall i :: 0 <= i < d0 ==> dst[i] == old(dst[i])
      invariant forall i :: d0 <= i < d ==> dst[i] == src[s0 + (i - d0)]
      invariant forall i :: d <= i < dst.Length ==> dst[i] == old(dst[i])
    {
      CopyFrom(dst, d, src, s, 8);
      d, s := d + 8, s + 8;
    }
  }
}
