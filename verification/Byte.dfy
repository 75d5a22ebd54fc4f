/** The bytes of all inputs and outputs. */
module ByteType {
  type byte = x: int | 0 <= x < 256

  /** Nothing is changed from place n on. */
  ghost predicate SameFrom(now: seq<byte>, was: seq<byte>, n: nat) {
    |now| == |was| && forall i :: n <= i < |now| ==> now[i] == was[i]
  }

  lemma SameStill(s: seq<byte>, n: nat)
    ensures SameFrom(s, s, n)
  {
  }

  lemma SameThrough(a: seq<byte>, b: seq<byte>, c: seq<byte>, m: nat, n: nat)
    requires SameFrom(b, a, m) && SameFrom(c, b, n) && m <= n
    ensures SameFrom(c, a, n)
  {
  }
}
