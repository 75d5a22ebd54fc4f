/** What the compressor makes of an input of equal bytes: one literal, one match and the last five bytes, with any hash
    function and whatever is in the table. */
module Lz4EqualBytes {
  import opened ByteType
  import opened Lz4Format
  import opened Lz4Context
  import opened Lz4Greedy
  import opened Lz4Matcher
  import opened Lz4Compressor

  predicate AllEqual(src: seq<byte>) {
    forall i :: 0 <= i < |src| ==> src[i] == src[0]
  }

  /** The size of the block. */
  function EqualSize(n: nat): nat {
    14 + n / 255
  }

  /** Equal bytes have equal hashes, so the first position is found at the second. */
  lemma FirstHit(j: Job, tbl: seq<nat>)
    requires |tbl| == TableSize(j.t) && |j.src| >= 13 && AllEqual(j.src)
    ensures var now := Recorded(j, tbl, 0);
      now[j.HashAt(1)] == j.start && Accepted(j, j.start, 1)
  {
    var w := if j.t == ByU16 then 4 else 8;
    assert j.src[0..0 + w] == j.src[1..1 + w];
  }

  lemma FirstFound(j: Job, tbl: seq<nat>)
    requires |tbl| == TableSize(j.t) && j.acceleration >= 1 && |j.src| >= 13 && AllEqual(j.src)
    ensures var now := Recorded(j, tbl, 0);
      FirstMatch(j, now, 1, 1, 64 * j.acceleration) == At(1, 0, Recorded(j, now, 1)) && Back(j.src, 0, 1, 0) == 0
  {
    FirstHit(j, tbl);
    hide Recorded, AllEqual, Accepted;
  }

  lemma EqualParse(j: Job, tbl: seq<nat>)
    requires |tbl| == TableSize(j.t) && j.acceleration >= 1 && |j.src| >= 13 && AllEqual(j.src)
    requires j.directive == FillOutput ==> EqualSize(|j.src|) <= j.olimit
    ensures Greedy(j, tbl) == Parse(Then(Empty, Sequence([j.src[0]], 1, |j.src| - 10)), |j.src| - 5)
  {
    hide GreedyFrom, GreedyMatch, Recorded, AllEqual, ExtraLength;
    var now := Recorded(j, tbl, 0);
    FromTheFirst(j, tbl);
    FirstMatchOnly(j, Recorded(j, now, 1));
    assert Greedy(j, tbl) == GreedyFrom(j, now, Empty, 0, 1);
  }

  lemma FromTheFirst(j: Job, tbl: seq<nat>)
    requires |tbl| == TableSize(j.t) && j.acceleration >= 1 && |j.src| >= 13 && AllEqual(j.src)
    ensures var now := Recorded(j, tbl, 0);
      GreedyFrom(j, now, Empty, 0, 1) == GreedyMatch(j, Recorded(j, now, 1), Empty, 0, 1, 0, 1)
  {
    hide FirstMatch, Back, Recorded, Cleared, AllEqual, GreedyMatch, Accepted;
    FirstFound(j, tbl);
  }

  lemma FirstMatchOnly(j: Job, tbl: seq<nat>)
    requires |tbl| == TableSize(j.t) && j.acceleration >= 1 && |j.src| >= 13 && AllEqual(j.src)
    requires j.directive == FillOutput ==> EqualSize(|j.src|) <= j.olimit
    ensures GreedyMatch(j, tbl, Empty, 0, 1, 0, 1) ==
      Parse(Then(Empty, Sequence([j.src[0]], 1, |j.src| - 10)), |j.src| - 5)
  {
    RunLengthIs(j.src, 5, 4, |j.src| - 5, |j.src| - 10);
    assert CodeAt(j, 1, 0) == |j.src| - 10;
    assert j.src[0..1] == [j.src[0]];
    hide CodeAt, GreedyFrom, Recorded, Accepted, Cleared;
  }

  /** So they are compressed to few bytes, all of them, and never refused where these fit. */
  lemma EqualBytesFit(j: Job, tbl: seq<nat>, block: seq<byte>, result: nat, consumed: nat)
    requires |tbl| == TableSize(j.t) && j.acceleration >= 1 && IsGreedy(j, tbl, block, result, consumed)
    requires |j.src| >= 13 && AllEqual(j.src) && (j.directive == FillOutput ==> EqualSize(|j.src|) <= j.olimit)
    ensures j.directive == NotLimited || EqualSize(|j.src|) <= j.olimit ==> result > 0
    ensures result > 0 ==> consumed == |j.src| && |block| <= EqualSize(|j.src|)
  {
    var n, seqs := |j.src|, Then(Empty, Sequence([j.src[0]], 1, |j.src| - 10));
    EqualParse(j, tbl);
    SequenceSize(j.src[0], n);
    assert ExtraLength(5) == 0;
    hide Greedy, EncodeSequences, EncodeRun, SizeOfAll, ExtraLength, WellFormed, AllEqual;
    assert Greedy(j, tbl) == Parse(seqs, n - 5);
    if result > 0 {
      assert j.directive == FillOutput ==> MostLiterals(j, SizeOfAll(seqs), 5, consumed - (n - 5));
      assert consumed == n;
    }
  }

  lemma SequenceSize(c: byte, n: nat)
    requires n >= 13
    ensures SizeOfAll(Then(Empty, Sequence([c], 1, n - 10))) == 4 + ExtraLength(n - 10)
    ensures 4 + ExtraLength(n - 10) + 6 <= EqualSize(n)
  {
    assert SizeOfAll(Empty) == 0;
  }
}
