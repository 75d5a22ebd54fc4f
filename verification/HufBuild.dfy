/** From sorted counts to the table of code words. */
module HufBuild {
  import opened Pow2Lemmas
  import HufMaxHeight
  import HufTree
  import HufCodes
  import HufCTable
  import HufEncoder

  const TABLELOG_DEFAULT := 11

  /** The greatest length asked for. */
  function Limit(requested: nat): (r: nat)
    ensures r == 11 <==> requested == 0 || requested == 11
    ensures requested > 0 ==> r == requested
  {
    if requested == 0 then TABLELOG_DEFAULT else requested
  }

  /** The lengths of the code, by node. */
  method CodeLengths(counts: seq<nat>, requested: nat)
    returns (lengths: seq<nat>, used: nat, maxNbBits: nat, ghost height: nat, ghost peak: nat)
    requires HufTree.Sorted(counts) && requested <= HufMaxHeight.TABLELOG_MAX
    requires forall n :: Pow2(Limit(requested)) <= n < |counts| ==> counts[n] == 0
    ensures |lengths| == |counts| && 2 <= used <= |counts|
    ensures forall n :: 0 <= n < |counts| ==> (n < used <==> counts[n] > 0)
    ensures forall n :: used <= n < |counts| ==> lengths[n] == 0
    ensures HufMaxHeight.CompleteCode(lengths[..used], maxNbBits)
    ensures maxNbBits == if height <= Limit(requested) then height else Limit(requested)
    ensures height <= Limit(requested) ==> HufTree.Optimal(counts[..used], lengths[..used])
    ensures HufTree.Fibonacci(height + 2) <= HufTree.Total([0] + counts, 0, |counts|) && peak < Pow2(height)
  {
    hide HufMaxHeight.CompleteCode, HufTree.Optimal, HufTree.Sorted, HufTree.Fibonacci, HufTree.Total, Pow2;
    var nbBits := new nat[HufTree.NODES](i => 0);
    var last := HufTree.BuildTree(counts, nbBits);
    HufTree.SizeOf(counts);
    assert last + 1 <= Pow2(Limit(requested));
    height := nbBits[last];
    HufTree.TotalPrefix([0] + counts, 0, last + 1, |counts|);
    maxNbBits, peak := HufMaxHeight.SetMaxHeight(nbBits, counts, last, Limit(requested));
    lengths, used := nbBits[..|counts|], last + 1;
    assert lengths[..used] == nbBits[..used];
    forall n | 0 <= n < |counts| ensures n < used <==> counts[n] > 0 {
      CountOrNot(counts, last, n);
    }
  }

  /** The lengths of the first symbols in the order of the nodes. */
  ghost function LengthsBy(nb: seq<nat>, bytes: seq<nat>, used: nat): (r: seq<nat>)
    ensures |r| == used && forall n :: 0 <= n < used && n < |bytes| && bytes[n] < |nb| ==> r[n] == nb[bytes[n]]
  {
    seq(used, n => if 0 <= n < |bytes| && bytes[n] < |nb| then nb[bytes[n]] else 0)
  }

  /** Build the table of code words for counts in descending order, node n being symbol `bytes[n]`. The code is
      complete, its longest word has the length of the table, which is at most the one allowed; exactly the symbols
      that occur have a word, and a more frequent symbol has one that is not longer. Unless the tree is higher than
      allowed, no code takes fewer bits. The height is at most logarithmic in the counts, and bounds the numbers the
      limiting computes with. */
  method BuildCTable(counts: seq<nat>, bytes: seq<nat>, requested: nat)
    returns (ct: HufEncoder.CTable, ghost nb: seq<nat>, ghost used: nat, ghost height: nat, ghost peak: nat)
    requires HufTree.Sorted(counts) && HufCTable.Nodes(bytes, seq(|bytes|, i => 0), 0) && |bytes| == |counts|
    requires requested <= HufMaxHeight.TABLELOG_MAX
    requires forall n :: Pow2(Limit(requested)) <= n < |counts| ==> counts[n] == 0
    ensures HufCodes.CompleteLengths(nb, ct.tableLog) && |nb| == |counts|
    ensures HufEncoder.IsCTable(ct, HufCTable.CodesOf(nb, ct.tableLog)) && ct.tableLog in nb
    ensures 0 < ct.tableLog <= Limit(requested)
    ensures ct.tableLog == if height <= Limit(requested) then height else Limit(requested)
    ensures HufTree.Fibonacci(height + 2) <= HufTree.Total([0] + counts, 0, |counts|) && peak < Pow2(height)
    ensures 2 <= used <= |counts| && forall n :: 0 <= n < |counts| ==> (n < used <==> counts[n] > 0)
    ensures height <= Limit(requested) ==> HufTree.Optimal(counts[..used], LengthsBy(nb, bytes, used))
    ensures forall n :: 0 <= n < |counts| ==> (nb[bytes[n]] > 0 <==> counts[n] > 0)
    ensures forall m, n :: 0 <= m <= n < |counts| && counts[n] > 0 ==> nb[bytes[m]] <= nb[bytes[n]]
  {
    hide HufMaxHeight.CompleteCode, HufCodes.CompleteLengths, HufEncoder.IsCTable, HufTree.Optimal, HufTree.Sorted,
    Pow2, HufTree.Fibonacci, HufTree.Total;
    var lengths, n, maxNbBits;
    lengths, n, maxNbBits, height, peak := CodeLengths(counts, requested);
    used := n;
    ct, nb := HufCTable.BuildCTableFromTree(bytes, lengths, n, maxNbBits);
    LengthsInOrder(lengths, used, maxNbBits);
    assert nb[bytes[used - 1]] == ct.tableLog;
    assert LengthsBy(nb, bytes, used) == lengths[..used];
  }

  lemma LengthsInOrder(lengths: seq<nat>, used: nat, top: nat)
    requires 2 <= used <= |lengths| && HufMaxHeight.CompleteCode(lengths[..used], top)
    requires forall n :: used <= n < |lengths| ==> lengths[n] == 0
    ensures lengths[used - 1] == top && forall n :: 0 <= n < |lengths| ==> (n < used <==> lengths[n] > 0)
    ensures forall m, n :: 0 <= m <= n < used ==> lengths[m] <= lengths[n]
  {
    hide HufMaxHeight.Kraft;
    HufCTable.AllHaveBits(lengths[..used], top);
    forall m, n | 0 <= m <= n < used ensures 0 < lengths[m] <= lengths[n] {
      assert lengths[..used][m] == lengths[m] && lengths[..used][n] == lengths[n];
    }
  }

  lemma CountOrNot(counts: seq<nat>, last: nat, n: nat)
    requires HufTree.Sorted(counts) && last < |counts| && counts[last] > 0 && n < |counts|
    requires forall i :: last < i < |counts| ==> counts[i] == 0
    ensures n <= last <==> counts[n] > 0
  {
    if n <= last {
      assert counts[n] >= counts[last];
    }
  }
}
