/** The lengths of a code as weights, all but the last of which are transmitted. */
module HufWeights {
  import opened ByteType
  import opened Pow2Lemmas
  import opened Counting
  import opened HufCodes

  const TABLELOG_MAX: nat := 12

  /** Words of the full length have weight 1; symbols without a word have none. */
  function Weight(nbBits: nat, tableLog: nat): nat {
    if 0 < nbBits <= tableLog then tableLog + 1 - nbBits else 0
  }

  function BitsOf(weight: nat, tableLog: nat): nat {
    if 0 < weight <= tableLog then tableLog + 1 - weight else 0
  }

  /** The space of a weight, in units of the longest words. */
  function WeightSpace(weight: nat): nat {
    Pow2(weight) / 2
  }

  lemma WeightSpaceIs(weight: nat)
    ensures WeightSpace(weight) == if weight == 0 then 0 else Pow2(weight - 1)
  {
  }

  ghost function TotalSpace(weights: seq<byte>): nat
    decreases |weights|
  {
    if weights == [] then 0 else TotalSpace(weights[..|weights| - 1]) + WeightSpace(weights[|weights| - 1])
  }

  lemma TotalSnoc(weights: seq<byte>, n: nat)
    requires n < |weights|
    ensures TotalSpace(weights[..n + 1]) == TotalSpace(weights[..n]) + WeightSpace(weights[n])
  {
    assert weights[..n + 1][..n] == weights[..n];
  }

  lemma {:induction false} WeightInTotal(weights: seq<byte>, s: nat)
    requires s < |weights|
    ensures WeightSpace(weights[s]) <= TotalSpace(weights)
    decreases |weights|
  {
    hide WeightSpace;
    if s < |weights| - 1 {
      WeightInTotal(weights[..|weights| - 1], s);
    }
  }

  lemma SpaceOfWeight(weight: nat, tableLog: nat)
    requires weight <= tableLog
    ensures WeightSpace(weight) == Share(BitsOf(weight, tableLog), tableLog)
  {
    WeightSpaceIs(weight);
    if weight > 0 {
      assert tableLog - (tableLog + 1 - weight) == weight - 1;
    }
  }

  ghost function LengthsOf(weights: seq<byte>, tableLog: nat): (nb: seq<nat>)
    ensures |nb| == |weights| && forall s :: 0 <= s < |weights| ==> nb[s] == BitsOf(weights[s], tableLog)
  {
    seq(|weights|, s requires 0 <= s < |weights| => BitsOf(weights[s], tableLog))
  }

  /** The weights of all symbols but the last. */
  ghost predicate WeightsOf(weights: seq<byte>, nb: seq<nat>, tableLog: nat) {
    |nb| == |weights| + 1 && forall s :: 0 <= s < |weights| ==> weights[s] == Weight(nb[s], tableLog)
  }

  lemma {:induction false} SpaceOfWeights(weights: seq<byte>, tableLog: nat)
    requires forall s :: 0 <= s < |weights| ==> weights[s] <= tableLog
    ensures TotalSpace(weights) == Space(LengthsOf(weights, tableLog), tableLog)
    decreases |weights|
  {
    hide WeightSpace, Share, BitsOf;
    if weights != [] {
      var front := weights[..|weights| - 1];
      SpaceOfWeights(front, tableLog);
      SpaceOfWeight(weights[|weights| - 1], tableLog);
      assert LengthsOf(weights, tableLog)[..|weights| - 1] == LengthsOf(front, tableLog);
    }
  }

  // ----- The last weight is implied -----

  /** The sum lacks a power of two to fill up a table of `tableLog` bits, and that is the space of the last symbol. */
  ghost predicate Lacks(total: nat, tableLog: nat, last: nat) {
    1 <= last <= tableLog && total < Pow2(tableLog) <= 2 * total && total + Pow2(last - 1) == Pow2(tableLog)
  }

  /** What is read is a whole code: no word longer than the table allows, no space unused or used twice. */
  ghost predicate Whole(weights: seq<byte>, tableLog: nat) {
    && 1 <= tableLog <= TABLELOG_MAX
    && (forall s :: 0 <= s < |weights| ==> weights[s] <= tableLog)
    && CompleteLengths(LengthsOf(weights, tableLog), tableLog)
  }

  lemma WeightsFit(weights: seq<byte>, tableLog: nat)
    requires TotalSpace(weights) < Pow2(tableLog)
    ensures forall s :: 0 <= s < |weights| ==> weights[s] <= tableLog
  {
    hide Pow2, WeightSpace, TotalSpace;
    forall s | 0 <= s < |weights| ensures weights[s] <= tableLog {
      WeightInTotal(weights, s);
      WeightSpaceIs(weights[s]);
      if weights[s] > tableLog {
        Pow2Monotone(tableLog, weights[s] - 1);
      }
    }
  }

  lemma FillsUp(weights: seq<byte>, tableLog: nat, last: byte)
    requires Lacks(TotalSpace(weights), tableLog, last) && tableLog <= TABLELOG_MAX
    ensures Whole(weights + [last], tableLog)
  {
    hide Pow2, WeightSpace, TotalSpace, Space, BitsOf;
    WeightsFit(weights, tableLog);
    var all := weights + [last];
    assert all[..|weights| + 1] == all && all[..|weights|] == weights;
    TotalSnoc(all, |weights|);
    WeightSpaceIs(last);
    SpaceOfWeights(all, tableLog);
    forall s | 0 <= s < |all| ensures LengthsOf(all, tableLog)[s] <= tableLog {
      BitsAtMost(all[s], tableLog);
    }
  }

  lemma BitsAtMost(weight: nat, tableLog: nat)
    ensures BitsOf(weight, tableLog) <= tableLog
  {
  }

  lemma BitsOfSum(total: nat, tableLog: nat, last: nat)
    requires Lacks(total, tableLog, last)
    ensures total > 0 && HighBit(total) + 1 == tableLog && HighBit(Pow2(tableLog) - total) + 1 == last
  {
    hide HighBit;
    HighBitIs(total, tableLog - 1);
    HighBitIs(Pow2(last - 1), last - 1);
  }

  lemma SumLacks(total: nat, rest: nat, h: nat)
    requires total > 0 && rest == Pow2(HighBit(total) + 1) - total && rest > 0 && h == HighBit(rest) && Pow2(h) == rest
    ensures Lacks(total, HighBit(total) + 1, h + 1)
  {
    hide HighBit;
    var n := HighBit(total);
    if h >= n + 1 {
      Pow2Monotone(n + 1, h);
    }
  }

  lemma NothingTaken()
    ensures TotalSpace([]) == 0 && forall v :: Occurrences([], v) == 0
  {
  }

  /** How often each weight occurs, and the sum of the spaces, unless some weight is out of range. */
  method CollectStats(weights: seq<byte>, rankStats: array<nat>) returns (ok: bool, total: nat)
    requires rankStats.Length == TABLELOG_MAX + 1
    modifies rankStats
    ensures ok <==> forall s :: 0 <= s < |weights| ==> weights[s] <= TABLELOG_MAX
    ensures ok ==> total == TotalSpace(weights)
    ensures ok ==> forall v :: 0 <= v <= TABLELOG_MAX ==> rankStats[v] == Occurrences(weights, v)
  {
    hide WeightSpace, TotalSpace, Occurrences;
    for v := 0 to rankStats.Length
      invariant forall u :: 0 <= u < v ==> rankStats[u] == 0
    {
      rankStats[v] := 0;
    }
    total := 0;
    NothingTaken();
    assert weights[..0] == [];
    for n := 0 to |weights|
      invariant total == TotalSpace(weights[..n]) && forall s :: 0 <= s < n ==> weights[s] <= TABLELOG_MAX
      invariant forall v :: 0 <= v <= TABLELOG_MAX ==> rankStats[v] == Occurrences(weights[..n], v)
    {
      if weights[n] > TABLELOG_MAX {
        return false, 0;
      }
      TotalSnoc(weights, n);
      forall v: nat
        ensures Occurrences(weights[..n + 1], v) == Occurrences(weights[..n], v) + if weights[n] == v then 1 else 0 {
        OccurrencesSnoc(weights, n, v);
      }
      rankStats[weights[n]] := rankStats[weights[n]] + 1;
      total := total + WeightSpace(weights[n]);
    }
    assert weights[..|weights|] == weights;
    ok := true;
  }

  /** The weight of the last symbol, if the sum can be filled up to a power of two by a single word. */
  method LastWeight(total: nat) returns (ok: bool, tableLog: nat, last: byte)
    ensures ok ==> tableLog <= TABLELOG_MAX && Lacks(total, tableLog, last)
    ensures !ok ==> forall t: nat, l: nat :: t <= TABLELOG_MAX ==> !Lacks(total, t, l)
  {
    hide Pow2, HighBit, Lacks;
    forall t: nat, l: nat ensures Lacks(total, t, l) ==>
      total > 0 && HighBit(total) + 1 == t && total < Pow2(t) && HighBit(Pow2(t) - total) + 1 == l
        && Pow2(l - 1) == Pow2(t) - total {
      if Lacks(total, t, l) {
        BitsOfSum(total, t, l);
        LacksMeans(total, t, l);
      }
    }
    if total == 0 {
      return false, 0, 0;
    }
    tableLog := HighBit(total) + 1;
    if tableLog > TABLELOG_MAX {
      return false, 0, 0;
    }
    var rest := Pow2(tableLog) - total;
    HighBitBelow(total);
    var h := HighBit(rest);
    if Pow2(h) != rest {
      return false, 0, 0;
    }
    SumLacks(total, rest, h);
    LacksMeans(total, tableLog, h + 1);
    ok, last := true, h + 1;
  }

  lemma HighBitBelow(total: nat)
    requires total > 0
    ensures total < Pow2(HighBit(total) + 1)
  {
  }

  lemma LacksMeans(total: nat, tableLog: nat, last: nat)
    requires Lacks(total, tableLog, last)
    ensures 1 <= last <= tableLog && total < Pow2(tableLog) && total + Pow2(last - 1) == Pow2(tableLog)
  {
  }

  // ----- The weights of a complete code -----

  lemma BackAndForth(nbBits: nat, tableLog: nat)
    requires nbBits <= tableLog
    ensures BitsOf(Weight(nbBits, tableLog), tableLog) == nbBits && Weight(nbBits, tableLog) <= tableLog
    ensures Weight(nbBits, tableLog) == 1 <==> nbBits == tableLog > 0
  {
  }

  /** Taking the weights back to lengths. */
  lemma LengthsBack(weights: seq<byte>, nb: seq<nat>, tableLog: nat, last: byte)
    requires WeightsOf(weights, nb, tableLog) && forall s :: 0 <= s < |nb| ==> nb[s] <= tableLog
    requires last == Weight(nb[|weights|], tableLog)
    ensures LengthsOf(weights + [last], tableLog) == nb
    ensures forall s :: 0 <= s < |weights| ==> weights[s] <= tableLog
  {
    hide Weight, BitsOf;
    forall s | 0 <= s < |nb|
      ensures LengthsOf(weights + [last], tableLog)[s] == nb[s] && (s < |weights| ==> weights[s] <= tableLog)
    {
      BackAndForth(nb[s], tableLog);
    }
  }

  /** The last symbol of a complete code with at least two words has the weight that the others lack. */
  lemma LastIsLacking(weights: seq<byte>, nb: seq<nat>, tableLog: nat, last: byte)
    requires WeightsOf(weights, nb, tableLog) && CompleteLengths(nb, tableLog) && nb[|weights|] > 0
    requires last == Weight(nb[|weights|], tableLog)
    ensures Lacks(TotalSpace(weights), tableLog, last)
  {
    hide Pow2, Space, TotalSpace, LengthsOf;
    LengthsBack(weights, nb, tableLog, last);
    var front := nb[..|weights|];
    assert LengthsOf(weights, tableLog) == front by {
      assert forall s :: 0 <= s < |weights| ==>
        LengthsOf(weights + [last], tableLog)[s] == LengthsOf(weights, tableLog)[s];
    }
    SpaceOfWeights(weights, tableLog);
    LastSpace(nb, tableLog);
    assert tableLog - nb[|weights|] == last - 1;
    Pow2Monotone(last - 1, tableLog - 1);
    Pow2Double(tableLog);
    Pow2Monotone(0, last - 1);
  }

  lemma Pow2Double(n: nat)
    requires n > 0
    ensures Pow2(n) == 2 * Pow2(n - 1)
  {
  }

  lemma LastSpace(nb: seq<nat>, top: nat)
    requires nb != [] && 0 < nb[|nb| - 1] <= top
    ensures Space(nb, top) == Space(nb[..|nb| - 1], top) + Pow2(top - nb[|nb| - 1])
  {
  }

  /** A complete code has an even number of words of the full length. */
  lemma EvenLongest(nb: seq<nat>, top: nat)
    requires CompleteLengths(nb, top) && top > 0
    ensures Occurrences(nb, top) % 2 == 0
  {
    hide Space, Longer, Occurrences, Count;
    var q := ShorterUnits(nb, top, top - 1);
    LongerStep(nb, top, top);
    NoneLonger(nb, top);
    OccurrencesIs(nb, top);
    Pow2Double(top);
    Units(top);
    assert Count<nat>(nb, top) * Pow2(0) == Count<nat>(nb, top) && q * Pow2(1) == 2 * q;
  }

  lemma Units(top: nat)
    requires top > 0
    ensures Pow2(0) == 1 && Pow2(1) == 2 && top - (top - 1) == 1
  {
  }

  /** Weight 1 is the full length. */
  lemma {:induction false} OnesAreLongest(weights: seq<byte>, nb: seq<nat>, tableLog: nat)
    requires |weights| == |nb| && tableLog > 0
    requires forall s :: 0 <= s < |nb| ==> (weights[s] == 1 <==> nb[s] == tableLog)
    ensures Occurrences(weights, 1) == Occurrences(nb, tableLog)
    decreases |nb|
  {
    if nb != [] {
      OnesAreLongest(weights[..|nb| - 1], nb[..|nb| - 1], tableLog);
    }
  }

  lemma {:induction false} OccursOnce(nb: seq<nat>, s: nat, v: nat)
    requires s < |nb| && nb[s] == v
    ensures Occurrences(nb, v) > 0
    decreases |nb|
  {
    if s < |nb| - 1 {
      OccursOnce(nb[..|nb| - 1], s, v);
    }
  }

  /** A code whose table is no larger than its longest word has at least two words of that length. */
  lemma TwoLongest(weights: seq<byte>, nb: seq<nat>, tableLog: nat, last: byte)
    requires WeightsOf(weights, nb, tableLog) && CompleteLengths(nb, tableLog) && tableLog in nb && nb[|weights|] > 0
    requires last == Weight(nb[|weights|], tableLog)
    ensures Occurrences(weights + [last], 1) >= 2
  {
    hide Space, Occurrences, Pow2, Weight;
    var all := weights + [last];
    forall s | 0 <= s < |nb| ensures all[s] == 1 <==> nb[s] == tableLog {
      BackAndForth(nb[s], tableLog);
    }
    OnesAreLongest(all, nb, tableLog);
    EvenLongest(nb, tableLog);
    var s :| 0 <= s < |nb| && nb[s] == tableLog;
    OccursOnce(nb, s, tableLog);
  }
}
