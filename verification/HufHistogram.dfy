/** From a histogram to the table of code words: sort, build the tree, limit its height, assign the words. */
module HufHistogram {
  import opened Pow2Lemmas
  import BitArithmetic
  import HufSort
  import HufMaxHeight
  import HufOptimal
  import HufTree
  import HufBuild
  import HufCodes
  import HufCTable
  import HufEncoder

  ghost function Counts(nodes: seq<HufSort.Node>): (r: seq<nat>)
    ensures |r| == |nodes| && forall p :: 0 <= p < |nodes| ==> r[p] == nodes[p].count
  {
    seq(|nodes|, p requires 0 <= p < |nodes| => nodes[p].count)
  }

  /** Values by symbol in the order of the nodes. */
  ghost function Moved(nodes: seq<HufSort.Node>, m: seq<nat>): (r: seq<nat>)
    requires forall p :: 0 <= p < |nodes| ==> nodes[p].byte < |m|
    ensures |r| == |nodes| && forall p :: 0 <= p < |nodes| ==> r[p] == m[nodes[p].byte]
  {
    seq(|nodes|, p requires 0 <= p < |nodes| => m[nodes[p].byte])
  }

  // ----- Every symbol has a node -----

  ghost function Bytes(nodes: seq<HufSort.Node>): set<nat>
    decreases |nodes|
  {
    if nodes == [] then {} else Bytes(nodes[..|nodes| - 1]) + {nodes[|nodes| - 1].byte}
  }

  lemma {:induction false} BytesSize(nodes: seq<HufSort.Node>)
    requires forall p, q :: 0 <= p < |nodes| && 0 <= q < |nodes| && p != q ==> nodes[p].byte != nodes[q].byte
    ensures |Bytes(nodes)| == |nodes|
    ensures forall b :: b in Bytes(nodes) <==> exists p :: 0 <= p < |nodes| && nodes[p].byte == b
    decreases |nodes|
  {
    if nodes != [] {
      var front := nodes[..|nodes| - 1];
      BytesSize(front);
      forall b ensures b in Bytes(nodes) <==> exists p :: 0 <= p < |nodes| && nodes[p].byte == b {
        if b in Bytes(front) {
          var p :| 0 <= p < |front| && front[p].byte == b;
          assert nodes[p].byte == b;
        }
        if p :| 0 <= p < |nodes| && nodes[p].byte == b {
          assert p < |front| ==> front[p].byte == b;
        }
      }
    }
  }

  lemma NodeOf(nodes: seq<HufSort.Node>, count: seq<nat>, v: nat) returns (p: nat)
    requires HufSort.Symbols(nodes, count) && v < |count|
    ensures p < |nodes| && nodes[p].byte == v
  {
    BytesSize(nodes);
    var all := HufOptimal.Interval(0, |count|);
    HufOptimal.IntervalSize(0, |count|);
    if v !in Bytes(nodes) {
      assert Bytes(nodes) <= all - {v};
      HufOptimal.SubsetSize(Bytes(nodes), all - {v});
    }
    p :| 0 <= p < |nodes| && nodes[p].byte == v;
  }

  // ----- Sums do not depend on the order -----

  lemma WithoutLast(nodes: seq<HufSort.Node>, count: seq<nat>, p: nat)
    requires HufSort.Symbols(nodes, count) && count != [] && p < |nodes| && nodes[p].byte == |count| - 1
    ensures HufSort.Symbols(nodes[..p] + nodes[p + 1..], count[..|count| - 1])
  {
    var less := nodes[..p] + nodes[p + 1..];
    forall q | 0 <= q < |less| ensures less[q] == nodes[if q < p then q else q + 1] {
    }
  }

  lemma One(a: nat, v: nat)
    ensures HufOptimal.Cost([a], [v]) == a * v
  {
    assert [a][..0] == [] && [v][..0] == [];
  }

  /** Taking out one place. */
  lemma CostWithout(w: seq<nat>, m: seq<nat>, p: nat)
    requires |w| == |m| && p < |w|
    ensures HufOptimal.Cost(w, m) == HufOptimal.Cost(w[..p] + w[p + 1..], m[..p] + m[p + 1..]) + w[p] * m[p]
  {
    hide HufOptimal.Cost;
    One(w[p], m[p]);
    assert w == w[..p] + [w[p]] + w[p + 1..] && m == m[..p] + [m[p]] + m[p + 1..];
    HufOptimal.CostConcat(w[..p] + [w[p]], m[..p] + [m[p]], w[p + 1..], m[p + 1..]);
    HufOptimal.CostConcat(w[..p], m[..p], [w[p]], [m[p]]);
    HufOptimal.CostConcat(w[..p], m[..p], w[p + 1..], m[p + 1..]);
  }

  lemma MovedWithout(nodes: seq<HufSort.Node>, m: seq<nat>, last: nat, p: nat)
    requires last < |m| && p < |nodes| && nodes[p].byte == last
    requires forall q :: 0 <= q < |nodes| ==> nodes[q].byte <= last && (q != p ==> nodes[q].byte < last)
    ensures var less := nodes[..p] + nodes[p + 1..];
      && Counts(less) == Counts(nodes)[..p] + Counts(nodes)[p + 1..]
      && (forall q :: 0 <= q < |less| ==> less[q].byte < last)
      && Moved(less, m[..last]) == Moved(nodes, m)[..p] + Moved(nodes, m)[p + 1..]
  {
    var less := nodes[..p] + nodes[p + 1..];
    forall q | 0 <= q < |less| ensures less[q] == nodes[if q < p then q else q + 1] && less[q].byte < last {
    }
  }

  lemma LastByte(nodes: seq<HufSort.Node>, count: seq<nat>, p: nat)
    requires HufSort.Symbols(nodes, count) && count != [] && p < |nodes| && nodes[p].byte == |count| - 1
    ensures |nodes| == |count| && nodes[p].count == count[|count| - 1]
    ensures forall q :: 0 <= q < |nodes| ==> nodes[q].byte <= |count| - 1 && (q != p ==> nodes[q].byte < |count| - 1)
  {
  }

  lemma AllBytes(nodes: seq<HufSort.Node>, count: seq<nat>)
    requires HufSort.Symbols(nodes, count)
    ensures |nodes| == |count| && forall q :: 0 <= q < |nodes| ==> nodes[q].byte < |count|
  {
  }

  /** The cost of a code is the same in the order of the nodes. */
  lemma {:induction false} Permuted(nodes: seq<HufSort.Node>, count: seq<nat>, m: seq<nat>)
    requires HufSort.Symbols(nodes, count) && |m| == |count|
    ensures forall q :: 0 <= q < |nodes| ==> nodes[q].byte < |count|
    ensures |nodes| == |count| && HufOptimal.Cost(Counts(nodes), Moved(nodes, m)) == HufOptimal.Cost(count, m)
    decreases |count|
  {
    hide HufSort.Symbols;
    AllBytes(nodes, count);
    if count != [] {
      var last := |count| - 1;
      var p := NodeOf(nodes, count, last);
      LastByte(nodes, count, p);
      WithoutLast(nodes, count, p);
      Permuted(nodes[..p] + nodes[p + 1..], count[..last], m[..last]);
      MovedWithout(nodes, m, last, p);
      hide HufOptimal.Cost;
      CostWithout(Counts(nodes), Moved(nodes, m), p);
      LastCost(count, m);
    }
  }

  lemma LastCost(w: seq<nat>, m: seq<nat>)
    requires |w| == |m| > 0
    ensures HufOptimal.Cost(w, m) == HufOptimal.Cost(w[..|w| - 1], m[..|m| - 1]) + w[|w| - 1] * m[|m| - 1]
  {
  }

  ghost function Ones(n: nat): (r: seq<nat>)
    ensures |r| == n && forall i :: 0 <= i < n ==> r[i] == 1
  {
    seq(n, i => 1)
  }

  lemma {:induction false} TotalIsCost(count: seq<nat>, n: nat)
    requires n <= |count|
    ensures HufTree.Total([0] + count, 0, n) == HufOptimal.Cost(count[..n], Ones(n))
    decreases n
  {
    if n > 0 {
      TotalIsCost(count, n - 1);
      assert count[..n][..n - 1] == count[..n - 1] && Ones(n)[..n - 1] == Ones(n - 1);
    }
  }

  lemma SameTotal(nodes: seq<HufSort.Node>, count: seq<nat>)
    requires HufSort.Symbols(nodes, count)
    ensures HufTree.Total([0] + Counts(nodes), 0, |count|) == HufTree.Total([0] + count, 0, |count|)
  {
    var ones := Ones(|count|);
    Permuted(nodes, count, ones);
    assert Moved(nodes, ones) == ones;
    TotalIsCost(count, |count|);
    TotalIsCost(Counts(nodes), |count|);
    assert count[..|count|] == count && Counts(nodes)[..|count|] == Counts(nodes);
  }

  // ----- The table -----

  /** At least two symbols occur, and not too often together. */
  ghost predicate Histogram(count: seq<nat>) {
    && |count| <= HufTree.STARTNODE && HufTree.Total([0] + count, 0, |count|) < HufTree.NOT_MADE
    && exists s, t :: 0 <= s < t < |count| && count[s] > 0 && count[t] > 0
  }

  lemma SortedHistogram(nodes: seq<HufSort.Node>, count: seq<nat>)
    requires Histogram(count) && HufSort.Symbols(nodes, count) && HufSort.Descending(nodes, 0, |count| - 1)
    ensures HufTree.Sorted(Counts(nodes))
  {
    hide HufTree.Total;
    SameTotal(nodes, count);
    var s, t :| 0 <= s < t < |count| && count[s] > 0 && count[t] > 0;
    var p := NodeOf(nodes, count, s);
    var q := NodeOf(nodes, count, t);
    assert nodes[if p < q then q else p].count > 0;
  }

  /** The symbols that occur. */
  ghost function Used(count: seq<nat>): set<nat> {
    set s: nat | s < |count| && count[s] > 0
  }

  /** In order, the nodes of the symbols that do not occur come last. */
  lemma UnusedLast(nodes: seq<HufSort.Node>, count: seq<nat>, bound: nat)
    requires HufSort.Symbols(nodes, count) && HufSort.Descending(nodes, 0, |count| - 1) && |Used(count)| <= bound
    ensures forall n :: bound <= n < |nodes| ==> nodes[n].count == 0
  {
    forall n | bound <= n < |nodes| ensures nodes[n].count == 0 {
      if nodes[n].count > 0 {
        var front := nodes[..n + 1];
        BytesSize(front);
        assert forall p :: 0 <= p <= n ==> front[p].count >= nodes[n].count;
        HufOptimal.SubsetSize(Bytes(front), Used(count));
      }
    }
  }

  // ----- No code is cheaper -----

  /** A word for every symbol that occurs, none of them the beginning of another. */
  ghost predicate CodeFor(v: seq<nat>, m: seq<nat>, count: seq<nat>) {
    && |v| == |m| == |count|
    && (forall i :: 0 <= i < |v| && count[i] > 0 ==> v[i] < Pow2(m[i]))
    && forall i, j :: 0 <= i < |v| && 0 <= j < |v| && i != j && count[i] > 0 && count[j] > 0 && m[j] <= m[i] ==>
        BitArithmetic.ShiftRight(v[i], m[i] - m[j]) != v[j]
  }

  lemma {:induction false} NoCost(w: seq<nat>, m: seq<nat>, used: nat)
    requires |w| == |m| && used <= |w| && forall n :: used <= n < |w| ==> w[n] == 0
    ensures HufOptimal.Cost(w, m) == HufOptimal.Cost(w[..used], m[..used])
    decreases |w|
  {
    if used < |w| {
      NoCost(w[..|w| - 1], m[..|m| - 1], used);
      assert w[..|w| - 1][..used] == w[..used] && m[..|m| - 1][..used] == m[..used];
    } else {
      assert w[..used] == w && m[..used] == m;
    }
  }

  /** The cost by symbol is that of the first nodes. */
  lemma CostByNode(nodes: seq<HufSort.Node>, count: seq<nat>, m: seq<nat>, used: nat)
    requires HufSort.Symbols(nodes, count) && |m| == |count| && used <= |nodes|
    requires forall n :: used <= n < |nodes| ==> nodes[n].count == 0
    ensures forall q :: 0 <= q < |nodes| ==> nodes[q].byte < |m|
    ensures HufOptimal.Cost(count, m) == HufOptimal.Cost(Counts(nodes)[..used], Moved(nodes, m)[..used])
  {
    hide HufSort.Symbols, HufOptimal.Cost;
    AllBytes(nodes, count);
    Permuted(nodes, count, m);
    NoCost(Counts(nodes), Moved(nodes, m), used);
  }

  lemma CodeByNode(nodes: seq<HufSort.Node>, count: seq<nat>, v: seq<nat>, m: seq<nat>, used: nat)
    requires HufSort.Symbols(nodes, count) && CodeFor(v, m, count) && used <= |nodes|
    requires forall n :: 0 <= n < used ==> nodes[n].count > 0
    ensures forall q :: 0 <= q < |nodes| ==> nodes[q].byte < |m|
    ensures HufOptimal.PrefixCode(Moved(nodes, v)[..used], Moved(nodes, m)[..used])
  {
    var x, y := Moved(nodes, v)[..used], Moved(nodes, m)[..used];
    forall i, j | 0 <= i < |x| && 0 <= j < |x| && i != j && y[j] <= y[i]
      ensures BitArithmetic.ShiftRight(x[i], y[i] - y[j]) != x[j]
    {
      assert nodes[i].byte != nodes[j].byte;
    }
  }

  /** What is optimal by node is optimal by symbol. */
  lemma OptimalBySymbol(nodes: seq<HufSort.Node>, count: seq<nat>, nb: seq<nat>, used: nat, v: seq<nat>, m: seq<nat>)
    requires HufSort.Symbols(nodes, count) && |nb| == |count| && used <= |nodes|
    requires forall n :: 0 <= n < |nodes| ==> (n < used <==> nodes[n].count > 0)
    requires forall q :: 0 <= q < |nodes| ==> nodes[q].byte < |nb|
    requires HufTree.Optimal(Counts(nodes)[..used], Moved(nodes, nb)[..used]) && CodeFor(v, m, count)
    ensures HufOptimal.Cost(count, nb) <= HufOptimal.Cost(count, m)
  {
    hide HufSort.Symbols, HufOptimal.Cost, HufOptimal.PrefixCode;
    CodeByNode(nodes, count, v, m, used);
    AllBytes(nodes, count);
    CostByNode(nodes, count, nb, used);
    CostByNode(nodes, count, m, used);
  }

  method Split(nodes: array<HufSort.Node>) returns (counts: seq<nat>, bytes: seq<nat>)
    ensures counts == Counts(nodes[..]) && |bytes| == nodes.Length
    ensures forall p :: 0 <= p < nodes.Length ==> bytes[p] == nodes[p].byte
  {
    counts, bytes := [], [];
    for p := 0 to nodes.Length
      invariant counts == Counts(nodes[..p]) && |bytes| == p && forall q :: 0 <= q < p ==> bytes[q] == nodes[q].byte
    {
      counts, bytes := counts + [nodes[p].count], bytes + [nodes[p].byte];
    }
    assert nodes[..nodes.Length] == nodes[..];
  }

  /** The code the table is of. */
  ghost predicate CodeOfHistogram(ct: HufEncoder.CTable, nb: seq<nat>, count: seq<nat>, limit: nat, height: nat) {
    && |nb| == |count| && HufCodes.CompleteLengths(nb, ct.tableLog) && ct.tableLog in nb
    && ct.tableLog == (if height <= limit then height else limit)
    && HufEncoder.IsCTable(ct, HufCTable.CodesOf(nb, ct.tableLog))
    && (forall s :: 0 <= s < |nb| ==> (nb[s] > 0 <==> count[s] > 0))
    && (forall s, t :: 0 <= s < |nb| && 0 <= t < |nb| && count[s] > count[t] > 0 ==> nb[s] <= nb[t])
    && (height <= limit ==>
          forall v, m :: CodeFor(v, m, count) ==> HufOptimal.Cost(count, nb) <= HufOptimal.Cost(count, m))
  }

  lemma BySymbol(nodes: seq<HufSort.Node>, count: seq<nat>, ct: HufEncoder.CTable, nb: seq<nat>, bytes: seq<nat>,
                 used: nat, limit: nat, height: nat)
    requires HufSort.Symbols(nodes, count) && HufSort.Descending(nodes, 0, |nodes| - 1) && |nb| == |count| == |bytes|
    requires forall p :: 0 <= p < |nodes| ==> bytes[p] == nodes[p].byte
    requires HufCodes.CompleteLengths(nb, ct.tableLog) && ct.tableLog in nb && used <= |nodes|
    requires ct.tableLog == if height <= limit then height else limit
    requires HufEncoder.IsCTable(ct, HufCTable.CodesOf(nb, ct.tableLog))
    requires forall n :: 0 <= n < |nodes| ==> (n < used <==> Counts(nodes)[n] > 0)
    requires forall n :: 0 <= n < |nodes| ==> (nb[bytes[n]] > 0 <==> Counts(nodes)[n] > 0)
    requires forall m, n :: 0 <= m <= n < |nodes| && Counts(nodes)[n] > 0 ==> nb[bytes[m]] <= nb[bytes[n]]
    requires height <= limit ==> HufTree.Optimal(Counts(nodes)[..used], HufBuild.LengthsBy(nb, bytes, used))
    ensures CodeOfHistogram(ct, nb, count, limit, height)
  {
    hide HufTree.Optimal, HufEncoder.IsCTable, HufCodes.CompleteLengths, HufOptimal.Cost;
    forall s | 0 <= s < |nb| ensures nb[s] > 0 <==> count[s] > 0 {
      var p := NodeOf(nodes, count, s);
      assert nb[bytes[p]] > 0 <==> Counts(nodes)[p] > 0;
    }
    forall s, t | 0 <= s < |nb| && 0 <= t < |nb| && count[s] > count[t] > 0 ensures nb[s] <= nb[t] {
      var p := NodeOf(nodes, count, s);
      var q := NodeOf(nodes, count, t);
      assert nodes[p].count > nodes[q].count;
      assert nb[bytes[p]] <= nb[bytes[q]];
    }
    if height <= limit {
      assert Moved(nodes, nb)[..used] == HufBuild.LengthsBy(nb, bytes, used);
      forall v, m | CodeFor(v, m, count) ensures HufOptimal.Cost(count, nb) <= HufOptimal.Cost(count, m) {
        OptimalBySymbol(nodes, count, nb, used, v, m);
      }
    }
  }

  /** Build the table for a histogram. The code is complete, with words for exactly the symbols that occur, not longer
      for a more frequent symbol, and none longer than allowed; unless the tree is higher than that, no code is
      cheaper. For counts of less than 5.7 million in all, every number the limiting of the height computes with fits
      32 bits. */
  method BuildCTable(count: seq<nat>, maxNbBits: nat)
    returns (ct: HufEncoder.CTable, ghost nb: seq<nat>, ghost height: nat, ghost peak: nat)
    requires Histogram(count) && maxNbBits <= HufMaxHeight.TABLELOG_MAX
    requires |Used(count)| <= Pow2(HufBuild.Limit(maxNbBits))
    ensures 0 < ct.tableLog <= if maxNbBits == 0 then 11 else maxNbBits
    ensures CodeOfHistogram(ct, nb, count, HufBuild.Limit(maxNbBits), height)
    ensures peak < Pow2(height) && HufTree.Fibonacci(height + 2) <= HufTree.Total([0] + count, 0, |count|)
    ensures HufTree.Total([0] + count, 0, |count|) < 5_702_887 ==> height <= 31 && peak < 0x8000_0000
  {
    hide HufSort.Symbols, HufSort.Descending, HufTree.Sorted, HufTree.Optimal, HufEncoder.IsCTable,
    HufCodes.CompleteLengths, CodeOfHistogram, Pow2, Histogram, HufTree.Fibonacci, HufTree.Total;
    CountsFit(count);
    var huffNode := HufSort.Sort(count);
    ghost var nodes := huffNode[..];
    AllBytes(nodes, count);
    var counts, bytes := Split(huffNode);
    SortedHistogram(nodes, count);
    UnusedLast(nodes, count, Pow2(HufBuild.Limit(maxNbBits)));
    NodesAreSymbols(nodes, count, bytes);
    ghost var used;
    ct, nb, used, height, peak := HufBuild.BuildCTable(counts, bytes, maxNbBits);
    SameTotal(nodes, count);
    BySymbol(nodes, count, ct, nb, bytes, used, HufBuild.Limit(maxNbBits), height);
    if HufTree.Total([0] + count, 0, |count|) < 5_702_887 {
      HufTree.ShortTree(height, HufTree.Total([0] + count, 0, |count|));
      Pow2Monotone(height, 31);
      ThirtyOne();
    }
  }

  lemma ThirtyOne()
    ensures Pow2(31) == 0x8000_0000
  {
    HufSort.ThirtyTwo();
  }

  lemma NodesAreSymbols(nodes: seq<HufSort.Node>, count: seq<nat>, bytes: seq<nat>)
    requires HufSort.Symbols(nodes, count) && |bytes| == |nodes|
    requires forall p :: 0 <= p < |nodes| ==> bytes[p] == nodes[p].byte
    ensures HufCTable.Nodes(bytes, seq(|bytes|, i => 0), 0)
  {
  }

  lemma CountsFit(count: seq<nat>)
    requires Histogram(count)
    ensures forall s :: 0 <= s < |count| ==> count[s] < HufSort.COUNT_LIMIT
  {
    forall s | 0 <= s < |count| ensures count[s] < HufSort.COUNT_LIMIT {
      HufTree.TotalAtLeast([0] + count, 0, |count|, s);
    }
  }
}
