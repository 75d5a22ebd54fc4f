/** Building the Huffman tree from sorted counts, with two queues: the symbols, and the nodes made from them. */
module HufTree {
  import opened Pow2Lemmas
  import opened BitArithmetic
  import opened Counting
  import HufMaxHeight
  import HufOptimal

  // The first node that is not a symbol, and the number of all.
  const STARTNODE: nat := 256
  const NODES: nat := 511
  // Counts that are never the lowest: of a node not made yet, and of the place before the first symbol.
  const NOT_MADE: nat := 0x4000_0000
  const BARRIER: nat := 0x8000_0000

  // ----- The shape of the tree -----

  /** The symbols after `lowS` and the nodes before `lowN` have parents, all below `limit`; and those that come later in
      the merging order have parents that come later. */
  ghost predicate Shape(parent: seq<nat>, last: nat, lowS: int, lowN: nat, limit: nat) {
    && |parent| == NODES && last < STARTNODE && -1 <= lowS <= last && STARTNODE <= lowN < limit <= NODES
    && (forall i :: 0 <= i <= lowS ==> parent[i] == 0)
    && (forall i :: lowS < i <= last ==> STARTNODE <= parent[i] < limit)
    && (forall i :: last < i < STARTNODE ==> parent[i] == 0)
    && (forall i :: STARTNODE <= i < lowN ==> i < parent[i] < limit)
    && (forall i :: lowN <= i < NODES ==> parent[i] == 0)
  }

  ghost predicate Ordered(parent: seq<nat>, last: nat, lowS: int, lowN: nat)
    requires |parent| == NODES && last < STARTNODE && -1 <= lowS && lowN <= NODES
  {
    && (forall i, j :: lowS < i <= j <= last ==> parent[i] >= parent[j])
    && (forall i, j :: STARTNODE <= i <= j < lowN ==> parent[i] <= parent[j])
  }

  /** Every node made has two children. */
  ghost predicate Binary(parent: seq<nat>, made: nat) {
    forall k :: STARTNODE <= k < made ==> Count<nat>(parent, k) == 2
  }

  lemma NoChildren(parent: seq<nat>, last: nat, lowS: int, lowN: nat, limit: nat)
    requires Shape(parent, last, lowS, lowN, limit)
    ensures Count<nat>(parent, limit) == 0
  {
    CountPositive<nat>(parent, limit);
  }

  lemma OneMoreChild(parent: seq<nat>, i: nat, newest: nat)
    requires i < |parent| && parent[i] == 0 && newest >= STARTNODE
    ensures Binary(parent, newest) ==> Binary(parent[i := newest], newest)
    ensures Count<nat>(parent[i := newest], newest) == Count<nat>(parent, newest) + 1
  {
    CountUpdate<nat>(parent, i, newest, newest);
    if Binary(parent, newest) {
      var now := parent[i := newest];
      forall k: nat | STARTNODE <= k < newest ensures Count<nat>(now, k) == 2 {
        CountUpdate<nat>(parent, i, newest, k);
      }
    }
  }

  /** The next symbol gets the newest node as its parent. */
  lemma AdoptSymbol(parent: seq<nat>, last: nat, lowS: nat, lowN: nat, newest: nat)
    requires Shape(parent, last, lowS, lowN, newest + 1) && Ordered(parent, last, lowS, lowN)
    ensures Shape(parent[lowS := newest], last, lowS - 1, lowN, newest + 1)
    ensures Ordered(parent[lowS := newest], last, lowS - 1, lowN)
    ensures Binary(parent, newest) ==> Binary(parent[lowS := newest], newest)
    ensures Count<nat>(parent[lowS := newest], newest) == Count<nat>(parent, newest) + 1
  {
    OneMoreChild(parent, lowS, newest);
  }

  /** The next node does. */
  lemma AdoptNode(parent: seq<nat>, last: nat, lowS: int, lowN: nat, newest: nat)
    requires Shape(parent, last, lowS, lowN, newest + 1) && Ordered(parent, last, lowS, lowN) && lowN < newest
    ensures Shape(parent[lowN := newest], last, lowS, lowN + 1, newest + 1)
    ensures Ordered(parent[lowN := newest], last, lowS, lowN + 1)
    ensures Binary(parent, newest) ==> Binary(parent[lowN := newest], newest)
    ensures Count<nat>(parent[lowN := newest], newest) == Count<nat>(parent, newest) + 1
  {
    OneMoreChild(parent, lowN, newest);
  }

  // ----- Counts -----

  /** The sum of the counts of the nodes from `a` up to `b`; node i has its count at place i + 1. */
  ghost function Total(count: seq<nat>, a: nat, b: nat): nat
    requires b < |count|
    decreases b
  {
    if a >= b then 0 else Total(count, a, b - 1) + count[b]
  }

  lemma {:induction false} TotalFirst(count: seq<nat>, a: nat, b: nat)
    requires a < b < |count|
    ensures Total(count, a, b) == count[a + 1] + Total(count, a + 1, b)
    decreases b
  {
    if a + 1 < b {
      TotalFirst(count, a, b - 1);
    }
  }

  lemma {:induction false} TotalSame(count: seq<nat>, other: seq<nat>, a: nat, b: nat)
    requires b < |count| == |other| && forall i :: a < i <= b ==> count[i] == other[i]
    ensures Total(count, a, b) == Total(other, a, b)
    decreases b
  {
    if a < b {
      TotalSame(count, other, a, b - 1);
    }
  }

  lemma {:induction false} TotalAtLeast(count: seq<nat>, a: nat, b: nat, i: nat)
    requires a <= i < b < |count|
    ensures count[i + 1] <= Total(count, a, b)
    decreases b
  {
    if i < b - 1 {
      TotalAtLeast(count, a, b - 1, i);
    }
  }

  /** What is left to be merged, symbols and nodes, counts `total`; nodes not made yet count more. */
  ghost predicate Weighed(count: seq<nat>, lowS: int, lowN: nat, nodeNb: nat, root: nat, total: nat) {
    && |count| == NODES + 1 && -1 <= lowS < STARTNODE && STARTNODE <= lowN <= nodeNb <= root + 1 <= NODES
    && count[0] == BARRIER && total < NOT_MADE
    && (forall i :: nodeNb < i <= root + 1 ==> count[i] == NOT_MADE)
    && Total(count, 0, lowS + 1) + Total(count, lowN, nodeNb) == total
  }

  /** The lower one of the next symbol and the next node. */
  method PickLowest(count: array<nat>, lowS: int, lowN: nat, ghost nodeNb: nat, ghost root: nat, ghost total: nat)
    returns (symbol: bool)
    requires Weighed(count[..], lowS, lowN, nodeNb, root, total) && nodeNb <= root
    requires lowS + 1 + (nodeNb - lowN) >= 1
    ensures symbol == (count[lowS + 1] < count[lowN + 1])
    ensures symbol ==> lowS >= 0 && Total(count[..], 0, lowS + 1) == Total(count[..], 0, lowS) + count[lowS + 1]
    ensures !symbol ==>
      lowN < nodeNb && Total(count[..], lowN, nodeNb) == count[lowN + 1] + Total(count[..], lowN + 1, nodeNb)
  {
    ghost var all := count[..];
    if lowS >= 0 {
      TotalAtLeast(all, 0, lowS + 1, lowS);
    }
    if lowN < nodeNb {
      TotalAtLeast(all, lowN, nodeNb, lowN);
      TotalFirst(all, lowN, nodeNb);
    }
    symbol := count[lowS + 1] < count[lowN + 1];
  }

  // ----- Merging -----

  ghost predicate Merging(parent: seq<nat>, count: seq<nat>, last: nat, lowS: int, lowN: nat, nodeNb: nat, root: nat,
                          total: nat) {
    && Shape(parent, last, lowS, lowN, nodeNb) && Ordered(parent, last, lowS, lowN) && Binary(parent, nodeNb)
    && Weighed(count, lowS, lowN, nodeNb, root, total)
    && lowS + 1 + (nodeNb - lowN) == root + 2 - nodeNb
  }

  /** One of the two lowest, on its way to become a child of the node that is made next. */
  ghost predicate HalfMerging(parent: seq<nat>, count: seq<nat>, last: nat, lowS: int, lowN: nat, nodeNb: nat,
                              root: nat, total: nat, children: nat) {
    && nodeNb <= root
    && Shape(parent, last, lowS, lowN, nodeNb + 1) && Ordered(parent, last, lowS, lowN) && Binary(parent, nodeNb)
    && Count<nat>(parent, nodeNb) == children
    && Weighed(count, lowS, lowN, nodeNb, root, total)
    && lowS + 1 + (nodeNb - lowN) + children == root + 2 - nodeNb
  }

  /** The lower head of the two queues was taken, its count c. */
  ghost predicate Took(count: seq<nat>, lowS: int, lowN: nat, nodeNb: nat, c: nat, newS: int, newN: nat) {
    && |count| == NODES + 1 && -1 <= newS <= lowS < STARTNODE <= lowN <= newN <= nodeNb < NODES
    && if newS < lowS then
         newS == lowS - 1 && newN == lowN && c == count[lowS + 1] && (lowN < nodeNb ==> c <= count[lowN + 1])
       else
         newN == lowN + 1 && c == count[lowN + 1] && (lowS >= 0 ==> c <= count[lowS + 1])
  }

  ghost function Taken(lowS: int, lowN: nat, newS: int): int {
    if newS < lowS then lowS else lowN
  }

  /** The lowest of all gets the next node as its parent. */
  method Adopt(parent: array<nat>, count: array<nat>, ghost last: nat, lowS: int, lowN: nat, nodeNb: nat,
               ghost root: nat, ghost total: nat, ghost children: nat)
    returns (c: nat, newS: int, newN: nat)
    requires parent != count && HalfMerging(parent[..], count[..], last, lowS, lowN, nodeNb, root, total, children)
    requires lowS + 1 + (nodeNb - lowN) >= 1
    modifies parent
    ensures c <= total && HalfMerging(parent[..], count[..], last, newS, newN, nodeNb, root, total - c, children + 1)
    ensures Took(count[..], lowS, lowN, nodeNb, c, newS, newN)
    ensures parent[..] == old(parent[..])[Taken(lowS, lowN, newS) := nodeNb]
      && old(parent[Taken(lowS, lowN, newS)]) == 0
  {
    ghost var before := parent[..];
    var symbol := PickLowest(count, lowS, lowN, nodeNb, root, total);
    newS, newN := lowS, lowN;
    if symbol {
      AdoptSymbol(before, last, lowS, lowN, nodeNb);
      c := count[lowS + 1];
      parent[lowS] := nodeNb;
      newS := lowS - 1;
      assert parent[..] == before[lowS := nodeNb];
    } else {
      AdoptNode(before, last, lowS, lowN, nodeNb);
      c := count[lowN + 1];
      parent[lowN] := nodeNb;
      newN := lowN + 1;
      assert parent[..] == before[lowN := nodeNb];
    }
  }

  // ----- Always the two lowest -----

  /** The counts that are left to be merged: those of the symbols, and those of the nodes. */
  ghost function Rest(count: seq<nat>, lowS: int, lowN: nat, nodeNb: nat): seq<nat>
    requires |count| == NODES + 1 && -1 <= lowS < STARTNODE && STARTNODE <= lowN <= nodeNb <= NODES
  {
    count[1..lowS + 2] + count[lowN + 1..nodeNb + 1]
  }

  /** Both queues are in order, nothing left is below `low`, and the newest node is at most twice that. */
  ghost predicate Queues(count: seq<nat>, lowS: int, lowN: nat, nodeNb: nat, low: nat) {
    && |count| == NODES + 1 && -1 <= lowS < STARTNODE && STARTNODE <= lowN <= nodeNb <= NODES
    && (forall i, j :: 1 <= i <= j <= lowS + 1 ==> count[i] >= count[j] >= low)
    && (forall i, j :: lowN < i <= j <= nodeNb ==> low <= count[i] <= count[j])
    && (lowN < nodeNb ==> count[nodeNb] <= 2 * low)
  }

  /** No code for the counts `w` is cheaper than what was spent and the best for the rest. */
  ghost predicate Greedy(count: seq<nat>, lowS: int, lowN: nat, nodeNb: nat, w: seq<nat>, spent: nat, low: nat) {
    && Queues(count, lowS, lowN, nodeNb, low)
    && HufOptimal.Bounds(w, Rest(count, lowS, lowN, nodeNb), spent)
  }

  /** What is taken is the lowest there is. */
  lemma TookLowest(count: seq<nat>, lowS: int, lowN: nat, nodeNb: nat, low: nat, c: nat, newS: int, newN: nat)
    requires Queues(count, lowS, lowN, nodeNb, low) && Took(count, lowS, lowN, nodeNb, c, newS, newN)
    ensures low <= c && (forall i :: 1 <= i <= lowS + 1 ==> c <= count[i])
      && (forall i :: lowN < i <= nodeNb ==> c <= count[i])
  {
  }

  lemma QueuesLess(count: seq<nat>, lowS: int, lowN: nat, nodeNb: nat, low: nat, c: nat, newS: int, newN: nat)
    requires Queues(count, lowS, lowN, nodeNb, low) && Took(count, lowS, lowN, nodeNb, c, newS, newN)
    ensures Queues(count, newS, newN, nodeNb, low)
  {
  }

  /** Where in the rest the two are. */
  lemma TakenPlaces(count: seq<nat>, lowS: int, lowN: nat, nodeNb: nat, c1: nat, s1: int, n1: nat, c2: nat, s2: int,
                    n2: nat)
    requires Took(count, lowS, lowN, nodeNb, c1, s1, n1) && Took(count, s1, n1, nodeNb, c2, s2, n2)
    ensures s2 + 2 < |Rest(count, lowS, lowN, nodeNb)|
    ensures var rest := Rest(count, lowS, lowN, nodeNb);
      (rest[s2 + 1] == c1 && rest[s2 + 2] == c2) || (rest[s2 + 1] == c2 && rest[s2 + 2] == c1)
  {
    hide Took;
    TookTwo(count, lowS, lowN, nodeNb, c1, s1, n1, c2, s2, n2);
    TookCounts(count, lowS, lowN, nodeNb, c1, s1, n1, c2, s2, n2);
    var symbols, nodes := count[1..lowS + 2], count[lowN + 1..nodeNb + 1];
    assert s2 < lowS ==> symbols[s2 + 1] == count[s2 + 2];
    assert s2 < lowS - 1 ==> symbols[s2 + 2] == count[s2 + 3];
    assert n2 > lowN ==> nodes[0] == count[lowN + 1];
    assert n2 > lowN + 1 ==> nodes[1] == count[lowN + 2];
  }

  lemma TookCounts(count: seq<nat>, lowS: int, lowN: nat, nodeNb: nat, c1: nat, s1: int, n1: nat, c2: nat, s2: int,
                   n2: nat)
    requires Took(count, lowS, lowN, nodeNb, c1, s1, n1) && Took(count, s1, n1, nodeNb, c2, s2, n2)
    ensures |count| == NODES + 1 && -1 <= s2 <= lowS < STARTNODE <= lowN <= n2 <= nodeNb < NODES
    ensures s2 == lowS - 2 ==> c1 == count[lowS + 1] && c2 == count[lowS]
    ensures n2 == lowN + 2 ==> c1 == count[lowN + 1] && c2 == count[lowN + 2]
    ensures s2 == lowS - 1 ==>
      (c1 == count[lowS + 1] && c2 == count[lowN + 1]) || (c1 == count[lowN + 1] && c2 == count[lowS + 1])
  {
  }

  lemma AtLeast(count: seq<nat>, lowS: int, lowN: nat, nodeNb: nat, s2: int, n2: nat, c: nat, i: nat)
    requires |count| == NODES + 1 && -1 <= s2 <= lowS < STARTNODE <= lowN <= n2 <= nodeNb < NODES
    requires (lowS - s2) + (n2 - lowN) == 2 && i < |Rest(count, lowS, lowN, nodeNb)| && i != s2 + 1 && i != s2 + 2
    requires (forall i :: 1 <= i <= s2 + 1 ==> c <= count[i]) && (forall i :: n2 < i <= nodeNb ==> c <= count[i])
    ensures c <= Rest(count, lowS, lowN, nodeNb)[i]
  {
    if i < s2 + 1 {
      assert Rest(count, lowS, lowN, nodeNb)[i] == count[i + 1];
    } else {
      assert Rest(count, lowS, lowN, nodeNb)[i] == count[lowN + 1 + (i - (lowS + 1))];
    }
  }

  /** Two are taken: neighbours, and the lowest of all. */
  lemma TwoTaken(count: seq<nat>, lowS: int, lowN: nat, nodeNb: nat, low: nat, c1: nat, s1: int, n1: nat, c2: nat,
                 s2: int, n2: nat) returns (q: nat)
    requires Queues(count, lowS, lowN, nodeNb, low)
    requires Took(count, lowS, lowN, nodeNb, c1, s1, n1) && Took(count, s1, n1, nodeNb, c2, s2, n2)
    ensures q == s2 + 1 && q + 1 < |Rest(count, lowS, lowN, nodeNb)|
    ensures HufOptimal.Lowest(Rest(count, lowS, lowN, nodeNb), q)
    ensures Rest(count, lowS, lowN, nodeNb)[q] + Rest(count, lowS, lowN, nodeNb)[q + 1] == c1 + c2
    ensures low <= c1 <= c2
    ensures forall i :: 1 <= i <= s2 + 1 ==> count[i] >= c2
    ensures forall i :: n2 < i <= nodeNb ==> count[i] >= c2
  {
    hide Queues;
    q := s2 + 1;
    TookLowest(count, lowS, lowN, nodeNb, low, c1, s1, n1);
    QueuesLess(count, lowS, lowN, nodeNb, low, c1, s1, n1);
    TookLowest(count, s1, n1, nodeNb, low, c2, s2, n2);
    TakenPlaces(count, lowS, lowN, nodeNb, c1, s1, n1, c2, s2, n2);
    var rest := Rest(count, lowS, lowN, nodeNb);
    forall i | 0 <= i < |rest| && i != q && i != q + 1 ensures rest[q] <= rest[i] && rest[q + 1] <= rest[i] {
      AtLeast(count, lowS, lowN, nodeNb, s2, n2, c2, i);
    }
  }

  lemma QueuesStep(count: seq<nat>, lowS: int, lowN: nat, nodeNb: nat, low: nat, c1: nat, s1: int, n1: nat, c2: nat,
                   s2: int, n2: nat)
    requires Queues(count, lowS, lowN, nodeNb, low) && low <= c1 <= c2
    requires Took(count, lowS, lowN, nodeNb, c1, s1, n1) && Took(count, s1, n1, nodeNb, c2, s2, n2)
    requires forall i :: 1 <= i <= s2 + 1 ==> count[i] >= c2
    requires forall i :: n2 < i <= nodeNb ==> count[i] >= c2
    ensures Queues(count[nodeNb + 1 := c1 + c2], s2, n2, nodeNb + 1, c2)
  {
  }

  /** Making the next node of them. */
  lemma GreedyStep(count: seq<nat>, lowS: int, lowN: nat, nodeNb: nat, w: seq<nat>, spent: nat, low: nat, c1: nat,
                   s1: int, n1: nat, c2: nat, s2: int, n2: nat)
    requires Greedy(count, lowS, lowN, nodeNb, w, spent, low)
    requires Took(count, lowS, lowN, nodeNb, c1, s1, n1) && Took(count, s1, n1, nodeNb, c2, s2, n2)
    ensures Greedy(count[nodeNb + 1 := c1 + c2], s2, n2, nodeNb + 1, w, spent + c1 + c2, c2)
  {
    hide HufOptimal.Bounds, HufOptimal.Lowest, Queues, Rest;
    var q := TwoTaken(count, lowS, lowN, nodeNb, low, c1, s1, n1, c2, s2, n2);
    var rest, now := Rest(count, lowS, lowN, nodeNb), count[nodeNb + 1 := c1 + c2];
    QueuesStep(count, lowS, lowN, nodeNb, low, c1, s1, n1, c2, s2, n2);
    HufOptimal.MergeBounds(w, rest, spent, q);
    TookTwo(count, lowS, lowN, nodeNb, c1, s1, n1, c2, s2, n2);
    RestMerged(count, lowS, lowN, nodeNb, s2, n2, c1 + c2);
    assert spent + rest[q] + rest[q + 1] == spent + c1 + c2;
  }

  /** Two neighbours out of two adjoining stretches. */
  lemma TwoOut(count: seq<nat>, a: nat, b: nat, e: nat, a2: nat, b2: nat)
    requires 1 <= a2 <= a <= |count| && b <= b2 <= e <= |count| && (a - a2) + (b2 - b) == 2
    ensures var rest := count[1..a] + count[b..e];
      |rest| == a2 - 1 + 2 + (e - b2) && rest[..a2 - 1] == count[1..a2] && rest[a2 + 1..] == count[b2..e]
  {
  }

  lemma Grown(count: seq<nat>, e: nat, c: nat, a: nat, b: nat)
    requires 1 <= a <= b <= e < |count|
    ensures count[e := c][1..a] == count[1..a] && count[e := c][b..e + 1] == count[b..e] + [c]
  {
  }

  lemma TookTwo(count: seq<nat>, lowS: int, lowN: nat, nodeNb: nat, c1: nat, s1: int, n1: nat, c2: nat, s2: int,
                n2: nat)
    requires Took(count, lowS, lowN, nodeNb, c1, s1, n1) && Took(count, s1, n1, nodeNb, c2, s2, n2)
    ensures |count| == NODES + 1 && -1 <= s2 <= lowS < STARTNODE <= lowN <= n2 <= nodeNb < NODES
    ensures (lowS - s2) + (n2 - lowN) == 2
  {
  }

  lemma RestMerged(count: seq<nat>, lowS: int, lowN: nat, nodeNb: nat, s2: int, n2: nat, c: nat)
    requires |count| == NODES + 1 && -1 <= s2 <= lowS < STARTNODE <= lowN <= n2 <= nodeNb < NODES
    requires (lowS - s2) + (n2 - lowN) == 2 && s2 + 2 < |Rest(count, lowS, lowN, nodeNb)|
    requires Rest(count, lowS, lowN, nodeNb)[s2 + 1] + Rest(count, lowS, lowN, nodeNb)[s2 + 2] == c
    ensures Rest(count[nodeNb + 1 := c], s2, n2, nodeNb + 1) ==
      HufOptimal.Merged(Rest(count, lowS, lowN, nodeNb), s2 + 1)
  {
    var rest, now := Rest(count, lowS, lowN, nodeNb), count[nodeNb + 1 := c];
    TwoOut(count, lowS + 2, lowN + 1, nodeNb + 1, s2 + 2, n2 + 1);
    Grown(count, nodeNb + 1, c, s2 + 2, n2 + 1);
    var front, back := count[1..s2 + 2], count[n2 + 1..nodeNb + 1];
    assert rest[..s2 + 1] == front && rest[s2 + 3..] == back;
    assert Rest(now, s2, n2, nodeNb + 1) == front + (back + [c]) == front + back + [c];
  }

  // ----- What a node counts -----

  /** The counts of the children of a node among the first n. */
  ghost function ChildTotal(parent: seq<nat>, count: seq<nat>, k: nat, n: nat): nat
    requires n <= |parent| && n < |count|
    decreases n
  {
    if n == 0 then 0 else ChildTotal(parent, count, k, n - 1) + if parent[n - 1] == k then count[n] else 0
  }

  lemma {:induction false} ChildTotalUpdate(parent: seq<nat>, count: seq<nat>, i: nat, v: nat, k: nat, n: nat)
    requires n <= |parent| && n < |count| && i < |parent|
    ensures ChildTotal(parent[i := v], count, k, n) == ChildTotal(parent, count, k, n)
      - (if i < n && parent[i] == k then count[i + 1] else 0) + (if i < n && v == k then count[i + 1] else 0)
    decreases n
  {
    if n > 0 {
      ChildTotalUpdate(parent, count, i, v, k, n - 1);
    }
  }

  lemma {:induction false} ChildTotalSame(parent: seq<nat>, count: seq<nat>, other: seq<nat>, k: nat, n: nat)
    requires n <= |parent| && n < |count| == |other|
    requires forall i :: 0 <= i < n && parent[i] == k ==> count[i + 1] == other[i + 1]
    ensures ChildTotal(parent, count, k, n) == ChildTotal(parent, other, k, n)
    decreases n
  {
    if n > 0 {
      ChildTotalSame(parent, count, other, k, n - 1);
    }
  }

  lemma {:induction false} NoChildTotal(parent: seq<nat>, count: seq<nat>, k: nat, n: nat)
    requires n <= |parent| && n < |count| && forall i :: 0 <= i < n ==> parent[i] != k
    ensures ChildTotal(parent, count, k, n) == 0
    decreases n
  {
    if n > 0 {
      NoChildTotal(parent, count, k, n - 1);
    }
  }

  /** Every node made counts what its children do; only places before the next node have parents. */
  ghost predicate Summed(parent: seq<nat>, count: seq<nat>, made: nat) {
    && |parent| == NODES && |count| == NODES + 1 && STARTNODE <= made <= NODES
    && (forall i :: made <= i < NODES ==> parent[i] == 0)
    && (forall i :: 0 <= i < NODES ==> parent[i] < made)
    && forall k :: STARTNODE <= k < made ==> ChildTotal(parent, count, k, NODES) == count[k + 1]
  }

  lemma SummedStep(parent: seq<nat>, count: seq<nat>, made: nat, i: nat, j: nat)
    requires Summed(parent, count, made) && made < NODES && i < made && j < made && i != j
      && parent[i] == 0 == parent[j]
    ensures Summed(parent[i := made][j := made], count[made + 1 := count[i + 1] + count[j + 1]], made + 1)
  {
    hide ChildTotal;
    var one, two := parent[i := made], parent[i := made][j := made];
    var now := count[made + 1 := count[i + 1] + count[j + 1]];
    forall k: nat | STARTNODE <= k < made + 1 ensures ChildTotal(two, now, k, NODES) == now[k + 1] {
      ChildTotalUpdate(parent, count, i, made, k, NODES);
      ChildTotalUpdate(one, count, j, made, k, NODES);
      ChildTotalSame(two, count, now, k, NODES);
      if k == made {
        NoChildTotal(parent, count, k, NODES);
      }
    }
  }

  /** What gets a parent earlier counts no more; nothing that has a parent counts more than `low`. */
  ghost predicate InOrder(parent: seq<nat>, count: seq<nat>, low: nat) {
    && |parent| == NODES && |count| == NODES + 1
    && (forall i :: 0 <= i < NODES && parent[i] != 0 ==> count[i + 1] <= low)
    && forall i, j :: 0 <= i < NODES && 0 <= j < NODES && 0 < parent[i] < parent[j] ==> count[i + 1] <= count[j + 1]
  }

  lemma InOrderStep(parent: seq<nat>, count: seq<nat>, low: nat, made: nat, i: nat, j: nat)
    requires InOrder(parent, count, low) && STARTNODE <= made < NODES && i < made && j < made
    requires low <= count[i + 1] <= count[j + 1] && parent[made] == 0
    requires forall k :: 0 <= k < NODES ==> parent[k] < made
    ensures InOrder(parent[i := made][j := made], count[made + 1 := count[i + 1] + count[j + 1]], count[j + 1])
  {
  }

  lemma LowTaken(count: seq<nat>, lowS: int, lowN: nat, nodeNb: nat, w: seq<nat>, spent: nat, low: nat, c1: nat,
                 s1: int, n1: nat, c2: nat, s2: int, n2: nat)
    requires Greedy(count, lowS, lowN, nodeNb, w, spent, low)
    requires Took(count, lowS, lowN, nodeNb, c1, s1, n1) && Took(count, s1, n1, nodeNb, c2, s2, n2)
    ensures low <= c1 <= c2 && c1 == count[Taken(lowS, lowN, s1) + 1] && c2 == count[Taken(s1, n1, s2) + 1]
  {
    var q := TwoTaken(count, lowS, lowN, nodeNb, low, c1, s1, n1, c2, s2, n2);
  }

  lemma SummedParents(parent: seq<nat>, count: seq<nat>, made: nat)
    requires Summed(parent, count, made) && made < NODES
    ensures parent[made] == 0 && forall k :: 0 <= k < NODES ==> parent[k] < made
  {
  }

  /** All that is known while nodes are made: `spent` is the sum of the counts of the nodes. */
  ghost predicate Spending(parent: seq<nat>, count: seq<nat>, lowS: int, lowN: nat, nodeNb: nat, w: seq<nat>,
                           spent: nat, low: nat) {
    && Greedy(count, lowS, lowN, nodeNb, w, spent, low) && Summed(parent, count, nodeNb) && InOrder(parent, count, low)
    && spent == Total(count, STARTNODE, nodeNb)
  }

  lemma SpendingStep(parent: seq<nat>, one: seq<nat>, two: seq<nat>, count: seq<nat>, lowS: int, lowN: nat, nodeNb: nat,
                     w: seq<nat>, spent: nat, low: nat, c1: nat, s1: int, n1: nat, c2: nat, s2: int, n2: nat)
    requires Spending(parent, count, lowS, lowN, nodeNb, w, spent, low)
    requires Took(count, lowS, lowN, nodeNb, c1, s1, n1) && Took(count, s1, n1, nodeNb, c2, s2, n2)
    requires |one| == NODES && one == parent[Taken(lowS, lowN, s1) := nodeNb] && parent[Taken(lowS, lowN, s1)] == 0
    requires two == one[Taken(s1, n1, s2) := nodeNb] && one[Taken(s1, n1, s2)] == 0
    ensures Spending(two, count[nodeNb + 1 := c1 + c2], s2, n2, nodeNb + 1, w, spent + c1 + c2, c2)
  {
    hide Greedy, Summed, Total, InOrder;
    GreedyStep(count, lowS, lowN, nodeNb, w, spent, low, c1, s1, n1, c2, s2, n2);
    SummedBounds(parent, count, nodeNb);
    var i, j := Taken(lowS, lowN, s1), Taken(s1, n1, s2);
    assert 0 <= i < nodeNb && 0 <= j < nodeNb && one[i] == nodeNb && parent[j] == one[j];
    SummedStep(parent, count, nodeNb, i, j);
    SummedParents(parent, count, nodeNb);
    LowTaken(count, lowS, lowN, nodeNb, w, spent, low, c1, s1, n1, c2, s2, n2);
    InOrderStep(parent, count, low, nodeNb, i, j);
    var now := count[nodeNb + 1 := c1 + c2];
    TotalSame(count, now, STARTNODE, nodeNb);
    TotalMore(now, STARTNODE, nodeNb);
  }

  lemma TotalMore(count: seq<nat>, a: nat, b: nat)
    requires a <= b && b + 1 < |count|
    ensures Total(count, a, b + 1) == Total(count, a, b) + count[b + 1]
  {
  }

  lemma MadeNode(parent: seq<nat>, count: seq<nat>, last: nat, lowS: int, lowN: nat, nodeNb: nat, root: nat, total: nat,
                 c: nat)
    requires HalfMerging(parent, count, last, lowS, lowN, nodeNb, root, total, 2) && total + c < NOT_MADE
    ensures Merging(parent, count[nodeNb + 1 := c], last, lowS, lowN, nodeNb + 1, root, total + c)
  {
    var now := count[nodeNb + 1 := c];
    TotalSame(count, now, 0, lowS + 1);
    TotalSame(count, now, lowN, nodeNb);
  }

  lemma StartHalf(parent: seq<nat>, count: seq<nat>, last: nat, lowS: int, lowN: nat, nodeNb: nat, root: nat,
                  total: nat)
    requires Merging(parent, count, last, lowS, lowN, nodeNb, root, total) && nodeNb <= root
    ensures HalfMerging(parent, count, last, lowS, lowN, nodeNb, root, total, 0)
  {
    NoChildren(parent, last, lowS, lowN, nodeNb);
  }

  /** Make all nodes but the first. */
  method MakeNodes(parent: array<nat>, count: array<nat>, last: nat, firstS: int, root: nat, ghost total: nat,
                   ghost w: seq<nat>, ghost firstSpent: nat, ghost firstLow: nat)
    returns (ghost spent: nat, ghost low: nat)
    requires parent != count && Merging(parent[..], count[..], last, firstS, STARTNODE, STARTNODE + 1, root, total)
    requires Spending(parent[..], count[..], firstS, STARTNODE, STARTNODE + 1, w, firstSpent, firstLow)
    modifies parent, count
    ensures parent.Length == NODES && count.Length == NODES + 1 && STARTNODE <= root < NODES
    ensures Shape(parent[..], last, -1, root, root + 1) && Ordered(parent[..], last, -1, root)
      && Binary(parent[..], root + 1)
    ensures Spending(parent[..], count[..], -1, root, root + 1, w, spent, low) && count[root + 1] == total
    ensures forall i :: 0 <= i <= STARTNODE ==> count[i] == old(count[i])
  {
    hide Merging, HalfMerging, Spending, Took;
    var lowS: int, lowN: nat, nodeNb: nat := firstS, STARTNODE, STARTNODE + 1;
    spent, low := firstSpent, firstLow;
    MergingBounds(parent[..], count[..], last, lowS, lowN, nodeNb, root, total);
    while nodeNb <= root
      invariant STARTNODE < nodeNb <= root + 1 <= NODES && parent.Length == NODES && count.Length == NODES + 1
      invariant Merging(parent[..], count[..], last, lowS, lowN, nodeNb, root, total)
      invariant Spending(parent[..], count[..], lowS, lowN, nodeNb, w, spent, low)
      invariant forall i :: 0 <= i <= STARTNODE ==> count[i] == old(count[i])
    {
      MergingBounds(parent[..], count[..], last, lowS, lowN, nodeNb, root, total);
      StartHalf(parent[..], count[..], last, lowS, lowN, nodeNb, root, total);
      ghost var before, none, s, n := count[..], parent[..], lowS, lowN;
      var c1, c2;
      c1, lowS, lowN := Adopt(parent, count, last, lowS, lowN, nodeNb, root, total, 0);
      ghost var one, s1, n1 := parent[..], lowS, lowN;
      StillOne(parent[..], count[..], last, lowS, lowN, nodeNb, root, total - c1);
      c2, lowS, lowN := Adopt(parent, count, last, lowS, lowN, nodeNb, root, total - c1, 1);
      MadeNode(parent[..], count[..], last, lowS, lowN, nodeNb, root, total - c1 - c2, c1 + c2);
      SpendingStep(none, one, parent[..], before, s, n, nodeNb, w, spent, low, c1, s1, n1, c2, lowS, lowN);
      count[nodeNb + 1] := c1 + c2;
      assert count[..] == before[nodeNb + 1 := c1 + c2];
      spent, low := spent + c1 + c2, c2;
      nodeNb := nodeNb + 1;
    }
    MergingEnds(parent[..], count[..], last, lowS, lowN, root, total);
  }

  lemma MergingBounds(parent: seq<nat>, count: seq<nat>, last: nat, lowS: int, lowN: nat, nodeNb: nat, root: nat,
                      total: nat)
    requires Merging(parent, count, last, lowS, lowN, nodeNb, root, total)
    ensures |parent| == NODES && |count| == NODES + 1 && nodeNb <= root + 1 <= NODES && total < NOT_MADE
    ensures lowN < nodeNb && (nodeNb <= root ==> lowS + 1 + (nodeNb - lowN) >= 2)
  {
  }

  lemma StillOne(parent: seq<nat>, count: seq<nat>, last: nat, lowS: int, lowN: nat, nodeNb: nat, root: nat, total: nat)
    requires HalfMerging(parent, count, last, lowS, lowN, nodeNb, root, total, 1)
    ensures lowS + 1 + (nodeNb - lowN) >= 1
  {
  }

  lemma MergingEnds(parent: seq<nat>, count: seq<nat>, last: nat, lowS: int, lowN: nat, root: nat, total: nat)
    requires Merging(parent, count, last, lowS, lowN, root + 1, root, total)
    ensures lowS == -1 && lowN == root && count[root + 1] == total
    ensures Shape(parent, last, -1, root, root + 1) && Ordered(parent, last, -1, root) && Binary(parent, root + 1)
  {
    assert Total(count, 0, 0) == 0 && Total(count, root, root) == 0;
    TotalMore(count, root, root);
  }

  // ----- Depths -----

  ghost predicate Tree(parent: seq<nat>, last: nat, root: nat) {
    && STARTNODE <= root < NODES && Shape(parent, last, -1, root, root + 1) && Ordered(parent, last, -1, root)
    && Binary(parent, root + 1)
  }

  /** A node below the root is one deeper than its parent. */
  ghost predicate Depths(nb: seq<nat>, parent: seq<nat>, last: nat, root: nat, from: nat)
    requires Tree(parent, last, root)
  {
    && |nb| == NODES && STARTNODE <= from <= root && nb[root] == 0
    && forall i :: from <= i < root ==> nb[i] == nb[parent[i]] + 1
  }

  ghost predicate AllDepths(nb: seq<nat>, parent: seq<nat>, last: nat, root: nat)
    requires Tree(parent, last, root)
  {
    Depths(nb, parent, last, root, STARTNODE) && forall i :: 0 <= i <= last ==> nb[i] == nb[parent[i]] + 1
  }

  /** The depths, from the root down. */
  method DistributeDepths(nbBits: array<nat>, parent: array<nat>, last: nat, root: nat)
    requires nbBits != parent && nbBits.Length == NODES && Tree(parent[..], last, root)
    modifies nbBits
    ensures AllDepths(nbBits[..], parent[..], last, root)
    ensures forall i :: last < i < STARTNODE ==> nbBits[i] == old(nbBits[i])
  {
    hide Ordered;
    nbBits[root] := 0;
    var n := root - 1;
    while n >= STARTNODE
      invariant STARTNODE - 1 <= n < root && Depths(nbBits[..], parent[..], last, root, n + 1)
      invariant forall i :: 0 <= i < STARTNODE ==> nbBits[i] == old(nbBits[i])
    {
      assert parent[..][n] == parent[n];
      nbBits[n] := nbBits[parent[n]] + 1;
      n := n - 1;
    }
    for s := 0 to last + 1
      invariant Depths(nbBits[..], parent[..], last, root, STARTNODE)
      invariant forall i :: 0 <= i < s ==> nbBits[i] == nbBits[parent[i]] + 1
      invariant forall i :: last < i < STARTNODE ==> nbBits[i] == old(nbBits[i])
    {
      assert parent[..][s] == parent[s];
      nbBits[s] := nbBits[parent[s]] + 1;
    }
  }

  /** Later nodes are not deeper. */
  lemma {:induction false} NodesOrdered(nb: seq<nat>, parent: seq<nat>, last: nat, root: nat, i: nat, j: nat)
    requires Tree(parent, last, root) && AllDepths(nb, parent, last, root) && STARTNODE <= i <= j <= root
    ensures nb[i] >= nb[j]
    decreases root - i
  {
    if j < root {
      NodesOrdered(nb, parent, last, root, parent[i], parent[j]);
    }
  }

  lemma SymbolsOrdered(nb: seq<nat>, parent: seq<nat>, last: nat, root: nat)
    requires Tree(parent, last, root) && AllDepths(nb, parent, last, root)
    ensures HufMaxHeight.Monotone(nb[..last + 1]) && HufMaxHeight.AtMost(nb[..last + 1], nb[last])
  {
    forall i, j | 0 <= i <= j <= last ensures nb[i] <= nb[j] {
      NodesOrdered(nb, parent, last, root, parent[j], parent[i]);
    }
  }

  /** The last symbol is a child of the first node. */
  lemma FirstParent(parent: seq<nat>, last: nat, root: nat)
    requires Tree(parent, last, root)
    ensures parent[last] == STARTNODE
  {
    assert Count<nat>(parent, STARTNODE) == 2;
    CountPositive<nat>(parent, STARTNODE);
    var i :| 0 <= i < |parent| && parent[i] == STARTNODE;
    assert i <= last;
    assert parent[i] >= parent[last];
  }

  /** No node is deeper than the last symbol. */
  lemma {:induction false} LastDeepest(nb: seq<nat>, parent: seq<nat>, last: nat, root: nat, i: nat)
    requires Tree(parent, last, root) && AllDepths(nb, parent, last, root) && (i <= last || STARTNODE <= i <= root)
    ensures nb[i] <= nb[last]
  {
    if i <= last {
      NodesOrdered(nb, parent, last, root, parent[last], parent[i]);
    } else {
      FirstParent(parent, last, root);
      NodesOrdered(nb, parent, last, root, parent[last], i);
    }
  }

  // ----- The code is complete -----

  function Part(top: nat, depth: nat): nat {
    if depth <= top then Pow2(top - depth) else 0
  }

  /** The parts of the first n nodes whose parents are k or later. */
  ghost function Frontier(nb: seq<nat>, parent: seq<nat>, top: nat, k: nat, n: nat): nat
    requires n <= |nb| && n <= |parent|
    decreases n
  {
    if n == 0 then 0 else Frontier(nb, parent, top, k, n - 1) + if parent[n - 1] >= k then Part(top, nb[n - 1]) else 0
  }

  lemma {:induction false} WithChildren(nb: seq<nat>, parent: seq<nat>, top: nat, k: nat, n: nat, part: nat)
    requires n <= |nb| && n <= |parent|
    requires forall i :: 0 <= i < n && parent[i] == k ==> Part(top, nb[i]) == part
    ensures Frontier(nb, parent, top, k, n) == Frontier(nb, parent, top, k + 1, n) + Count<nat>(parent[..n], k) * part
    decreases n
  {
    if n > 0 {
      WithChildren(nb, parent, top, k, n - 1, part);
      assert parent[..n][..n - 1] == parent[..n - 1];
      Distribute(Count<nat>(parent[..n - 1], k), 1, part);
    }
  }

  lemma {:induction false} CountBelow(parent: seq<nat>, k: nat, n: nat)
    requires n <= |parent| && forall i :: n <= i < |parent| ==> parent[i] != k
    ensures Count<nat>(parent[..n], k) == Count<nat>(parent, k)
    decreases |parent|
  {
    if n < |parent| {
      CountBelow(parent[..|parent| - 1], k, n);
      assert parent[..|parent| - 1][..n] == parent[..n];
    } else {
      assert parent[..n] == parent;
    }
  }

  /** The two children of a node take its place. */
  lemma ChildrenReplace(nb: seq<nat>, parent: seq<nat>, last: nat, root: nat, top: nat, k: nat)
    requires Tree(parent, last, root) && AllDepths(nb, parent, last, root) && STARTNODE <= k <= root && top == nb[last]
    ensures Frontier(nb, parent, top, k, k) == Frontier(nb, parent, top, k + 1, k) + Part(top, nb[k])
  {
    hide Pow2;
    FirstParent(parent, last, root);
    NodesOrdered(nb, parent, last, root, STARTNODE, k);
    NodeChildren(nb, parent, last, root, k);
    CountBelow(parent, k, k);
    TwoParts(top, nb[k]);
    hide Tree, AllDepths;
    WithChildren(nb, parent, top, k, k, Part(top, nb[k] + 1));
  }

  lemma TwoParts(top: nat, depth: nat)
    requires depth < top
    ensures Part(top, depth) == 2 * Part(top, depth + 1)
  {
  }

  lemma {:induction false} NothingAbove(nb: seq<nat>, parent: seq<nat>, top: nat, k: nat, n: nat)
    requires n <= |nb| && n <= |parent| && forall i :: 0 <= i < n ==> parent[i] < k
    ensures Frontier(nb, parent, top, k, n) == 0
    decreases n
  {
    if n > 0 {
      NothingAbove(nb, parent, top, k, n - 1);
    }
  }

  /** Going down from the root, the parts always add up to the whole. */
  lemma {:induction false} FrontierWhole(nb: seq<nat>, parent: seq<nat>, last: nat, root: nat, top: nat, k: nat)
    requires Tree(parent, last, root) && AllDepths(nb, parent, last, root) && STARTNODE <= k <= root && top == nb[last]
    ensures Frontier(nb, parent, top, k, k) == Pow2(top)
    decreases root - k
  {
    hide Binary, Ordered;
    ChildrenReplace(nb, parent, last, root, top, k);
    if k == root {
      NothingAbove(nb, parent, top, root + 1, root);
    } else {
      FrontierWhole(nb, parent, last, root, top, k + 1);
    }
  }

  lemma {:induction false} FrontierKraft(nb: seq<nat>, parent: seq<nat>, last: nat, top: nat, n: nat)
    requires |nb| == NODES == |parent| && last < STARTNODE && n <= STARTNODE
    requires forall i :: 0 <= i <= last ==> parent[i] >= STARTNODE && nb[i] <= top
    requires forall i :: last < i < STARTNODE ==> parent[i] == 0
    ensures HufMaxHeight.AtMost(nb[..if n <= last + 1 then n else last + 1], top)
    ensures Frontier(nb, parent, top, STARTNODE, n) ==
      HufMaxHeight.Kraft(nb[..if n <= last + 1 then n else last + 1], top)
    decreases n
  {
    if n > 0 {
      FrontierKraft(nb, parent, last, top, n - 1);
      if n <= last + 1 {
        assert nb[..n][..n - 1] == nb[..n - 1];
      }
    }
  }

  /** The depths of the symbols are the lengths of a complete code, in order. */
  lemma TreeIsComplete(nb: seq<nat>, parent: seq<nat>, last: nat, root: nat)
    requires Tree(parent, last, root) && AllDepths(nb, parent, last, root)
    ensures HufMaxHeight.CompleteCode(nb[..last + 1], nb[last])
  {
    hide Frontier;
    SymbolsOrdered(nb, parent, last, root);
    FrontierWhole(nb, parent, last, root, nb[last], STARTNODE);
    forall i | 0 <= i <= last ensures nb[i] <= nb[last] {
      LastDeepest(nb, parent, last, root, i);
    }
    FrontierKraft(nb, parent, last, nb[last], STARTNODE);
  }

  // ----- The code is optimal -----

  /** The bits that the first n nodes with parents k or later take, all that is below them included. */
  ghost function FrontierCost(nb: seq<nat>, parent: seq<nat>, count: seq<nat>, k: nat, n: nat): nat
    requires n <= |nb| && n <= |parent| && n < |count|
    decreases n
  {
    if n == 0 then 0
    else FrontierCost(nb, parent, count, k, n - 1) + if parent[n - 1] >= k then count[n] * nb[n - 1] else 0
  }

  lemma {:induction false} ChildrenCost(nb: seq<nat>, parent: seq<nat>, count: seq<nat>, k: nat, n: nat, depth: nat)
    requires n <= |nb| && n <= |parent| && n < |count|
    requires forall i :: 0 <= i < n && parent[i] == k ==> nb[i] == depth
    ensures FrontierCost(nb, parent, count, k, n) ==
      FrontierCost(nb, parent, count, k + 1, n) + ChildTotal(parent, count, k, n) * depth
    decreases n
  {
    if n > 0 {
      ChildrenCost(nb, parent, count, k, n - 1, depth);
      Distribute(ChildTotal(parent, count, k, n - 1), count[n], depth);
    }
  }

  lemma {:induction false} NoCost(nb: seq<nat>, parent: seq<nat>, count: seq<nat>, k: nat, n: nat)
    requires n <= |nb| && n <= |parent| && n < |count| && forall i :: 0 <= i < n ==> parent[i] < k
    ensures FrontierCost(nb, parent, count, k, n) == 0
    decreases n
  {
    if n > 0 {
      NoCost(nb, parent, count, k, n - 1);
    }
  }

  lemma {:induction false} ChildTotalBelow(parent: seq<nat>, count: seq<nat>, k: nat, n: nat, m: nat)
    requires n <= m <= |parent| && m < |count| && forall i :: n <= i < m ==> parent[i] != k
    ensures ChildTotal(parent, count, k, m) == ChildTotal(parent, count, k, n)
    decreases m
  {
    if n < m {
      ChildTotalBelow(parent, count, k, n, m - 1);
    }
  }

  lemma NodeIsSum(parent: seq<nat>, count: seq<nat>, last: nat, root: nat, k: nat)
    requires Tree(parent, last, root) && Summed(parent, count, root + 1) && STARTNODE <= k <= root
    ensures |parent| == NODES && |count| == NODES + 1 && ChildTotal(parent, count, k, k) == count[k + 1]
  {
    hide Ordered, Binary;
    ChildTotalBelow(parent, count, k, k, NODES);
  }

  lemma NodeChildren(nb: seq<nat>, parent: seq<nat>, last: nat, root: nat, k: nat)
    requires Tree(parent, last, root) && AllDepths(nb, parent, last, root) && STARTNODE <= k <= root
    ensures |nb| == NODES == |parent| && root < NODES
    ensures forall i :: 0 <= i < k && parent[i] == k ==> nb[i] == nb[k] + 1
  {
    hide Ordered, Binary;
  }

  /** The children of a node take one bit more each than the node. */
  lemma NodeCost(nb: seq<nat>, parent: seq<nat>, count: seq<nat>, last: nat, root: nat, k: nat)
    requires Tree(parent, last, root) && AllDepths(nb, parent, last, root) && Summed(parent, count, root + 1)
    requires STARTNODE <= k <= root
    ensures FrontierCost(nb, parent, count, k, k) ==
      FrontierCost(nb, parent, count, k + 1, k) + count[k + 1] * (nb[k] + 1)
  {
    hide Tree, AllDepths, Summed;
    NodeIsSum(parent, count, last, root, k);
    NodeChildren(nb, parent, last, root, k);
    ChildrenCost(nb, parent, count, k, k, nb[k] + 1);
  }

  /** Going down from the root, the bits are the sum of the counts of the nodes passed. */
  lemma {:induction false} TreeCost(nb: seq<nat>, parent: seq<nat>, count: seq<nat>, last: nat, root: nat, k: nat)
    requires Tree(parent, last, root) && AllDepths(nb, parent, last, root) && Summed(parent, count, root + 1)
    requires STARTNODE <= k <= root
    ensures FrontierCost(nb, parent, count, k, k) == Total(count, k, root + 1)
    decreases root - k
  {
    hide Summed, Total;
    SummedBounds(parent, count, root + 1);
    NodeCost(nb, parent, count, last, root, k);
    TotalFirst(count, k, root + 1);
    HufOptimal.OneLess(count[k + 1], nb[k] + 1);
    if k == root {
      NoCost(nb, parent, count, root + 1, root);
      NoTotal(count, root + 1);
    } else {
      TreeCost(nb, parent, count, last, root, k + 1);
    }
  }

  lemma NoTotal(count: seq<nat>, a: nat)
    requires a < |count|
    ensures Total(count, a, a) == 0
  {
  }

  lemma SummedBounds(parent: seq<nat>, count: seq<nat>, made: nat)
    requires Summed(parent, count, made)
    ensures |parent| == NODES && |count| == NODES + 1
  {
  }

  lemma {:induction false} SymbolCost(nb: seq<nat>, parent: seq<nat>, count: seq<nat>, counts: seq<nat>, last: nat,
                                      n: nat)
    requires |nb| == NODES == |parent| && |count| == NODES + 1 && last < STARTNODE && n <= STARTNODE && last < |counts|
    requires forall i :: 0 <= i <= last ==> parent[i] >= STARTNODE && count[i + 1] == counts[i]
    requires forall i :: last < i < STARTNODE ==> parent[i] == 0
    ensures var m := if n <= last + 1 then n else last + 1;
      FrontierCost(nb, parent, count, STARTNODE, n) == HufOptimal.Cost(counts[..m], nb[..m])
    decreases n
  {
    if n > 0 {
      SymbolCost(nb, parent, count, counts, last, n - 1);
      if n <= last + 1 {
        assert nb[..n][..n - 1] == nb[..n - 1] && counts[..n][..n - 1] == counts[..n - 1];
      }
    }
  }

  /** No code in which no word begins another takes fewer bits. */
  ghost predicate Optimal(counts: seq<nat>, nb: seq<nat>) {
    && |counts| == |nb|
    && forall v, m :: HufOptimal.PrefixCode(v, m) && |m| == |counts| ==>
        HufOptimal.Cost(counts, nb) <= HufOptimal.Cost(counts, m)
  }

  lemma TreeIsOptimal(nb: seq<nat>, parent: seq<nat>, count: seq<nat>, counts: seq<nat>, last: nat, root: nat,
                      spent: nat, low: nat)
    requires Tree(parent, last, root) && AllDepths(nb, parent, last, root) && last < |counts| <= STARTNODE
    requires Spending(parent, count, -1, root, root + 1, counts[..last + 1], spent, low)
    requires forall i :: 0 <= i <= last ==> count[i + 1] == counts[i]
    ensures Optimal(counts[..last + 1], nb[..last + 1])
  {
    hide Total, Summed, HufOptimal.Bounds, HufOptimal.Feasible, HufOptimal.PrefixCode;
    TreeCost(nb, parent, count, last, root, STARTNODE);
    SymbolCost(nb, parent, count, counts, last, STARTNODE);
    var w := counts[..last + 1];
    forall v, m | HufOptimal.PrefixCode(v, m) && |m| == |w|
      ensures HufOptimal.Cost(w, nb[..last + 1]) <= HufOptimal.Cost(w, m)
    {
      var top := HufOptimal.SomeTop(m);
      HufOptimal.PrefixCodesAreFeasible(v, m, top);
      HufOptimal.BoundsAll(w, Rest(count, -1, root, root + 1), spent, m, top);
    }
  }

  // ----- The tree is not high -----

  function Fibonacci(n: nat): nat {
    if n < 2 then n else Fibonacci(n - 1) + Fibonacci(n - 2)
  }

  lemma SecondChild(parent: seq<nat>, made: nat, k: nat, q: nat) returns (s: nat)
    requires Binary(parent, made) && STARTNODE <= q < made && k < |parent| && parent[k] == q
    ensures s < |parent| && s != k && parent[s] == q
  {
    assert Count<nat>(parent, q) == 2;
    CountUpdate<nat>(parent, k, 0, q);
    CountPositive<nat>(parent[k := 0], q);
    s :| 0 <= s < |parent| && parent[k := 0][s] == q;
  }

  lemma {:induction false} ChildrenCount(parent: seq<nat>, count: seq<nat>, q: nat, a: nat, b: nat, n: nat)
    requires n <= |parent| && n < |count| && a < |parent| && b < |parent| && a != b && parent[a] == q == parent[b]
    ensures ChildTotal(parent, count, q, n) >= (if a < n then count[a + 1] else 0) + (if b < n then count[b + 1] else 0)
    decreases n
  {
    if n > 0 {
      ChildrenCount(parent, count, q, a, b, n - 1);
    }
  }

  /** A node counts at least what two children do. */
  lemma NodeCounts2(parent: seq<nat>, count: seq<nat>, last: nat, root: nat, q: nat, a: nat, b: nat)
    requires Tree(parent, last, root) && Summed(parent, count, root + 1) && STARTNODE <= q <= root
    requires a < NODES && b < NODES && a != b && parent[a] == q == parent[b]
    ensures |count| == NODES + 1 && count[q + 1] >= count[a + 1] + count[b + 1]
  {
    hide Shape, Ordered, Binary;
    TreeSize(parent, last, root);
    ChildrenCount(parent, count, q, a, b, NODES);
  }

  lemma TreeSize(parent: seq<nat>, last: nat, root: nat)
    requires Tree(parent, last, root)
    ensures |parent| == NODES && root < NODES && last < STARTNODE
  {
  }

  /** The first node is made of two symbols. */
  lemma FirstCount(parent: seq<nat>, count: seq<nat>, last: nat, root: nat)
    requires Tree(parent, last, root) && Summed(parent, count, root + 1)
    requires |count| == NODES + 1 && forall i :: 0 < i <= last + 1 ==> count[i] > 0
    ensures |parent| == NODES && last < STARTNODE && parent[last] == STARTNODE
    ensures count[last + 1] >= 1 && count[STARTNODE + 1] >= 2
  {
    FirstParent(parent, last, root);
    var s := SecondChild(parent, root + 1, last, STARTNODE);
    assert s <= last;
    NodeCounts2(parent, count, last, root, STARTNODE, last, s);
  }

  /** A parent counts at least as much as a node and one of its children together. */
  lemma ParentCount(parent: seq<nat>, count: seq<nat>, low: nat, last: nat, root: nat, i: nat, k: nat)
    requires Tree(parent, last, root) && Summed(parent, count, root + 1) && InOrder(parent, count, low)
    requires STARTNODE <= k < root && i < NODES && parent[i] == k
    ensures STARTNODE <= parent[k] <= root && count[parent[k] + 1] >= count[k + 1] + count[i + 1]
  {
    var q := parent[k];
    var s := SecondChild(parent, root + 1, k, q);
    assert 0 < parent[i] < parent[s];
    NodeCounts2(parent, count, last, root, q, k, s);
  }

  /** Going up from the deepest symbol, the counts grow like the Fibonacci numbers. */
  lemma {:induction false} Climb(nb: seq<nat>, parent: seq<nat>, count: seq<nat>, low: nat, last: nat, root: nat,
                                 h: nat)
    returns (i: nat, k: nat)
    requires Tree(parent, last, root) && AllDepths(nb, parent, last, root) && Summed(parent, count, root + 1)
    requires InOrder(parent, count, low) && 1 <= h <= nb[last] && forall i :: 0 < i <= last + 1 ==> count[i] > 0
    ensures i < NODES && parent[i] == k && STARTNODE <= k <= root && nb[k] + h == nb[last]
    ensures count[i + 1] >= Fibonacci(h + 1) && count[k + 1] >= Fibonacci(h + 2)
    decreases h
  {
    if h == 1 {
      FirstCount(parent, count, last, root);
      i, k := last, STARTNODE;
      assert nb[last] == nb[parent[last]] + 1;
    } else {
      var j, below := Climb(nb, parent, count, low, last, root, h - 1);
      assert nb[below] > 0 && below != root;
      ParentCount(parent, count, low, last, root, j, below);
      i, k := below, parent[below];
      assert nb[below] == nb[parent[below]] + 1;
    }
  }

  lemma OnlyRoot(nb: seq<nat>, parent: seq<nat>, last: nat, root: nat, k: nat)
    requires Tree(parent, last, root) && AllDepths(nb, parent, last, root) && STARTNODE <= k <= root && nb[k] == 0
    ensures k == root
  {
    forall j | STARTNODE <= j < root ensures nb[j] > 0 {
      assert nb[j] == nb[parent[j]] + 1;
    }
  }

  /** The height of the tree is bounded by the sum of the counts. */
  lemma HeightBound(nb: seq<nat>, parent: seq<nat>, count: seq<nat>, counts: seq<nat>, last: nat, root: nat,
                    w: seq<nat>, spent: nat, low: nat)
    requires Tree(parent, last, root) && AllDepths(nb, parent, last, root) && last < |counts| <= STARTNODE
    requires Spending(parent, count, -1, root, root + 1, w, spent, low)
    requires forall i :: 0 <= i <= last ==> count[i + 1] == counts[i] > 0
    ensures |count| == NODES + 1 && root < NODES
    ensures Fibonacci(nb[last] + 2) <= count[root + 1]
  {
    hide Greedy, Summed, InOrder, Total, Fibonacci;
    assert nb[last] == nb[parent[last]] + 1;
    SummedBounds(parent, count, root + 1);
    forall i | 0 < i <= last + 1 ensures count[i] > 0 {
      assert count[(i - 1) + 1] == counts[i - 1];
    }
    var i, k := Climb(nb, parent, count, low, last, root, nb[last]);
    OnlyRoot(nb, parent, last, root, k);
  }

  lemma {:induction false} FibonacciGrows(m: nat, n: nat)
    requires m <= n
    ensures Fibonacci(m) <= Fibonacci(n)
    decreases n
  {
    if m < n {
      FibonacciGrows(m, n - 1);
    }
  }

  /** Counts of less than 5.7 million in all give trees of at most 31 levels. */
  lemma ShortTree(height: nat, total: nat)
    requires Fibonacci(height + 2) <= total < 5_702_887
    ensures height <= 31
  {
    if height >= 32 {
      FibonacciGrows(34, height + 2);
      ThirtyFour();
    }
  }

  lemma ThirtyFour()
    ensures Fibonacci(34) == 5_702_887
  {
    assert Fibonacci(10) == 55 && Fibonacci(11) == 89;
    Sums(10, 55, 89);
    Sums(16, 987, 1597);
    Sums(22, 17711, 28657);
    Sums(28, 317811, 514229);
  }

  /** Six numbers further on. */
  lemma Sums(n: nat, a: nat, b: nat)
    requires Fibonacci(n) == a && Fibonacci(n + 1) == b
    ensures Fibonacci(n + 6) == 5 * a + 8 * b && Fibonacci(n + 7) == 8 * a + 13 * b
  {
    assert Fibonacci(n + 2) == a + b;
    assert Fibonacci(n + 3) == a + 2 * b;
    assert Fibonacci(n + 4) == 2 * a + 3 * b;
    assert Fibonacci(n + 5) == 3 * a + 5 * b;
  }

  // ----- The whole -----

  /** Counts in descending order, at least two of them not zero, and not too large together. */
  ghost predicate Sorted(counts: seq<nat>) {
    && 2 <= |counts| <= STARTNODE && counts[1] > 0
    && (forall i, j :: 0 <= i <= j < |counts| ==> counts[i] >= counts[j])
    && Total([0] + counts, 0, |counts|) < NOT_MADE
  }

  lemma {:induction false} TotalPrefix(count: seq<nat>, a: nat, b: nat, c: nat)
    requires b <= c < |count|
    ensures Total(count, a, b) <= Total(count, a, c)
    decreases c
  {
    if b < c {
      TotalPrefix(count, a, b, c - 1);
    }
  }

  lemma StartSpending(zeros: seq<nat>, count: seq<nat>, counts: seq<nat>, last: nat)
    requires Sorted(counts) && 1 <= last < |counts| && |count| == NODES + 1 && |zeros| == NODES
    requires forall i :: 0 <= i < NODES ==> zeros[i] == 0
    requires forall i :: 0 <= i < |counts| ==> count[i + 1] == counts[i]
    ensures Spending(zeros, count, last, STARTNODE, STARTNODE, counts[..last + 1], 0, 0)
  {
    hide HufOptimal.Bounds, ChildTotal;
    var w := counts[..last + 1];
    HufOptimal.StartBounds(w);
    assert Rest(count, last, STARTNODE, STARTNODE) == w;
    forall i, j | 1 <= i <= j <= last + 1 ensures count[i] >= count[j] {
      assert count[(i - 1) + 1] == counts[i - 1] && count[(j - 1) + 1] == counts[j - 1];
    }
  }

  /** At first only symbols are left, and the last two are the lowest. */
  lemma FirstSpending(zeros: seq<nat>, one: seq<nat>, two: seq<nat>, count: seq<nat>, counts: seq<nat>, last: nat)
    requires Sorted(counts) && 1 <= last < |counts| && |count| == NODES + 1 && |zeros| == NODES == |one|
    requires forall i :: 0 <= i < NODES ==> zeros[i] == 0
    requires forall i :: 0 <= i < |counts| ==> count[i + 1] == counts[i]
    requires count[STARTNODE + 1] == counts[last] + counts[last - 1]
    requires one == zeros[last := STARTNODE] && two == one[last - 1 := STARTNODE]
    ensures Spending(two, count, last - 2, STARTNODE, STARTNODE + 1, counts[..last + 1],
                     counts[last] + counts[last - 1], counts[last - 1])
  {
    hide Spending;
    var w := counts[..last + 1];
    StartSpending(zeros, count, counts, last);
    assert count[STARTNODE + 1 := counts[last] + counts[last - 1]] == count;
    SpendingStep(zeros, one, two, count, last, STARTNODE, STARTNODE, w, 0, 0, counts[last], last - 1, STARTNODE,
                 counts[last - 1], last - 2, STARTNODE);
  }

  /** The first node, made from the last two symbols. */
  method FirstNode(parent: array<nat>, count: array<nat>, last: nat, root: nat, ghost counts: seq<nat>)
    requires parent != count && parent.Length == NODES && count.Length == NODES + 1
    requires Sorted(counts) && 1 <= last < |counts| && root == STARTNODE + last - 1
    requires forall i :: 0 <= i < NODES ==> parent[i] == 0
    requires forall i :: 0 <= i < |counts| ==> count[i + 1] == counts[i]
    modifies parent, count
    ensures Merging(parent[..], count[..], last, last - 2, STARTNODE, STARTNODE + 1, root,
                    Total([0] + counts, 0, last + 1))
    ensures forall i :: 0 <= i < |counts| ==> count[i + 1] == counts[i]
    ensures Spending(parent[..], count[..], last - 2, STARTNODE, STARTNODE + 1, counts[..last + 1],
                     counts[last] + counts[last - 1], counts[last - 1])
  {
    hide Shape;
    hide Spending, Total;
    ghost var zeros := parent[..];
    AllZero(zeros, last);
    count[STARTNODE + 1] := count[last + 1] + count[last];
    AdoptSymbol(zeros, last, last, STARTNODE, STARTNODE);
    parent[last] := STARTNODE;
    AdoptSymbol(zeros[last := STARTNODE], last, last - 1, STARTNODE, STARTNODE);
    parent[last - 1] := STARTNODE;
    ghost var one: seq<nat> := zeros[last := STARTNODE];
    ghost var two: seq<nat> := one[last - 1 := STARTNODE];
    assert parent[..] == two;
    MarkUnmade(count, root);
    FirstTotal(count[..], counts, last);
    FirstSpending(zeros, one, two, count[..], counts, last);
    TotalPrefix([0] + counts, 0, last + 1, |counts|);
  }

  /** The nodes that are not made yet, and the place before the first symbol. */
  method MarkUnmade(count: array<nat>, root: nat)
    requires count.Length == NODES + 1 && STARTNODE <= root < NODES
    modifies count
    ensures count[0] == BARRIER && forall i :: STARTNODE + 1 < i <= root + 1 ==> count[i] == NOT_MADE
    ensures forall i :: 0 < i <= STARTNODE + 1 ==> count[i] == old(count[i])
  {
    for n := STARTNODE + 1 to root + 1
      invariant forall i :: STARTNODE + 1 < i <= n ==> count[i] == NOT_MADE
      invariant forall i :: 0 <= i <= STARTNODE + 1 ==> count[i] == old(count[i])
    {
      count[n + 1] := NOT_MADE;
    }
    count[0] := BARRIER;
  }

  lemma AllZero(zeros: seq<nat>, last: nat)
    requires |zeros| == NODES && last < STARTNODE && forall i :: 0 <= i < NODES ==> zeros[i] == 0
    ensures Count<nat>(zeros, STARTNODE) == 0
    ensures Shape(zeros, last, last, STARTNODE, STARTNODE + 1)
  {
    CountPositive<nat>(zeros, STARTNODE);
  }

  lemma {:induction false} TotalCut(count: seq<nat>, a: nat, b: nat, n: nat)
    requires b < n <= |count|
    ensures Total(count[..n], a, b) == Total(count, a, b)
    decreases b
  {
    if a < b {
      TotalCut(count, a, b - 1, n);
    }
  }

  lemma FirstTotal(count: seq<nat>, counts: seq<nat>, last: nat)
    requires 1 <= last < |counts| <= STARTNODE && |count| == NODES + 1
    requires forall i :: 0 <= i < |counts| ==> count[i + 1] == counts[i]
    requires count[STARTNODE + 1] == counts[last] + counts[last - 1]
    ensures Total(count, 0, last - 1) + Total(count, STARTNODE, STARTNODE + 1) == Total([0] + counts, 0, last + 1)
  {
    TotalSame(count[..|counts| + 1], [0] + counts, 0, last - 1);
    TotalCut(count, 0, last - 1, |counts| + 1);
  }

  /** The last symbol that occurs. */
  method LastNonNull(counts: seq<nat>) returns (last: nat)
    requires Sorted(counts)
    ensures 1 <= last < |counts| && counts[last] > 0 && forall i :: last < i < |counts| ==> counts[i] == 0
  {
    last := |counts| - 1;
    while counts[last] == 0
      invariant 1 <= last < |counts| && forall i :: last < i < |counts| ==> counts[i] == 0
      decreases last
    {
      last := last - 1;
    }
  }

  /** Build the tree. The depths of the symbols that occur are the lengths of a complete code, which do not decrease
      from frequent to rare symbols; no code at all, if none of its words begins another, takes fewer bits for these
      counts; the other symbols keep their length of 0. */
  method BuildTree(counts: seq<nat>, nbBits: array<nat>) returns (last: nat)
    requires Sorted(counts) && nbBits.Length == NODES && forall i :: 0 <= i < NODES ==> nbBits[i] == 0
    modifies nbBits
    ensures 1 <= last < |counts| && counts[last] > 0 && forall i :: last < i < |counts| ==> counts[i] == 0
    ensures HufMaxHeight.CompleteCode(nbBits[..last + 1], nbBits[last])
    ensures forall i :: last < i < STARTNODE ==> nbBits[i] == 0
    ensures Optimal(counts[..last + 1], nbBits[..last + 1])
    ensures Fibonacci(nbBits[last] + 2) <= Total([0] + counts, 0, last + 1)
  {
    hide Sorted, Merging, Fibonacci, Total, Spending, Optimal, HufMaxHeight.CompleteCode;
    last := LastNonNull(counts);
    SizeOf(counts);
    var count := NodeCounts(counts);
    var parent := new nat[NODES](i => 0);
    var root := STARTNODE + last - 1;
    FirstNode(parent, count, last, root, counts);
    ghost var spent, low := MakeNodes(parent, count, last, last - 2, root, Total([0] + counts, 0, last + 1),
                                      counts[..last + 1], counts[last] + counts[last - 1], counts[last - 1]);
    DistributeDepths(nbBits, parent, last, root);
    TreeIsComplete(nbBits[..], parent[..], last, root);
    TreeIsOptimal(nbBits[..], parent[..], count[..], counts, last, root, spent, low);
    SortedPositive(counts, last);
    HeightBound(nbBits[..], parent[..], count[..], counts, last, root, counts[..last + 1], spent, low);
  }

  lemma SortedPositive(counts: seq<nat>, last: nat)
    requires Sorted(counts) && last < |counts| && counts[last] > 0
    ensures forall i :: 0 <= i <= last ==> counts[i] > 0
  {
  }

  /** Room for the counts of all nodes, with those of the symbols filled in. */
  method NodeCounts(counts: seq<nat>) returns (count: array<nat>)
    requires |counts| <= STARTNODE
    ensures fresh(count) && count.Length == NODES + 1
    ensures forall i :: 0 <= i < |counts| ==> count[i + 1] == counts[i]
  {
    count := new nat[NODES + 1](i => 0);
    for i := 0 to |counts|
      invariant forall j :: 0 <= j < i ==> count[j + 1] == counts[j]
    {
      count[i + 1] := counts[i];
    }
  }

  lemma SizeOf(counts: seq<nat>)
    requires Sorted(counts)
    ensures 2 <= |counts| <= STARTNODE
  {
  }
}
