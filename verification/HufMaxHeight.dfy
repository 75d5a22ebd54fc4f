/** Limiting the height of a Huffman code: lengths above the target are cut, and the code is repaired so that it is
    complete again. */
module HufMaxHeight {
  import opened Pow2Lemmas
  import opened BitArithmetic
  import opened Counting

  const TABLELOG_MAX := 12
  const SYMBOLVALUE_MAX := 255
  const NO_SYMBOL := 0xF0F0F0F0

  // ----- The Kraft sum of a list of code lengths -----

  ghost predicate AtMost(nb: seq<nat>, top: nat) {
    forall i :: 0 <= i < |nb| ==> nb[i] <= top
  }

  /** Lengths never decrease from frequent to rare symbols. */
  ghost predicate Monotone(nb: seq<nat>) {
    forall i, k :: 0 <= i <= k < |nb| ==> nb[i] <= nb[k]
  }

  /** The sum of 2^(top - length) over all symbols; a code is complete when it is 2^top. */
  ghost function Kraft(nb: seq<nat>, top: nat): nat
    requires AtMost(nb, top)
    decreases |nb|
  {
    if nb == [] then 0 else Kraft(nb[..|nb| - 1], top) + Pow2(top - nb[|nb| - 1])
  }

  lemma {:induction false} KraftUpdate(nb: seq<nat>, top: nat, i: nat, v: nat)
    requires AtMost(nb, top) && i < |nb| && v <= top
    ensures Kraft(nb[i := v], top) + Pow2(top - nb[i]) == Kraft(nb, top) + Pow2(top - v)
    decreases |nb|
  {
    var now := nb[i := v];
    var front := nb[..|nb| - 1];
    if i == |nb| - 1 {
      assert now[..|nb| - 1] == front;
    } else {
      assert now[..|nb| - 1] == front[i := v];
      KraftUpdate(front, top, i, v);
    }
  }

  /** The same sum in finer units. */
  lemma {:induction false} KraftScale(nb: seq<nat>, top: nat, more: nat)
    requires AtMost(nb, top)
    ensures AtMost(nb, top + more)
    ensures Kraft(nb, top + more) == Kraft(nb, top) * Pow2(more)
    decreases |nb|
  {
    if nb != [] {
      var front, last := nb[..|nb| - 1], nb[|nb| - 1];
      KraftScale(front, top, more);
      assert Pow2(top + more - last) == Pow2(top - last) * Pow2(more) by {
        Pow2Add(top - last, more);
        assert (top - last) + more == top + more - last;
      }
      Distribute(Kraft(front, top), Pow2(top - last), Pow2(more));
    }
  }

  /** Symbols of length `top` count one each, all others at least two. */
  lemma {:induction false} KraftCounts(nb: seq<nat>, top: nat)
    requires AtMost(nb, top)
    ensures Count(nb, top) <= |nb| <= Kraft(nb, top)
    ensures Count(nb, top) == |nb| ==> Kraft(nb, top) == |nb|
    ensures (forall i :: 0 <= i < |nb| ==> nb[i] == top) ==> Kraft(nb, top) == |nb|
    decreases |nb|
  {
    if nb != [] {
      KraftCounts(nb[..|nb| - 1], top);
    }
  }

  lemma MultipleStep(p: nat, x: int, y: int)
    ensures p * x + p * y == p * (x + y)
  {
  }

  /** If every length is `top` or at most `top - k`, the sum is the number of symbols of length `top` plus a multiple
      of 2^k. */
  lemma {:induction false} KraftModulo(nb: seq<nat>, top: nat, k: nat) returns (x: nat)
    requires AtMost(nb, top) && k <= top
    requires forall i :: 0 <= i < |nb| ==> nb[i] == top || nb[i] + k <= top
    ensures Kraft(nb, top) == Count(nb, top) + Pow2(k) * x
    decreases |nb|
  {
    x := 0;
    if nb != [] {
      var last := nb[|nb| - 1];
      x := KraftModulo(nb[..|nb| - 1], top, k);
      if last < top {
        var y := Pow2(top - last - k);
        assert Pow2(top - last) == Pow2(k) * y by {
          Pow2Add(k, top - last - k);
          assert k + (top - last - k) == top - last;
        }
        MultipleStep(Pow2(k), x, y);
        x := x + y;
      }
    }
  }

  // ----- Cutting the long lengths -----

  /** Shortening one length costs less than one unit of 2^more, and at least something. */
  lemma CutCost(largest: nat, target: nat, bits: nat)
    requires target < bits <= largest
    ensures 0 < Pow2(largest - bits) < Pow2(largest - target)
  {
    Pow2Monotone(largest - bits, largest - target);
  }

  /** A code whose sum exceeds 2^top has a symbol shorter than `top`, if there are at most 2^top symbols. */
  lemma SomeShorter(nb: seq<nat>, top: nat)
    requires AtMost(nb, top) && |nb| <= Pow2(top) && Kraft(nb, top) != |nb|
    ensures exists i :: 0 <= i < |nb| && nb[i] < top
  {
    if forall i :: 0 <= i < |nb| ==> nb[i] == top {
      KraftCounts(nb, top);
    }
  }

  lemma CutSomeLeft(nb: seq<nat>, target: nat, more: nat)
    requires AtMost(nb, target + more) && |nb| <= Pow2(target)
    requires Kraft(nb, target + more) > Pow2(target + more)
    ensures exists i :: 0 <= i < |nb| && nb[i] != target
  {
    if forall i :: 0 <= i < |nb| ==> nb[i] == target {
      KraftCounts(nb, target);
      KraftScale(nb, target, more);
      Pow2Add(target, more);
      Product(|nb|, Pow2(target), Pow2(more));
    }
  }

  /** The excess over 2^largest is a whole number of units of 2^more, fewer than the symbols cut. */
  lemma Renormalise(nb: seq<nat>, target: nat, more: nat, cost: nat, cut: nat)
    requires AtMost(nb, target) && Kraft(nb, target + more) == Pow2(target + more) + cost
    requires 0 < cost < Pow2(more) * cut
    ensures cost % Pow2(more) == 0
    ensures Kraft(nb, target) == Pow2(target) + cost / Pow2(more)
    ensures 0 < cost / Pow2(more) < cut
  {
    KraftScale(nb, target, more);
    Pow2Add(target, more);
    var unit := Pow2(more);
    var q := Kraft(nb, target) - Pow2(target);
    assert cost == q * unit by {
      Distribute(q, Pow2(target), unit);
    }
    WholeUnits(cost, q, unit, cut);
  }

  lemma DivideProduct(q: int, r: int, d: int, unit: int)
    requires d * unit + r == q * unit && 0 <= r < unit
    ensures d == q && r == 0
  {
    Distribute(d, q - d, unit);
    if q - d >= 1 {
      Product(1, q - d, unit);
    } else if q - d <= -1 {
      Product(q - d, -1, unit);
    }
  }

  lemma WholeUnits(cost: nat, q: int, unit: nat, cut: nat)
    requires unit > 0 && cost == q * unit && 0 < cost < unit * cut
    ensures cost % unit == 0 && cost / unit == q && 0 < q < cut
  {
    var d, r := cost / unit, cost % unit;
    assert d * unit + r == cost;
    DivideProduct(q, r, d, unit);
    if q >= cut {
      Product(cut, q, unit);
    }
  }

  /** `now` is `was` with every length from index `n + 1` on, all of them above `target`, cut to `target`. */
  ghost predicate CutFrom(was: seq<nat>, now: seq<nat>, target: nat, n: int) {
    && |now| == |was|
    && (forall i :: 0 <= i <= n && i < |was| ==> now[i] == was[i])
    && (forall i :: n < i < |was| && 0 <= i ==> now[i] == target < was[i])
  }

  lemma CutKeepsOrder(was: seq<nat>, now: seq<nat>, target: nat, n: int)
    requires Monotone(was) && CutFrom(was, now, target, n) && -1 <= n < |was|
    requires n >= 0 ==> was[n] <= target
    ensures Monotone(now) && AtMost(now, target)
  {
    assert forall i :: 0 <= i <= n ==> was[i] <= was[n];
  }

  /** One more length is cut; the excess grows by the difference. */
  lemma CutOne(nb: seq<nat>, target: nat, largest: nat, n: nat, cost: nat)
    requires AtMost(nb, largest) && n < |nb| && target < nb[n]
    requires Kraft(nb, largest) == Pow2(largest) + cost
    ensures AtMost(nb[n := target], largest)
    ensures Kraft(nb[n := target], largest) == Pow2(largest) + cost + Pow2(largest - target) - Pow2(largest - nb[n])
    ensures 0 < Pow2(largest - nb[n]) < Pow2(largest - target)
  {
    KraftUpdate(nb, largest, n, target);
    CutCost(largest, target, nb[n]);
  }

  lemma CutBudget(unit: nat, cut: nat)
    ensures unit * (cut + 1) == unit * cut + unit
  {
  }

  /** The state of the cutting loop: `cost` is the excess of the Kraft sum, in units of 2^-largest. */
  ghost predicate Cutting(was: seq<nat>, nb: seq<nat>, target: nat, more: nat, n: int, cost: nat) {
    && -1 <= n < |was|
    && CutFrom(was, nb, target, n)
    && AtMost(nb, target + more)
    && Kraft(nb, target + more) == Pow2(target + more) + cost
    && cost + (|was| - 1 - n) <= Pow2(more) * (|was| - 1 - n)
    && (n < |was| - 1 ==> cost > 0)
  }

  lemma CutStep(was: seq<nat>, nb: seq<nat>, target: nat, more: nat, n: nat, cost: nat, next: nat)
    requires Cutting(was, nb, target, more, n, cost) && nb[n] > target
    requires next == cost + (Pow2(more) - Pow2(target + more - nb[n]))
    ensures Cutting(was, nb[n := target], target, more, n - 1, next)
  {
    CutOne(nb, target, target + more, n, cost);
    assert target + more - target == more;
    CutBudget(Pow2(more), |was| - 1 - n);
  }

  lemma CutLeaves(was: seq<nat>, nb: seq<nat>, target: nat, more: nat, n: int, cost: nat)
    requires Cutting(was, nb, target, more, n, cost) && |was| <= Pow2(target) && n < |was| - 1
    ensures n >= 0
    ensures exists i :: 0 <= i <= n && nb[i] != target
  {
    CutSomeLeft(nb, target, more);
  }

  /** A complete code with a word that is not empty has another one. */
  lemma MoreThanOne(was: seq<nat>, top: nat)
    requires was != [] && AtMost(was, top) && Kraft(was, top) == Pow2(top) && top > 0 && was[|was| - 1] == top
    ensures |was| >= 2
  {
    if |was| == 1 {
      assert Kraft(was[..0], top) == 0;
      Pow2Monotone(0, top);
    }
  }

  lemma BaseFits(target: nat, more: nat, size: nat)
    requires 2 <= size <= Pow2(target)
    ensures Pow2(more) < Pow2(target + more)
  {
    Pow2Add(target, more);
    Product(2, Pow2(target), Pow2(more));
  }

  /** The excess stays below the size of the uncut code. */
  lemma CutPeak(was: seq<nat>, nb: seq<nat>, target: nat, more: nat, n: int, cost: nat)
    requires Cutting(was, nb, target, more, n, cost) && |was| <= Pow2(target) && n < |was| - 1
    ensures cost < Pow2(target + more)
  {
    hide Kraft, AtMost, CutFrom;
    var cut := |was| - 1 - n;
    Pow2Add(target, more);
    Product(cut, Pow2(target), Pow2(more));
    assert Pow2(more) * cut == cut * Pow2(more);
  }

  /** Cut every length above `target`, from the rarest symbol down. The greatest value computed is `peak`. */
  method CutLong(nbBits: array<nat>, lastNonNull: nat, target: nat, ghost was: seq<nat>)
    returns (cost: nat, n: nat, ghost peak: nat)
    requires lastNonNull < nbBits.Length && lastNonNull + 1 <= Pow2(target)
    requires was == nbBits[..lastNonNull + 1]
    requires target < nbBits[lastNonNull] && AtMost(was, nbBits[lastNonNull])
    requires Kraft(was, nbBits[lastNonNull]) == Pow2(nbBits[lastNonNull])
    modifies nbBits
    ensures forall i :: lastNonNull < i < nbBits.Length ==> nbBits[i] == old(nbBits[i])
    ensures Cutting(was, nbBits[..lastNonNull + 1], target, old(nbBits[lastNonNull]) - target, n, cost)
    ensures n < lastNonNull && nbBits[n] <= target
    ensures Pow2(old(nbBits[lastNonNull]) - target) <= peak < Pow2(old(nbBits[lastNonNull])) && cost <= peak
  {
    hide Kraft, Pow2;
    var largestBits := nbBits[lastNonNull];
    var baseCost := Pow2(largestBits - target);
    ghost var len, more := lastNonNull + 1, largestBits - target;
    cost := 0;
    n := lastNonNull;
    peak := baseCost;
    MoreThanOne(was, largestBits);
    BaseFits(target, more, len);
    while nbBits[n] > target
      invariant cost <= peak && baseCost <= peak < Pow2(largestBits)
      invariant n <= lastNonNull && Cutting(was, nbBits[..len], target, more, n, cost)
      invariant forall i :: lastNonNull < i < nbBits.Length ==> nbBits[i] == old(nbBits[i])
      decreases n
    {
      ghost var nb := nbBits[..len];
      var next := cost + (baseCost - Pow2(largestBits - nbBits[n]));
      assert 0 <= next by {
        CutOne(nb, target, largestBits, n, cost);
      }
      CutStep(was, nb, target, more, n, cost, next);
      cost := next;
      CutPeak(was, nb[n := target], target, more, n - 1, cost);
      peak := if peak < cost then cost else peak;
      nbBits[n] := target;
      assert nbBits[..len] == nb[n := target];
      CutLeaves(was, nbBits[..len], target, more, n - 1, cost);
      n := n - 1;
    }
  }

  lemma CutDone(was: seq<nat>, nb: seq<nat>, target: nat, more: nat, n: nat, cost: nat)
    requires Monotone(was) && |was| <= Pow2(target)
    requires Cutting(was, nb, target, more, n, cost) && n < |was| - 1 && nb[n] <= target
    ensures Monotone(nb) && AtMost(nb, target)
    ensures Kraft(nb, target) == Pow2(target) + cost / Pow2(more)
    ensures 0 < cost / Pow2(more) < Count(nb, target)
    ensures forall i :: 0 <= i < |was| ==> nb[i] == if was[i] > target then target else was[i]
    ensures exists i :: 0 <= i <= n && nb[i] != target
  {
    CutKeepsOrder(was, nb, target, n);
    Renormalise(nb, target, more, cost, |was| - 1 - n);
    CountTail(nb, target, n + 1);
    CutLeaves(was, nb, target, more, n, cost);
  }

  /** The last symbol at or before `start` whose length differs from `target`. */
  method LastShorter(nbBits: array<nat>, start: nat, target: nat) returns (n: nat)
    requires start < nbBits.Length && exists i :: 0 <= i <= start && nbBits[i] != target
    ensures n <= start && nbBits[n] != target
    ensures forall i :: n < i <= start ==> nbBits[i] == target
  {
    n := start;
    while nbBits[n] == target
      invariant n <= start
      invariant forall i :: n < i <= start ==> nbBits[i] == target
      decreases n
    {
      n := n - 1;
    }
  }

  lemma Divided(x: nat, p: nat)
    requires p > 0
    ensures x / p <= x
  {
    Product(1, p, x / p);
    assert x == x / p * p + x % p && p * (x / p) == x / p * p && 1 * (x / p) == x / p;
  }

  /** Cut every length above `target`. Returned is the excess of the Kraft sum over 2^target, and the last symbol
      shorter than `target`. */
  method CutLengths(nbBits: array<nat>, lastNonNull: nat, target: nat, ghost was: seq<nat>)
    returns (totalCost: nat, n: nat, ghost peak: nat)
    requires lastNonNull < nbBits.Length && lastNonNull + 1 <= Pow2(target)
    requires was == nbBits[..lastNonNull + 1]
    requires target < nbBits[lastNonNull] && AtMost(was, nbBits[lastNonNull]) && Monotone(was)
    requires Kraft(was, nbBits[lastNonNull]) == Pow2(nbBits[lastNonNull])
    modifies nbBits
    ensures forall i :: lastNonNull < i < nbBits.Length ==> nbBits[i] == old(nbBits[i])
    ensures Monotone(nbBits[..lastNonNull + 1]) && AtMost(nbBits[..lastNonNull + 1], target)
    ensures Kraft(nbBits[..lastNonNull + 1], target) == Pow2(target) + totalCost
    ensures 0 < totalCost < Count(nbBits[..lastNonNull + 1], target)
    ensures n < lastNonNull && nbBits[n] < target
    ensures forall i :: n < i <= lastNonNull ==> nbBits[i] == target
    ensures forall i :: 0 <= i <= lastNonNull ==> nbBits[i] == if was[i] > target then target else was[i]
    ensures Pow2(old(nbBits[lastNonNull]) - target) <= peak < Pow2(old(nbBits[lastNonNull])) && totalCost <= peak
  {
    hide Kraft, Pow2;
    ghost var more := nbBits[lastNonNull] - target;
    var baseCost := Pow2(nbBits[lastNonNull] - target);
    var cost;
    cost, n, peak := CutLong(nbBits, lastNonNull, target, was);
    ghost var nb := nbBits[..lastNonNull + 1];
    CutDone(was, nb, target, more, n, cost);
    assert exists i :: 0 <= i <= n && nbBits[i] != target by {
      ghost var i :| 0 <= i <= n && nb[i] != target;
      assert nbBits[i] != target;
    }
    n := LastShorter(nbBits, n, target);
    assert nb[n] != target;
    totalCost := cost / baseCost;
    Divided(cost, baseCost);
  }

  // ----- The last symbol of each rank -----

  /** Rank r is the symbols r bits shorter than `target`. `last` is the last one, among those from `from` on. */
  ghost predicate RankIs(nb: seq<nat>, target: nat, r: nat, last: nat, from: nat) {
    if last == NO_SYMBOL then
      forall i :: from <= i < |nb| ==> nb[i] + r != target
    else
      from <= last < |nb| && nb[last] + r == target && forall i :: last < i < |nb| ==> nb[i] + r > target
  }

  ghost predicate RanksFrom(nb: seq<nat>, target: nat, rank: seq<nat>, from: nat) {
    |rank| == TABLELOG_MAX + 2 && forall r :: 1 <= r <= TABLELOG_MAX + 1 ==> RankIs(nb, target, r, rank[r], from)
  }

  ghost predicate Ranks(nb: seq<nat>, target: nat, rank: seq<nat>) {
    RanksFrom(nb, target, rank, 0)
  }

  lemma RankStep(nb: seq<nat>, target: nat, rank: seq<nat>, pos: nat, now: seq<nat>)
    requires Monotone(nb) && AtMost(nb, target) && target <= TABLELOG_MAX && pos + 1 < |nb| < NO_SYMBOL
    requires RanksFrom(nb, target, rank, pos + 1)
    requires now == if nb[pos] >= nb[pos + 1] then rank else rank[target - nb[pos] := pos]
    ensures RanksFrom(nb, target, now, pos)
  {
    forall r | 1 <= r <= TABLELOG_MAX + 1 ensures RankIs(nb, target, r, now[r], pos) {
      assert RankIs(nb, target, r, rank[r], pos + 1);
    }
  }

  method IndexRanks(nbBits: array<nat>, lastNonNull: nat, target: nat, n: nat) returns (rankLast: array<nat>)
    requires n < lastNonNull < nbBits.Length && lastNonNull + 1 < NO_SYMBOL && target <= TABLELOG_MAX
    requires Monotone(nbBits[..lastNonNull + 1]) && AtMost(nbBits[..lastNonNull + 1], target)
    requires forall i :: n < i <= lastNonNull ==> nbBits[i] == target
    ensures fresh(rankLast) && Ranks(nbBits[..lastNonNull + 1], target, rankLast[..])
  {
    rankLast := new nat[TABLELOG_MAX + 2](i => NO_SYMBOL);
    ghost var nb := nbBits[..lastNonNull + 1];
    var currentNbBits := target;
    var pos: int := n;
    while pos >= 0
      invariant -1 <= pos <= n && currentNbBits == nb[pos + 1] && nb == nbBits[..lastNonNull + 1]
      invariant RanksFrom(nb, target, rankLast[..], pos + 1)
    {
      ghost var rank := rankLast[..];
      assert nb[pos] == nbBits[pos];
      if nbBits[pos] < currentNbBits {
        currentNbBits := nbBits[pos];
        rankLast[target - currentNbBits] := pos;
      }
      RankStep(nb, target, rank, pos, rankLast[..]);
      pos := pos - 1;
    }
  }

  // ----- Repaying the excess -----

  /** `cost` is what the code exceeds (or, negative, falls short of) a complete one by. There are always more symbols of
      the full length than units to repay, in either direction. */
  ghost predicate Owing(nb: seq<nat>, target: nat, cost: int) {
    && Monotone(nb) && AtMost(nb, target)
    && Kraft(nb, target) == Pow2(target) + cost
    && Count(nb, target) > cost && Count(nb, target) > -cost
  }

  /** The rank to take a symbol from: one that does not overshoot, or else the lowest with any symbol. */
  ghost predicate Chosen(rank: seq<nat>, cost: nat, k: nat)
    requires |rank| == TABLELOG_MAX + 2
  {
    && 1 <= k <= TABLELOG_MAX && rank[k] != NO_SYMBOL
    && (Pow2(k - 1) <= cost || forall r :: 1 <= r < k ==> rank[r] == NO_SYMBOL)
  }

  /** The last symbol of a rank costs no more to lengthen than the last two of the rank below, if that has any. */
  ghost predicate NotDearer(counts: seq<nat>, rank: seq<nat>, k: nat)
    requires |rank| == TABLELOG_MAX + 2 && 1 < k <= TABLELOG_MAX
    requires forall r :: 1 <= r <= TABLELOG_MAX ==> rank[r] == NO_SYMBOL || rank[r] < |counts|
  {
    rank[k] != NO_SYMBOL && (rank[k - 1] == NO_SYMBOL || counts[rank[k]] <= 2 * counts[rank[k - 1]])
  }

  /** A symbol of rank k repays no more than is owed. */
  ghost predicate Owed(cost: nat, k: nat)
    requires k > 0
  {
    Pow2(k - 1) <= cost
  }

  /** The rank is the highest above 1 that does not repay too much and is not dearer than the one below; if there is
      none, the lowest with any symbol. */
  ghost predicate Preferred(counts: seq<nat>, rank: seq<nat>, cost: nat, k: nat)
    requires |rank| == TABLELOG_MAX + 2
    requires forall r :: 1 <= r <= TABLELOG_MAX ==> rank[r] == NO_SYMBOL || rank[r] < |counts|
  {
    && 1 <= k <= TABLELOG_MAX && rank[k] != NO_SYMBOL
    && if exists r :: 1 < r <= TABLELOG_MAX && Owed(cost, r) && NotDearer(counts, rank, r)
       then k > 1 && Owed(cost, k) && NotDearer(counts, rank, k)
         && forall r :: k < r <= TABLELOG_MAX && Owed(cost, r) ==> !NotDearer(counts, rank, r)
       else forall r :: 1 <= r < k ==> rank[r] == NO_SYMBOL
  }

  lemma SomeRank(nb: seq<nat>, target: nat, rank: seq<nat>, cost: nat)
    requires Owing(nb, target, cost) && cost > 0 && Ranks(nb, target, rank)
    requires |nb| <= Pow2(target) && target <= TABLELOG_MAX
    ensures exists r :: 1 <= r <= TABLELOG_MAX && rank[r] != NO_SYMBOL
  {
    SomeShorter(nb, target);
    var i :| 0 <= i < |nb| && nb[i] < target;
    var r := target - nb[i];
    assert RankIs(nb, target, r, rank[r], 0);
  }

  lemma CostFits(cost: nat, bits: nat)
    requires 0 < cost < Pow2(bits)
    ensures HighBit(cost) < bits
  {
    if bits <= HighBit(cost) {
      Pow2Monotone(bits, HighBit(cost));
    }
  }

  method ChooseRank(counts: seq<nat>, rankLast: array<nat>, totalCost: nat) returns (nBitsToDecrease: nat)
    requires rankLast.Length == TABLELOG_MAX + 2 && 0 < totalCost && HighBit(totalCost) < TABLELOG_MAX
    requires forall r :: 1 <= r <= TABLELOG_MAX ==> rankLast[r] == NO_SYMBOL || rankLast[r] < |counts|
    requires exists r :: 1 <= r <= TABLELOG_MAX && rankLast[r] != NO_SYMBOL
    ensures Chosen(rankLast[..], totalCost, nBitsToDecrease)
    ensures Preferred(counts, rankLast[..], totalCost, nBitsToDecrease)
  {
    hide HighBit;
    nBitsToDecrease := HighBit(totalCost) + 1;
    ghost var top := nBitsToDecrease;
    while nBitsToDecrease > 1
      invariant 1 <= nBitsToDecrease <= top
      invariant forall r :: nBitsToDecrease < r <= top ==> !NotDearer(counts, rankLast[..], r)
    {
      var highPos, lowPos := rankLast[nBitsToDecrease], rankLast[nBitsToDecrease - 1];
      if highPos != NO_SYMBOL {
        if lowPos == NO_SYMBOL { break; }
        if counts[highPos] <= 2 * counts[lowPos] { break; }
      }
      nBitsToDecrease := nBitsToDecrease - 1;
    }
    ghost var start := nBitsToDecrease;
    assert Pow2(start - 1) <= totalCost by {
      Pow2Monotone(start - 1, HighBit(totalCost));
    }
    assert rankLast[start] != NO_SYMBOL || start == 1;
    assert start == 1 || NotDearer(counts, rankLast[..], start);
    forall r | 1 <= r && Owed(totalCost, r) ensures r <= top {
      if r > top {
        Pow2Monotone(top, r - 1);
      }
    }
    while nBitsToDecrease <= TABLELOG_MAX && rankLast[nBitsToDecrease] == NO_SYMBOL
      invariant start <= nBitsToDecrease <= TABLELOG_MAX
      invariant forall r :: start <= r < nBitsToDecrease ==> rankLast[r] == NO_SYMBOL
      decreases TABLELOG_MAX - nBitsToDecrease
    {
      nBitsToDecrease := nBitsToDecrease + 1;
    }
  }

  lemma ModuloGap(count: nat, cost: nat, p: nat, x: int, q: int)
    requires count + p * x == p * q + cost && count > cost && p > 0
    ensures count >= cost + p
  {
    assert p * q == p * x + p * (q - x) by {
      MultipleStep(p, x, q - x);
    }
    if q - x <= 0 {
      Product(q - x, 0, p);
    } else {
      Product(1, q - x, p);
    }
  }

  lemma Power(target: nat, k: nat)
    requires k <= target
    ensures Pow2(target) == Pow2(k) * Pow2(target - k)
  {
    Pow2Add(k, target - k);
  }

  /** When every rank from 1 to k - 1 is empty, the symbols of full length exceed the cost by at least 2^k. */
  lemma EnoughLeft(nb: seq<nat>, target: nat, rank: seq<nat>, cost: nat, k: nat)
    requires Owing(nb, target, cost) && Ranks(nb, target, rank) && target <= TABLELOG_MAX
    requires 1 <= k <= target && forall r :: 1 <= r < k ==> rank[r] == NO_SYMBOL
    ensures Count(nb, target) >= cost + Pow2(k)
  {
    forall i | 0 <= i < |nb| ensures nb[i] == target || nb[i] + k <= target {
      if nb[i] != target {
        assert RankIs(nb, target, target - nb[i], rank[target - nb[i]], 0);
      }
    }
    var x := KraftModulo(nb, target, k);
    Power(target, k);
    ModuloGap(Count(nb, target), cost, Pow2(k), x, Pow2(target - k));
  }

  lemma MonotoneRaise(nb: seq<nat>, p: nat)
    requires Monotone(nb) && p < |nb| && forall i :: p < i < |nb| ==> nb[i] > nb[p]
    ensures Monotone(nb[p := nb[p] + 1])
  {
  }

  /** One symbol of rank k gets one bit longer. */
  lemma RepayOwing(nb: seq<nat>, target: nat, rank: seq<nat>, cost: nat, k: nat)
    requires Owing(nb, target, cost) && Ranks(nb, target, rank) && target <= TABLELOG_MAX
    requires Chosen(rank, cost, k) && cost > 0
    ensures rank[k] < |nb| && nb[rank[k]] + k == target
    ensures Owing(nb[rank[k] := nb[rank[k]] + 1], target, cost - Pow2(k - 1))
    ensures cost < Pow2(k - 1) ==> nb[0] + 1 < target
  {
    hide Kraft, Count;
    var p := rank[k];
    assert RankIs(nb, target, k, p, 0);
    MonotoneRaise(nb, p);
    KraftUpdate(nb, target, p, nb[p] + 1);
    CountUpdate(nb, p, nb[p] + 1, target);
    assert Pow2(target - nb[p]) == 2 * Pow2(k - 1);
    if cost < Pow2(k - 1) {
      assert k > 1;
      EnoughLeft(nb, target, rank, cost, k);
    }
  }

  /** The ranks after a symbol of rank k became one of rank k - 1. */
  ghost function MovedRanks(nb: seq<nat>, target: nat, rank: seq<nat>, k: nat): seq<nat>
    requires |rank| == TABLELOG_MAX + 2 && 1 <= k <= TABLELOG_MAX && k <= target && rank[k] < |nb|
  {
    var raised := if rank[k - 1] == NO_SYMBOL then rank[k - 1 := rank[k]] else rank;
    raised[k := if rank[k] > 0 && nb[rank[k] - 1] == target - k then rank[k] - 1 else NO_SYMBOL]
  }

  lemma RepayRanks(nb: seq<nat>, target: nat, rank: seq<nat>, k: nat)
    requires Monotone(nb) && AtMost(nb, target) && Ranks(nb, target, rank)
    requires 1 <= k <= TABLELOG_MAX && k <= target && |nb| < NO_SYMBOL && rank[k] != NO_SYMBOL
    ensures rank[k] < |nb| && nb[rank[k]] + k == target
    ensures Ranks(nb[rank[k] := nb[rank[k]] + 1], target, MovedRanks(nb, target, rank, k))
  {
    var p := rank[k];
    assert RankIs(nb, target, k, p, 0);
    var now := nb[p := nb[p] + 1];
    var moved := MovedRanks(nb, target, rank, k);
    forall r | 1 <= r <= TABLELOG_MAX + 1 ensures RankIs(now, target, r, moved[r], 0) {
      assert RankIs(nb, target, r, rank[r], 0);
    }
  }

  /** Lengthen one symbol of rank k, and update the last symbols of the two ranks concerned. */
  method Lengthen(nbBits: array<nat>, lastNonNull: nat, target: nat, rankLast: array<nat>, k: nat)
    requires nbBits != rankLast && lastNonNull < nbBits.Length && lastNonNull + 1 < NO_SYMBOL
    requires rankLast.Length == TABLELOG_MAX + 2 && 1 <= k <= TABLELOG_MAX && k <= target
    requires rankLast[k] <= lastNonNull && nbBits[rankLast[k]] + k == target
    modifies nbBits, rankLast
    ensures nbBits[..] == old(nbBits[..][rankLast[k] := nbBits[rankLast[k]] + 1])
    ensures rankLast[..] == MovedRanks(old(nbBits[..lastNonNull + 1]), target, old(rankLast[..]), k)
  {
    ghost var nb, rank := nbBits[..lastNonNull + 1], rankLast[..];
    nbBits[rankLast[k]] := nbBits[rankLast[k]] + 1;
    if rankLast[k - 1] == NO_SYMBOL {
      rankLast[k - 1] := rankLast[k];
    }
    if rankLast[k] == 0 {
      rankLast[k] := NO_SYMBOL;
    } else {
      rankLast[k] := rankLast[k] - 1;
      assert nb[rankLast[k]] == nbBits[rankLast[k]];
      if nbBits[rankLast[k]] != target - k {
        rankLast[k] := NO_SYMBOL;
      }
    }
  }

  lemma Choosable(nb: seq<nat>, target: nat, rank: seq<nat>, cost: nat)
    requires Owing(nb, target, cost) && cost > 0 && Ranks(nb, target, rank)
    requires |nb| <= Pow2(target) && target <= TABLELOG_MAX
    ensures HighBit(cost) < TABLELOG_MAX
    ensures exists r :: 1 <= r <= TABLELOG_MAX && rank[r] != NO_SYMBOL
    ensures forall r :: 1 <= r <= TABLELOG_MAX ==> rank[r] == NO_SYMBOL || rank[r] < |nb|
  {
    SomeRank(nb, target, rank, cost);
    KraftCounts(nb, target);
    CostFits(cost, target);
    forall r | 1 <= r <= TABLELOG_MAX ensures rank[r] == NO_SYMBOL || rank[r] < |nb| {
      assert RankIs(nb, target, r, rank[r], 0);
    }
  }

  /** The state of the repaying loop. No symbol after `n` is shorter than `target`. */
  ghost predicate Repaying(nb: seq<nat>, target: nat, cost: int, rank: seq<nat>, n: nat) {
    && Owing(nb, target, cost)
    && Ranks(nb, target, rank)
    && (cost < 0 ==> |nb| > 0 && nb[0] < target)
    && (forall i :: n < i < |nb| ==> nb[i] == target)
  }

  lemma RepayStep(nb: seq<nat>, target: nat, cost: nat, rank: seq<nat>, n: nat, k: nat)
    requires Repaying(nb, target, cost, rank, n) && target <= TABLELOG_MAX && |nb| < NO_SYMBOL
    requires Chosen(rank, cost, k) && cost > 0
    ensures k <= target && rank[k] < |nb| && nb[rank[k]] + k == target
    ensures Repaying(nb[rank[k] := nb[rank[k]] + 1], target, cost - Pow2(k - 1), MovedRanks(nb, target, rank, k), n)
  {
    RepayOwing(nb, target, rank, cost, k);
    RepayRanks(nb, target, rank, k);
  }

  /** One symbol is lengthened, the last one of the preferred rank. */
  method RepayOne(nbBits: array<nat>, counts: seq<nat>, lastNonNull: nat, target: nat, rankLast: array<nat>,
                  cost: nat, ghost n: nat)
    returns (totalCost: int, ghost k: nat)
    requires nbBits != rankLast && lastNonNull < nbBits.Length && lastNonNull + 1 < NO_SYMBOL
    requires lastNonNull + 1 <= Pow2(target) && target <= TABLELOG_MAX && lastNonNull < |counts| && cost > 0
    requires Repaying(nbBits[..lastNonNull + 1], target, cost, rankLast[..], n)
    modifies nbBits, rankLast
    ensures totalCost < cost && Repaying(nbBits[..lastNonNull + 1], target, totalCost, rankLast[..], n)
    ensures forall r :: 1 <= r <= TABLELOG_MAX ==> old(rankLast[r]) == NO_SYMBOL || old(rankLast[r]) < |counts|
    ensures Preferred(counts, old(rankLast[..]), cost, k) && totalCost == cost - Pow2(k - 1)
    ensures old(rankLast[k]) < nbBits.Length
    ensures nbBits[..] == old(nbBits[..][rankLast[k] := nbBits[rankLast[k]] + 1])
  {
    ghost var nb, rank := nbBits[..lastNonNull + 1], rankLast[..];
    Choosable(nb, target, rank, cost);
    var nBitsToDecrease := ChooseRank(counts, rankLast, cost);
    k := nBitsToDecrease;
    RepayStep(nb, target, cost, rank, n, k);
    Lengthen(nbBits, lastNonNull, target, rankLast, nBitsToDecrease);
    assert nbBits[..lastNonNull + 1] == nb[rank[k] := nb[rank[k]] + 1];
    totalCost := cost - Pow2(nBitsToDecrease - 1);
  }

  /** While the code exceeds a complete one, lengthen symbols. */
  method RepayExcess(nbBits: array<nat>, counts: seq<nat>, lastNonNull: nat, target: nat, rankLast: array<nat>,
                     excess: nat, ghost n: nat)
    returns (totalCost: int)
    requires nbBits != rankLast && lastNonNull < nbBits.Length && lastNonNull + 1 < NO_SYMBOL
    requires lastNonNull + 1 <= Pow2(target) && target <= TABLELOG_MAX && lastNonNull < |counts|
    requires Repaying(nbBits[..lastNonNull + 1], target, excess, rankLast[..], n)
    modifies nbBits, rankLast
    ensures totalCost <= 0 && Repaying(nbBits[..lastNonNull + 1], target, totalCost, rankLast[..], n)
    ensures forall i :: lastNonNull < i < nbBits.Length ==> nbBits[i] == old(nbBits[i])
  {
    totalCost := excess;
    while totalCost > 0
      invariant Repaying(nbBits[..lastNonNull + 1], target, totalCost, rankLast[..], n)
      invariant forall i :: lastNonNull < i < nbBits.Length ==> nbBits[i] == old(nbBits[i])
    {
      ghost var k;
      totalCost, k := RepayOne(nbBits, counts, lastNonNull, target, rankLast, totalCost, n);
    }
  }

  // ----- Giving back what was repaid too much -----

  lemma FullRange(nb: seq<nat>, target: nat, last: nat)
    requires Monotone(nb) && AtMost(nb, target) && last < |nb| && nb[last] < target && Count(nb, target) > 0
    ensures last + 1 < |nb|
    ensures nb[|nb| - 1] == target
  {
    CountPositive(nb, target);
  }

  /** One symbol of full length, the first one, gets one bit shorter. */
  lemma ShortenFirst(nb: seq<nat>, target: nat, cost: int, q: nat)
    requires Owing(nb, target, cost) && cost < 0
    requires 0 < q < |nb| && nb[q] == target && nb[q - 1] < target
    ensures Owing(nb[q := target - 1], target, cost + 1)
  {
    var now := nb[q := target - 1];
    KraftUpdate(nb, target, q, target - 1);
    assert Pow2(target - nb[q]) == 1 && Pow2(target - (target - 1)) == 2;
    var less: nat := target - 1;
    CountUpdate(nb, q, less, target);
    assert Count(now, target) == Count(nb, target) - 1;
    assert Monotone(now) by {
      assert forall i :: 0 <= i < q ==> nb[i] <= nb[q - 1];
      assert forall i :: q <= i < |nb| ==> nb[q] <= nb[i] <= target;
    }
  }

  /** The state of the loop that gives back: `one` is the last symbol of rank 1, if there is any. */
  ghost predicate Giving(nb: seq<nat>, target: nat, cost: int, one: nat, n: nat) {
    && Owing(nb, target, cost)
    && (cost < 0 ==> |nb| > 0 && nb[0] < target)
    && RankIs(nb, target, 1, one, 0)
    && (one == NO_SYMBOL ==> n + 1 < |nb| && forall i :: n < i < |nb| ==> nb[i] == target)
  }

  lemma GiveStep(nb: seq<nat>, target: nat, cost: int, one: nat, n: nat, q: nat)
    requires Giving(nb, target, cost, one, n) && cost < 0 && |nb| < NO_SYMBOL
    requires 0 < q < |nb| && nb[q] == target && nb[q - 1] < target
    ensures Giving(nb[q := target - 1], target, cost + 1, q, n)
  {
    ShortenFirst(nb, target, cost, q);
    assert forall i :: q < i < |nb| ==> nb[q] <= nb[i];
  }

  lemma AfterRankOne(nb: seq<nat>, target: nat, cost: int, one: nat, n: nat)
    requires Giving(nb, target, cost, one, n) && cost < 0 && one != NO_SYMBOL
    ensures one + 1 < |nb| && nb[one + 1] == target && nb[one] < target
  {
    FullRange(nb, target, one);
  }

  lemma NewRankOne(nb: seq<nat>, target: nat, n: nat)
    requires AtMost(nb, target) && Monotone(nb) && Count(nb, target) > 0
    requires n < |nb| && nb[n] != target && forall i :: n < i < |nb| ==> nb[i] == target
    ensures n + 1 < |nb| && nb[n + 1] == target && nb[n] < target
  {
    FullRange(nb, target, n);
  }

  /** The symbol to shorten: the one after rank 1, or with rank 1 empty the first of the full length. */
  method NextFull(nbBits: array<nat>, target: nat, one: nat, last: nat, ghost nb: seq<nat>, ghost cost: int)
    returns (n: nat, q: nat)
    requires nb <= nbBits[..] && Giving(nb, target, cost, one, last) && cost < 0
    ensures 0 < q < |nb| && nb[q] == target && nb[q - 1] < target
    ensures Giving(nb, target, cost, one, n)
  {
    n := last;
    if one == NO_SYMBOL {
      assert nbBits[0] == nb[0];
      assert forall i :: n < i < |nb| ==> nb[i] == target;
      n := LastShorter(nbBits, n, target);
      assert nbBits[n] == nb[n];
      assert forall i :: n < i <= last ==> nb[i] == nbBits[i];
      NewRankOne(nb, target, n);
      q := n + 1;
    } else {
      AfterRankOne(nb, target, cost, one, last);
      q := one + 1;
    }
  }

  method GiveBack(nbBits: array<nat>, lastNonNull: nat, target: nat, rankLast: array<nat>, owed: int, last: nat)
    requires nbBits != rankLast && lastNonNull < nbBits.Length && lastNonNull + 1 < NO_SYMBOL
    requires rankLast.Length == TABLELOG_MAX + 2 && owed <= 0
    requires Giving(nbBits[..lastNonNull + 1], target, owed, rankLast[1], last)
    modifies nbBits, rankLast
    ensures Owing(nbBits[..lastNonNull + 1], target, 0)
    ensures forall i :: lastNonNull < i < nbBits.Length ==> nbBits[i] == old(nbBits[i])
  {
    var totalCost, n := owed, last;
    while totalCost < 0
      invariant totalCost <= 0 && Giving(nbBits[..lastNonNull + 1], target, totalCost, rankLast[1], n)
      invariant forall i :: lastNonNull < i < nbBits.Length ==> nbBits[i] == old(nbBits[i])
    {
      ghost var nb := nbBits[..lastNonNull + 1];
      var q;
      n, q := NextFull(nbBits, target, rankLast[1], n, nb, totalCost);
      GiveStep(nb, target, totalCost, rankLast[1], n, q);
      nbBits[q] := nbBits[q] - 1;
      rankLast[1] := q;
      totalCost := totalCost + 1;
      assert nb[q - 1] < target && nbBits[..lastNonNull + 1] == nb[q := target - 1];
    }
  }

  lemma Complete(nb: seq<nat>, target: nat)
    requires Owing(nb, target, 0)
    ensures |nb| > 0 && nb[|nb| - 1] == target
  {
    CountPositive(nb, target);
    var i :| 0 <= i < |nb| && nb[i] == target;
    assert nb[i] <= nb[|nb| - 1];
  }

  /** The lengths of a complete code, from the most frequent symbol to the rarest, whose longest is `top`. */
  ghost predicate CompleteCode(nb: seq<nat>, top: nat) {
    |nb| > 0 && nb[|nb| - 1] == top && Monotone(nb) && AtMost(nb, top) && Kraft(nb, top) == Pow2(top)
  }

  /** Limit the lengths of a complete code to `target`. With at most 2^target symbols the result is again a complete
      code, its lengths still in order, its longest the returned one; a code that fits already is not changed. No cost
      computed on the way, of which `peak` is the greatest, reaches 2 to the power of the height before. */
  method SetMaxHeight(nbBits: array<nat>, counts: seq<nat>, lastNonNull: nat, target: nat)
    returns (maxNbBits: nat, ghost peak: nat)
    requires lastNonNull < nbBits.Length && lastNonNull <= SYMBOLVALUE_MAX && lastNonNull < |counts|
    requires target <= TABLELOG_MAX && lastNonNull + 1 <= Pow2(target)
    requires CompleteCode(nbBits[..lastNonNull + 1], nbBits[lastNonNull])
    modifies nbBits
    ensures maxNbBits == if old(nbBits[lastNonNull]) <= target then old(nbBits[lastNonNull]) else target
    ensures CompleteCode(nbBits[..lastNonNull + 1], maxNbBits)
    ensures old(nbBits[lastNonNull]) <= target ==> nbBits[..] == old(nbBits[..])
    ensures forall i :: lastNonNull < i < nbBits.Length ==> nbBits[i] == old(nbBits[i])
    ensures peak < Pow2(old(nbBits[lastNonNull]))
  {
    hide Kraft, Pow2;
    if nbBits[lastNonNull] <= target {
      return nbBits[lastNonNull], 0;
    }
    var excess, n;
    excess, n, peak := CutLengths(nbBits, lastNonNull, target, nbBits[..lastNonNull + 1]);
    var rankLast := IndexRanks(nbBits, lastNonNull, target, n);
    var totalCost := RepayExcess(nbBits, counts, lastNonNull, target, rankLast, excess, n);
    assert RankIs(nbBits[..lastNonNull + 1], target, 1, rankLast[..][1], 0);
    GiveBack(nbBits, lastNonNull, target, rankLast, totalCost, n);
    Complete(nbBits[..lastNonNull + 1], target);
    maxNbBits := target;
  }
}
