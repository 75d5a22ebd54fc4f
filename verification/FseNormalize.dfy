/** Normalising a histogram: the symbols share the states of the table, in about the proportion of their counts. */
module FseNormalize {
  import opened Pow2Lemmas
  import opened BitArithmetic
  import opened FseNorm
  import opened FseShares

  const DEFAULT_TABLELOG := 11
  const NOT_YET_ASSIGNED := -2

  datatype Outcome = Done(tableLog: nat) | SingleSymbol | Failed | TableLogTooLarge

  // ----- Sums -----

  ghost function Sum(s: seq<nat>): nat
    decreases |s|
  {
    if s == [] then 0 else Sum(s[..|s| - 1]) + s[|s| - 1]
  }

  /** The states given to a symbol so far. */
  function Given(v: int): nat {
    if v == NOT_YET_ASSIGNED then 0 else if v == -1 then 1 else if v > 0 then v else 0
  }

  ghost function GivenAll(norm: seq<int>): nat
    decreases |norm|
  {
    if norm == [] then 0 else GivenAll(norm[..|norm| - 1]) + Given(norm[|norm| - 1])
  }

  lemma {:induction false} GivenUpdate(norm: seq<int>, i: nat, v: int)
    requires i < |norm|
    ensures GivenAll(norm[i := v]) == GivenAll(norm) - Given(norm[i]) + Given(v)
    decreases |norm|
  {
    var now, front := norm[i := v], norm[..|norm| - 1];
    if i == |norm| - 1 {
      assert now[..|norm| - 1] == front;
    } else {
      assert now[..|norm| - 1] == front[i := v];
      GivenUpdate(front, i, v);
    }
  }

  lemma GivenSnoc(norm: seq<int>, s: nat)
    requires s < |norm|
    ensures GivenAll(norm[..s + 1]) == GivenAll(norm[..s]) + Given(norm[s])
  {
    assert norm[..s + 1][..s] == norm[..s];
  }

  lemma SumSnoc(s: seq<nat>, n: nat)
    requires n < |s|
    ensures Sum(s[..n + 1]) == Sum(s[..n]) + s[n]
  {
    assert s[..n + 1][..n] == s[..n];
  }

  lemma {:induction false} GivenStates(norm: seq<int>, n: nat)
    requires Counts(norm) && n <= |norm|
    ensures StatesBefore(norm, n) == GivenAll(norm[..n])
  {
    if n > 0 {
      GivenStates(norm, n - 1);
      GivenSnoc(norm, n - 1);
    }
  }

  lemma {:induction false} SumAtLeast(s: seq<nat>, i: nat)
    requires i < |s|
    ensures s[i] <= Sum(s)
    decreases |s|
  {
    if i < |s| - 1 {
      SumAtLeast(s[..|s| - 1], i);
    }
  }

  /** If no element is above the bound, the sum is not above so many times the bound. */
  lemma {:induction false} SumBound(s: seq<nat>, bound: nat)
    requires forall i :: 0 <= i < |s| ==> s[i] <= bound
    ensures Sum(s) <= |s| * bound
    decreases |s|
  {
    if s != [] {
      SumBound(s[..|s| - 1], bound);
      Distribute(|s| - 1, 1, bound);
    }
  }

  // ----- The table is large enough -----

  /** The least size of a table that all symbols are sure to fit in. */
  function MinTableLog(total: nat, maxSymbolValue: nat): nat
    requires total > 0 && maxSymbolValue > 0
  {
    var minBitsSrc, minBitsSymbols := HighBit(total) + 1, HighBit(maxSymbolValue) + 2;
    if minBitsSrc < minBitsSymbols then minBitsSrc else minBitsSymbols
  }

  ghost predicate Histogram(count: seq<nat>, total: nat) {
    2 <= |count| <= MAX_SYMBOL_VALUE + 1 && 2 <= total <= TOTAL_MAX && Sum(count) == total
  }

  /** Not all counts are low. */
  lemma SomeNotLow(count: seq<nat>, total: nat, tableLog: nat)
    requires Histogram(count, total) && tableLog >= MinTableLog(total, |count| - 1)
    ensures exists s :: 0 <= s < |count| && count[s] > ShiftRight(total, tableLog)
  {
    hide HighBit;
    var low := ShiftRight(total, tableLog);
    if forall s :: 0 <= s < |count| ==> count[s] <= low {
      SumBound(count, low);
      if tableLog >= HighBit(total) + 1 {
        Pow2Monotone(HighBit(total) + 1, tableLog);
        DivideIs(total, Pow2(tableLog), 0, total);
        assert false;
      } else {
        var m := |count| - 1;
        Pow2Monotone(HighBit(m) + 2, tableLog);
        assert 2 * |count| <= Pow2(tableLog);
        TooFew(|count|, low, Pow2(tableLog), total);
      }
    }
  }

  lemma TooFew(n: nat, low: nat, p: nat, total: nat)
    requires p > 0 && low == total / p && 2 * n <= p && total >= 1
    ensures n * low < total
  {
    assert total == low * p + total % p;
    Product(2 * n, p, low);
    Associate(2, n, low);
    assert p * low == low * p;
  }

  // ----- The first method -----

  /** 2^62 / total, in which a share of 1 / 2^tableLog is 2^(62 - tableLog). */
  lemma ShareNotZero(c: nat, total: nat, step: nat, p: nat, unit: nat)
    requires 0 < c <= total && total * total <= unit && p > 0
    requires c > total / p && step == (p * unit) / total
    ensures c * step >= unit
  {
    assert c * p >= total + 1 by {
      var q := total / p;
      assert total == q * p + total % p;
      Product(q + 1, c, p);
      Distribute(q, 1, p);
    }
    var x := p * unit;
    assert x == step * total + x % total;
    // c * x > (total + 1) * unit - ..., and c * x <= c * step * total + c * total
    ShareProduct(c, total, step, p, unit);
  }

  lemma ShareAbove(c: nat, total: nat, p: nat, unit: nat)
    requires c * p >= total + 1
    ensures total * unit + unit <= c * (p * unit)
  {
    Product(total + 1, c * p, unit);
    Distribute(total, 1, unit);
    Associate(c, p, unit);
  }

  lemma ShareBelow(c: nat, total: nat, step: nat, p: nat, unit: nat)
    requires 0 < c <= total && total * total <= unit && p * unit < step * total + total
    ensures c * (p * unit) < (c * step) * total + unit
  {
    MulLess(p * unit, step * total + total, c);
    Distribute(step * total, total, c);
    Associate(c, step, total);
    Product(c, total, total);
  }

  lemma ShareProduct(c: nat, total: nat, step: nat, p: nat, unit: nat)
    requires 0 < c <= total && total * total <= unit && c * p >= total + 1
    requires p * unit < step * total + total
    ensures c * step >= unit
  {
    ShareAbove(c, total, p, unit);
    ShareBelow(c, total, step, p, unit);
    if c * step < unit {
      Product(c * step, unit - 1, total);
      Distribute(unit, -1, total);
    }
  }

  lemma MulLess(a: nat, b: nat, c: nat)
    requires a < b && c > 0
    ensures c * a < c * b
  {
  }

  // What has to be left over for a small share to be rounded up.
  const REST_TO_BEAT: seq<nat> := [0, 473195, 504333, 520860, 550000, 700000, 750000, 830000]

  /** The share of a count that is not low: at least one state, small ones rounded up if much is left over. */
  method Share(c: nat, total: nat, step: nat, tableLog: nat) returns (proba: int)
    requires tableLog <= MAX_TABLELOG && 0 < c <= total <= TOTAL_MAX && c > ShiftRight(total, tableLog)
    requires step == Pow2(62) / total
    ensures IsShare(c, total, tableLog, proba) && proba >= 1
  {
    hide Pow2;
    var scale := 62 - tableLog;
    LargeUnit(tableLog, total);
    ShareNotZero(c, total, step, Pow2(tableLog), Pow2(scale));
    proba := ShiftRight(c * step, scale);
    AtLeastOne(c * step, Pow2(scale));
    assert c * step == proba * Pow2(scale) + (c * step) % Pow2(scale);
    if proba < 8 {
      var restToBeat := Pow2(scale - 20) * REST_TO_BEAT[proba];
      if c * step - proba * Pow2(scale) > restToBeat {
        proba := proba + 1;
      }
    }
  }

  lemma AtLeastOne(x: nat, p: nat)
    requires p > 0 && x >= p
    ensures x / p >= 1
  {
    var q := x / p;
    assert x == q * p + x % p;
    if q <= 0 {
      Product(q, 0, p);
    }
  }

  /** The counts of the first s symbols are shared out, and `still` states are left, or too many are given. */
  ghost predicate Shared(norm: seq<int>, count: seq<nat>, s: nat, still: int, tableLog: nat, low: nat) {
    && |norm| == |count| && s <= |norm|
    && GivenAll(norm[..s]) + still == Pow2(tableLog)
    && forall k :: 0 <= k < s ==>
      norm[k] >= -1 && (norm[k] == 0 <==> count[k] == 0) && (count[k] > low ==> norm[k] >= 1)
  }

  ghost predicate Largest(norm: seq<int>, count: seq<nat>, s: nat, low: nat, largest: nat, largestP: int) {
    && |norm| == |count| && s <= |norm|
    && if largestP == 0 then forall k :: 0 <= k < s ==> count[k] <= low
       else IsLargest(norm, count, s, low, largest) && norm[largest] == largestP > 0
  }

  lemma SharedStep(norm: seq<int>, count: seq<nat>, s: nat, still: int, tableLog: nat, low: nat, v: int)
    requires Shared(norm, count, s, still, tableLog, low) && s < |norm| && v >= -1
    requires (v == 0 <==> count[s] == 0) && (count[s] > low ==> v >= 1)
    ensures Shared(norm[s := v], count, s + 1, still - Given(v), tableLog, low)
  {
    var now := norm[s := v];
    assert now[..s] == norm[..s];
    GivenSnoc(now, s);
  }

  /** Share out the states; the rounding errors go to the largest share, unless they are too large for it. */
  method FirstMethod(norm: array<int>, tableLog: nat, count: seq<nat>, total: nat, lowProbCount: int)
    returns (single: bool, still: int, largest: nat)
    requires Histogram(count, total) && norm.Length == |count| && MIN_TABLELOG <= tableLog <= MAX_TABLELOG
    requires lowProbCount == 1 || lowProbCount == -1
    modifies norm
    ensures single <==> exists s :: 0 <= s < |count| && count[s] == total
    ensures !single ==> Shared(norm[..], count, |count|, still, tableLog, ShiftRight(total, tableLog))
    ensures !single ==> AreFirst(norm[..], count, |count|, total, tableLog, lowProbCount)
    ensures !single ==>
      exists largestP :: Largest(norm[..], count, |count|, ShiftRight(total, tableLog), largest, largestP)
    ensures largest < |count|
  {
    hide ShiftRight, Pow2, Shared, IsFirst;
    var step := Pow2(62) / total;
    var largestP := 0;
    var low := ShiftRight(total, tableLog);
    single, still, largest := false, Pow2(tableLog), 0;
    SharedStart(norm[..], count, tableLog, low);
    for s := 0 to |count|
      invariant Shared(norm[..], count, s, still, tableLog, low)
      invariant Largest(norm[..], count, s, low, largest, largestP) && largest < |count|
      invariant AreFirst(norm[..], count, s, total, tableLog, lowProbCount)
      invariant forall k :: 0 <= k < s ==> count[k] != total
    {
      if count[s] == total {
        single := true;
        return;
      }
      ghost var before := norm[..];
      SumAtLeast(count, s);
      var v := ShareOf(count[s], total, step, tableLog, low, lowProbCount);
      LargestStep(before, count, s, low, largest, largestP, v);
      if count[s] > low && v > largestP {
        largestP := v;
        largest := s;
      }
      SharedStep(before, count, s, still, tableLog, low, v);
      norm[s] := v;
      assert norm[..] == before[s := v];
      still := still - Given(v);
    }
  }

  /** A count's share: none if it is zero, one state if it is low. */
  method ShareOf(c: nat, total: nat, step: nat, tableLog: nat, low: nat, lowProbCount: int) returns (v: int)
    requires tableLog <= MAX_TABLELOG && c <= total <= TOTAL_MAX && total > 0 && low == ShiftRight(total, tableLog)
    requires step == Pow2(62) / total && (lowProbCount == 1 || lowProbCount == -1)
    ensures v >= -1 && (v == 0 <==> c == 0) && (c > low ==> v >= 1)
    ensures IsFirst(c, total, tableLog, lowProbCount, v)
  {
    hide IsShare;
    if c == 0 {
      v := 0;
    } else if c <= low {
      v := lowProbCount;
    } else {
      v := Share(c, total, step, tableLog);
    }
  }

  lemma SharedStart(norm: seq<int>, count: seq<nat>, tableLog: nat, low: nat)
    requires |norm| == |count|
    ensures Shared(norm, count, 0, Pow2(tableLog), tableLog, low)
  {
    assert norm[..0] == [];
  }

  lemma LargestStep(norm: seq<int>, count: seq<nat>, s: nat, low: nat, largest: nat, largestP: int, v: int)
    requires Largest(norm, count, s, low, largest, largestP) && s < |norm| && (count[s] > low ==> v >= 1)
    ensures var more := count[s] > low && v > largestP;
      Largest(norm[s := v], count, s + 1, low, if more then s else largest, if more then v else largestP)
  {
  }

  // ----- The second method -----

  /** The counts that are not assigned yet. */
  ghost function Pending(norm: seq<int>, count: seq<nat>): nat
    requires |norm| == |count|
    decreases |norm|
  {
    if norm == [] then 0
    else Pending(norm[..|norm| - 1], count[..|norm| - 1]) +
         if norm[|norm| - 1] == NOT_YET_ASSIGNED then count[|norm| - 1] else 0
  }

  /** At most one state is given to each symbol that occurs, and the others wait. */
  ghost predicate Partly(norm: seq<int>, count: seq<nat>, low: nat) {
    && |norm| == |count|
    && forall k :: 0 <= k < |norm| ==>
      && NOT_YET_ASSIGNED <= norm[k] <= 1 && (norm[k] == 0 <==> count[k] == 0) && (count[k] > low ==> norm[k] != -1)
  }

  /** Those that wait are above the bound. */
  ghost predicate Waiting(norm: seq<int>, count: seq<nat>, lowOne: nat) {
    && |norm| == |count|
    && forall k :: 0 <= k < |norm| && norm[k] == NOT_YET_ASSIGNED ==> count[k] > lowOne
  }

  /** What is given before the rest is shared: small counts have their share, and the others wait. */
  ghost predicate Assigned(norm: seq<int>, count: seq<nat>, n: nat, low: nat, bar: nat, lowProbCount: int) {
    && n <= |norm| == |count| && low <= bar && (lowProbCount == 1 || lowProbCount == -1)
    && forall k :: 0 <= k < n ==>
      norm[k] == if count[k] > bar then NOT_YET_ASSIGNED else SmallShare(count[k], low, lowProbCount)
  }

  lemma {:induction false} AssignedTotals(norm: seq<int>, count: seq<nat>, n: nat, low: nat, bar: nat,
                                          lowProbCount: int)
    requires Assigned(norm, count, n, low, bar, lowProbCount)
    ensures GivenAll(norm[..n]) == Below(count, bar, n) && Pending(norm[..n], count[..n]) == Above(count, bar, n)
  {
    if n > 0 {
      AssignedTotals(norm, count, n - 1, low, bar, lowProbCount);
      assert norm[..n][..n - 1] == norm[..n - 1] && count[..n][..n - 1] == count[..n - 1];
    }
  }

  lemma AllAssigned(norm: seq<int>, count: seq<nat>, low: nat, bar: nat, lowProbCount: int)
    requires Assigned(norm, count, |count|, low, bar, lowProbCount)
    ensures Partly(norm, count, low) && Waiting(norm, count, bar)
    ensures GivenAll(norm) == Below(count, bar, |count|) && Pending(norm, count) == Above(count, bar, |count|)
  {
    AssignedTotals(norm, count, |count|, low, bar, lowProbCount);
    assert norm[..|count|] == norm && count[..|count|] == count;
  }

  lemma PartlyPrefix(norm: seq<int>, count: seq<nat>, low: nat, n: nat)
    requires Partly(norm, count, low) && n <= |norm|
    ensures Partly(norm[..n], count[..n], low)
  {
  }

  lemma {:induction false} PendingUpdate(norm: seq<int>, count: seq<nat>, i: nat, v: int)
    requires |norm| == |count| && i < |norm| && norm[i] == NOT_YET_ASSIGNED != v
    ensures Pending(norm[i := v], count) == Pending(norm, count) - count[i]
    ensures Pending(norm, count) >= count[i]
    decreases |norm|
  {
    var now, front, left := norm[i := v], norm[..|norm| - 1], count[..|norm| - 1];
    if i == |norm| - 1 {
      assert now[..|norm| - 1] == front;
    } else {
      assert now[..|norm| - 1] == front[i := v];
      PendingUpdate(front, left, i, v);
    }
  }

  lemma {:induction false} PendingPositive(norm: seq<int>, count: seq<nat>, low: nat)
    requires Partly(norm, count, low)
    ensures Pending(norm, count) == 0 <==> forall k :: 0 <= k < |norm| ==> norm[k] != NOT_YET_ASSIGNED
    decreases |norm|
  {
    if norm != [] {
      var n := |norm| - 1;
      PartlyPrefix(norm, count, low, n);
      PendingPositive(norm[..n], count[..n], low);
    }
  }

  ghost function NonZero(count: seq<nat>): nat
    decreases |count|
  {
    if count == [] then 0 else NonZero(count[..|count| - 1]) + if count[|count| - 1] > 0 then 1 else 0
  }

  lemma {:induction false} FewGiven(norm: seq<int>, count: seq<nat>, low: nat)
    requires Partly(norm, count, low)
    ensures GivenAll(norm) <= NonZero(count) <= |norm|
    ensures GivenAll(norm) == |norm| ==> forall k :: 0 <= k < |norm| ==> norm[k] == 1 || norm[k] == -1
    decreases |norm|
  {
    if norm != [] {
      var n := |norm| - 1;
      PartlyPrefix(norm, count, low, n);
      FewGiven(norm[..n], count[..n], low);
    }
  }

  lemma {:induction false} NonZeroSum(count: seq<nat>)
    ensures NonZero(count) <= Sum(count)
    decreases |count|
  {
    if count != [] {
      NonZeroSum(count[..|count| - 1]);
    }
  }

  /** The table has a state for every symbol that occurs, and more. */
  lemma TableHasRoom(norm: seq<int>, count: seq<nat>, low: nat, total: nat, tableLog: nat)
    requires Partly(norm, count, low) && Histogram(count, total) && tableLog >= MinTableLog(total, |count| - 1)
    ensures GivenAll(norm) < Pow2(tableLog)
  {
    assert |norm| == |count|;
    hide Partly, GivenAll, NonZero, HighBit;
    FewGiven(norm, count, low);
    if tableLog >= HighBit(total) + 1 {
      NonZeroSum(count);
      Pow2Monotone(HighBit(total) + 1, tableLog);
    } else {
      LargeTable(|count| - 1, tableLog);
    }
  }

  /** What is given and what waits are no more than there is. */
  lemma {:induction false} PartlySum(norm: seq<int>, count: seq<nat>, low: nat)
    requires Partly(norm, count, low)
    ensures GivenAll(norm) + Pending(norm, count) <= Sum(count)
    decreases |norm|
  {
    if norm != [] {
      var n := |norm| - 1;
      PartlyPrefix(norm, count, low, n);
      PartlySum(norm[..n], count[..n], low);
    }
  }

  /** One more symbol is looked at. */
  lemma LowStep(norm: seq<int>, count: seq<nat>, s: nat)
    requires s < |norm| == |count|
    ensures GivenAll(norm[..s + 1]) == GivenAll(norm[..s]) + Given(norm[s])
    ensures Pending(norm[..s + 1], count[..s + 1]) ==
      Pending(norm[..s], count[..s]) + if norm[s] == NOT_YET_ASSIGNED then count[s] else 0
  {
    assert norm[..s + 1][..s] == norm[..s] && count[..s + 1][..s] == count[..s];
  }

  /** The small counts get one state each. */
  method AssignLow(norm: array<int>, count: seq<nat>, total: nat, lowThreshold: nat, lowOne: nat, lowProbCount: int)
    returns (distributed: nat, left: nat)
    requires norm.Length == |count| && Sum(count) == total && (lowProbCount == 1 || lowProbCount == -1)
    requires lowThreshold <= lowOne
    modifies norm
    ensures Assigned(norm[..], count, |count|, lowThreshold, lowOne, lowProbCount)
    ensures distributed == GivenAll(norm[..]) && left == Pending(norm[..], count)
  {
    hide Sum, GivenAll, Pending, Assigned;
    distributed, left := 0, total;
    ghost var pending := 0;
    NoneAssigned(norm[..], count, lowThreshold, lowOne, lowProbCount);
    for s := 0 to |count|
      invariant Assigned(norm[..], count, s, lowThreshold, lowOne, lowProbCount)
      invariant distributed == GivenAll(norm[..s])
      invariant pending == Pending(norm[..s], count[..s]) && left == total - Sum(count[..s]) + pending
      invariant Sum(count[..s]) <= total
    {
      SumPrefix(count, s + 1);
      SumSnoc(count, s);
      ghost var before := norm[..];
      if count[s] == 0 {
        norm[s] := 0;
      } else if count[s] <= lowThreshold {
        norm[s] := lowProbCount;
        distributed := distributed + 1;
        left := left - count[s];
      } else if count[s] <= lowOne {
        norm[s] := 1;
        distributed := distributed + 1;
        left := left - count[s];
      } else {
        norm[s] := NOT_YET_ASSIGNED;
        pending := pending + count[s];
      }
      assert norm[..] == before[s := norm[s]] && norm[..][..s] == norm[..s] == before[..s];
      AssignedStep(before, count, s, lowThreshold, lowOne, lowProbCount, norm[s]);
      LowStep(norm[..], count, s);
      assert norm[..][..s + 1] == norm[..s + 1];
    }
    assert norm[..] == norm[..|count|] && count == count[..|count|];
  }

  lemma NoneAssigned(norm: seq<int>, count: seq<nat>, low: nat, bar: nat, lowProbCount: int)
    requires |norm| == |count| && low <= bar && (lowProbCount == 1 || lowProbCount == -1)
    ensures Assigned(norm, count, 0, low, bar, lowProbCount)
    ensures GivenAll(norm[..0]) == 0 && Pending(norm[..0], count[..0]) == 0 && Sum(count[..0]) == 0
  {
  }

  lemma AssignedStep(norm: seq<int>, count: seq<nat>, s: nat, low: nat, bar: nat, lowProbCount: int, v: int)
    requires Assigned(norm, count, s, low, bar, lowProbCount) && s < |norm|
    requires v == if count[s] > bar then NOT_YET_ASSIGNED else SmallShare(count[s], low, lowProbCount)
    ensures Assigned(norm[s := v], count, s + 1, low, bar, lowProbCount)
  {
  }

  lemma {:induction false} SumPrefix(count: seq<nat>, n: nat)
    requires n <= |count|
    ensures Sum(count[..n]) <= Sum(count)
    decreases |count|
  {
    if n < |count| {
      SumPrefix(count[..|count| - 1], n);
      assert count[..|count| - 1][..n] == count[..n];
    } else {
      assert count[..n] == count;
    }
  }

  /** Some more of them, so that the rest are sure to get at least one state. */
  method AssignMore(norm: array<int>, count: seq<nat>, ghost low: nat, ghost once: nat, lowOne: nat,
                    ghost lowProbCount: int, given: nat, pending: nat)
    returns (distributed: nat, left: nat)
    requires Assigned(norm[..], count, |count|, low, once, lowProbCount) && once <= lowOne
    requires given == GivenAll(norm[..]) && pending == Pending(norm[..], count)
    modifies norm
    ensures Assigned(norm[..], count, |count|, low, lowOne, lowProbCount) && left <= pending
    ensures distributed == GivenAll(norm[..]) && left == Pending(norm[..], count) && given <= distributed
  {
    distributed, left := given, pending;
    for s := 0 to |count|
      invariant Assigned(norm[..], count, s, low, lowOne, lowProbCount) && left <= pending && given <= distributed
      invariant norm[s..] == old(norm[s..])
      invariant distributed == GivenAll(norm[..]) && left == Pending(norm[..], count)
    {
      assert norm[s] == old(norm[..])[s];
      if norm[s] == NOT_YET_ASSIGNED && count[s] <= lowOne {
        ghost var before := norm[..];
        PendingUpdate(before, count, s, 1);
        GivenUpdate(before, s, 1);
        norm[s] := 1;
        assert norm[..] == before[s := 1];
        distributed := distributed + 1;
        left := left - count[s];
      }
    }
  }

  /** All states are given, and to exactly the symbols that occur. */
  ghost predicate Complete(norm: seq<int>, count: seq<nat>, tableLog: nat) {
    && |norm| == |count| && GivenAll(norm) == Pow2(tableLog)
    && forall k :: 0 <= k < |norm| ==> norm[k] >= -1 && (norm[k] == 0 <==> count[k] == 0)
  }

  /** The symbol with the largest count. */
  method LargestCount(count: seq<nat>) returns (maxV: nat)
    requires |count| > 0
    ensures maxV < |count| && forall k :: 0 <= k < |count| ==> count[k] <= count[maxV]
    ensures forall k :: 0 <= k < maxV ==> count[k] < count[maxV]
  {
    var maxC := 0;
    maxV := 0;
    for s := 0 to |count|
      invariant maxV < |count| && forall k :: 0 <= k < s ==> count[k] <= maxC
      invariant if maxC == 0 then maxV == 0 else count[maxV] == maxC && forall k :: 0 <= k < maxV ==> count[k] < maxC
    {
      if count[s] > maxC {
        maxV, maxC := s, count[s];
      }
    }
  }

  /** All symbols are assigned: the most frequent one takes the rest. */
  method GiveToLargest(norm: array<int>, count: seq<nat>, ghost low: nat, ghost bar: nat, ghost lowProbCount: int,
                       toDistribute: nat, ghost tableLog: nat)
    requires Assigned(norm[..], count, |count|, low, bar, lowProbCount)
    requires norm.Length > 0 && GivenAll(norm[..]) == norm.Length
    requires norm.Length + toDistribute == Pow2(tableLog) && exists s :: 0 <= s < |count| && count[s] > low
    modifies norm
    ensures Complete(norm[..], count, tableLog) && ToLargest(norm[..], count, low, lowProbCount, toDistribute)
  {
    hide Complete, ToLargest, GivenAll;
    var maxV := LargestCount(count);
    ghost var before := norm[..];
    LargestTakes(before, count, low, bar, lowProbCount, maxV, toDistribute, tableLog);
    norm[maxV] := norm[maxV] + toDistribute;
    assert norm[..] == before[maxV := 1 + toDistribute];
  }

  lemma LargestTakes(norm: seq<int>, count: seq<nat>, low: nat, bar: nat, lowProbCount: int, m: nat,
                     toDistribute: nat, tableLog: nat)
    requires Assigned(norm, count, |count|, low, bar, lowProbCount) && GivenAll(norm) == |norm|
    requires |norm| + toDistribute == Pow2(tableLog) && m < |count| && count[m] > low
    requires forall k :: 0 <= k < |count| ==> count[k] <= count[m]
    requires forall k :: 0 <= k < m ==> count[k] < count[m]
    ensures norm[m] == 1 && Complete(norm[m := 1 + toDistribute], count, tableLog)
    ensures ToLargest(norm[m := 1 + toDistribute], count, low, lowProbCount, toDistribute)
  {
    hide Pow2, GivenAll, Pending, Below, Above;
    AllAssigned(norm, count, low, bar, lowProbCount);
    FewGiven(norm, count, low);
    GivenUpdate(norm, m, 1 + toDistribute);
    AllHaveOne(norm, count, low, bar, lowProbCount);
  }

  lemma AllHaveOne(norm: seq<int>, count: seq<nat>, low: nat, bar: nat, lowProbCount: int)
    requires Assigned(norm, count, |count|, low, bar, lowProbCount)
    requires forall k :: 0 <= k < |norm| ==> norm[k] == 1 || norm[k] == -1
    ensures forall k :: 0 <= k < |norm| ==> norm[k] == SmallShare(count[k], low, lowProbCount)
    ensures forall k :: 0 <= k < |norm| && count[k] > low ==> norm[k] == 1
    ensures forall k :: 0 <= k < |norm| ==> count[k] > 0
  {
  }

  /** All that occur are assigned: those with a state of their own take turns for the rest. */
  method GiveInTurn(norm: array<int>, count: seq<nat>, ghost low: nat, ghost bar: nat, ghost lowProbCount: int,
                    toDistribute: nat, ghost tableLog: nat)
    requires Assigned(norm[..], count, |count|, low, bar, lowProbCount) && Pending(norm[..], count) == 0
    requires GivenAll(norm[..]) + toDistribute == Pow2(tableLog) && exists s :: 0 <= s < |count| && count[s] > low
    modifies norm
    ensures Complete(norm[..], count, tableLog) && InTurn(norm[..], count, low, lowProbCount)
  {
    hide Pow2, GivenAll, Pending, Complete, InTurn;
    NoneWaits(norm[..], count, low, bar, lowProbCount);
    ghost var p :| 0 <= p < |count| && count[p] > low;
    var left := toDistribute;
    var s := 0;
    ghost var level := 1;
    while left > 0
      invariant s < norm.Length && GivenAll(norm[..]) + left == Pow2(tableLog)
      invariant Served(norm[..], count, s, low, lowProbCount, level)
      decreases left, if s <= p then p - s else p + norm.Length - s
    {
      ghost var before := norm[..];
      assert before[s] == norm[s];
      ServedStep(before, count, s, low, lowProbCount, level);
      if norm[s] > 0 {
        GivenUpdate(before, s, norm[s] + 1);
        norm[s] := norm[s] + 1;
        assert norm[..] == before[s := before[s] + 1];
        left := left - 1;
      }
      if s + 1 == norm.Length {
        s := 0;
        level := level + 1;
      } else {
        s := s + 1;
      }
    }
    ServedAll(norm[..], count, s, low, lowProbCount, level, tableLog);
  }

  /** In a round, those before `s` had their turn and have one state more. */
  ghost predicate Served(norm: seq<int>, count: seq<nat>, s: nat, low: nat, lowProbCount: int, level: int) {
    && |norm| == |count| && level > 0 && (lowProbCount == 1 || lowProbCount == -1)
    && forall k :: 0 <= k < |norm| ==>
      var small := SmallShare(count[k], low, lowProbCount);
      norm[k] == if small <= 0 then small else if k < s then level + 1 else level
  }

  lemma NoneWaits(norm: seq<int>, count: seq<nat>, low: nat, bar: nat, lowProbCount: int)
    requires Assigned(norm, count, |count|, low, bar, lowProbCount) && Pending(norm, count) == 0
    ensures Served(norm, count, 0, low, lowProbCount, 1)
  {
    AllAssigned(norm, count, low, bar, lowProbCount);
    PendingPositive(norm, count, low);
  }

  lemma ServedStep(norm: seq<int>, count: seq<nat>, s: nat, low: nat, lowProbCount: int, level: int)
    requires Served(norm, count, s, low, lowProbCount, level) && s < |norm|
    ensures count[s] > low ==> norm[s] > 0
    ensures var now := if norm[s] > 0 then norm[s := norm[s] + 1] else norm;
      if s + 1 == |norm| then Served(now, count, 0, low, lowProbCount, level + 1)
      else Served(now, count, s + 1, low, lowProbCount, level)
  {
  }

  lemma ServedAll(norm: seq<int>, count: seq<nat>, s: nat, low: nat, lowProbCount: int, level: int, tableLog: nat)
    requires Served(norm, count, s, low, lowProbCount, level) && GivenAll(norm) == Pow2(tableLog)
    ensures Complete(norm, count, tableLog) && InTurn(norm, count, low, lowProbCount)
  {
    hide Pow2, GivenAll;
  }

  // ----- The rest in proportion -----

  /** The first fraction, just below one half. */
  function Mid(vStepLog: nat): nat
    requires vStepLog > 0
  {
    Pow2(vStepLog - 1) - 1
  }

  /** How much of the table one unit of count gets, in fixed point. */
  function PerCount(vStepLog: nat, toDistribute: nat, left: nat): nat
    requires vStepLog > 0 && left > 0
  {
    (Pow2(vStepLog) * toDistribute + Mid(vStepLog)) / left
  }

  function AddShare(tmpTotal: nat, c: nat, rStep: nat): nat {
    tmpTotal + c * rStep
  }

  lemma MidIs(vStepLog: nat)
    requires vStepLog > 0
    ensures 2 * Mid(vStepLog) + 2 == Pow2(vStepLog)
    ensures ShiftRight(Mid(vStepLog), vStepLog) == 0
  {
    DivideIs(Mid(vStepLog), Pow2(vStepLog), 0, Mid(vStepLog));
  }

  /** The steps add up to all states, and not one more. */
  lemma LastFraction(todo: nat, mid: nat, left: nat, rStep: nat, p: nat)
    requires 0 < left <= 2 * mid && 2 * mid + 2 == p && rStep == (p * todo + mid) / left
    ensures (mid + rStep * left) / p == todo
  {
    var x := p * todo + mid;
    var r := x % left;
    assert x == rStep * left + r;
    DivideIs(mid + rStep * left, p, todo, 2 * mid - r) by {
      assert todo * p == p * todo;
    }
  }

  lemma NextFraction(done: nat, c: nat, rStep: nat, mid: nat)
    ensures mid + rStep * (done + c) == (mid + rStep * done) + c * rStep
  {
  }

  /** The state of the last pass before symbol `s`. */
  ghost predicate Sharing(norm: seq<int>, count: seq<nat>, s: nat, distributed: nat, pending: nat, tmpTotal: nat,
                          rStep: nat, vStepLog: nat) {
    && |norm| == |count| && s <= |norm| && vStepLog > 0
    && (forall k :: 0 <= k < |norm| ==> (norm[k] == 0 <==> count[k] == 0))
    && (forall k :: 0 <= k < s ==> norm[k] >= -1)
    && (forall k :: s <= k < |norm| ==> norm[k] >= NOT_YET_ASSIGNED)
    && GivenAll(norm) == distributed + ShiftRight(tmpTotal, vStepLog)
    && Pending(norm, count) <= pending
    && tmpTotal == Mid(vStepLog) + rStep * (pending - Pending(norm, count))
  }

  lemma SharingStep(norm: seq<int>, count: seq<nat>, s: nat, distributed: nat, pending: nat, tmpTotal: nat, rStep: nat,
                    vStepLog: nat, end: nat, weight: int)
    requires Sharing(norm, count, s, distributed, pending, tmpTotal, rStep, vStepLog) && s < |norm|
    requires norm[s] == NOT_YET_ASSIGNED && end == AddShare(tmpTotal, count[s], rStep)
    requires weight == ShiftRight(end, vStepLog) - ShiftRight(tmpTotal, vStepLog) >= 1
    ensures Sharing(norm[s := weight], count, s + 1, distributed, pending, end, rStep, vStepLog)
  {
    hide ShiftRight;
    PendingUpdate(norm, count, s, weight);
    GivenUpdate(norm, s, weight);
    NextFraction(pending - Pending(norm, count), count[s], rStep, Mid(vStepLog));
  }

  lemma {:induction false} NothingPending(norm: seq<int>, count: seq<nat>)
    requires |norm| == |count| && forall k :: 0 <= k < |norm| ==> norm[k] >= -1
    ensures Pending(norm, count) == 0
    decreases |norm|
  {
    if norm != [] {
      NothingPending(norm[..|norm| - 1], count[..|norm| - 1]);
    }
  }

  /** Each symbol that waits has more than its share of what waits. */
  ghost predicate Deserving(norm: seq<int>, count: seq<nat>, toDistribute: nat, left: nat) {
    && |norm| == |count|
    && forall k :: 0 <= k < |norm| && norm[k] == NOT_YET_ASSIGNED ==> count[k] * toDistribute > left
  }

  lemma OneMoreAtLeast(x: nat, y: nat, p: nat)
    requires p > 0 && y >= p
    ensures (x + y) / p >= x / p + 1
  {
    var d := y - p;
    DivideIs(x + p, p, x / p + 1, x % p);
    QuotientMonotone(x + p, x + p + d, p);
  }

  lemma QuotientMonotone(a: nat, b: nat, p: nat)
    requires p > 0 && a <= b
    ensures a / p <= b / p
  {
    if a / p > b / p {
      assert a == (a / p) * p + a % p && b == (b / p) * p + b % p;
      Product(b / p + 1, a / p, p);
      Distribute(b / p, 1, p);
    }
  }

  /** Such a symbol gets at least one state. */
  lemma WeightPositive(c: nat, toDistribute: nat, left: nat, tableLog: nat, tmpTotal: nat)
    requires tableLog <= MAX_TABLELOG && 0 < c <= left <= TOTAL_MAX && c * toDistribute > left
    ensures var v, rStep := 62 - tableLog, PerCount(62 - tableLog, toDistribute, left);
      ShiftRight(AddShare(tmpTotal, c, rStep), v) >= ShiftRight(tmpTotal, v) + 1
  {
    hide Pow2, Mid;
    var v, rStep := 62 - tableLog, PerCount(62 - tableLog, toDistribute, left);
    LargeUnit(tableLog, left);
    var x := Pow2(v) * toDistribute + Mid(v);
    assert x == (x / left) * left + x % left;
    assert Pow2(v) * toDistribute == toDistribute * Pow2(v);
    ShareProduct(c, left, rStep, toDistribute, Pow2(v));
    OneMoreAtLeast(tmpTotal, c * rStep, Pow2(v));
  }

  /** The shares of the symbols before `s` are the rounded ones, and the others wait as before. */
  ghost predicate Rounding(norm: seq<int>, count: seq<nat>, s: nat, low: nat, bar: nat, lowProbCount: int,
                           tableLog: nat, toDistribute: nat, left: nat, tmpTotal: nat) {
    && s <= |norm| == |count| && tableLog <= MAX_TABLELOG && left > 0
    && tmpTotal == AddShare(Mid(62 - tableLog), Above(count, bar, s), PerCount(62 - tableLog, toDistribute, left))
    && (forall k :: 0 <= k < s ==>
      norm[k] ==
        if count[k] <= bar then SmallShare(count[k], low, lowProbCount)
        else Portion(count, bar, k, toDistribute, left, tableLog))
    && forall k :: s <= k < |norm| ==>
      norm[k] == if count[k] > bar then NOT_YET_ASSIGNED else SmallShare(count[k], low, lowProbCount)
  }

  lemma RoundedIs(x: nat, toDistribute: nat, left: nat, tableLog: nat)
    requires left > 0 && tableLog <= MAX_TABLELOG
    ensures Rounded(x, toDistribute, left, tableLog) ==
      ShiftRight(AddShare(Mid(62 - tableLog), x, PerCount(62 - tableLog, toDistribute, left)), 62 - tableLog)
  {
    hide Pow2;
  }

  lemma RoundingOn(norm: seq<int>, count: seq<nat>, s: nat, low: nat, bar: nat, lowProbCount: int, tableLog: nat,
                   toDistribute: nat, left: nat, tmpTotal: nat)
    requires Rounding(norm, count, s, low, bar, lowProbCount, tableLog, toDistribute, left, tmpTotal) && s < |norm|
    requires norm[s] != NOT_YET_ASSIGNED
    ensures Rounding(norm, count, s + 1, low, bar, lowProbCount, tableLog, toDistribute, left, tmpTotal)
  {
    hide Portion, AddShare, Mid, PerCount, SmallShare;
  }

  lemma RoundingStep(norm: seq<int>, count: seq<nat>, s: nat, low: nat, bar: nat, lowProbCount: int, tableLog: nat,
                     toDistribute: nat, left: nat, tmpTotal: nat, end: nat, weight: int)
    requires Rounding(norm, count, s, low, bar, lowProbCount, tableLog, toDistribute, left, tmpTotal) && s < |norm|
    requires count[s] > bar && end == AddShare(tmpTotal, count[s], PerCount(62 - tableLog, toDistribute, left))
    requires weight == ShiftRight(end, 62 - tableLog) - ShiftRight(tmpTotal, 62 - tableLog)
    ensures Rounding(norm[s := weight], count, s + 1, low, bar, lowProbCount, tableLog, toDistribute, left, end)
  {
    RoundedIs(Above(count, bar, s), toDistribute, left, tableLog);
    RoundedIs(Above(count, bar, s + 1), toDistribute, left, tableLog);
    hide Rounded, ShiftRight, PerCount, Mid, Pow2;
    Distribute(Above(count, bar, s), count[s], PerCount(62 - tableLog, toDistribute, left));
  }

  lemma StartRounding(norm: seq<int>, count: seq<nat>, low: nat, bar: nat, lowProbCount: int, tableLog: nat,
                      toDistribute: nat, left: nat)
    requires Assigned(norm, count, |count|, low, bar, lowProbCount) && tableLog <= MAX_TABLELOG && left > 0
    ensures Rounding(norm, count, 0, low, bar, lowProbCount, tableLog, toDistribute, left, Mid(62 - tableLog))
  {
  }

  lemma Waits(norm: seq<int>, count: seq<nat>, s: nat, low: nat, bar: nat, lowProbCount: int, tableLog: nat,
              toDistribute: nat, left: nat, tmpTotal: nat)
    requires Rounding(norm, count, s, low, bar, lowProbCount, tableLog, toDistribute, left, tmpTotal) && s < |norm|
    requires lowProbCount == 1 || lowProbCount == -1
    ensures norm[s] == NOT_YET_ASSIGNED <==> count[s] > bar
  {
  }

  lemma Rounds(norm: seq<int>, count: seq<nat>, low: nat, bar: nat, lowProbCount: int, tableLog: nat,
               toDistribute: nat, tmpTotal: nat)
    requires |norm| == |count| && Above(count, bar, |count|) > 0
    requires Rounding(norm, count, |count|, low, bar, lowProbCount, tableLog, toDistribute,
                      Above(count, bar, |count|), tmpTotal)
    ensures InProportion(norm, count, low, bar, lowProbCount, tableLog, toDistribute)
  {
  }

  /** The symbols that still wait share the rest in proportion to their counts; each gets at least one state. */
  method ShareRest(norm: array<int>, count: seq<nat>, tableLog: nat, distributed: nat, toDistribute: nat, left: nat,
                   ghost low: nat, ghost bar: nat, ghost lowProbCount: int)
    returns (ok: bool)
    requires Assigned(norm[..], count, |count|, low, bar, lowProbCount) && tableLog <= MAX_TABLELOG
    requires lowProbCount == 1 || lowProbCount == -1
    requires distributed == GivenAll(norm[..]) && 0 < left == Pending(norm[..], count)
    requires distributed + toDistribute == Pow2(tableLog) && left <= TOTAL_MAX
    requires Deserving(norm[..], count, toDistribute, left)
    modifies norm
    ensures ok && Complete(norm[..], count, tableLog)
    ensures InProportion(norm[..], count, low, bar, lowProbCount, tableLog, toDistribute)
  {
    hide Pow2, Mid, ShiftRight, PerCount, AddShare, Rounding, InProportion, Assigned, Above, Sharing, Deserving,
         Complete, GivenAll, Pending;
    var vStepLog: nat := 62 - tableLog;
    var rStep := PerCount(vStepLog, toDistribute, left);
    var tmpTotal := Mid(vStepLog);
    AllAssigned(norm[..], count, low, bar, lowProbCount);
    StartSharing(norm[..], count, low, distributed, left, rStep, vStepLog);
    StartRounding(norm[..], count, low, bar, lowProbCount, tableLog, toDistribute, left);
    for s := 0 to |count|
      invariant Sharing(norm[..], count, s, distributed, left, tmpTotal, rStep, vStepLog)
      invariant Rounding(norm[..], count, s, low, bar, lowProbCount, tableLog, toDistribute, left, tmpTotal)
      invariant Deserving(norm[..], count, toDistribute, left)
    {
      Waits(norm[..], count, s, low, bar, lowProbCount, tableLog, toDistribute, left, tmpTotal);
      ghost var before := norm[..];
      assert before[s] == norm[s];
      if norm[s] == NOT_YET_ASSIGNED {
        OneForEach(before, count, s, distributed, toDistribute, left, tmpTotal, tableLog);
        var end := AddShare(tmpTotal, count[s], rStep);
        var weight := ShiftRight(end, vStepLog) - ShiftRight(tmpTotal, vStepLog);
        if weight < 1 {
          assert false;
          return false;
        }
        SharingStep(before, count, s, distributed, left, tmpTotal, rStep, vStepLog, end, weight);
        DeservingStep(before, count, s, toDistribute, left, weight);
        RoundingStep(before, count, s, low, bar, lowProbCount, tableLog, toDistribute, left, tmpTotal, end, weight);
        norm[s] := weight;
        assert norm[..] == before[s := weight];
        tmpTotal := end;
      } else {
        SharingOn(before, count, s, distributed, left, tmpTotal, rStep, vStepLog);
        RoundingOn(before, count, s, low, bar, lowProbCount, tableLog, toDistribute, left, tmpTotal);
      }
    }
    Rounds(norm[..], count, low, bar, lowProbCount, tableLog, toDistribute, tmpTotal);
    SharingEnds(norm[..], count, distributed, toDistribute, left, tmpTotal, tableLog);
    return true;
  }

  lemma OneForEach(norm: seq<int>, count: seq<nat>, s: nat, distributed: nat, toDistribute: nat, left: nat,
                   tmpTotal: nat, tableLog: nat)
    requires tableLog <= MAX_TABLELOG && 0 < left <= TOTAL_MAX && s < |norm| && norm[s] == NOT_YET_ASSIGNED
    requires Sharing(norm, count, s, distributed, left, tmpTotal, PerCount(62 - tableLog, toDistribute, left),
                     62 - tableLog)
    requires Deserving(norm, count, toDistribute, left)
    ensures var v, rStep := 62 - tableLog, PerCount(62 - tableLog, toDistribute, left);
      ShiftRight(AddShare(tmpTotal, count[s], rStep), v) >= ShiftRight(tmpTotal, v) + 1
  {
    hide ShiftRight, AddShare, PerCount, Mid, Pow2;
    PendingUpdate(norm, count, s, 1);
    WeightPositive(count[s], toDistribute, left, tableLog, tmpTotal);
  }

  lemma DeservingStep(norm: seq<int>, count: seq<nat>, s: nat, toDistribute: nat, left: nat, weight: int)
    requires Deserving(norm, count, toDistribute, left) && s < |norm| && weight >= 1
    ensures Deserving(norm[s := weight], count, toDistribute, left)
  {
  }

  lemma SharingOn(norm: seq<int>, count: seq<nat>, s: nat, distributed: nat, pending: nat, tmpTotal: nat, rStep: nat,
                  vStepLog: nat)
    requires Sharing(norm, count, s, distributed, pending, tmpTotal, rStep, vStepLog) && s < |norm|
    requires norm[s] != NOT_YET_ASSIGNED
    ensures Sharing(norm, count, s + 1, distributed, pending, tmpTotal, rStep, vStepLog)
  {
  }

  lemma SharingEnds(norm: seq<int>, count: seq<nat>, distributed: nat, toDistribute: nat, left: nat, tmpTotal: nat,
                    tableLog: nat)
    requires tableLog <= MAX_TABLELOG && 0 < left <= TOTAL_MAX && distributed + toDistribute == Pow2(tableLog)
    requires Sharing(norm, count, |count|, distributed, left, tmpTotal, PerCount(62 - tableLog, toDistribute, left),
                     62 - tableLog)
    ensures Complete(norm, count, tableLog)
  {
    hide ShiftRight, PerCount, Mid, Pow2;
    NothingPending(norm, count);
    AllShared(tmpTotal, tableLog, toDistribute, left);
  }

  lemma StartSharing(norm: seq<int>, count: seq<nat>, low: nat, distributed: nat, left: nat, rStep: nat, vStepLog: nat)
    requires Partly(norm, count, low) && distributed == GivenAll(norm) && left == Pending(norm, count) && vStepLog > 0
    ensures Sharing(norm, count, 0, distributed, left, Mid(vStepLog), rStep, vStepLog)
  {
    MidIs(vStepLog);
  }

  /** All counts together get all the states that are left. */
  lemma AllShared(tmpTotal: nat, tableLog: nat, toDistribute: nat, left: nat)
    requires tableLog <= MAX_TABLELOG && 0 < left <= TOTAL_MAX
    requires tmpTotal == Mid(62 - tableLog) + PerCount(62 - tableLog, toDistribute, left) * left
    ensures ShiftRight(tmpTotal, 62 - tableLog) == toDistribute
  {
    MidIs(62 - tableLog);
    Pow2Monotone(50, 62 - tableLog);
    Fifty();
    LastFraction(toDistribute, Mid(62 - tableLog), left, PerCount(62 - tableLog, toDistribute, left),
                 Pow2(62 - tableLog));
  }

  /** One and a half times an even share. */
  function OneAndAHalf(left: nat, toDistribute: nat): nat
    requires toDistribute > 0
  {
    Quotient(left * 3, toDistribute * 2)
  }

  /** Above an even share: enough for one state. */
  lemma EvenShare(c: nat, left: nat, toDistribute: nat)
    requires toDistribute > 0 && c > left / toDistribute
    ensures c * toDistribute > left
  {
    var q := left / toDistribute;
    assert left == q * toDistribute + left % toDistribute;
    Product(q + 1, c, toDistribute);
    Distribute(q, 1, toDistribute);
  }

  lemma WaitingDeserve(norm: seq<int>, count: seq<nat>, lowOne: nat, left: nat, toDistribute: nat)
    requires Waiting(norm, count, lowOne) && toDistribute > 0 && Quotient(left, toDistribute) <= lowOne
    ensures Deserving(norm, count, toDistribute, left)
  {
    forall k | 0 <= k < |norm| && norm[k] == NOT_YET_ASSIGNED ensures count[k] * toDistribute > left {
      EvenShare(count[k], left, toDistribute);
    }
  }

  /** Enough states remain after one and a half even shares get one each. */
  lemma StillDeserving(c: nat, left: nat, before: nat, after: nat)
    requires before > 0 && c > OneAndAHalf(left, before) && 2 * before <= 3 * after
    ensures c * after > left
  {
    EvenShare(c, left * 3, before * 2);
    Product(2 * before, 3 * after, c);
    assert c * (before * 2) == (2 * before) * c && (3 * after) * c == 3 * (c * after);
  }

  /** More symbols are assigned only if a third of the table is given already: what is left is less than the table
      for that large an even share. */
  lemma ThirdGiven(left: nat, total: nat, toDistribute: nat, p: nat)
    requires left <= total && toDistribute > 0 && p > 0 && left / toDistribute > (total * 3) / (2 * p)
    ensures 3 * toDistribute < 2 * p
  {
    var lowOne := (total * 3) / (2 * p);
    assert total * 3 == lowOne * (2 * p) + (total * 3) % (2 * p);
    assert left == (left / toDistribute) * toDistribute + left % toDistribute;
    var q := lowOne + 1;
    Product(q, left / toDistribute, toDistribute);
    Distribute(lowOne, 1, 2 * p);
    assert q * toDistribute <= left && q * (2 * p) > total * 3;
    assert (3 * toDistribute) * q == 3 * (q * toDistribute);
    if 3 * toDistribute >= 2 * p {
      Product(2 * p, 3 * toDistribute, q);
    }
  }

  lemma NoLargeShare(given: nat, pending: nat, total: nat, p: nat)
    requires given + pending <= total < p
    ensures pending / (p - given) == 0
  {
    DivideIs(pending, p - given, 0, pending);
  }

  /** In a table that is larger than the source no symbol's share is more than one. */
  lemma LargeForShares(given: nat, left: nat, total: nat, maxSymbolValue: nat, tableLog: nat)
    requires total > 0 && maxSymbolValue > 0 && tableLog >= MinTableLog(total, maxSymbolValue)
    requires given + left <= total && given < Pow2(tableLog) && left / (Pow2(tableLog) - given) > 0
    ensures 2 * (maxSymbolValue + 1) <= Pow2(tableLog)
  {
    hide HighBit;
    if tableLog >= HighBit(total) + 1 {
      Pow2Monotone(HighBit(total) + 1, tableLog);
      NoLargeShare(given, left, total, Pow2(tableLog));
    } else {
      LargeTable(maxSymbolValue, tableLog);
    }
  }

  lemma LowOneIs(total: nat, tableLog: nat)
    ensures ShiftRight(total * 3, tableLog + 1) == (total * 3) / (2 * Pow2(tableLog))
  {
  }

  /** More symbols are assigned only if the table is at least twice as large as the alphabet, and a third of it is
      given. */
  lemma MoreOnlyIfLarge(norm: seq<int>, count: seq<nat>, low: nat, total: nat, tableLog: nat, given: nat, left: nat)
    requires Partly(norm, count, low) && Histogram(count, total) && tableLog >= MinTableLog(total, |count| - 1)
    requires given == GivenAll(norm) < Pow2(tableLog) && left == Pending(norm, count)
    requires Quotient(left, Pow2(tableLog) - given) > ShiftRight(total * 3, tableLog + 1)
    ensures 2 * |count| <= Pow2(tableLog) && 3 * (Pow2(tableLog) - given) < 2 * Pow2(tableLog)
  {
    LowOneIs(total, tableLog);
    hide Partly, GivenAll, Pending, Sum, HighBit, Pow2, MinTableLog, ShiftRight;
    PartlySum(norm, count, low);
    LargeForShares(given, left, total, |count| - 1, tableLog);
    ThirdGiven(left, total, Pow2(tableLog) - given, Pow2(tableLog));
  }

  lemma LargeTable(maxSymbolValue: nat, tableLog: nat)
    requires maxSymbolValue > 0 && tableLog >= HighBit(maxSymbolValue) + 2
    ensures 2 * (maxSymbolValue + 1) <= Pow2(tableLog)
  {
    Pow2Monotone(HighBit(maxSymbolValue) + 2, tableLog);
  }

  lemma MoreDeserve(norm: seq<int>, count: seq<nat>, wide: nat, left: nat, n: nat, p: nat, d0: nat, d1: nat, rest: nat)
    requires 3 * (p - d0) < 2 * p && 2 * n <= p && d0 <= d1 <= n && d0 < p && rest <= left
    requires wide == OneAndAHalf(left, p - d0) && Waiting(norm, count, wide)
    ensures Deserving(norm, count, p - d1, rest)
  {
    forall k | 0 <= k < |norm| && norm[k] == NOT_YET_ASSIGNED ensures count[k] * (p - d1) > rest {
      StillDeserving(count[k], left, p - d0, p - d1);
    }
  }

  /** The second method, for when the first one is too far off. It never fails. */
  method SecondMethod(norm: array<int>, tableLog: nat, count: seq<nat>, total: nat, lowProbCount: int)
    returns (ok: bool)
    requires Histogram(count, total) && norm.Length == |count| && (lowProbCount == 1 || lowProbCount == -1)
    requires MIN_TABLELOG <= tableLog <= MAX_TABLELOG && tableLog >= MinTableLog(total, |count| - 1)
    modifies norm
    ensures ok && Complete(norm[..], count, tableLog) && AreSecond(norm[..], count, total, tableLog, lowProbCount)
  {
    hide Partly, Complete, Pow2, ShiftRight, Histogram, MinTableLog, GivenAll, Pending, Quotient, OneAndAHalf, Waiting,
         Deserving, NonZero, Assigned, AreSecond, SharedAbove, Below, Above, Bar;
    TotalFits(count, total);
    var lowThreshold := ShiftRight(total, tableLog);
    var lowOne := ShiftRight(total * 3, tableLog + 1);
    SomeNotLow(count, total, tableLog);
    LowIsBelow(total, tableLog);
    var distributed, left := AssignLow(norm, count, total, lowThreshold, lowOne, lowProbCount);
    AllAssigned(norm[..], count, lowThreshold, lowOne, lowProbCount);
    TableHasRoom(norm[..], count, lowThreshold, total, tableLog);
    var toDistribute: nat := Pow2(tableLog) - distributed;
    if toDistribute == 0 {
      assert false;
      return true;
    }
    BarIs(left, toDistribute, lowOne);
    if Quotient(left, toDistribute) > lowOne {
      MoreOnlyIfLarge(norm[..], count, lowThreshold, total, tableLog, distributed, left);
      ghost var before, given, once := left, distributed, lowOne;
      lowOne := OneAndAHalf(left, toDistribute);
      distributed, left :=
        AssignMore(norm, count, lowThreshold, once, lowOne, lowProbCount, distributed, left);
      AllAssigned(norm[..], count, lowThreshold, lowOne, lowProbCount);
      TableHasRoom(norm[..], count, lowThreshold, total, tableLog);
      FewGiven(norm[..], count, lowThreshold);
      MoreDeserve(norm[..], count, lowOne, before, |count|, Pow2(tableLog), given, distributed, left);
      toDistribute := Pow2(tableLog) - distributed;
    } else {
      WaitingDeserve(norm[..], count, lowOne, left, toDistribute);
    }
    PendingBound(norm[..], count);
    ok := GiveRest(norm, count, tableLog, distributed, toDistribute, left, lowThreshold, lowOne, lowProbCount);
    SecondIs(norm[..], count, total, tableLog, lowProbCount, lowOne);
  }

  /** The states that are left: all for the largest count if every symbol has its state, or one after the other if
      those that occur have, or in proportion. */
  method GiveRest(norm: array<int>, count: seq<nat>, tableLog: nat, distributed: nat, toDistribute: nat, left: nat,
                  ghost low: nat, ghost bar: nat, ghost lowProbCount: int)
    returns (ok: bool)
    requires Assigned(norm[..], count, |count|, low, bar, lowProbCount) && tableLog <= MAX_TABLELOG
    requires |count| > 0 && (lowProbCount == 1 || lowProbCount == -1)
    requires distributed == GivenAll(norm[..]) && left == Pending(norm[..], count)
    requires distributed + toDistribute == Pow2(tableLog) && left <= TOTAL_MAX
    requires Deserving(norm[..], count, toDistribute, left) && exists s :: 0 <= s < |count| && count[s] > low
    modifies norm
    ensures ok && Complete(norm[..], count, tableLog)
    ensures SharedAbove(norm[..], count, low, bar, lowProbCount, tableLog)
  {
    hide Partly, Complete, Pow2, GivenAll, Pending, Waiting, Deserving, NonZero, Assigned, SharedAbove, Below, Above,
         InProportion, InTurn, ToLargest;
    GivenSoFar(norm[..], count, low, bar, lowProbCount);
    ok := true;
    if distributed == |count| {
      GiveToLargest(norm, count, low, bar, lowProbCount, toDistribute, tableLog);
    } else if left == 0 {
      GiveInTurn(norm, count, low, bar, lowProbCount, toDistribute, tableLog);
    } else {
      ok := ShareRest(norm, count, tableLog, distributed, toDistribute, left, low, bar, lowProbCount);
    }
    AllShares(norm[..], count, low, bar, lowProbCount, tableLog, distributed, toDistribute, left);
  }

  lemma GivenSoFar(norm: seq<int>, count: seq<nat>, low: nat, bar: nat, lowProbCount: int)
    requires Assigned(norm, count, |count|, low, bar, lowProbCount)
    ensures |norm| == |count|
    ensures GivenAll(norm) == Below(count, bar, |count|) && Pending(norm, count) == Above(count, bar, |count|)
  {
    AllAssigned(norm, count, low, bar, lowProbCount);
  }

  lemma AllShares(norm: seq<int>, count: seq<nat>, low: nat, bar: nat, lowProbCount: int, tableLog: nat,
                  distributed: nat, toDistribute: nat, left: nat)
    requires tableLog <= MAX_TABLELOG && distributed + toDistribute == Pow2(tableLog)
    requires distributed == Below(count, bar, |count|) && left == Above(count, bar, |count|)
    requires distributed == |count| ==> ToLargest(norm, count, low, lowProbCount, toDistribute)
    requires distributed != |count| && left == 0 ==> InTurn(norm, count, low, lowProbCount)
    requires distributed != |count| && left > 0 ==>
      InProportion(norm, count, low, bar, lowProbCount, tableLog, toDistribute)
    ensures SharedAbove(norm, count, low, bar, lowProbCount, tableLog)
  {
    hide ToLargest, InTurn, InProportion, Below, Above, Pow2;
  }

  lemma SecondIs(norm: seq<int>, count: seq<nat>, total: nat, tableLog: nat, lowProbCount: int, bar: nat)
    requires tableLog <= MAX_TABLELOG
    requires SharedAbove(norm, count, ShiftRight(total, tableLog), bar, lowProbCount, tableLog)
    requires var once := ShiftRight(total * 3, tableLog + 1);
      && Below(count, once, |count|) < Pow2(tableLog)
      && bar == Bar(Above(count, once, |count|), Pow2(tableLog) - Below(count, once, |count|), once)
    ensures AreSecond(norm, count, total, tableLog, lowProbCount)
  {
    hide SharedAbove, Bar;
    LowIsBelow(total, tableLog);
  }

  /** A low count is not above one and a half times an even share. */
  lemma LowIsBelow(total: nat, tableLog: nat)
    ensures ShiftRight(total, tableLog) <= ShiftRight(total * 3, tableLog + 1)
    ensures ShiftRight(total * 3, tableLog + 1) == Quotient(3 * total, 2 * Pow2(tableLog))
  {
    var p := Pow2(tableLog);
    DivideIs(2 * total, 2 * p, total / p, 2 * (total % p));
    QuotientMonotone(2 * total, total * 3, 2 * p);
  }

  lemma BarIs(left: nat, toDistribute: nat, once: nat)
    requires toDistribute > 0
    ensures Bar(left, toDistribute, once) >= once
    ensures Bar(left, toDistribute, once) ==
      if Quotient(left, toDistribute) > once then OneAndAHalf(left, toDistribute) else once
  {
    var q := left / toDistribute;
    assert left == q * toDistribute + left % toDistribute;
    DivideIs(2 * left, 2 * toDistribute, q, 2 * (left % toDistribute));
    QuotientMonotone(2 * left, left * 3, toDistribute * 2);
  }

  lemma TotalFits(count: seq<nat>, total: nat)
    requires Histogram(count, total)
    ensures Sum(count) == total <= TOTAL_MAX && |count| >= 2
  {
  }

  lemma {:induction false} PendingBound(norm: seq<int>, count: seq<nat>)
    requires |norm| == |count|
    ensures Pending(norm, count) <= Sum(count)
    decreases |norm|
  {
    if norm != [] {
      PendingBound(norm[..|norm| - 1], count[..|norm| - 1]);
    }
  }

  lemma FirstIsComplete(norm: seq<int>, count: seq<nat>, still: int, tableLog: nat, low: nat, largest: nat)
    requires Shared(norm, count, |count|, still, tableLog, low) && largest < |norm| && norm[largest] > 0
    requires norm[largest] + still > 0
    ensures Complete(norm[largest := norm[largest] + still], count, tableLog)
  {
    GivenUpdate(norm, largest, norm[largest] + still);
    assert norm[..|count|] == norm;
  }

  lemma CompleteIsNormalized(norm: seq<int>, count: seq<nat>, total: nat, tableLog: nat)
    requires Histogram(count, total) && Complete(norm, count, tableLog) && MIN_TABLELOG <= tableLog <= MAX_TABLELOG
    ensures Normalized(norm, tableLog)
    ensures |norm| == |count| && forall s :: 0 <= s < |count| ==> (norm[s] == 0 <==> count[s] == 0)
  {
    GivenStates(norm, |norm|);
    assert norm[..|norm|] == norm;
  }

  lemma FirstLargest(shares: seq<int>, count: seq<nat>, total: nat, tableLog: nat, lowProbCount: int, still: int,
                     largest: nat)
    requires total > 0 && tableLog <= MAX_TABLELOG && |shares| == |count| && largest < |count|
    requires exists largestP :: Largest(shares, count, |count|, ShiftRight(total, tableLog), largest, largestP)
    requires exists s :: 0 <= s < |count| && count[s] > ShiftRight(total, tableLog)
    ensures IsLargest(shares, count, |count|, total / Pow2(tableLog), largest) && shares[largest] > 0
  {
  }

  lemma DistributionIs(norm: seq<int>, count: seq<nat>, total: nat, tableLog: nat, lowProbCount: int, still: int,
                       shares: seq<int>, largest: nat)
    requires total > 0 && tableLog <= MAX_TABLELOG
    requires Shared(shares, count, |count|, still, tableLog, ShiftRight(total, tableLog))
    requires AreFirst(shares, count, |count|, total, tableLog, lowProbCount)
    requires IsLargest(shares, count, |count|, total / Pow2(tableLog), largest)
    requires if -still >= shares[largest] / 2 then AreSecond(norm, count, total, tableLog, lowProbCount)
      else norm == shares[largest := shares[largest] + still]
    ensures Distribution(norm, count, total, tableLog, lowProbCount)
  {
    hide AreFirst, AreSecond;
    assert shares[..|count|] == shares;
    assert SharedOut(norm, count, total, tableLog, lowProbCount, shares, largest);
  }

  /** The size of the table asked for. */
  function TableLog(requested: nat): nat {
    if requested == 0 then DEFAULT_TABLELOG else requested
  }

  /** The first method's shares, with what is over or missing taken from the largest; or, if that is half of it or
      more, the second method's. */
  ghost predicate SharedOut(norm: seq<int>, count: seq<nat>, total: nat, tableLog: nat, lowProbCount: int,
                            shares: seq<int>, largest: nat)
    requires total > 0 && tableLog <= MAX_TABLELOG
  {
    && AreFirst(shares, count, |count|, total, tableLog, lowProbCount)
    && IsLargest(shares, count, |count|, total / Pow2(tableLog), largest)
    && var excess := GivenAll(shares) - Pow2(tableLog);
      if excess < shares[largest] / 2 then norm == shares[largest := shares[largest] - excess]
      else AreSecond(norm, count, total, tableLog, lowProbCount)
  }

  ghost predicate Distribution(norm: seq<int>, count: seq<nat>, total: nat, tableLog: nat, lowProbCount: int)
    requires total > 0 && tableLog <= MAX_TABLELOG
  {
    exists shares, largest :: SharedOut(norm, count, total, tableLog, lowProbCount, shares, largest)
  }

  /** The table has at least 32 states, and more than the source has bytes or more than twice the last symbol. */
  ghost predicate LargeEnough(tableLog: nat, total: nat, maxSymbolValue: nat) {
    && 5 <= tableLog
    && (total < Pow2(tableLog) || 2 * maxSymbolValue < Pow2(tableLog))
  }

  lemma MinTableLogIs(tableLog: nat, total: nat, maxSymbolValue: nat)
    requires total > 0 && maxSymbolValue > 0
    ensures LargeEnough(tableLog, total, maxSymbolValue) <==>
      tableLog >= MIN_TABLELOG && tableLog >= MinTableLog(total, maxSymbolValue)
  {
    HighBitBelow(total, tableLog);
    HighBitBelow(2 * maxSymbolValue, tableLog);
    HighBitIs(2 * maxSymbolValue, HighBit(maxSymbolValue) + 1);
  }

  lemma HighBitBelow(x: nat, n: nat)
    requires x > 0
    ensures HighBit(x) < n <==> x < Pow2(n)
  {
    if HighBit(x) < n {
      Pow2Monotone(HighBit(x) + 1, n);
    } else {
      Pow2Monotone(n, HighBit(x));
    }
  }

  /** Share out the states of a table in about the proportion of the counts: exactly all states are given, and to
      exactly the symbols that occur. It fails exactly for tables that are too small, of the range or for the source,
      and tells apart a source of a single symbol. */
  method NormalizeCount(norm: array<int>, requested: nat, count: seq<nat>, total: nat, useLowProbCount: bool)
    returns (r: Outcome)
    requires Histogram(count, total) && norm.Length == |count|
    modifies norm
    ensures r.Done? ==> Normalized(norm[..], r.tableLog) && r.tableLog == if requested == 0 then 11 else requested
    ensures r.Done? ==> forall s :: 0 <= s < |count| ==> (norm[s] == 0 <==> count[s] == 0)
    ensures r.Done? ==>
      Distribution(norm[..], count, total, r.tableLog, if useLowProbCount then -1 else 1)
    ensures r.TableLogTooLarge? <==> requested > MAX_TABLELOG
    ensures r.Failed? <==> requested <= MAX_TABLELOG && !LargeEnough(TableLog(requested), total, |count| - 1)
    ensures r.Done? || r.SingleSymbol? ==> (r.SingleSymbol? <==> exists s :: 0 <= s < |count| && count[s] == total)
  {
    hide Shared, Normalized, Pow2, ShiftRight, MinTableLog, AreFirst, Largest, AreSecond, Distribution, Complete;
    var tableLog := TableLog(requested);
    MinTableLogIs(tableLog, total, |count| - 1);
    if tableLog < MIN_TABLELOG {
      return Failed;
    }
    if tableLog > MAX_TABLELOG {
      return TableLogTooLarge;
    }
    if tableLog < MinTableLog(total, |count| - 1) {
      return Failed;
    }
    var lowProbCount := if useLowProbCount then -1 else 1;
    SomeNotLow(count, total, tableLog);
    var single, still, largest := FirstMethod(norm, tableLog, count, total, lowProbCount);
    if single {
      return SingleSymbol;
    }
    ghost var shares := norm[..];
    FirstLargest(shares, count, total, tableLog, lowProbCount, still, largest);
    if -still >= norm[largest] / 2 {
      var ok := SecondMethod(norm, tableLog, count, total, lowProbCount);
      if !ok {
        assert false;
        return Failed;
      }
    } else {
      FirstIsComplete(shares, count, still, tableLog, ShiftRight(total, tableLog), largest);
      norm[largest] := norm[largest] + still;
      assert norm[..] == shares[largest := shares[largest] + still];
    }
    DistributionIs(norm[..], count, total, tableLog, lowProbCount, still, shares, largest);
    CompleteIsNormalized(norm[..], count, total, tableLog);
    return Done(tableLog);
  }
}
