/** How close a normalised distribution is to the counts it is made from. */
module FseProportion {
  import opened Pow2Lemmas
  import opened BitArithmetic
  import opened FseNorm
  import opened FseShares
  import opened FseNormalize

  // ----- The first method -----

  lemma NotLargest(norm: seq<int>, count: seq<nat>, total: nat, tableLog: nat, lowProbCount: int, shares: seq<int>,
                   largest: nat, s: nat)
    requires Histogram(count, total) && tableLog <= MAX_TABLELOG
    requires SharedOut(norm, count, total, tableLog, lowProbCount, shares, largest)
    requires GivenAll(shares) - Pow2(tableLog) < shares[largest] / 2
    requires s < |count| && s != largest
    ensures |norm| == |count| && IsFirst(count[s], total, tableLog, lowProbCount, norm[s]) && count[s] <= total
  {
    hide IsFirst, AreSecond, Pow2, GivenAll, Sum;
    SumAtLeast(count, s);
  }

  /** Apart from the largest one, the first method's shares are within one state of the exact proportion. */
  lemma FirstIsClose(norm: seq<int>, count: seq<nat>, total: nat, tableLog: nat, lowProbCount: int, shares: seq<int>,
                     largest: nat, s: nat)
    requires Histogram(count, total) && tableLog <= MAX_TABLELOG
    requires SharedOut(norm, count, total, tableLog, lowProbCount, shares, largest)
    requires GivenAll(shares) - Pow2(tableLog) < shares[largest] / 2
    requires s < |count| && s != largest && count[s] > total / Pow2(tableLog)
    ensures |norm| == |count| && norm[s] * total <= count[s] * Pow2(tableLog) + total
    ensures count[s] * Pow2(tableLog) <= norm[s] * total + total
  {
    NotLargest(norm, count, total, tableLog, lowProbCount, shares, largest, s);
    HighShareIsClose(count[s], total, tableLog, lowProbCount, norm[s]);
  }

  lemma HighShareIsClose(c: nat, total: nat, tableLog: nat, lowProbCount: int, v: int)
    requires 0 < total <= TOTAL_MAX && c <= total && tableLog <= MAX_TABLELOG
    requires IsFirst(c, total, tableLog, lowProbCount, v) && c > total / Pow2(tableLog)
    ensures v * total <= c * Pow2(tableLog) + total && c * Pow2(tableLog) <= v * total + total
  {
    hide IsShare, Pow2;
    ShareIsClose(c, total, tableLog, v);
  }

  // ----- The second method -----

  /** The shares that are given in proportion are within one and a half states of it. */
  lemma PortionIsClose(count: seq<nat>, bar: nat, k: nat, todo: nat, left: nat, tableLog: nat)
    requires k < |count| && count[k] > bar && left == Above(count, bar, |count|) <= TOTAL_MAX
    requires tableLog <= MAX_TABLELOG
    ensures left > 0 && 2 * (Portion(count, bar, k, todo, left, tableLog) * left) <= 2 * (count[k] * todo) + 3 * left
    ensures 2 * (count[k] * todo) <= 2 * (Portion(count, bar, k, todo, left, tableLog) * left) + 3 * left
  {
    AboveGrows(count, bar, k + 1, |count|);
    var before, after := Above(count, bar, k), Above(count, bar, k + 1);
    assert after == before + count[k];
    RoundedIsClose(before, todo, left, tableLog);
    RoundedIsClose(after, todo, left, tableLog);
    var a, b := Rounded(before, todo, left, tableLog), Rounded(after, todo, left, tableLog);
    assert Portion(count, bar, k, todo, left, tableLog) == b - a;
    Differences(a, b, before, count[k], left, todo);
  }

  lemma Differences(a: int, b: int, before: nat, c: nat, left: nat, todo: nat)
    requires a * left < before * todo + left && 2 * (before * todo) <= 2 * (a * left) + left
    requires b * left < (before + c) * todo + left && 2 * ((before + c) * todo) <= 2 * (b * left) + left
    ensures 2 * ((b - a) * left) <= 2 * (c * todo) + 3 * left && 2 * (c * todo) <= 2 * ((b - a) * left) + 3 * left
  {
    Distribute(before, c, todo);
    Distribute(b, -a, left);
    Distribute(a, -a, left);
  }

  lemma {:induction false} AboveGrows(count: seq<nat>, bar: nat, m: nat, n: nat)
    requires m <= n <= |count|
    ensures Above(count, bar, m) <= Above(count, bar, n)
    decreases n
  {
    if m < n {
      AboveGrows(count, bar, m, n - 1);
    }
  }

  // ----- Low counts -----

  /** The counts up to a bar add up to no more than so many times the bar. */
  lemma {:induction false} BelowSum(count: seq<nat>, bar: nat, n: nat)
    requires n <= |count|
    ensures Sum(count[..n]) <= Below(count, bar, n) * bar + Above(count, bar, n)
  {
    if n > 0 {
      BelowSum(count, bar, n - 1);
      SumSnoc(count, n - 1);
      Distribute(Below(count, bar, n - 1), 1, bar);
    }
  }

  /** So do those above one bar and up to a higher one. */
  lemma {:induction false} BetweenSum(count: seq<nat>, once: nat, bar: nat, n: nat)
    requires n <= |count| && once <= bar
    ensures Above(count, once, n) <= (n - Below(count, once, n)) * bar + Above(count, bar, n)
  {
    if n > 0 {
      BetweenSum(count, once, bar, n - 1);
      Distribute(n - 1 - Below(count, once, n - 1), 1, bar);
    }
  }

  lemma TooFewStates(k: nat, bar: nat, x: nat, t: nat)
    requires 0 < x <= k * bar && bar * (2 * t) <= 3 * x
    ensures 2 * t <= 3 * k
  {
    Product(x, k * bar, 2 * t);
    Associate(k, bar, 2 * t);
    Product(bar * (2 * t), 3 * x, k);
    assert k * (3 * x) == (3 * k) * x && x * (2 * t) == (2 * t) * x;
    if 2 * t > 3 * k {
      Product(3 * k + 1, 2 * t, x);
      Distribute(3 * k, 1, x);
    }
  }

  lemma OneAndAHalfTimes(x: nat, t: nat)
    requires t > 0
    ensures Quotient(3 * x, 2 * t) * (2 * t) <= 3 * x
  {
    assert 3 * x == (3 * x) / (2 * t) * (2 * t) + (3 * x) % (2 * t);
  }

  /** In a table twice as large as the alphabet some count is above the bar. */
  lemma SomeAbove(count: seq<nat>, total: nat, p: nat)
    requires Histogram(count, total) && 2 * |count| <= p
    ensures var once := Quotient(3 * total, 2 * p);
      Above(count, Bar(Above(count, once, |count|), p - Below(count, once, |count|), once), |count|) > 0
  {
    var n, once := |count|, Quotient(3 * total, 2 * p);
    var given, left := Below(count, once, n), Above(count, once, n);
    hide Below, Above, Bar;
    BarIs(left, p - given, once);
    var bar := Bar(left, p - given, once);
    hide Sum, Quotient;
    if Above(count, bar, n) == 0 {
      if bar == once {
        NoneAboveOnce(count, total, once, p);
      } else {
        OneAndAHalfTimes(left, p - given);
        BetweenSum(count, once, bar, n);
        AboveNone(left, p - given, once);
        TooFewStates(n - given, bar, left, p - given);
      }
    }
  }

  lemma AboveNone(left: nat, todo: nat, once: nat)
    requires todo > 0 && Quotient(left, todo) > once
    ensures left > 0
  {
    if left == 0 {
      DivideIs(left, todo, 0, 0);
    }
  }

  lemma NoneAboveOnce(count: seq<nat>, total: nat, once: nat, p: nat)
    requires Histogram(count, total) && p > 0 && once == Quotient(3 * total, 2 * p)
    requires Above(count, once, |count|) == 0
    ensures 2 * p <= 3 * |count|
  {
    var n := |count|;
    assert count[..n] == count;
    BelowSum(count, once, n);
    hide Below, Above, Sum, Quotient;
    Product(Below(count, once, n), n, once);
    OneAndAHalfTimes(total, p);
    TooFewStates(n, once, total, p);
  }

  /** A low count gets one state, or the mark of a low probability, in both methods. */
  lemma LowCounts(norm: seq<int>, count: seq<nat>, total: nat, tableLog: nat, lowProbCount: int, s: nat)
    requires Histogram(count, total) && MinTableLog(total, |count| - 1) <= tableLog <= MAX_TABLELOG
    requires Distribution(norm, count, total, tableLog, lowProbCount) && (lowProbCount == 1 || lowProbCount == -1)
    requires s < |count| && 0 < count[s] <= total / Pow2(tableLog)
    ensures |norm| == |count| && norm[s] == lowProbCount
  {
    var shares, largest :| SharedOut(norm, count, total, tableLog, lowProbCount, shares, largest);
    if GivenAll(shares) - Pow2(tableLog) < shares[largest] / 2 {
      NotLargest(norm, count, total, tableLog, lowProbCount, shares, largest, s);
    } else {
      SecondLow(norm, count, total, tableLog, lowProbCount, largest, s);
    }
  }

  lemma SecondLow(norm: seq<int>, count: seq<nat>, total: nat, tableLog: nat, lowProbCount: int, largest: nat, s: nat)
    requires Histogram(count, total) && MinTableLog(total, |count| - 1) <= tableLog <= MAX_TABLELOG
    requires AreSecond(norm, count, total, tableLog, lowProbCount) && (lowProbCount == 1 || lowProbCount == -1)
    requires largest < |count| && count[largest] > total / Pow2(tableLog)
    requires s < |count| && 0 < count[s] <= total / Pow2(tableLog)
    ensures |norm| == |count| && norm[s] == lowProbCount
  {
    hide HighBit, MinTableLog, Sum, Below, Above, Bar, SharedAbove, Pow2;
    SmallTable(total, |count| - 1, tableLog);
    LowIsBelow(total, tableLog);
    SomeAbove(count, total, Pow2(tableLog));
    var low, once := Quotient(total, Pow2(tableLog)), Quotient(3 * total, 2 * Pow2(tableLog));
    assert low == total / Pow2(tableLog) && low <= once;
    hide Quotient;
    var given, left := Below(count, once, |count|), Above(count, once, |count|);
    BarIs(left, Pow2(tableLog) - given, once);
    SharedLow(norm, count, low, Bar(left, Pow2(tableLog) - given, once), lowProbCount, tableLog, largest, s);
  }

  lemma SharedLow(norm: seq<int>, count: seq<nat>, low: nat, bar: nat, lowProbCount: int, tableLog: nat, largest: nat,
                  s: nat)
    requires tableLog <= MAX_TABLELOG && SharedAbove(norm, count, low, bar, lowProbCount, tableLog)
    requires Above(count, bar, |count|) > 0 && low <= bar
    requires largest < |count| && count[largest] > low && s < |count| && 0 < count[s] <= low
    ensures |norm| == |count| && norm[s] == lowProbCount
  {
    hide Pow2, Below, Above, Portion;
  }

  lemma SmallTable(total: nat, maxSymbolValue: nat, tableLog: nat)
    requires total > 0 && maxSymbolValue > 0 && tableLog >= MinTableLog(total, maxSymbolValue)
    requires total / Pow2(tableLog) > 0
    ensures 2 * (maxSymbolValue + 1) <= Pow2(tableLog)
  {
    hide HighBit;
    if tableLog >= HighBit(total) + 1 {
      Pow2Monotone(HighBit(total) + 1, tableLog);
      DivideIs(total, Pow2(tableLog), 0, total);
    } else {
      LargeTable(maxSymbolValue, tableLog);
    }
  }
}
