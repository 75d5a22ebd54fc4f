/** How large a share of the table a symbol gets: the two ways of normalising, told by what they give to each count. */
module FseShares {
  import opened Pow2Lemmas
  import opened BitArithmetic
  import opened FseNorm

  // Totals up to this size are covered; blocks have at most 2^17 bytes.
  const TOTAL_MAX := 0x200_0000

  // ----- The first method -----

  /** A share of 1 to 7 states is rounded up for what it leaves over, told in millionths (2^-20) of a state. */
  ghost predicate RoundedUp(down: int, rest: int, millionth: int) {
    || (down == 1 && rest > 473195 * millionth)
    || (down == 2 && rest > 504333 * millionth)
    || (down == 3 && rest > 520860 * millionth)
    || (down == 4 && rest > 550000 * millionth)
    || (down == 5 && rest > 700000 * millionth)
    || (down == 6 && rest > 750000 * millionth)
    || (down == 7 && rest > 830000 * millionth)
  }

  /** The share of a count that is not low: its proportion in fixed point with 62 bits, rounded. */
  ghost predicate IsShare(c: nat, total: nat, tableLog: nat, v: int)
    requires total > 0 && tableLog <= MAX_TABLELOG
  {
    var exact, unit := c * (Pow2(62) / total), Pow2(62 - tableLog);
    var down, rest := exact / unit, exact % unit;
    v == if RoundedUp(down, rest, Pow2(42 - tableLog)) then down + 1 else down
  }

  /** What the first method gives to a count. */
  ghost predicate IsFirst(c: nat, total: nat, tableLog: nat, lowProbCount: int, v: int)
    requires total > 0 && tableLog <= MAX_TABLELOG
  {
    if c == 0 then v == 0
    else if c <= total / Pow2(tableLog) then v == lowProbCount
    else IsShare(c, total, tableLog, v)
  }

  ghost predicate AreFirst(norm: seq<int>, count: seq<nat>, n: nat, total: nat, tableLog: nat, lowProbCount: int)
    requires total > 0 && tableLog <= MAX_TABLELOG
  {
    && n <= |norm| == |count|
    && forall k :: 0 <= k < n ==> IsFirst(count[k], total, tableLog, lowProbCount, norm[k])
  }

  /** The first of those with the largest share, low counts left aside. */
  ghost predicate IsLargest(norm: seq<int>, count: seq<nat>, n: nat, low: nat, largest: nat) {
    && largest < n <= |norm| == |count| && count[largest] > low
    && (forall k :: 0 <= k < n && count[k] > low ==> norm[k] <= norm[largest])
    && (forall k :: 0 <= k < largest && count[k] > low ==> norm[k] < norm[largest])
  }

  lemma LargeUnit(tableLog: nat, total: nat)
    requires tableLog <= MAX_TABLELOG && total <= TOTAL_MAX
    ensures total * total <= Pow2(62 - tableLog)
    ensures Pow2(62) == Pow2(tableLog) * Pow2(62 - tableLog)
  {
    Pow2Add(tableLog, 62 - tableLog);
    Pow2Monotone(50, 62 - tableLog);
    Product(total, TOTAL_MAX, total);
    Product(total, TOTAL_MAX, TOTAL_MAX);
    Fifty();
  }

  lemma Fifty()
    ensures Pow2(50) == 0x200_0000 * 0x200_0000
  {
    var p := Pow2(10);
    assert p == 1024;
    Pow2Add(10, 10);
    Pow2Add(20, 20);
    Pow2Add(40, 10);
  }

  /** The share is within one state of the exact proportion. */
  lemma ShareIsClose(c: nat, total: nat, tableLog: nat, v: int)
    requires 0 < c <= total <= TOTAL_MAX && tableLog <= MAX_TABLELOG && IsShare(c, total, tableLog, v)
    ensures v * total <= c * Pow2(tableLog) + total && c * Pow2(tableLog) <= v * total + total
  {
    hide Pow2, RoundedUp;
    LargeUnit(tableLog, total);
    var unit, p := Pow2(62 - tableLog), Pow2(tableLog);
    var step: nat := Quotient(p * unit, total);
    var exact: nat := c * step;
    var down: nat := Quotient(exact, unit);
    Fraction(c, total, step, p, unit);
    RoundDown(exact, total, down, exact % unit, c * p, unit);
    Distribute(down, 1, total);
  }

  lemma Fraction(c: nat, total: nat, step: nat, p: nat, unit: nat)
    requires 0 < c <= total && total * total <= unit && step == (p * unit) / total
    ensures (c * step) * total <= (c * p) * unit <= (c * step) * total + unit
  {
    var x := p * unit;
    assert x == step * total + x % total;
    Product(step * total, x, c);
    Product(x, step * total + total, c);
    Product(c, total, total);
    Distribute(step * total, total, c);
    Associate(c, p, unit);
    Associate(c, step, total);
  }

  lemma RoundDown(exact: nat, total: nat, down: nat, rest: nat, share: nat, unit: nat)
    requires unit > 0 && total > 0 && exact == down * unit + rest && rest < unit
    requires exact * total <= share * unit <= exact * total + unit
    ensures down * total <= share <= (down + 1) * total
  {
    var low, high := down * total, (down + 1) * total;
    assert low * unit <= exact * total by {
      Product(down * unit, exact, total);
      Associate(down, unit, total);
      Associate(down, total, unit);
      assert unit * total == total * unit;
    }
    if share < low {
      Product(share + 1, low, unit);
      Distribute(share, 1, unit);
    }
    assert exact * total + total <= high * unit by {
      Product(exact + 1, (down + 1) * unit, total);
      Distribute(down, 1, unit);
      Distribute(exact, 1, total);
      Associate(down + 1, unit, total);
      Associate(down + 1, total, unit);
      assert unit * total == total * unit;
    }
    if share > high {
      Product(high + 1, share, unit);
      Distribute(high, 1, unit);
    }
  }

  // ----- The second method -----

  /** How many of the first n symbols occur, but no more often than the bar. */
  ghost function Below(count: seq<nat>, bar: nat, n: nat): (r: nat)
    requires n <= |count|
    ensures r <= n
  {
    if n == 0 then 0 else Below(count, bar, n - 1) + if 0 < count[n - 1] <= bar then 1 else 0
  }

  /** The counts among the first n symbols that are above the bar. */
  ghost function Above(count: seq<nat>, bar: nat, n: nat): nat
    requires n <= |count|
  {
    if n == 0 then 0 else Above(count, bar, n - 1) + if count[n - 1] > bar then count[n - 1] else 0
  }

  /** What the counts up to the bar get: no more than one state. */
  function SmallShare(c: nat, low: nat, lowProbCount: int): int {
    if c == 0 then 0 else if c <= low then lowProbCount else 1
  }

  /** How many of `todo` states the first x of `left` occurrences get: their proportion in fixed point, rounded to the
      nearer number. */
  function Rounded(x: nat, todo: nat, left: nat, tableLog: nat): int
    requires left > 0 && tableLog <= MAX_TABLELOG
  {
    var unit, half := Pow2(62 - tableLog), Pow2(61 - tableLog) - 1;
    (half + x * ((unit * todo + half) / left)) / unit
  }

  /** What symbol `k` gets, so that it and those before it have their part. */
  ghost function Portion(count: seq<nat>, bar: nat, k: nat, todo: nat, left: nat, tableLog: nat): int
    requires k < |count| && left > 0 && tableLog <= MAX_TABLELOG
  {
    Rounded(Above(count, bar, k + 1), todo, left, tableLog) - Rounded(Above(count, bar, k), todo, left, tableLog)
  }

  /** The counts above the bar share the states that are left in proportion. */
  ghost predicate InProportion(norm: seq<int>, count: seq<nat>, low: nat, bar: nat, lowProbCount: int, tableLog: nat,
                               todo: nat)
    requires tableLog <= MAX_TABLELOG
  {
    var left := Above(count, bar, |count|);
    && |norm| == |count| && left > 0
    && forall k :: 0 <= k < |count| ==>
      norm[k] ==
        if count[k] <= bar then SmallShare(count[k], low, lowProbCount)
        else Portion(count, bar, k, todo, left, tableLog)
  }

  /** The first symbol with the largest count takes what is left. */
  ghost predicate ToLargest(norm: seq<int>, count: seq<nat>, low: nat, lowProbCount: int, todo: nat) {
    && |norm| == |count|
    && exists m: nat ::
      && m < |count| && (forall k :: 0 <= k < |count| ==> count[k] <= count[m])
      && (forall k :: 0 <= k < m ==> count[k] < count[m])
      && forall k :: 0 <= k < |count| ==>
        norm[k] == SmallShare(count[k], low, lowProbCount) + if k == m then todo else 0
  }

  /** Those with a state of their own take turns: none has more than one state more than another, and the first ones
      have more. */
  ghost predicate InTurn(norm: seq<int>, count: seq<nat>, low: nat, lowProbCount: int) {
    && |norm| == |count|
    && (forall k :: 0 <= k < |count| && SmallShare(count[k], low, lowProbCount) <= 0 ==>
      norm[k] == SmallShare(count[k], low, lowProbCount))
    && (forall k :: 0 <= k < |count| && SmallShare(count[k], low, lowProbCount) > 0 ==> norm[k] > 0)
    && forall j, k :: 0 <= j < k < |count| && norm[j] > 0 && norm[k] > 0 ==> norm[k] <= norm[j] <= norm[k] + 1
  }

  /** What is given by the second method, once it is known which counts get one state. */
  ghost predicate SharedAbove(norm: seq<int>, count: seq<nat>, low: nat, bar: nat, lowProbCount: int, tableLog: nat)
    requires tableLog <= MAX_TABLELOG
  {
    var given := Below(count, bar, |count|);
    && given <= Pow2(tableLog)
    && if given == |count| then ToLargest(norm, count, low, lowProbCount, Pow2(tableLog) - given)
       else if Above(count, bar, |count|) == 0 then InTurn(norm, count, low, lowProbCount)
       else InProportion(norm, count, low, bar, lowProbCount, tableLog, Pow2(tableLog) - given)
  }

  /** Counts up to one and a half times an even share get one state. */
  function Bar(left: nat, todo: nat, once: nat): nat
    requires todo > 0
  {
    if left / todo > once then Quotient(3 * left, 2 * todo) else once
  }

  /** What is given by the second method: the even share is that of the whole source or, if that of what is left is
      larger, that. */
  ghost predicate AreSecond(norm: seq<int>, count: seq<nat>, total: nat, tableLog: nat, lowProbCount: int)
    requires tableLog <= MAX_TABLELOG
  {
    var once := Quotient(3 * total, 2 * Pow2(tableLog));
    var given := Below(count, once, |count|);
    && given < Pow2(tableLog)
    && SharedAbove(norm, count, Quotient(total, Pow2(tableLog)),
                   Bar(Above(count, once, |count|), Pow2(tableLog) - given, once), lowProbCount, tableLog)
  }

  /** However many of the first symbols one takes, together they are within one state of their exact share. */
  lemma RoundedIsClose(x: nat, todo: nat, left: nat, tableLog: nat)
    requires 0 < left <= TOTAL_MAX && tableLog <= MAX_TABLELOG && x <= left
    ensures Rounded(x, todo, left, tableLog) * left < x * todo + left
    ensures 2 * (x * todo) <= 2 * (Rounded(x, todo, left, tableLog) * left) + left
  {
    hide Pow2;
    HalfAUnit(tableLog);
    var unit, half: nat := Pow2(62 - tableLog), Pow2(61 - tableLog) - 1;
    RoundingIsClose(x, todo, left, unit, half);
  }

  lemma HalfAUnit(tableLog: nat)
    requires tableLog <= MAX_TABLELOG
    ensures Pow2(62 - tableLog) == 2 * Pow2(61 - tableLog) && Pow2(61 - tableLog) > TOTAL_MAX
  {
    Pow2Monotone(50, 62 - tableLog);
    Fifty();
  }

  lemma RoundingIsClose(x: nat, todo: nat, left: nat, unit: nat, half: nat)
    requires 0 < left <= half && unit == 2 * half + 2 && x <= left
    ensures var rounded := (half + x * ((unit * todo + half) / left)) / unit;
      rounded * left < x * todo + left && 2 * (x * todo) <= 2 * (rounded * left) + left
  {
    var r: nat := Quotient(unit * todo + half, left);
    var rounded: nat := Quotient(half + x * r, unit);
    PerUnit(unit * todo, half, left, r);
    assert half + x * r == rounded * unit + (half + x * r) % unit;
    NotAbove(x, todo, left, unit, half, r, rounded);
    NotBelow(x, todo, left, unit, half, r, rounded);
  }

  lemma PerUnit(states: nat, half: nat, left: nat, r: nat)
    requires 0 < left <= half && r == Quotient(states + half, left)
    ensures states <= r * left <= states + half
  {
    assert states + half == r * left + (states + half) % left;
  }

  lemma NotAbove(x: nat, todo: nat, left: nat, unit: nat, half: nat, r: nat, rounded: int)
    requires x <= left && left > 0 && unit == 2 * half + 2 && r * left <= unit * todo + half
    requires rounded * unit <= half + x * r
    ensures rounded * left < x * todo + left
  {
    assert (rounded * left) * unit <= half * left + x * (r * left) by {
      Product(rounded * unit, half + x * r, left);
      Distribute(half, x * r, left);
      Associate(x, r, left);
      Exchange(rounded, unit, left);
    }
    assert x * (r * left) <= (x * todo) * unit + left * half by {
      Product(r * left, unit * todo + half, x);
      Distribute(unit * todo, half, x);
      Exchange(x, todo, unit);
      Associate(x, unit, todo);
      Product(x, left, half);
    }
    if rounded * left >= x * todo + left {
      Product(x * todo + left, rounded * left, unit);
      Distribute(x * todo, left, unit);
      Distribute(2 * half, 2, left);
    }
  }

  lemma NotBelow(x: nat, todo: nat, left: nat, unit: nat, half: nat, r: nat, rounded: int)
    requires unit == 2 * half + 2 && unit * todo <= r * left && half + x * r < rounded * unit + unit
    ensures 2 * (x * todo) <= 2 * (rounded * left) + left
  {
    assert (x * todo) * unit <= (x * r) * left by {
      Product(unit * todo, r * left, x);
      Exchange(x, todo, unit);
      Associate(x, unit, todo);
      Associate(x, r, left);
    }
    assert (x * r) * left <= (rounded * left) * unit + (half + 1) * left by {
      Product(x * r, rounded * unit + half + 1, left);
      Distribute(rounded * unit, half + 1, left);
      Exchange(rounded, unit, left);
    }
    var high := 2 * (rounded * left) + left;
    if 2 * (x * todo) > high {
      Product(high + 1, 2 * (x * todo), unit);
      Distribute(high, 1, unit);
      Distribute(2 * (rounded * left), left, unit);
      Distribute(half + 1, half + 1, left);
      Associate(2, rounded * left, unit);
      Associate(2, x * todo, unit);
    }
  }

  lemma Exchange(a: int, b: int, c: int)
    ensures (a * b) * c == (a * c) * b
  {
  }
}
