/** Why always merging the two lowest counts gives a code that no other one beats. */
module HufOptimal {
  import opened Pow2Lemmas
  import opened BitArithmetic
  import opened Counting
  import opened HufMaxHeight

  /** Lengths that the words of some code can have: they meet Kraft's inequality. */
  ghost predicate Feasible(m: seq<nat>, top: nat) {
    AtMost(m, top) && Kraft(m, top) <= Pow2(top)
  }

  /** The bits it takes to write every symbol as often as it occurs. */
  ghost function Cost(w: seq<nat>, m: seq<nat>): nat
    requires |w| == |m|
    decreases |w|
  {
    if w == [] then 0 else Cost(w[..|w| - 1], m[..|m| - 1]) + w[|w| - 1] * m[|m| - 1]
  }

  lemma {:induction false} CostUpdate(w: seq<nat>, m: seq<nat>, i: nat, v: nat)
    requires |w| == |m| && i < |m|
    ensures Cost(w, m[i := v]) + w[i] * m[i] == Cost(w, m) + w[i] * v
    decreases |w|
  {
    var now, front := m[i := v], m[..|m| - 1];
    if i == |m| - 1 {
      assert now[..|m| - 1] == front;
    } else {
      assert now[..|m| - 1] == front[i := v];
      CostUpdate(w[..|w| - 1], front, i, v);
    }
  }

  lemma {:induction false} CostConcat(w: seq<nat>, m: seq<nat>, v: seq<nat>, n: seq<nat>)
    requires |w| == |m| && |v| == |n|
    ensures Cost(w + v, m + n) == Cost(w, m) + Cost(v, n)
    decreases |v|
  {
    if v == [] {
      assert w + v == w && m + n == m;
    } else {
      CostConcat(w, m, v[..|v| - 1], n[..|n| - 1]);
      assert (w + v)[..|w + v| - 1] == w + v[..|v| - 1] && (m + n)[..|m + n| - 1] == m + n[..|n| - 1];
    }
  }

  lemma {:induction false} KraftConcat(m: seq<nat>, n: seq<nat>, top: nat)
    requires AtMost(m, top) && AtMost(n, top)
    ensures AtMost(m + n, top) && Kraft(m + n, top) == Kraft(m, top) + Kraft(n, top)
    decreases |n|
  {
    if n == [] {
      assert m + n == m;
    } else {
      KraftConcat(m, n[..|n| - 1], top);
      assert (m + n)[..|m + n| - 1] == m + n[..|n| - 1];
    }
  }

  // ----- The two lowest counts may have the longest words -----

  lemma SwapCost(a: nat, x: nat, short: nat, long: nat)
    requires a <= x && short <= long
    ensures a * long + x * short <= a * short + x * long
  {
    var d, e := long - short, x - a;
    assert x * long - x * short == x * d && a * long - a * short == a * d;
    Product(a, x, d);
  }

  /** A longer word for the lower count costs no more. */
  lemma Swap(w: seq<nat>, m: seq<nat>, a: nat, x: nat, top: nat) returns (now: seq<nat>)
    requires |w| == |m| && a < |m| && x < |m| && w[a] <= w[x] && m[a] <= m[x] && Feasible(m, top)
    ensures now == m[a := m[x]][x := m[a]]
    ensures Feasible(now, top) && Cost(w, now) <= Cost(w, m) && Kraft(now, top) == Kraft(m, top)
  {
    var half := m[a := m[x]];
    now := half[x := m[a]];
    KraftUpdate(m, top, a, m[x]);
    KraftUpdate(half, top, x, m[a]);
    CostUpdate(w, m, a, m[x]);
    CostUpdate(w, half, x, m[a]);
    SwapCost(w[a], w[x], m[a], m[x]);
  }

  lemma Longest(m: seq<nat>) returns (x: nat)
    requires m != []
    ensures x < |m| && forall i :: 0 <= i < |m| ==> m[i] <= m[x]
  {
    x := 0;
    for n := 0 to |m|
      invariant x < |m| && forall i :: 0 <= i < n ==> m[i] <= m[x]
    {
      if m[n] > m[x] {
        x := n;
      }
    }
  }

  /** A single word of the greatest length leaves space beside it. */
  lemma RoomBeside(m: seq<nat>, long: nat, a: nat, top: nat)
    requires Feasible(m, top) && AtMost(m, long) && 1 <= long <= top && a < |m| && m[a] == long
    requires forall i :: 0 <= i < |m| && i != a ==> m[i] != long
    ensures Kraft(m, top) + Pow2(top - long) <= Pow2(top)
  {
    hide Kraft;
    var x := KraftModulo(m, long, 1);
    Single(m, a, long);
    var unit, k := Pow2(top - long), Kraft(m, long);
    assert k == 1 + 2 * x;
    KraftScale(m, long, top - long);
    assert long + (top - long) == top;
    Pow2Add(long, top - long);
    assert Pow2(long) == 2 * Pow2(long - 1);
    if k > Pow2(long) {
      Product(Pow2(long) + 1, k, unit);
      Distribute(Pow2(long), 1, unit);
    }
    Product(k + 1, Pow2(long), unit);
    Distribute(k, 1, unit);
  }

  lemma {:induction false} Single(m: seq<nat>, a: nat, v: nat)
    requires a < |m| && m[a] == v && forall i :: 0 <= i < |m| && i != a ==> m[i] != v
    ensures Count<nat>(m, v) == 1
    decreases |m|
  {
    if a < |m| - 1 {
      Single(m[..|m| - 1], a, v);
    } else {
      CountPositive<nat>(m[..|m| - 1], v);
    }
  }

  lemma {:induction false} EmptyWords(m: seq<nat>, top: nat)
    requires forall i :: 0 <= i < |m| ==> m[i] == 0
    ensures AtMost(m, top) && Kraft(m, top) == |m| * Pow2(top)
    decreases |m|
  {
    if m != [] {
      EmptyWords(m[..|m| - 1], top);
      Distribute(|m| - 1, 1, Pow2(top));
    }
  }

  /** Of two words one is not empty. */
  lemma NotEmpty(m: seq<nat>, top: nat)
    requires Feasible(m, top) && |m| >= 2
    ensures !(forall i :: 0 <= i < |m| ==> m[i] == 0)
  {
    if forall i :: 0 <= i < |m| ==> m[i] == 0 {
      EmptyWords(m, top);
      Product(2, |m|, Pow2(top));
    }
  }

  /** For any code there is one that costs no more and in which the two lowest counts have words of the same length. */
  lemma {:induction false} Exchange(w: seq<nat>, m: seq<nat>, a: nat, b: nat, top: nat) returns (r: seq<nat>)
    requires |w| == |m| && a < |m| && b < |m| && a != b && Feasible(m, top)
    requires forall i :: 0 <= i < |w| ==> w[a] <= w[i]
    requires forall i :: 0 <= i < |w| && i != a ==> w[b] <= w[i]
    ensures |r| == |m| && Feasible(r, top) && r[a] == r[b] > 0 && Cost(w, r) <= Cost(w, m)
    decreases Pow2(top) - Kraft(m, top)
  {
    hide Kraft, Cost, Pow2;
    NotEmpty(m, top);
    var x := Longest(m);
    var long := m[x];
    r := Swap(w, m, a, x, top);
    assert r[a] == long;
    if r[b] < long {
      if y :| 0 <= y < |r| && y != a && r[y] == long {
        r := Swap(w, r, b, y, top);
      } else {
        RoomBeside(r, long, a, top);
        var less := r[a := long - 1];
        KraftUpdate(r, top, a, long - 1);
        CostUpdate(w, r, a, long - 1);
        Product(long - 1, long, w[a]);
        assert w[a] * (long - 1) == (long - 1) * w[a] && w[a] * long == long * w[a];
        Pow2Halves(top, long);
        r := Exchange(w, less, a, b, top);
      }
    }
  }

  lemma Pow2Halves(top: nat, long: nat)
    requires 1 <= long <= top
    ensures Pow2(top - (long - 1)) == 2 * Pow2(top - long)
  {
  }

  // ----- Merging -----

  /** The counts after those at places q and q + 1 are merged. */
  ghost function Merged(w: seq<nat>, q: nat): seq<nat>
    requires q + 1 < |w|
  {
    w[..q] + w[q + 2..] + [w[q] + w[q + 1]]
  }

  lemma Alone(a: nat, v: nat, top: nat)
    requires v <= top
    ensures AtMost([v], top) && Kraft([v], top) == Pow2(top - v) && Cost([a], [v]) == a * v
  {
    assert [v][..0] == [] && [a][..0] == [];
  }

  lemma Pair(a: nat, b: nat, v: nat, top: nat)
    requires v <= top
    ensures AtMost([v, v], top) && Kraft([v, v], top) == 2 * Pow2(top - v)
    ensures Cost([a, b], [v, v]) == (a + b) * v
  {
    Alone(a, v, top);
    Alone(b, v, top);
    assert [v, v] == [v] + [v] && [a, b] == [a] + [b];
    KraftConcat([v], [v], top);
    CostConcat([a], [v], [b], [v]);
    Distribute(a, b, v);
  }

  /** Two words of the same length become one that is one bit shorter. */
  lemma MergeWords(w: seq<nat>, m: seq<nat>, q: nat, top: nat) returns (r: seq<nat>)
    requires |w| == |m| && q + 1 < |m| && Feasible(m, top) && m[q] == m[q + 1] > 0
    ensures |r| == |m| - 1 && Feasible(r, top) && Cost(w, m) == w[q] + w[q + 1] + Cost(Merged(w, q), r)
  {
    hide Kraft, Cost, Pow2;
    var v := m[q];
    var front, pair, rest := m[..q], [v, v], m[q + 2..];
    assert m == front + pair + rest && w == w[..q] + [w[q], w[q + 1]] + w[q + 2..];
    r := front + rest + [v - 1];
    Pair(w[q], w[q + 1], v, top);
    Alone(w[q] + w[q + 1], v - 1, top);
    KraftConcat(front, pair, top);
    KraftConcat(front + pair, rest, top);
    KraftConcat(front, rest, top);
    KraftConcat(front + rest, [v - 1], top);
    CostConcat(w[..q], front, [w[q], w[q + 1]], pair);
    CostConcat(w[..q] + [w[q], w[q + 1]], front + pair, w[q + 2..], rest);
    CostConcat(w[..q], front, w[q + 2..], rest);
    CostConcat(w[..q] + w[q + 2..], front + rest, [w[q] + w[q + 1]], [v - 1]);
    Pow2Halves(top, v);
    OneLess(w[q] + w[q + 1], v);
  }

  lemma OneLess(a: nat, v: nat)
    requires v > 0
    ensures a * v == a + a * (v - 1)
  {
  }

  // ----- The bound -----

  /** The lengths of a code for n symbols, no word longer than `top`. */
  ghost predicate Lengths(m: seq<nat>, n: nat, top: nat) {
    |m| == n && Feasible(m, top)
  }

  /** Any code for the counts `w` costs `spent` more than some code for the counts `rest` that they are merged to. */
  ghost predicate Bounds(w: seq<nat>, rest: seq<nat>, spent: nat) {
    forall m, top :: Lengths(m, |w|, top) ==>
      (exists r :: Lengths(r, |rest|, top) && Cost(w, m) >= spent + Cost(rest, r))
  }

  lemma StartBounds(w: seq<nat>)
    ensures Bounds(w, w, 0)
  {
  }

  /** Neighbouring places whose counts are the two lowest. */
  ghost predicate Lowest(w: seq<nat>, q: nat) {
    && q + 1 < |w|
    && forall i :: 0 <= i < |w| && i != q && i != q + 1 ==> w[q] <= w[i] && w[q + 1] <= w[i]
  }

  lemma MergeBounds(w: seq<nat>, rest: seq<nat>, spent: nat, q: nat)
    requires Bounds(w, rest, spent) && Lowest(rest, q)
    ensures Bounds(w, Merged(rest, q), spent + rest[q] + rest[q + 1])
  {
    hide Feasible, Cost;
    forall m, top | Lengths(m, |w|, top)
      ensures exists r ::
        && Lengths(r, |Merged(rest, q)|, top)
        && Cost(w, m) >= spent + rest[q] + rest[q + 1] + Cost(Merged(rest, q), r)
    {
      var r :| Lengths(r, |rest|, top) && Cost(w, m) >= spent + Cost(rest, r);
      var a, b := if rest[q] <= rest[q + 1] then q else q + 1, if rest[q] <= rest[q + 1] then q + 1 else q;
      var level := Exchange(rest, r, a, b, top);
      var less := MergeWords(rest, level, q, top);
      assert Lengths(less, |Merged(rest, q)|, top);
    }
  }

  /** When all is merged, no code costs less than what was spent. */
  lemma BoundsAll(w: seq<nat>, rest: seq<nat>, spent: nat, m: seq<nat>, top: nat)
    requires Bounds(w, rest, spent) && |m| == |w| && Feasible(m, top)
    ensures Cost(w, m) >= spent
  {
    assert Lengths(m, |w|, top);
  }

  // ----- Every code in which no word begins another -----

  /** Words v[i] of m[i] bits, none of which is the beginning of another. */
  ghost predicate PrefixCode(v: seq<nat>, m: seq<nat>) {
    && |v| == |m| && (forall i :: 0 <= i < |v| ==> v[i] < Pow2(m[i]))
    && forall i, j :: 0 <= i < |v| && 0 <= j < |v| && i != j && m[j] <= m[i] ==> ShiftRight(v[i], m[i] - m[j]) != v[j]
  }

  /** The numbers of `top` bits that begin with a word. */
  ghost function Beginning(v: nat, n: nat, top: nat): set<nat>
    requires n <= top
  {
    var d := top - n;
    set x: nat | x < (v + 1) * Pow2(d) && Begins(x, v, d)
  }

  ghost predicate Begins(x: nat, v: nat, d: nat) {
    ShiftRight(x, d) == v
  }

  ghost predicate Within(x: nat, a: nat, n: nat) {
    a <= x < a + n
  }

  ghost function Interval(a: nat, n: nat): set<nat> {
    set x: nat | x < a + n && Within(x, a, n)
  }

  lemma {:induction false} IntervalSize(a: nat, n: nat)
    ensures |Interval(a, n)| == n
  {
    if n > 0 {
      IntervalSize(a, n - 1);
      assert Interval(a, n) == Interval(a, n - 1) + {a + n - 1};
    }
  }

  lemma BeginsWithin(x: nat, v: nat, p: nat)
    requires p > 0
    ensures Within(x, v * p, p) <==> x / p == v
  {
    if Within(x, v * p, p) {
      DivideIs(x, p, v, x - v * p);
    }
    if x / p == v {
      assert x == (x / p) * p + x % p;
    }
  }

  lemma BeginningSize(v: nat, n: nat, top: nat)
    requires n <= top && v < Pow2(n)
    ensures |Beginning(v, n, top)| == Pow2(top - n)
    ensures Beginning(v, n, top) <= Interval(0, Pow2(top))
  {
    hide Pow2;
    var p := Pow2(top - n);
    IntervalSize(v * p, p);
    Distribute(v, 1, p);
    assert Beginning(v, n, top) == Interval(v * p, p) by {
      forall x: nat ensures Within(x, v * p, p) <==> Begins(x, v, top - n) {
        BeginsWithin(x, v, p);
      }
    }
    Pow2Add(n, top - n);
    Product(v + 1, Pow2(n), p);
    forall x | x in Beginning(v, n, top) ensures Within(x, 0, Pow2(top)) {
    }
  }

  lemma Disjoint(v: seq<nat>, m: seq<nat>, i: nat, j: nat, top: nat)
    requires PrefixCode(v, m) && AtMost(m, top) && i < |v| && j < |v| && i != j && m[j] <= m[i]
    ensures Beginning(v[i], m[i], top) !! Beginning(v[j], m[j], top)
  {
    forall x | x in Beginning(v[i], m[i], top) ensures x !in Beginning(v[j], m[j], top) {
      var d := m[i] - m[j];
      assert (top - m[i]) + d == top - m[j];
      Shifts(x, top - m[i], d);
      assert ShiftRight(v[i], d) == x / Pow2(top - m[j]);
    }
  }

  /** All numbers that begin with one of the first n words. */
  ghost function Covered(v: seq<nat>, m: seq<nat>, n: nat, top: nat): set<nat>
    requires n <= |v| == |m| && AtMost(m, top)
  {
    if n == 0 then {} else Covered(v, m, n - 1, top) + Beginning(v[n - 1], m[n - 1], top)
  }

  lemma {:induction false} CoveredBy(v: seq<nat>, m: seq<nat>, n: nat, top: nat, x: nat) returns (i: nat)
    requires n <= |v| == |m| && AtMost(m, top) && x in Covered(v, m, n, top)
    ensures i < n && x in Beginning(v[i], m[i], top)
  {
    if x in Beginning(v[n - 1], m[n - 1], top) {
      i := n - 1;
    } else {
      i := CoveredBy(v, m, n - 1, top, x);
    }
  }

  lemma {:induction false} CoveredSize(v: seq<nat>, m: seq<nat>, n: nat, top: nat)
    requires PrefixCode(v, m) && AtMost(m, top) && n <= |v|
    ensures |Covered(v, m, n, top)| == Kraft(m[..n], top) && Covered(v, m, n, top) <= Interval(0, Pow2(top))
  {
    hide Beginning, PrefixCode, Interval;
    if n > 0 {
      CoveredSize(v, m, n - 1, top);
      WordFits(v, m, n - 1);
      BeginningSize(v[n - 1], m[n - 1], top);
      var before, more := Covered(v, m, n - 1, top), Beginning(v[n - 1], m[n - 1], top);
      if !(before !! more) {
        var x :| x in before && x in more;
        var i := CoveredBy(v, m, n - 1, top, x);
        if m[n - 1] <= m[i] {
          Disjoint(v, m, i, n - 1, top);
        } else {
          Disjoint(v, m, n - 1, i, top);
        }
      }
      assert m[..n][..n - 1] == m[..n - 1];
    }
  }

  lemma WordFits(v: seq<nat>, m: seq<nat>, i: nat)
    requires PrefixCode(v, m) && i < |v|
    ensures |v| == |m| && v[i] < Pow2(m[i])
  {
  }

  lemma {:induction false} SubsetSize(a: set<nat>, b: set<nat>)
    requires a <= b
    ensures |a| <= |b|
    decreases |a|
  {
    if a != {} {
      var x :| x in a;
      SubsetSize(a - {x}, b - {x});
    }
  }

  /** Kraft's inequality: the lengths of any such code are feasible. */
  lemma PrefixCodesAreFeasible(v: seq<nat>, m: seq<nat>, top: nat)
    requires PrefixCode(v, m) && AtMost(m, top)
    ensures Feasible(m, top)
  {
    hide PrefixCode;
    assert |v| == |m| by {
      SameSize(v, m);
    }
    CoveredSize(v, m, |v|, top);
    assert m[..|v|] == m;
    IntervalSize(0, Pow2(top));
    SubsetSize(Covered(v, m, |v|, top), Interval(0, Pow2(top)));
  }

  lemma SomeTop(m: seq<nat>) returns (top: nat)
    ensures AtMost(m, top)
  {
    top := 0;
    if m != [] {
      var x := Longest(m);
      top := m[x];
    }
  }

  lemma SameSize(v: seq<nat>, m: seq<nat>)
    requires PrefixCode(v, m)
    ensures |v| == |m|
  {
  }
}
