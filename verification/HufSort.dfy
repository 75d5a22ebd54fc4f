/** Sorting the symbols by how often they occur: by buckets, and within a bucket by quicksort or insertion. */
module HufSort {
  import opened Pow2Lemmas
  import opened Counting

  datatype Node = Node(count: nat, byte: nat)

  const TABLE_SIZE: nat := 192
  const LOG_BUCKETS_BEGIN: nat := 158
  // 158 and the position of the highest bit of 158.
  const DISTINCT_COUNT_CUTOFF: nat := 165
  const COUNT_LIMIT: nat := 0x1_0000_0000
  const INSERTION_SORT_THRESHOLD := 8

  // ----- What sorting keeps -----

  /** The nodes are the symbols, each once. */
  ghost predicate Symbols(s: seq<Node>, count: seq<nat>) {
    && |s| == |count|
    && (forall p :: 0 <= p < |s| ==> s[p].byte < |count| && s[p].count == count[s[p].byte])
    && forall p, q :: 0 <= p < |s| && 0 <= q < |s| && p != q ==> s[p].byte != s[q].byte
  }

  ghost predicate Descending(s: seq<Node>, low: int, high: int) {
    forall p, q :: 0 <= low <= p <= q <= high < |s| ==> s[p].count >= s[q].count
  }

  ghost predicate Between(s: seq<Node>, low: int, high: int, min: nat, max: nat) {
    forall p :: 0 <= low <= p <= high < |s| ==> min <= s[p].count <= max
  }

  ghost predicate SameOutside(s: seq<Node>, t: seq<Node>, low: int, high: int) {
    |s| == |t| && forall p :: 0 <= p < |s| && !(low <= p <= high) ==> s[p] == t[p]
  }

  /** A part of the nodes rearranged within bounds. */
  ghost predicate Rearranged(was: seq<Node>, now: seq<Node>, count: seq<nat>, low: int, high: int, min: nat, max: nat) {
    Symbols(now, count) && SameOutside(was, now, low, high) && Between(now, low, high, min, max)
  }

  // ----- Insertion sort -----

  /** The part before i is sorted but for its last node, which is `key`, on its way down to its place after j. */
  ghost predicate Inserting(s: seq<Node>, key: Node, low: int, i: int, j: int) {
    && 0 <= low <= j + 1 <= i < |s| && s[j + 1] == key
    && (forall p, q :: low <= p <= q <= i && p != j + 1 && q != j + 1 ==> s[p].count >= s[q].count)
    && forall q :: j + 1 < q <= i ==> s[q].count < key.count
  }

  lemma InsertingStep(s: seq<Node>, key: Node, low: int, i: int, j: int)
    requires Inserting(s, key, low, i, j) && low <= j && s[j].count < key.count
    ensures Inserting(s[j + 1 := s[j]][j := key], key, low, i, j - 1)
  {
    var t := s[j + 1 := s[j]][j := key];
    forall p, q | low <= p <= q <= i && p != j && q != j ensures t[p].count >= t[q].count {
      var a, b := if p == j + 1 then j else p, if q == j + 1 then j else q;
      assert t[p] == s[a] && t[q] == s[b];
    }
  }

  lemma InsertingDone(s: seq<Node>, key: Node, low: int, i: int, j: int)
    requires Inserting(s, key, low, i, j) && (low <= j ==> s[j].count >= key.count)
    ensures Descending(s, low, i)
  {
    forall p, q | 0 <= low <= p <= q <= i < |s| ensures s[p].count >= s[q].count {
      if q == j + 1 && p < q {
        assert s[p].count >= s[j].count;
      }
    }
  }

  lemma SwapKeeps(was: seq<Node>, s: seq<Node>, count: seq<nat>, low: int, high: int, min: nat, max: nat, i: nat,
                  j: nat)
    requires Rearranged(was, s, count, low, high, min, max) && low <= i <= high < |s| && low <= j <= high && 0 <= low
    ensures Rearranged(was, s[i := s[j]][j := s[i]], count, low, high, min, max)
  {
    var t := s[i := s[j]][j := s[i]];
    assert Symbols(t, count) by {
      forall p, q | 0 <= p < |t| && 0 <= q < |t| && p != q ensures t[p].byte != t[q].byte {
        var a := if p == i then j else if p == j then i else p;
        var b := if q == i then j else if q == j then i else q;
        assert t[p] == s[a] && t[q] == s[b] && a != b;
      }
    }
  }

  /** Insert the node at i among those before it. */
  method InsertOne(a: array<Node>, low: nat, i: nat, ghost was: seq<Node>, ghost count: seq<nat>, ghost high: int,
                   ghost min: nat, ghost max: nat)
    requires low < i <= high < a.Length && Rearranged(was, a[..], count, low, high, min, max)
    requires Descending(a[..], low, i - 1)
    modifies a
    ensures Rearranged(was, a[..], count, low, high, min, max) && Descending(a[..], low, i)
  {
    hide Rearranged;
    var key := a[i];
    var j: int := i - 1;
    // The nodes with the key where it would be put now.
    ghost var s := a[..];
    assert a[..] == s[j + 1 := a[j + 1]];
    while j >= low && a[j].count < key.count
      invariant low - 1 <= j < i && Inserting(s, key, low, i, j) && |s| == a.Length
      invariant forall p :: 0 <= p < a.Length && p != j + 1 ==> a[p] == s[p]
      invariant Rearranged(was, s, count, low, high, min, max)
    {
      InsertingStep(s, key, low, i, j);
      SwapKeeps(was, s, count, low, high, min, max, j + 1, j);
      s := s[j + 1 := s[j]][j := key];
      a[j + 1] := a[j];
      j := j - 1;
    }
    InsertingDone(s, key, low, i, j);
    a[j + 1] := key;
    assert a[..] == s;
  }

  method InsertionSort(a: array<Node>, low: nat, high: int, ghost was: seq<Node>, ghost count: seq<nat>, ghost min: nat,
                       ghost max: nat)
    requires low - 1 <= high < a.Length && Rearranged(was, a[..], count, low, high, min, max)
    modifies a
    ensures Rearranged(was, a[..], count, low, high, min, max) && Descending(a[..], low, high)
  {
    hide Rearranged;
    var i := low + 1;
    while i <= high
      invariant low < i && (i <= high + 1 || high < low + 1)
      invariant Rearranged(was, a[..], count, low, high, min, max) && Descending(a[..], low, i - 1)
    {
      InsertOne(a, low, i, was, count, high, min, max);
      i := i + 1;
    }
  }

  // ----- Quicksort -----

  ghost predicate Partitioning(s: seq<Node>, low: int, i: int, j: int, pivot: nat) {
    && (forall p :: 0 <= low <= p <= i && p < |s| ==> s[p].count > pivot)
    && forall p :: 0 <= i + 1 <= p < j <= |s| ==> s[p].count <= pivot
  }

  /** Take the last node as the pivot; nodes that count more come before it. */
  method Partition(a: array<Node>, low: nat, high: nat, ghost was: seq<Node>, ghost count: seq<nat>, ghost min: nat,
                   ghost max: nat) returns (idx: nat)
    requires low < high < a.Length && Rearranged(was, a[..], count, low, high, min, max)
    modifies a
    ensures low <= idx <= high && Rearranged(was, a[..], count, low, high, min, max)
    ensures forall p :: low <= p < idx ==> a[p].count > a[idx].count
    ensures forall p :: idx < p <= high ==> a[p].count <= a[idx].count
  {
    hide Rearranged;
    var pivot := a[high].count;
    var i: int := low - 1;
    for j := low to high
      invariant low - 1 <= i < j && Rearranged(was, a[..], count, low, high, min, max)
      invariant Partitioning(a[..], low, i, j, pivot) && a[high].count == pivot
    {
      if a[j].count > pivot {
        i := i + 1;
        SwapKeeps(was, a[..], count, low, high, min, max, i, j);
        ghost var s := a[..];
        a[i], a[j] := a[j], a[i];
        assert a[..] == s[i := s[j]][j := s[i]];
      }
    }
    SwapKeeps(was, a[..], count, low, high, min, max, i + 1, high);
    ghost var s := a[..];
    a[i + 1], a[high] := a[high], a[i + 1];
    assert a[..] == s[i + 1 := s[high]][high := s[i + 1]];
    idx := i + 1;
    forall p | low <= p < idx ensures a[p].count > pivot {
      assert s[p].count > pivot;
    }
    forall p | idx < p <= high ensures a[p].count <= pivot {
      assert p < high ==> s[p].count <= pivot;
      assert p == high ==> a[p] == s[idx];
    }
  }

  /** Two sorted parts, one above the bound and one below it. */
  lemma Join(s: seq<Node>, low: int, mid: int, high: int, bound: nat, min: nat, max: nat)
    requires 0 <= low && -1 <= mid < |s| && high < |s| && Descending(s, low, mid) && Descending(s, mid + 1, high)
    requires Between(s, low, mid, bound, max) && Between(s, mid + 1, high, min, bound) && min <= bound <= max
    ensures Descending(s, low, high) && Between(s, low, high, min, max)
  {
    forall p, q | 0 <= low <= p <= q <= high < |s| ensures s[p].count >= s[q].count {
      if p <= mid < q {
        assert s[p].count >= bound >= s[q].count;
      }
    }
  }

  /** Between `low` and `high` the nodes are still to be sorted; those before count no less, those after no more. */
  ghost predicate Sorting(was: seq<Node>, s: seq<Node>, count: seq<nat>, first: int, last: int, low: int, high: int,
                          lower: nat, upper: nat, min: nat, max: nat) {
    && 0 <= first <= low <= high + 1 <= last + 1 && last < |s| && min <= lower <= upper <= max
    && Symbols(s, count) && SameOutside(was, s, first, last)
    && Between(s, low, high, lower, upper)
    && Descending(s, first, low - 1) && Between(s, first, low - 1, upper, max)
    && Descending(s, high + 1, last) && Between(s, high + 1, last, min, lower)
  }

  /** What is outside the part rearranged stays as it was. */
  lemma Carried(was: seq<Node>, now: seq<Node>, low: int, high: int, a: int, b: int, min: nat, max: nat)
    requires SameOutside(was, now, low, high) && (b < low || high < a)
    ensures Descending(was, a, b) ==> Descending(now, a, b)
    ensures Between(was, a, b, min, max) ==> Between(now, a, b, min, max)
  {
    if Descending(was, a, b) {
      forall p, q | 0 <= a <= p <= q <= b < |now| ensures now[p].count >= now[q].count {
        assert now[p] == was[p] && now[q] == was[q];
      }
    }
  }

  lemma SameThrough(was: seq<Node>, s0: seq<Node>, s1: seq<Node>, s2: seq<Node>, first: int, last: int, low: int,
                    high: int, low2: int, high2: int)
    requires SameOutside(was, s0, first, last) && SameOutside(s0, s1, low, high) && SameOutside(s1, s2, low2, high2)
    requires first <= low <= low2 && high2 <= high <= last
    ensures SameOutside(was, s2, first, last) && SameOutside(s0, s2, low, high)
  {
  }

  lemma AtPivot(s: seq<Node>, t: seq<Node>, low: int, high: int, idx: nat)
    requires SameOutside(s, t, low, high) && idx < |s| && (idx < low || high < idx)
    ensures t[idx] == s[idx] && Descending(t, idx, idx) && Between(t, idx, idx, s[idx].count, s[idx].count)
  {
  }

  /** The front of the part is sorted; what is left to sort comes after the pivot. */
  lemma SortedFront(was: seq<Node>, s0: seq<Node>, s1: seq<Node>, s2: seq<Node>, count: seq<nat>, first: int, last: int,
                    low: nat, high: nat, lower: nat, upper: nat, min: nat, max: nat, idx: nat, pivot: nat)
    requires Sorting(was, s0, count, first, last, low, high, lower, upper, min, max)
    requires low <= idx <= high < |s1| && Rearranged(s0, s1, count, low, high, lower, upper) && pivot == s1[idx].count
    requires Rearranged(s1, s1, count, idx + 1, high, lower, pivot) && lower <= pivot <= upper
    requires Rearranged(s1, s2, count, low, idx - 1, pivot, upper) && Descending(s2, low, idx - 1)
    ensures Sorting(was, s2, count, first, last, idx + 1, high, lower, pivot, min, max)
  {
    SameSize(was, s0, s1, s2, first, last, low, high, low, idx - 1);
    hide Descending, Between, SameOutside, Symbols;
    SameThrough(was, s0, s1, s2, first, last, low, high, low, idx - 1);
    Carried(s0, s2, low, high, first, low - 1, upper, max);
    Carried(s0, s2, low, high, high + 1, last, min, lower);
    Carried(s1, s2, low, idx - 1, idx + 1, high, lower, pivot);
    Join(s2, first, low - 1, idx - 1, upper, pivot, max);
    AtPivot(s1, s2, low, idx - 1, idx);
    Join(s2, first, idx - 1, idx, pivot, pivot, max);
  }

  /** The back of the part is sorted; what is left to sort comes before the pivot. */
  lemma SortedBack(was: seq<Node>, s0: seq<Node>, s1: seq<Node>, s2: seq<Node>, count: seq<nat>, first: int, last: int,
                   low: nat, high: nat, lower: nat, upper: nat, min: nat, max: nat, idx: nat, pivot: nat)
    requires Sorting(was, s0, count, first, last, low, high, lower, upper, min, max)
    requires low <= idx <= high < |s1| && Rearranged(s0, s1, count, low, high, lower, upper) && pivot == s1[idx].count
    requires Rearranged(s1, s1, count, low, idx - 1, pivot, upper) && lower <= pivot <= upper
    requires Rearranged(s1, s2, count, idx + 1, high, lower, pivot) && Descending(s2, idx + 1, high)
    ensures Sorting(was, s2, count, first, last, low, idx - 1, pivot, upper, min, max)
  {
    SameSize(was, s0, s1, s2, first, last, low, high, idx + 1, high);
    hide Descending, Between, SameOutside, Symbols;
    SameThrough(was, s0, s1, s2, first, last, low, high, idx + 1, high);
    Carried(s0, s2, low, high, first, low - 1, upper, max);
    Carried(s0, s2, low, high, high + 1, last, min, lower);
    Carried(s1, s2, idx + 1, high, low, idx - 1, pivot, upper);
    Join(s2, idx + 1, high, last, lower, min, pivot);
    AtPivot(s1, s2, idx + 1, high, idx);
    Join(s2, idx, idx, last, pivot, min, pivot);
  }

  lemma SameSize(was: seq<Node>, s0: seq<Node>, s1: seq<Node>, s2: seq<Node>, first: int, last: int, low: int,
                 high: int, low2: int, high2: int)
    requires SameOutside(was, s0, first, last) && SameOutside(s0, s1, low, high) && SameOutside(s1, s2, low2, high2)
    ensures |was| == |s0| == |s1| == |s2|
  {
  }

  lemma PartsRearranged(was: seq<Node>, s: seq<Node>, count: seq<nat>, low: nat, high: nat, lower: nat, upper: nat,
                        idx: nat)
    requires Rearranged(was, s, count, low, high, lower, upper) && low <= idx <= high < |s|
    requires forall p :: low <= p < idx ==> s[p].count > s[idx].count
    requires forall p :: idx < p <= high ==> s[p].count <= s[idx].count
    ensures Rearranged(s, s, count, low, idx - 1, s[idx].count, upper)
    ensures Rearranged(s, s, count, idx + 1, high, lower, s[idx].count)
    ensures lower <= s[idx].count <= upper
  {
  }

  lemma StartSorting(was: seq<Node>, s: seq<Node>, count: seq<nat>, low: nat, high: int, min: nat, max: nat)
    requires low - 1 <= high < |s| && Rearranged(was, s, count, low, high, min, max) && min <= max
    ensures Sorting(was, s, count, low, high, low, high, min, max, min, max)
  {
  }

  lemma StillToSort(was: seq<Node>, s: seq<Node>, count: seq<nat>, first: int, last: int, low: nat, high: int,
                    lower: nat, upper: nat, min: nat, max: nat)
    requires Sorting(was, s, count, first, last, low, high, lower, upper, min, max)
    ensures high < |s| && first <= low && high <= last && lower <= upper
      && Rearranged(s, s, count, low, high, lower, upper)
  {
  }

  lemma EndSorting(was: seq<Node>, s: seq<Node>, count: seq<nat>, first: int, last: int, low: int, high: int,
                   lower: nat, upper: nat, min: nat, max: nat)
    requires Sorting(was, s, count, first, last, low, high, lower, upper, min, max) && low >= high
    ensures Rearranged(was, s, count, first, last, min, max) && Descending(s, first, last)
  {
    Join(s, first, low - 1, high, upper, lower, max);
    Join(s, first, high, last, lower, min, max);
  }

  /** Quicksort the nodes from `low` to `high`, by recursion for the shorter part and by iteration for the longer; few
      nodes are sorted by insertion. */
  method SimpleQuickSort(a: array<Node>, first: nat, last: int, ghost was: seq<Node>, ghost count: seq<nat>,
                         ghost min: nat, ghost max: nat)
    requires first - 1 <= last < a.Length && Rearranged(was, a[..], count, first, last, min, max) && min <= max
    modifies a
    ensures Rearranged(was, a[..], count, first, last, min, max) && Descending(a[..], first, last)
    decreases last - first + 1
  {
    hide Rearranged, Sorting, Descending;
    if last - first < INSERTION_SORT_THRESHOLD {
      InsertionSort(a, first, last, was, count, min, max);
      return;
    }
    var low: nat, high: int := first, last;
    ghost var lower, upper := min, max;
    StartSorting(was, a[..], count, first, last, min, max);
    while low < high
      invariant first <= low && high <= last < a.Length
      invariant Sorting(was, a[..], count, first, last, low, high, lower, upper, min, max)
      decreases high - low
    {
      ghost var s0 := a[..];
      StillToSort(was, s0, count, first, last, low, high, lower, upper, min, max);
      var idx := Partition(a, low, high, s0, count, lower, upper);
      ghost var s1 := a[..];
      PartsRearranged(s0, s1, count, low, high, lower, upper, idx);
      if idx - low < high - idx {
        SimpleQuickSort(a, low, idx - 1, s1, count, s1[idx].count, upper);
        SortedFront(was, s0, s1, a[..], count, first, last, low, high, lower, upper, min, max, idx,
                    s1[idx].count);
        low, upper := idx + 1, s1[idx].count;
      } else {
        SimpleQuickSort(a, idx + 1, high, s1, count, lower, s1[idx].count);
        SortedBack(was, s0, s1, a[..], count, first, last, low, high, lower, upper, min, max, idx,
                   s1[idx].count);
        high, lower := idx - 1, s1[idx].count;
      }
    }
    SortingEnds(was, a[..], count, first, last, low, high, lower, upper, min, max);
    EndSorting(was, a[..], count, first, last, low, high, lower, upper, min, max);
  }

  lemma SortingEnds(was: seq<Node>, s: seq<Node>, count: seq<nat>, first: int, last: int, low: nat, high: int,
                    lower: nat, upper: nat, min: nat, max: nat)
    requires Sorting(was, s, count, first, last, low, high, lower, upper, min, max) && !(low < high)
    ensures low >= high
  {
  }

  // ----- Buckets -----

  /** Small counts have a bucket each, larger ones a bucket for each position of the highest bit. */
  function Index(count: nat): (r: nat)
  {
    if count < DISTINCT_COUNT_CUTOFF then count else HighBit(count) + LOG_BUCKETS_BEGIN
  }

  lemma ThirtyTwo()
    ensures Pow2(32) == COUNT_LIMIT
  {
    assert Pow2(8) == 256;
    Pow2Add(8, 8);
    Pow2Add(16, 16);
  }

  lemma IndexBound(count: nat)
    requires count < COUNT_LIMIT
    ensures Index(count) < TABLE_SIZE - 2
  {
    hide Pow2, HighBit;
    ThirtyTwo();
    if count >= DISTINCT_COUNT_CUTOFF && HighBit(count) >= 32 {
      Pow2Monotone(32, HighBit(count));
    }
  }

  /** Higher buckets are for higher counts. */
  lemma IndexMonotone(c: nat, d: nat)
    requires c <= d
    ensures Index(c) <= Index(d)
    ensures Index(c) == Index(d) < DISTINCT_COUNT_CUTOFF ==> c == d
  {
    if d >= DISTINCT_COUNT_CUTOFF {
      assert Pow2(7) == 128;
      if HighBit(d) < 7 {
        Pow2Monotone(HighBit(d) + 1, 7);
      }
      if c >= DISTINCT_COUNT_CUTOFF && HighBit(c) > HighBit(d) {
        Pow2Monotone(HighBit(d), HighBit(c));
      }
    }
  }

  ghost function Indices(count: seq<nat>): (idx: seq<nat>)
    ensures |idx| == |count| && forall s :: 0 <= s < |count| ==> idx[s] == Index(count[s])
  {
    seq(|count|, s requires 0 <= s < |count| => Index(count[s]))
  }

  /** How many indices are r or more. */
  ghost function Above(idx: seq<nat>, r: nat): nat
    decreases |idx|
  {
    if idx == [] then 0 else Above(idx[..|idx| - 1], r) + if idx[|idx| - 1] >= r then 1 else 0
  }

  lemma {:induction false} AboveStep(idx: seq<nat>, r: nat)
    ensures Above(idx, r) == Above(idx, r + 1) + Count<nat>(idx, r)
    decreases |idx|
  {
    if idx != [] {
      AboveStep(idx[..|idx| - 1], r);
    }
  }

  lemma {:induction false} AboveEnds(idx: seq<nat>, top: nat)
    requires forall s :: 0 <= s < |idx| ==> idx[s] < top
    ensures Above(idx, 0) == |idx| && Above(idx, top) == 0
    decreases |idx|
  {
    if idx != [] {
      AboveEnds(idx[..|idx| - 1], top);
    }
  }

  lemma {:induction false} AboveMonotone(idx: seq<nat>, q: nat, r: nat)
    requires q <= r
    ensures Above(idx, r) <= Above(idx, q)
    decreases r - q
  {
    if q < r {
      AboveStep(idx, q);
      AboveMonotone(idx, q + 1, r);
    }
  }

  lemma CountOneMore(idx: seq<nat>, n: nat, r: nat)
    requires n < |idx|
    ensures Count<nat>(idx[..n + 1], r) == Count<nat>(idx[..n], r) + if idx[n] == r then 1 else 0
  {
    assert idx[..n + 1][..n] == idx[..n];
  }

  /** The bucket at rank r holds index r - 1; it starts after all higher counts. */
  ghost predicate Bases(base: seq<nat>, idx: seq<nat>) {
    |base| == TABLE_SIZE && forall r :: 0 <= r < TABLE_SIZE ==> base[r] == Above(idx, r)
  }

  /** The numbers of higher counts, which are where each bucket starts. */
  method CountRanks(count: seq<nat>) returns (base: array<nat>, curr: array<nat>)
    requires forall s :: 0 <= s < |count| ==> count[s] < COUNT_LIMIT
    ensures fresh(base) && fresh(curr) && base != curr && curr.Length == TABLE_SIZE == base.Length
    ensures Bases(base[..], Indices(count)) && forall r :: 0 <= r < TABLE_SIZE ==> curr[r] == base[r]
  {
    hide Index;
    ghost var idx := Indices(count);
    base, curr := new nat[TABLE_SIZE](i => 0), new nat[TABLE_SIZE](i => 0);
    forall s | 0 <= s < |count| ensures idx[s] < TABLE_SIZE - 1 {
      IndexBound(count[s]);
    }
    for n := 0 to |count|
      invariant forall r :: 0 <= r < TABLE_SIZE ==> base[r] == Count<nat>(idx[..n], r) && curr[r] == 0
    {
      forall r: nat ensures Count<nat>(idx[..n + 1], r) == Count<nat>(idx[..n], r) + if idx[n] == r then 1 else 0 {
        CountOneMore(idx, n, r);
      }
      var lowerRank := Index(count[n]);
      base[lowerRank] := base[lowerRank] + 1;
    }
    assert idx[..|count|] == idx;
    AboveEnds(idx, TABLE_SIZE - 1);
    AboveStep(idx, TABLE_SIZE - 1);
    AboveMonotone(idx, TABLE_SIZE - 1, TABLE_SIZE);
    var n := TABLE_SIZE - 1;
    while n > 0
      invariant 0 <= n < TABLE_SIZE
      invariant forall r :: 0 <= r < n ==> base[r] == Count<nat>(idx, r)
      invariant forall r :: n <= r < TABLE_SIZE ==> base[r] == Above(idx, r) && curr[r] == base[r]
    {
      AboveStep(idx, n - 1);
      base[n - 1] := base[n - 1] + base[n];
      curr[n - 1] := base[n - 1];
      n := n - 1;
    }
  }

  /** The first n symbols are in their buckets; `at` says where. */
  ghost predicate Filled(nodes: seq<Node>, base: seq<nat>, curr: seq<nat>, count: seq<nat>, at: seq<nat>, n: nat) {
    && |nodes| == |count| && |curr| == TABLE_SIZE && |at| == n <= |count| && Bases(base, Indices(count))
    && (forall r :: 1 <= r < TABLE_SIZE ==> curr[r] == base[r] + Count<nat>(Indices(count)[..n], r - 1) <= |count|)
    && forall r, p :: 1 <= r < TABLE_SIZE && base[r] <= p < curr[r] ==> InBucket(nodes[p], p, count, at, r)
  }

  ghost predicate InBucket(node: Node, p: nat, count: seq<nat>, at: seq<nat>, r: nat) {
    && node.byte < |at| && node.byte < |count| && at[node.byte] == p
    && node.count == count[node.byte] && Index(node.count) + 1 == r
  }

  /** Where the next symbol goes no other bucket is. */
  lemma PlaceIsFree(base: seq<nat>, curr: seq<nat>, count: seq<nat>, nodes: seq<Node>, at: seq<nat>, n: nat, r: nat)
    requires Filled(nodes, base, curr, count, at, n) && n < |count| && r == Indices(count)[n] + 1 < TABLE_SIZE
    ensures base[r] <= curr[r] < base[r - 1] <= |count|
    ensures forall q :: 1 <= q < TABLE_SIZE && q != r ==> curr[r] < base[q] || curr[q] <= curr[r]
  {
    hide Index;
    var idx := Indices(count);
    EarlierFewer(idx, n);
    AboveStep(idx, r - 1);
    AboveMonotone(idx, 0, r - 1);
    AboveEnds(idx, MaxOf(idx) + 1);
    forall q | 1 <= q < TABLE_SIZE && q != r ensures curr[r] < base[q] || curr[q] <= curr[r] {
      if q < r {
        AboveMonotone(idx, q, r - 1);
      } else {
        AboveMonotone(idx, r, q - 1);
        AboveStep(idx, q - 1);
        CountPrefix<nat>(idx, q - 1, n);
      }
    }
  }

  ghost function MaxOf(idx: seq<nat>): (m: nat)
    ensures forall s :: 0 <= s < |idx| ==> idx[s] <= m
    decreases |idx|
  {
    if idx == [] then 0
    else
      var m := MaxOf(idx[..|idx| - 1]);
      if idx[|idx| - 1] > m then idx[|idx| - 1] else m
  }

  lemma FilledStep(base: seq<nat>, curr: seq<nat>, count: seq<nat>, nodes: seq<Node>, at: seq<nat>, n: nat, r: nat)
    requires Filled(nodes, base, curr, count, at, n) && n < |count| && r == Index(count[n]) + 1 < TABLE_SIZE
    ensures base[r] <= curr[r] < |nodes|
    ensures Filled(nodes[curr[r] := Node(count[n], n)], base, curr[r := curr[r] + 1], count, at + [curr[r]], n + 1)
  {
    hide Index, Bases;
    var idx := Indices(count);
    PlaceIsFree(base, curr, count, nodes, at, n, r);
    var now, after, more := nodes[curr[r] := Node(count[n], n)], curr[r := curr[r] + 1], at + [curr[r]];
    BasesSize(base, idx);
    forall q | 1 <= q < TABLE_SIZE ensures after[q] == base[q] + Count<nat>(idx[..n + 1], q - 1) <= |count| {
      CountOneMore(idx, n, q - 1);
    }
    forall q, p | 1 <= q < TABLE_SIZE && base[q] <= p < after[q] ensures InBucket(now[p], p, count, more, q) {
      if p != curr[r] {
        assert InBucket(nodes[p], p, count, at, q);
      }
    }
  }

  /** In each bucket the symbols are in order, and the next place comes after them. */
  ghost predicate InOrder(curr: seq<nat>, count: seq<nat>, at: seq<nat>, n: nat) {
    && |at| == n <= |count| && |curr| == TABLE_SIZE
    && (forall s :: 0 <= s < n && Index(count[s]) + 1 < TABLE_SIZE ==> at[s] < curr[Index(count[s]) + 1])
    && forall s, t :: 0 <= s < t < n && Index(count[s]) == Index(count[t]) && Index(count[s]) + 1 < TABLE_SIZE ==>
      at[s] < at[t]
  }

  lemma InOrderStep(curr: seq<nat>, count: seq<nat>, at: seq<nat>, n: nat, r: nat)
    requires InOrder(curr, count, at, n) && n < |count| && r == Index(count[n]) + 1 < TABLE_SIZE
    ensures InOrder(curr[r := curr[r] + 1], count, at + [curr[r]], n + 1)
  {
    hide Index;
  }

  lemma BasesSize(base: seq<nat>, idx: seq<nat>)
    requires Bases(base, idx)
    ensures |base| == TABLE_SIZE
  {
  }

  /** Each symbol goes to the next place of its bucket. */
  method FillBuckets(nodes: array<Node>, base: array<nat>, curr: array<nat>, count: seq<nat>)
      returns (ghost at: seq<nat>)
    requires base != curr && curr.Length == TABLE_SIZE == base.Length && nodes.Length == |count|
    requires forall s :: 0 <= s < |count| ==> count[s] < COUNT_LIMIT
    requires Bases(base[..], Indices(count)) && forall r :: 0 <= r < TABLE_SIZE ==> curr[r] == base[r]
    modifies nodes, curr
    ensures Filled(nodes[..], base[..], curr[..], count, at, |count|) && InOrder(curr[..], count, at, |count|)
  {
    hide Filled, Index, InOrder;
    at := [];
    StartFilling(nodes[..], base[..], curr[..], count);
    for n := 0 to |count|
      invariant Filled(nodes[..], base[..], curr[..], count, at, n) && InOrder(curr[..], count, at, n)
    {
      IndexBound(count[n]);
      var r := Index(count[n]) + 1;
      ghost var before, was := nodes[..], curr[..];
      FilledStep(base[..], was, count, before, at, n, r);
      InOrderStep(was, count, at, n, r);
      var pos := curr[r];
      curr[r] := curr[r] + 1;
      nodes[pos] := Node(count[n], n);
      at := at + [pos];
      assert nodes[..] == before[pos := Node(count[n], n)] && curr[..] == was[r := was[r] + 1];
    }
  }

  lemma StartFilling(nodes: seq<Node>, base: seq<nat>, curr: seq<nat>, count: seq<nat>)
    requires Bases(base, Indices(count)) && |nodes| == |count| && |curr| == TABLE_SIZE
    requires forall s :: 0 <= s < |count| ==> count[s] < COUNT_LIMIT
    requires forall r :: 0 <= r < TABLE_SIZE ==> curr[r] == base[r]
    ensures Filled(nodes, base, curr, count, [], 0) && InOrder(curr, count, [], 0)
  {
    var idx := Indices(count);
    assert idx[..0] == [];
    forall r | 1 <= r < TABLE_SIZE ensures base[r] <= |count| {
      AboveMonotone(idx, 0, r);
      AboveEnds(idx, MaxOf(idx) + 1);
    }
  }

  // ----- All buckets full -----

  /** Every place is in some bucket. */
  lemma BucketOf(idx: seq<nat>, p: nat) returns (r: nat)
    requires p < |idx| && forall s :: 0 <= s < |idx| ==> idx[s] < TABLE_SIZE - 1
    ensures 1 <= r < TABLE_SIZE && Above(idx, r) <= p < Above(idx, r - 1)
  {
    AboveEnds(idx, TABLE_SIZE - 1);
    r := TABLE_SIZE - 1;
    while Above(idx, r - 1) <= p
      invariant 1 <= r < TABLE_SIZE && Above(idx, r) <= p
      decreases r
    {
      r := r - 1;
    }
  }

  /** In each bucket are the counts it is for. */
  ghost predicate Bucketed(nodes: seq<Node>, base: seq<nat>) {
    && |base| == TABLE_SIZE
    && forall r, p :: 1 <= r < TABLE_SIZE && base[r] <= p < base[r - 1] && p < |nodes| ==>
      Index(nodes[p].count) + 1 == r
  }

  ghost predicate Full(base: seq<nat>, curr: seq<nat>, count: seq<nat>) {
    && |base| == |curr| == TABLE_SIZE && (forall s :: 0 <= s < |count| ==> count[s] < COUNT_LIMIT)
    && forall r :: 1 <= r < TABLE_SIZE ==> curr[r] == base[r - 1] <= |count|
  }

  lemma AllFull(base: seq<nat>, curr: seq<nat>, count: seq<nat>)
    requires |base| == TABLE_SIZE && |curr| == TABLE_SIZE && forall s :: 0 <= s < |count| ==> count[s] < COUNT_LIMIT
    requires forall r :: 1 <= r < TABLE_SIZE ==> curr[r] == base[r - 1] <= |count|
    ensures Full(base, curr, count)
  {
  }

  lemma FullBuckets(nodes: seq<Node>, base: seq<nat>, curr: seq<nat>, count: seq<nat>, at: seq<nat>)
    requires Filled(nodes, base, curr, count, at, |count|)
    requires forall s :: 0 <= s < |count| ==> count[s] < COUNT_LIMIT
    ensures Symbols(nodes, count) && Bucketed(nodes, base)
    ensures forall r :: 1 <= r < TABLE_SIZE ==> curr[r] == base[r - 1] <= |count|
  {
    hide Index;
    var idx := Indices(count);
    assert idx[..|count|] == idx;
    forall r | 1 <= r < TABLE_SIZE ensures curr[r] == base[r - 1] <= |count| {
      AboveStep(idx, r - 1);
    }
    forall s | 0 <= s < |count| ensures idx[s] < TABLE_SIZE - 1 {
      IndexBound(count[s]);
    }
    forall p | 0 <= p < |nodes|
      ensures nodes[p].byte < |count| && nodes[p].count == count[nodes[p].byte] && at[nodes[p].byte] == p
    {
      var r := BucketOf(idx, p);
      assert InBucket(nodes[p], p, count, at, r);
    }
    forall r, p | 1 <= r < TABLE_SIZE && base[r] <= p < base[r - 1] && p < |nodes|
      ensures Index(nodes[p].count) + 1 == r {
      assert InBucket(nodes[p], p, count, at, r);
    }
  }

  // ----- Sorting the buckets -----

  ghost function Lowest(index: nat): nat {
    if index <= DISTINCT_COUNT_CUTOFF then index else Pow2(index - LOG_BUCKETS_BEGIN)
  }

  ghost function Highest(index: nat): nat {
    if index < DISTINCT_COUNT_CUTOFF then index else 2 * Pow2(index - LOG_BUCKETS_BEGIN) - 1
  }

  lemma BucketRange(c: nat, index: nat)
    ensures Index(c) == index <==> Lowest(index) <= c <= Highest(index)
    ensures Lowest(index) <= Highest(index)
  {
    hide HighBit;
    assert Pow2(7) == 128 && Pow2(8) == 256;
    if index >= DISTINCT_COUNT_CUTOFF {
      var h := index - LOG_BUCKETS_BEGIN;
      Pow2Monotone(7, h);
      if h > 7 {
        Pow2Monotone(8, h);
      }
      if c >= DISTINCT_COUNT_CUTOFF && Pow2(h) <= c < 2 * Pow2(h) {
        HighBitIs(c, h);
      }
    } else if c >= DISTINCT_COUNT_CUTOFF {
      if HighBit(c) < 7 {
        Pow2Monotone(HighBit(c) + 1, 7);
      }
    }
  }

  /** The last place of the bucket of rank r. */
  function Last(base: seq<nat>, r: nat): int
    requires 1 <= r <= |base|
  {
    base[r - 1] as int - 1
  }

  /** The buckets before rank n that hold more than one count are sorted. */
  ghost predicate SortedTo(nodes: seq<Node>, base: seq<nat>, count: seq<nat>, n: nat) {
    && Symbols(nodes, count) && Bucketed(nodes, base) && Bases(base, Indices(count))
    && forall r :: DISTINCT_COUNT_CUTOFF <= r < n && r < TABLE_SIZE ==> Descending(nodes, base[r], Last(base, r))
  }

  lemma BaseOrder(base: seq<nat>, idx: seq<nat>, q: nat, r: nat)
    requires Bases(base, idx) && q <= r < TABLE_SIZE
    ensures base[r] <= base[q]
  {
    AboveMonotone(idx, q, r);
  }

  lemma BucketBetween(nodes: seq<Node>, base: seq<nat>, count: seq<nat>, n: nat)
    requires SortedTo(nodes, base, count, n) && 1 <= n < TABLE_SIZE && base[n - 1] <= |nodes|
    ensures Rearranged(nodes, nodes, count, base[n], Last(base, n), Lowest(n - 1), Highest(n - 1))
    ensures Lowest(n - 1) <= Highest(n - 1)
  {
    hide Lowest, Highest, Index;
    forall p | 0 <= base[n] <= p <= Last(base, n) < |nodes| ensures Lowest(n - 1) <= nodes[p].count <= Highest(n - 1) {
      BucketRange(nodes[p].count, n - 1);
    }
    BucketRange(0, n - 1);
  }

  lemma StillBucketed(was: seq<Node>, nodes: seq<Node>, base: seq<nat>, idx: seq<nat>, n: nat)
    requires Bucketed(was, base) && Bases(base, idx) && 1 <= n < TABLE_SIZE && base[n - 1] <= |nodes|
    requires SameOutside(was, nodes, base[n], Last(base, n))
    requires Between(nodes, base[n], Last(base, n), Lowest(n - 1), Highest(n - 1))
    ensures Bucketed(nodes, base)
  {
    hide Lowest, Highest, Index, Bases;
    forall r, p | 1 <= r < TABLE_SIZE && base[r] <= p < base[r - 1] && p < |nodes|
      ensures Index(nodes[p].count) + 1 == r {
      if base[n] <= p < base[n - 1] {
        BucketRange(nodes[p].count, n - 1);
        SameBucket(base, idx, p, r, n);
      }
    }
  }

  lemma StillDescending(was: seq<Node>, nodes: seq<Node>, base: seq<nat>, idx: seq<nat>, n: nat, r: nat)
    requires Bases(base, idx) && 1 <= r < n < TABLE_SIZE && Descending(was, base[r], Last(base, r))
    requires SameOutside(was, nodes, base[n], Last(base, n))
    ensures Descending(nodes, base[r], Last(base, r))
  {
    BaseOrder(base, idx, r, n - 1);
    forall p, q | 0 <= base[r] <= p <= q <= Last(base, r) < |nodes| ensures nodes[p].count >= nodes[q].count {
      assert nodes[p] == was[p] && nodes[q] == was[q];
    }
  }

  lemma BucketSorted(was: seq<Node>, nodes: seq<Node>, base: seq<nat>, count: seq<nat>, n: nat)
    requires SortedTo(was, base, count, n) && DISTINCT_COUNT_CUTOFF <= n < TABLE_SIZE && base[n - 1] <= |nodes|
    requires Rearranged(was, nodes, count, base[n], Last(base, n), Lowest(n - 1), Highest(n - 1))
    requires Descending(nodes, base[n], Last(base, n))
    ensures SortedTo(nodes, base, count, n + 1)
  {
    hide Lowest, Highest, Symbols, Bases, Bucketed, Descending, SameOutside, Between;
    BasesSize(base, Indices(count));
    StillBucketed(was, nodes, base, Indices(count), n);
    forall r | DISTINCT_COUNT_CUTOFF <= r < n ensures Descending(nodes, base[r], Last(base, r)) {
      StillDescending(was, nodes, base, Indices(count), n, r);
    }
  }

  lemma SameBucket(base: seq<nat>, idx: seq<nat>, p: nat, q: nat, r: nat)
    requires Bases(base, idx) && 1 <= q < TABLE_SIZE && 1 <= r < TABLE_SIZE
    requires base[q] <= p < base[q - 1] && base[r] <= p < base[r - 1]
    ensures q == r
  {
    if q < r {
      BaseOrder(base, idx, q, r - 1);
    } else if r < q {
      BaseOrder(base, idx, r, q - 1);
    }
  }

  /** The places from `low` on are as they were. */
  ghost predicate SameFrom(was: seq<Node>, now: seq<Node>, low: nat) {
    |was| == |now| && forall p :: low <= p < |was| ==> now[p] == was[p]
  }

  lemma SameAtFirst(s: seq<Node>, low: nat)
    ensures SameFrom(s, s, low)
  {
  }

  lemma SameAfter(first: seq<Node>, was: seq<Node>, now: seq<Node>, count: seq<nat>, base: seq<nat>, n: nat)
    requires |base| == TABLE_SIZE && 1 <= n < TABLE_SIZE && base[n - 1] <= base[DISTINCT_COUNT_CUTOFF - 1]
    requires SameFrom(first, was, base[DISTINCT_COUNT_CUTOFF - 1])
    requires Rearranged(was, now, count, base[n], Last(base, n), Lowest(n - 1), Highest(n - 1))
    ensures SameFrom(first, now, base[DISTINCT_COUNT_CUTOFF - 1])
  {
    hide Symbols, Between, Lowest, Highest;
  }

  /** Sort each bucket that holds more than one count. */
  method SortBuckets(nodes: array<Node>, base: array<nat>, curr: array<nat>, count: seq<nat>)
    requires base != curr && base.Length == TABLE_SIZE == curr.Length
    requires SortedTo(nodes[..], base[..], count, DISTINCT_COUNT_CUTOFF)
    requires forall s :: 0 <= s < |count| ==> count[s] < COUNT_LIMIT
    requires forall r :: 1 <= r < TABLE_SIZE ==> curr[r] == base[r - 1] <= nodes.Length
    modifies nodes
    ensures SortedTo(nodes[..], base[..], count, TABLE_SIZE)
    ensures SameFrom(old(nodes[..]), nodes[..], base[DISTINCT_COUNT_CUTOFF - 1])
  {
    hide SortedTo, Rearranged, Lowest, Highest, Index, Descending, SameFrom;
    ghost var idx := Indices(count);
    SortedBases(nodes[..], base[..], count, DISTINCT_COUNT_CUTOFF);
    SameAtFirst(nodes[..], base[DISTINCT_COUNT_CUTOFF - 1]);
    for n := DISTINCT_COUNT_CUTOFF to TABLE_SIZE - 1
      invariant SortedTo(nodes[..], base[..], count, n)
      invariant SameFrom(old(nodes[..]), nodes[..], base[DISTINCT_COUNT_CUTOFF - 1])
    {
      ghost var was := nodes[..];
      BaseOrder(base[..], idx, n - 1, n);
      BaseOrder(base[..], idx, DISTINCT_COUNT_CUTOFF - 1, n - 1);
      assert curr[n] == base[n - 1] <= nodes.Length;
      BucketBetween(was, base[..], count, n);
      if curr[n] - base[n] > 1 {
        SimpleQuickSort(nodes, base[n], curr[n] - 1, was, count, Lowest(n - 1), Highest(n - 1));
      } else {
        OneIsSorted(was, base[n], Last(base[..], n));
      }
      BucketSorted(was, nodes[..], base[..], count, n);
      SameAfter(old(nodes[..]), was, nodes[..], count, base[..], n);
    }
    LastRank(nodes[..], base[..], count);
  }

  /** The last rank is always empty. */
  lemma LastRank(nodes: seq<Node>, base: seq<nat>, count: seq<nat>)
    requires SortedTo(nodes, base, count, TABLE_SIZE - 1) && forall s :: 0 <= s < |count| ==> count[s] < COUNT_LIMIT
    ensures SortedTo(nodes, base, count, TABLE_SIZE)
  {
    hide Index, Symbols;
    forall s | 0 <= s < |count| ensures Indices(count)[s] < TABLE_SIZE - 2 {
      IndexBound(count[s]);
    }
    AboveEnds(Indices(count), TABLE_SIZE - 2);
    OneIsSorted(nodes, base[TABLE_SIZE - 1], Last(base, TABLE_SIZE - 1));
  }

  lemma SortedBases(nodes: seq<Node>, base: seq<nat>, count: seq<nat>, n: nat)
    requires SortedTo(nodes, base, count, n)
    ensures Bases(base, Indices(count))
  {
  }

  lemma OneIsSorted(s: seq<Node>, low: int, high: int)
    requires high <= low
    ensures Descending(s, low, high)
  {
  }

  lemma AllSorted(nodes: seq<Node>, base: seq<nat>, count: seq<nat>)
    requires SortedTo(nodes, base, count, TABLE_SIZE) && forall s :: 0 <= s < |count| ==> count[s] < COUNT_LIMIT
    ensures Descending(nodes, 0, |nodes| - 1)
  {
    hide Index;
    var idx := Indices(count);
    forall s | 0 <= s < |count| ensures idx[s] < TABLE_SIZE - 1 {
      IndexBound(count[s]);
    }
    AboveEnds(idx, MaxOf(idx) + 1);
    forall p, q | 0 <= p <= q < |nodes| ensures nodes[p].count >= nodes[q].count {
      var a := BucketOf(idx, p);
      var b := BucketOf(idx, q);
      AboveMonotone(idx, 0, a - 1);
      BucketsSorted(nodes, base, count, p, q, a, b);
    }
  }

  lemma BucketsSorted(nodes: seq<Node>, base: seq<nat>, count: seq<nat>, p: nat, q: nat, a: nat, b: nat)
    requires SortedTo(nodes, base, count, TABLE_SIZE) && p <= q < |nodes| && 1 <= a < TABLE_SIZE && 1 <= b < TABLE_SIZE
    requires base[a] <= p < base[a - 1] <= |nodes| && base[b] <= q < base[b - 1]
    ensures nodes[p].count >= nodes[q].count
  {
    hide Index, Symbols;
    var c, d := nodes[p].count, nodes[q].count;
    assert Index(c) + 1 == a && Index(d) + 1 == b;
    if a < b {
      BaseOrder(base, Indices(count), a, b - 1);
    }
    if a == b && a >= DISTINCT_COUNT_CUTOFF {
      assert Descending(nodes, base[a], Last(base, a));
    }
    if c < d {
      IndexMonotone(c, d);
    }
  }

  /** Symbols with the same count are in order, if that is small. The bucket of the count below the cutoff is sorted
      once more, which may change their order. */
  ghost predicate Stable(nodes: seq<Node>) {
    forall p, q :: 0 <= p < q < |nodes| && nodes[p].count == nodes[q].count < 164 ==> nodes[p].byte < nodes[q].byte
  }

  lemma SmallAreStable(filled: seq<Node>, nodes: seq<Node>, base: seq<nat>, curr: seq<nat>, count: seq<nat>,
                       at: seq<nat>)
    requires Filled(filled, base, curr, count, at, |count|) && InOrder(curr, count, at, |count|)
    requires Full(base, curr, count) && Bucketed(nodes, base) && |nodes| == |filled|
    requires SameFrom(filled, nodes, base[DISTINCT_COUNT_CUTOFF - 1])
    ensures Stable(nodes)
  {
    hide Index, Filled, Bucketed, InOrder, SameFrom, InBucket, Full;
    forall p, q | 0 <= p < q < |nodes| && nodes[p].count == nodes[q].count < 164
      ensures nodes[p].byte < nodes[q].byte
    {
      SmallPlace(filled, nodes, base, curr, count, at, p);
      SmallPlace(filled, nodes, base, curr, count, at, q);
      InOrderPlaces(curr, count, at, nodes[p], p, nodes[q], q, Index(nodes[p].count) + 1);
    }
  }

  lemma InOrderPlaces(curr: seq<nat>, count: seq<nat>, at: seq<nat>, x: Node, p: nat, y: Node, q: nat, r: nat)
    requires InOrder(curr, count, at, |count|) && p < q && r < TABLE_SIZE
    requires InBucket(x, p, count, at, r) && InBucket(y, q, count, at, r)
    ensures x.byte < y.byte
  {
    hide Index;
  }

  /** A place with a small count is as it was when the buckets were filled. */
  lemma SmallPlace(filled: seq<Node>, nodes: seq<Node>, base: seq<nat>, curr: seq<nat>, count: seq<nat>,
                   at: seq<nat>, p: nat)
    requires Filled(filled, base, curr, count, at, |count|)
    requires Full(base, curr, count) && Bucketed(nodes, base) && |nodes| == |filled|
    requires SameFrom(filled, nodes, base[DISTINCT_COUNT_CUTOFF - 1])
    requires p < |nodes| && nodes[p].count < 164
    ensures nodes[p] == filled[p] && Index(nodes[p].count) + 1 < TABLE_SIZE
    ensures InBucket(nodes[p], p, count, at, Index(nodes[p].count) + 1)
  {
    var idx := Indices(count);
    forall s | 0 <= s < |idx| ensures idx[s] < TABLE_SIZE - 1 {
      IndexBound(count[s]);
    }
    var r := BucketOf(idx, p);
    assert r == nodes[p].count + 1;
    BaseOrder(base, idx, r, DISTINCT_COUNT_CUTOFF - 1);
  }

  /** Sort the symbols. The nodes are all symbols with their counts, in descending order; those with the same small
      count are in the order of the symbols. */
  method Sort(count: seq<nat>) returns (huffNode: array<Node>)
    requires forall s :: 0 <= s < |count| ==> count[s] < COUNT_LIMIT
    ensures fresh(huffNode) && Symbols(huffNode[..], count) && Descending(huffNode[..], 0, |count| - 1)
    ensures Stable(huffNode[..])
  {
    hide Symbols, Descending, Filled, Bucketed, Index, InOrder, Stable, Full, SameFrom;
    var base, curr := CountRanks(count);
    huffNode := new Node[|count|](i => Node(0, 0));
    ghost var at := FillBuckets(huffNode, base, curr, count);
    ghost var filled := huffNode[..];
    FullBuckets(filled, base[..], curr[..], count, at);
    AllFull(base[..], curr[..], count);
    SortBuckets(huffNode, base, curr, count);
    AllSorted(huffNode[..], base[..], count);
    SmallAreStable(filled, huffNode[..], base[..], curr[..], count, at);
  }
}
