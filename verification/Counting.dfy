/** How often a value occurs in a sequence. */
module Counting {

  ghost function Count<T>(s: seq<T>, v: T): nat
    decreases |s|
  {
    if s == [] then 0 else Count(s[..|s| - 1], v) + if s[|s| - 1] == v then 1 else 0
  }

  lemma {:induction false} CountUpdate<T>(s: seq<T>, i: nat, v: T, w: T)
    requires i < |s|
    ensures Count(s[i := v], w) == Count(s, w) - (if s[i] == w then 1 else 0) + (if v == w then 1 else 0)
    decreases |s|
  {
    var now := s[i := v];
    var front := s[..|s| - 1];
    if i == |s| - 1 {
      assert now[..|s| - 1] == front;
    } else {
      assert now[..|s| - 1] == front[i := v];
      CountUpdate(front, i, v, w);
    }
  }

  lemma CountSnoc<T>(s: seq<T>, v: T, w: T)
    ensures Count(s + [v], w) == Count(s, w) + if v == w then 1 else 0
  {
    assert (s + [v])[..|s|] == s;
  }

  lemma {:induction false} CountTail<T>(s: seq<T>, v: T, n: nat)
    requires n <= |s| && forall i :: n <= i < |s| ==> s[i] == v
    ensures Count(s, v) >= |s| - n
    decreases |s|
  {
    if n < |s| {
      CountTail(s[..|s| - 1], v, n);
    }
  }

  lemma {:induction false} CountPositive<T>(s: seq<T>, v: T)
    ensures Count(s, v) > 0 <==> exists i :: 0 <= i < |s| && s[i] == v
    decreases |s|
  {
    if s != [] {
      var front := s[..|s| - 1];
      CountPositive(front, v);
      if s[|s| - 1] != v && exists i :: 0 <= i < |s| && s[i] == v {
        var i :| 0 <= i < |s| && s[i] == v;
        assert front[i] == v;
      }
      if Count(front, v) > 0 {
        var i :| 0 <= i < |front| && front[i] == v;
        assert s[i] == v;
      }
    }
  }

  lemma {:induction false} CountPrefix<T>(s: seq<T>, v: T, n: nat)
    requires n <= |s|
    ensures Count(s[..n], v) <= Count(s, v)
    decreases |s|
  {
    if n < |s| {
      CountPrefix(s[..|s| - 1], v, n);
      assert s[..|s| - 1][..n] == s[..n];
    } else {
      assert s[..n] == s;
    }
  }

  /** The place where the (j + 1)-th occurrence is. */
  lemma {:induction false} Occurrence<T>(s: seq<T>, v: T, j: nat) returns (u: nat)
    requires j < Count(s, v)
    ensures u < |s| && s[u] == v && Count(s[..u], v) == j
    decreases |s|
  {
    var front := s[..|s| - 1];
    if j < Count(front, v) {
      u := Occurrence(front, v, j);
      assert front[..u] == s[..u];
    } else {
      u := |s| - 1;
    }
  }

  /** The number of earlier places with the same value is less than that of all places. */
  lemma EarlierFewer<T>(s: seq<T>, u: nat)
    requires u < |s|
    ensures Count(s[..u], s[u]) < Count(s, s[u])
  {
    CountSnoc(s[..u], s[u], s[u]);
    assert s[..u] + [s[u]] == s[..u + 1];
    CountPrefix(s, s[u], u + 1);
  }
}
