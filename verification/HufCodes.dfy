/** Canonical Huffman codes: from the lengths alone, a code in which no word is the beginning of another. */
module HufCodes {
  import opened Pow2Lemmas
  import opened BitArithmetic
  import opened Counting

  // ----- The space the codes take -----

  /** The part of 2^top that a code word of the given length takes; symbols without a code take none. */
  function Share(nbBits: nat, top: nat): nat {
    if 0 < nbBits <= top then Pow2(top - nbBits) else 0
  }

  ghost function Space(nb: seq<nat>, top: nat): nat
    decreases |nb|
  {
    if nb == [] then 0 else Space(nb[..|nb| - 1], top) + Share(nb[|nb| - 1], top)
  }

  /** The lengths leave no space unused, and none is longer than `top`. */
  ghost predicate CompleteLengths(nb: seq<nat>, top: nat) {
    (forall s :: 0 <= s < |nb| ==> nb[s] <= top) && Space(nb, top) == Pow2(top)
  }

  /** The space of the words longer than n. */
  ghost function Longer(nb: seq<nat>, top: nat, n: nat): nat
    decreases |nb|
  {
    if nb == [] then 0
    else Longer(nb[..|nb| - 1], top, n) + if nb[|nb| - 1] > n then Share(nb[|nb| - 1], top) else 0
  }

  /** Words of length at most n take whole units of 2^(top - n). */
  lemma {:induction false} ShorterUnits(nb: seq<nat>, top: nat, n: nat) returns (q: nat)
    requires n <= top
    ensures Space(nb, top) == Longer(nb, top, n) + q * Pow2(top - n)
    decreases |nb|
  {
    q := 0;
    if nb != [] {
      var last := nb[|nb| - 1];
      q := ShorterUnits(nb[..|nb| - 1], top, n);
      if 0 < last <= n {
        Pow2Add(n - last, top - n);
        Distribute(q, Pow2(n - last), Pow2(top - n));
        q := q + Pow2(n - last);
      }
    }
  }

  lemma {:induction false} LongerStep(nb: seq<nat>, top: nat, n: nat)
    requires 0 < n <= top
    ensures Longer(nb, top, n - 1) == Longer(nb, top, n) + Count<nat>(nb, n) * Pow2(top - n)
    decreases |nb|
  {
    if nb != [] {
      var front := nb[..|nb| - 1];
      LongerStep(front, top, n);
      if nb[|nb| - 1] == n {
        Distribute(Count<nat>(front, n), 1, Pow2(top - n));
      }
    }
  }

  lemma {:induction false} LongerMonotone(nb: seq<nat>, top: nat, m: nat, n: nat)
    requires m <= n
    ensures Longer(nb, top, n) <= Longer(nb, top, m) <= Space(nb, top)
    decreases |nb|
  {
    if nb != [] {
      LongerMonotone(nb[..|nb| - 1], top, m, n);
    }
  }

  lemma {:induction false} NoneLonger(nb: seq<nat>, top: nat)
    ensures Longer(nb, top, top) == 0
    decreases |nb|
  {
    if nb != [] {
      NoneLonger(nb[..|nb| - 1], top);
    }
  }

  // ----- The canonical code -----

  /** The first word of length n: the words are numbered from the longest ones down. */
  function First(nb: seq<nat>, top: nat, n: nat): nat
    decreases top - n
  {
    if n >= top then 0 else (First(nb, top, n + 1) + Occurrences(nb, n + 1)) / 2
  }

  function Occurrences(nb: seq<nat>, v: nat): nat
    decreases |nb|
  {
    if nb == [] then 0 else Occurrences(nb[..|nb| - 1], v) + if nb[|nb| - 1] == v then 1 else 0
  }

  lemma OccurrencesSnoc(nb: seq<nat>, s: nat, v: nat)
    requires s < |nb|
    ensures Occurrences(nb[..s + 1], v) == Occurrences(nb[..s], v) + if nb[s] == v then 1 else 0
  {
    assert nb[..s + 1][..s] == nb[..s];
  }

  lemma {:induction false} OccurrencesIs(nb: seq<nat>, v: nat)
    ensures Occurrences(nb, v) == Count<nat>(nb, v)
    decreases |nb|
  {
    if nb != [] {
      OccurrencesIs(nb[..|nb| - 1], v);
    }
  }

  /** The word of a symbol. */
  function Word(nb: seq<nat>, top: nat, s: nat): nat
    requires s < |nb|
  {
    First(nb, top, nb[s]) + Occurrences(nb[..s], nb[s])
  }

  lemma HalfExact(a: nat, unit: nat, whole: nat, q: nat, rest: nat)
    requires unit > 0 && a * unit + q * (2 * unit) == whole * (2 * unit) && rest == a / 2
    ensures rest * (2 * unit) == a * unit
  {
    Associate(q, 2, unit);
    Associate(whole, 2, unit);
    Distribute(a, q * 2, unit);
    Equals(a + q * 2, whole * 2, unit);
    assert a == rest * 2;
    Associate(rest, 2, unit);
  }

  lemma Equals(a: int, b: int, unit: nat)
    requires unit > 0 && a * unit == b * unit
    ensures a == b
  {
    DivisionIsUnique(a, 0, b, 0, unit);
  }

  lemma FirstStep(nb: seq<nat>, top: nat, n: nat)
    requires CompleteLengths(nb, top) && n < top
    requires First(nb, top, n + 1) * Pow2(top - (n + 1)) == Longer(nb, top, n + 1)
    ensures First(nb, top, n) * Pow2(top - n) == Longer(nb, top, n)
  {
    hide First;
    var unit := Pow2(top - (n + 1));
    var a := First(nb, top, n + 1) + Count<nat>(nb, n + 1);
    assert Pow2(top - n) == 2 * unit;
    assert a * unit == Longer(nb, top, n) by {
      LongerStep(nb, top, n + 1);
      Distribute(First(nb, top, n + 1), Count<nat>(nb, n + 1), unit);
    }
    var q := ShorterUnits(nb, top, n);
    assert Pow2(n) * (2 * unit) == Pow2(top) by {
      Pow2Add(n, top - n);
    }
    NextFirst(nb, top, n);
    HalfExact(a, unit, Pow2(n), q, First(nb, top, n));
  }

  lemma NextFirst(nb: seq<nat>, top: nat, n: nat)
    requires n < top
    ensures First(nb, top, n) == (First(nb, top, n + 1) + Count<nat>(nb, n + 1)) / 2
  {
    OccurrencesIs(nb, n + 1);
  }

  /** For complete lengths the first word of each length starts exactly where the longer words end. */
  lemma {:induction false} FirstIs(nb: seq<nat>, top: nat, n: nat)
    requires CompleteLengths(nb, top) && n <= top
    ensures First(nb, top, n) * Pow2(top - n) == Longer(nb, top, n)
    decreases top - n
  {
    if n == top {
      NoneLonger(nb, top);
    } else {
      FirstIs(nb, top, n + 1);
      FirstStep(nb, top, n);
    }
  }

  /** Where the space of a symbol starts. */
  ghost function Start(nb: seq<nat>, top: nat, s: nat): nat
    requires s < |nb|
  {
    Longer(nb, top, nb[s]) + Count<nat>(nb[..s], nb[s]) * Share(nb[s], top)
  }

  lemma WordStart(nb: seq<nat>, top: nat, s: nat)
    requires CompleteLengths(nb, top) && s < |nb| && nb[s] > 0
    ensures Word(nb, top, s) * Share(nb[s], top) == Start(nb, top, s)
  {
    FirstIs(nb, top, nb[s]);
    OccurrencesIs(nb[..s], nb[s]);
    Distribute(First(nb, top, nb[s]), Count<nat>(nb[..s], nb[s]), Share(nb[s], top));
  }

  /** The space of a symbol ends before that of the shorter words begins. */
  lemma StartEnds(nb: seq<nat>, top: nat, s: nat)
    requires CompleteLengths(nb, top) && s < |nb| && nb[s] > 0
    ensures Start(nb, top, s) + Share(nb[s], top) <= Longer(nb, top, nb[s] - 1) <= Pow2(top)
  {
    EarlierFewer(nb, s);
    LongerStep(nb, top, nb[s]);
    Product(Count<nat>(nb[..s], nb[s]) + 1, Count<nat>(nb, nb[s]), Share(nb[s], top));
    Distribute(Count<nat>(nb[..s], nb[s]), 1, Share(nb[s], top));
    LongerMonotone(nb, top, nb[s] - 1, nb[s]);
  }

  /** Different symbols have different space. */
  lemma Apart(nb: seq<nat>, top: nat, s: nat, t: nat)
    requires CompleteLengths(nb, top) && s < |nb| && t < |nb| && nb[s] > 0 && nb[t] > 0
    requires nb[s] > nb[t] || (nb[s] == nb[t] && s < t)
    ensures Start(nb, top, s) + Share(nb[s], top) <= Start(nb, top, t)
  {
    hide Pow2, CompleteLengths;
    if nb[s] > nb[t] {
      StartEnds(nb, top, s);
      LongerMonotone(nb, top, nb[t], nb[s] - 1);
    } else {
      EarlierFewer(nb[..t], s);
      assert nb[..t][..s] == nb[..s];
      Product(Count<nat>(nb[..s], nb[s]) + 1, Count<nat>(nb[..t], nb[s]), Share(nb[s], top));
      Distribute(Count<nat>(nb[..s], nb[s]), 1, Share(nb[s], top));
    }
  }

  /** A word has no more bits than its length. */
  lemma WordFits(nb: seq<nat>, top: nat, s: nat)
    requires CompleteLengths(nb, top) && s < |nb| && nb[s] > 0
    ensures Word(nb, top, s) < Pow2(nb[s])
  {
    WordStart(nb, top, s);
    StartEnds(nb, top, s);
    var w, p := Word(nb, top, s), Share(nb[s], top);
    Pow2Add(nb[s], top - nb[s]);
    Distribute(w, 1, p);
    if w >= Pow2(nb[s]) {
      Product(Pow2(nb[s]) + 1, w + 1, p);
      Distribute(Pow2(nb[s]), 1, p);
    }
  }

  lemma PrefixSpace(w: nat, v: nat, d: nat, p: nat)
    requires ShiftRight(w, d) == v && p > 0
    ensures v * (Pow2(d) * p) <= w * p < v * (Pow2(d) * p) + Pow2(d) * p
  {
    var q := Pow2(d);
    assert w == v * q + w % q;
    Associate(v, q, p);
    Distribute(v * q, w % q, p);
    Product(w % q + 1, q, p);
    Distribute(w % q, 1, p);
    Product(0, w % q, p);
  }

  /** No word is the beginning of another. */
  lemma PrefixFree(nb: seq<nat>, top: nat, s: nat, t: nat)
    requires CompleteLengths(nb, top) && s < |nb| && t < |nb| && s != t && 0 < nb[t] <= nb[s]
    ensures ShiftRight(Word(nb, top, s), nb[s] - nb[t]) != Word(nb, top, t)
  {
    if ShiftRight(Word(nb, top, s), nb[s] - nb[t]) == Word(nb, top, t) {
      WordStart(nb, top, s);
      WordStart(nb, top, t);
      PrefixSpace(Word(nb, top, s), Word(nb, top, t), nb[s] - nb[t], Share(nb[s], top));
      assert Share(nb[t], top) == Pow2(nb[s] - nb[t]) * Share(nb[s], top) by {
        Pow2Add(nb[s] - nb[t], top - nb[s]);
      }
      if nb[s] > nb[t] || s < t {
        Apart(nb, top, s, t);
      } else {
        Apart(nb, top, t, s);
      }
    }
  }
}
