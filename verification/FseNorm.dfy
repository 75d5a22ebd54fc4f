/** Normalised distributions, and the order in which a table of states is walked. */
module FseNorm {
  import opened Pow2Lemmas
  import opened BitArithmetic

  const MIN_TABLELOG := 5
  const MAX_TABLELOG := 12
  const MAX_SYMBOL_VALUE := 255

  /** How many states a symbol has; -1 stands for a symbol of low probability, with one. */
  function Frequency(count: int): nat
    requires count >= -1
  {
    if count == -1 then 1 else count
  }

  ghost predicate Counts(norm: seq<int>) {
    |norm| <= MAX_SYMBOL_VALUE + 1 && forall s :: 0 <= s < |norm| ==> norm[s] >= -1
  }

  /** The states of all symbols before `s`. */
  ghost function StatesBefore(norm: seq<int>, s: nat): nat
    requires Counts(norm) && s <= |norm|
  {
    if s == 0 then 0 else StatesBefore(norm, s - 1) + Frequency(norm[s - 1])
  }

  ghost function LowBefore(norm: seq<int>, s: nat): nat
    requires s <= |norm|
  {
    if s == 0 then 0 else LowBefore(norm, s - 1) + if norm[s - 1] == -1 then 1 else 0
  }

  /** The symbols share 2^tableLog states. */
  ghost predicate Normalized(norm: seq<int>, tableLog: nat) {
    && MIN_TABLELOG <= tableLog <= MAX_TABLELOG && |norm| > 0
    && Counts(norm) && StatesBefore(norm, |norm|) == Pow2(tableLog)
  }

  lemma {:induction false} StatesMonotone(norm: seq<int>, s: nat, t: nat)
    requires Counts(norm) && s <= t <= |norm|
    ensures StatesBefore(norm, s) <= StatesBefore(norm, t)
    ensures s < t ==> StatesBefore(norm, s) + Frequency(norm[s]) <= StatesBefore(norm, t)
    decreases t
  {
    if s < t {
      StatesMonotone(norm, s, t - 1);
    }
  }

  lemma {:induction false} LowMonotone(norm: seq<int>, s: nat, t: nat)
    requires s <= t <= |norm|
    ensures LowBefore(norm, s) <= LowBefore(norm, t)
    decreases t
  {
    if s < t {
      LowMonotone(norm, s, t - 1);
    }
  }

  lemma {:induction false} LowAtMostStates(norm: seq<int>, s: nat)
    requires Counts(norm) && s <= |norm|
    ensures LowBefore(norm, s) <= StatesBefore(norm, s)
  {
    if s > 0 {
      LowAtMostStates(norm, s - 1);
    }
  }

  // ----- Walking the table in odd steps -----

  function Step(tableSize: nat): nat {
    tableSize / 2 + tableSize / 8 + 3
  }

  lemma OddStep(tableLog: nat)
    requires tableLog >= MIN_TABLELOG
    ensures Step(Pow2(tableLog)) % 2 == 1
    ensures Pow2(tableLog) % 2 == 0 && Pow2(tableLog) >= 32
  {
    var q := Pow2(tableLog - 4);
    assert Pow2(tableLog) == 16 * q by {
      Pow2Add(4, tableLog - 4);
    }
    assert q >= 2 by {
      Pow2Monotone(1, tableLog - 4);
    }
    assert 16 * q / 2 == 8 * q && 16 * q / 8 == 2 * q;
  }

  /** Where the k-th step leads. */
  function Position(tableLog: nat, k: nat): (p: nat)
    ensures p < Pow2(tableLog)
  {
    k * Step(Pow2(tableLog)) % Pow2(tableLog)
  }

  /** The step in terms of the size of the table: five eighths of it, and three more. */
  lemma StepIs(tableLog: nat)
    requires tableLog >= 3
    ensures Step(Pow2(tableLog)) == 5 * Pow2(tableLog - 3) + 3
  {
    Eight();
    hide Pow2;
    Pow2Add(3, tableLog - 3);
    var q := Pow2(tableLog - 3);
    assert Pow2(tableLog) == 8 * q;
    assert 8 * q / 2 == 4 * q && 8 * q / 8 == q;
  }

  lemma Eight()
    ensures Pow2(3) == 8
  {
  }

  /** Where the walk goes from a cell, whatever the size of the table. */
  lemma NextPosition(tableLog: nat, k: nat)
    requires tableLog >= MIN_TABLELOG
    ensures Position(tableLog, 0) == 0
    ensures Position(tableLog, k + 1) == (Position(tableLog, k) + 5 * Pow2(tableLog - 3) + 3) % Pow2(tableLog)
  {
    hide Pow2, Step;
    StepIs(tableLog);
    FullCircle(tableLog);
    StepsFrom(tableLog, k, 1);
  }

  lemma AddModulo(x: nat, y: nat, n: nat)
    requires n > 0
    ensures (x + y) % n == (x % n + y) % n
  {
    var q, r, d, s := x / n, x % n, (x % n + y) / n, (x % n + y) % n;
    assert x == q * n + r && r + y == d * n + s;
    Distribute(q, d, n);
    DivideIs(x + y, n, q + d, s);
  }

  lemma MultiplyModulo(x: nat, y: nat, n: nat)
    requires n > 0
    ensures (x % n) * y % n == x * y % n
  {
    var q, r := x / n, x % n;
    assert x * y == r * y + (q * y) * n by {
      assert x == q * n + r;
      Distribute(q * n, r, y);
      assert (q * n) * y == (q * y) * n;
    }
    Multiples(r * y, q * y, n);
  }

  lemma Multiples(x: nat, q: nat, n: nat)
    requires n > 0
    ensures (x + q * n) % n == x % n
  {
    var d, r := x / n, x % n;
    assert x == d * n + r;
    Distribute(d, q, n);
    DivideIs(x + q * n, n, d + q, r);
  }

  lemma StepsFrom(tableLog: nat, k: nat, u: nat)
    ensures Position(tableLog, k + u) == (Position(tableLog, k) + u * Step(Pow2(tableLog))) % Pow2(tableLog)
  {
    var step, n := Step(Pow2(tableLog)), Pow2(tableLog);
    Distribute(k, u, step);
    AddModulo(k * step, u * step, n);
  }

  lemma FullCircle(tableLog: nat)
    ensures Position(tableLog, 0) == 0
    ensures Position(tableLog, Pow2(tableLog)) == 0
  {
    Multiples(0, Step(Pow2(tableLog)), Pow2(tableLog));
  }

  /** An odd number has an inverse modulo every power of two. */
  ghost function Inverse(a: nat, n: nat): nat
    decreases n
  {
    if n <= 1 then 1
    else if a * Inverse(a, n - 1) % Pow2(n) == 1 then Inverse(a, n - 1)
    else Inverse(a, n - 1) + Pow2(n - 1)
  }

  lemma {:induction false} InverseIs(a: nat, n: nat)
    requires a % 2 == 1 && n >= 1
    ensures a * Inverse(a, n) % Pow2(n) == 1
    decreases n
  {
    if n == 1 {
      assert Pow2(1) == 2;
    } else {
      InverseIs(a, n - 1);
      Pow2Monotone(1, n - 1);
      Lift(a, Pow2(n - 1), Inverse(a, n - 1));
    }
  }

  lemma Lift(a: nat, p: nat, x: nat)
    requires a % 2 == 1 && p >= 2 && a * x % p == 1
    ensures a * x % (2 * p) == 1 || a * (x + p) % (2 * p) == 1
  {
    var y := a * x;
    var q := y / p;
    assert y == q * p + 1;
    LiftStep(a, x, p, q);
  }

  lemma LiftStep(a: nat, x: nat, p: nat, q: nat)
    requires a % 2 == 1 && p >= 2 && a * x == q * p + 1
    ensures a * x % (2 * p) == 1 || a * (x + p) % (2 * p) == 1
  {
    if q % 2 == 0 {
      Halve(q, p);
      DivideIs(a * x, 2 * p, q / 2, 1);
    } else {
      var m := q + a;
      assert a * (x + p) == a * x + a * p;
      Distribute(q, a, p);
      Halve(m, p);
      DivideIs(a * (x + p), 2 * p, m / 2, 1);
    }
  }

  lemma Halve(m: nat, p: nat)
    requires m % 2 == 0
    ensures m * p == (m / 2) * (2 * p)
  {
    var h := m / 2;
    assert m == h * 2;
    Associate(h, 2, p);
  }

  /** The step that leads to `p`. */
  ghost function StepTo(tableLog: nat, p: nat): (k: nat)
    ensures k < Pow2(tableLog)
  {
    p * Inverse(Step(Pow2(tableLog)), tableLog) % Pow2(tableLog)
  }

  lemma UndoStep(a: nat, x: nat, k: nat, n: nat)
    requires n > 1 && a * x % n == 1 && k < n
    ensures (k * a % n) * x % n == k
  {
    MultiplyModulo(k * a, x, n);
    assert (k * a) * x == (a * x) * k by {
      Associate(k, a, x);
    }
    MultiplyModulo(a * x, k, n);
    DivideIs(k, n, 0, k);
  }

  lemma Commute(a: int, b: int)
    ensures a * b == b * a
  {
  }

  lemma UndoBoth(a: nat, x: nat, k: nat, n: nat)
    requires n > 1 && a * x % n == 1 && k < n
    ensures (k * a % n) * x % n == k
    ensures (k * x % n) * a % n == k
  {
    UndoStep(a, x, k, n);
    Commute(a, x);
    UndoStep(x, a, k, n);
  }

  /** Every cell is reached by exactly one of the first 2^tableLog steps. */
  lemma EveryCellOnce(tableLog: nat, p: nat)
    requires tableLog >= MIN_TABLELOG && p < Pow2(tableLog)
    ensures Position(tableLog, StepTo(tableLog, p)) == p
    ensures StepTo(tableLog, Position(tableLog, p)) == p
  {
    OddStep(tableLog);
    var a := Step(Pow2(tableLog));
    InverseIs(a, tableLog);
    UndoBoth(a, Inverse(a, tableLog), p, Pow2(tableLog));
  }
}
