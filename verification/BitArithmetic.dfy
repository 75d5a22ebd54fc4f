/** Shifts and masks of natural numbers, as division by and remainder of powers of two. */
module BitArithmetic {
  import opened Pow2Lemmas

  lemma Product(a: int, b: int, p: int)
    requires a <= b && p >= 0
    ensures a * p <= b * p
  {
  }

  lemma Distribute(a: int, b: int, p: int)
    ensures (a + b) * p == a * p + b * p
  {
  }

  lemma DivisionIsUnique(q: int, r: int, d: int, s: int, p: int)
    requires q * p + r == d * p + s && 0 <= r < p && 0 <= s < p
    ensures q == d && r == s
  {
    Distribute(d, q - d, p);
    if q - d >= 1 {
      Product(1, q - d, p);
    } else if q - d <= -1 {
      Product(q - d, -1, p);
    }
  }

  lemma DivideIs(x: nat, p: nat, q: int, r: int)
    requires p > 0 && x == q * p + r && 0 <= r < p
    ensures x / p == q && x % p == r
  {
    assert x == (x / p) * p + x % p;
    DivisionIsUnique(x / p, x % p, q, r, p);
  }

  lemma Associate(a: int, b: int, c: int)
    ensures a * (b * c) == (a * b) * c
  {
  }

  lemma TwoDigits(r: int, s: int, a: int, b: int)
    requires 0 <= r < a && 0 <= s < b
    ensures 0 <= s * a + r < b * a
  {
    Product(s + 1, b, a);
    Product(0, s, a);
    assert (s + 1) * a == s * a + a;
  }

  /** A number has a low part below `a`, a middle part below `b` and the rest. */
  lemma Digits(x: nat, a: nat, b: nat)
    requires a > 0 && b > 0
    ensures b * a > 0
    ensures x / (b * a) == (x / a) / b
    ensures x % (b * a) == ((x / a) % b) * a + x % a
    ensures (x % (b * a)) / a == (x / a) % b
    ensures (x % (b * a)) % a == x % a
  {
    var r, s, q := x % a, (x / a) % b, (x / a) / b;
    Product(1, b, a);
    TwoDigits(r, s, a, b);
    assert x == q * (b * a) + (s * a + r) by {
      assert x == (x / a) * a + r;
      assert x / a == q * b + s;
      assert (q * b + s) * a == (q * b) * a + s * a;
      Associate(q, b, a);
    }
    DivideIs(x, b * a, q, s * a + r);
    DivideIs(x % (b * a), a, s, r);
  }

  lemma Shifts(x: nat, a: nat, b: nat)
    ensures x / Pow2(a + b) == x / Pow2(a) / Pow2(b)
    ensures x % Pow2(a + b) == (x / Pow2(a)) % Pow2(b) * Pow2(a) + x % Pow2(a)
    ensures x % Pow2(a + b) / Pow2(a) == (x / Pow2(a)) % Pow2(b)
    ensures x % Pow2(a + b) % Pow2(a) == x % Pow2(a)
  {
    Pow2Add(b, a);
    Digits(x, Pow2(a), Pow2(b));
  }

  function Quotient(x: nat, p: nat): nat
    requires p > 0
  {
    x / p
  }

  function ShiftRight(x: nat, n: nat): nat {
    Quotient(x, Pow2(n))
  }

  lemma ShiftTwice(x: nat, a: nat, b: nat)
    ensures ShiftRight(x, a + b) == ShiftRight(ShiftRight(x, a), b)
  {
    Shifts(x, a, b);
  }

  /** The `w` bits of `x` from bit position `at` on. */
  function Field(x: nat, at: nat, w: nat): (v: nat)
    ensures v < Pow2(w)
  {
    ShiftRight(x, at) % Pow2(w)
  }

  lemma MaskedField(y: nat, size: nat, k: nat, w: nat)
    requires k + w <= size
    ensures Field(y % Pow2(size), k, w) == Field(y, k, w)
  {
    var d := size - k;
    assert Pow2(size) == Pow2(k + d);
    Shifts(y, k, d);
    var z := ShiftRight(y, k);
    var more := d - w;
    assert Pow2(d) == Pow2(w + more);
    Shifts(z, w, more);
  }

  /** A field of a window of `x` is a field of `x`. */
  lemma WindowField(x: nat, base: nat, size: nat, k: nat, w: nat)
    requires k + w <= size
    ensures Field(Field(x, base, size), k, w) == Field(x, base + k, w)
  {
    MaskedField(ShiftRight(x, base), size, k, w);
    ShiftTwice(x, base, k);
  }

  /** Shift left in a register of `size` bits. */
  function ShiftLeft(x: nat, c: nat, size: nat): (v: nat)
    ensures v < Pow2(size)
  {
    x * Pow2(c) % Pow2(size)
  }

  lemma ShiftOut(x: nat, c: nat, d: nat)
    ensures x * Pow2(c) % Pow2(c + d) == x % Pow2(d) * Pow2(c)
  {
    DivideIs(x * Pow2(c), Pow2(c), x, 0);
    Shifts(x * Pow2(c), c, d);
  }

  lemma ShiftBack(x: nat, c: nat, k: nat)
    ensures x * Pow2(c) / Pow2(c + k) == x / Pow2(k)
  {
    DivideIs(x * Pow2(c), Pow2(c), x, 0);
    Shifts(x * Pow2(c), c, k);
  }

  /** Reading a field by shifting left, out of a register of `size` bits, and then right. */
  lemma ShiftedField(x: nat, size: nat, c: nat, w: nat)
    requires c + w <= size
    ensures ShiftRight(ShiftLeft(x, c, size), size - w) == Field(x, size - c - w, w)
  {
    var k := size - c - w;
    ShiftOut(x, c, k + w);
    assert c + (k + w) == size && c + k == size - w;
    ShiftBack(x % Pow2(k + w), c, k);
    Shifts(x, k, w);
  }

  /** The number with the bits of `high` above the `n` bits of `low`. */
  ghost function Join(low: nat, n: nat, high: nat): nat
    decreases n
  {
    if n == 0 then low + high else Join(low, n - 1, 2 * high)
  }

  lemma {:induction false} JoinIs(low: nat, n: nat, high: nat)
    ensures Join(low, n, high) == low + Pow2(n) * high
    decreases n
  {
    if n > 0 {
      JoinIs(low, n - 1, 2 * high);
      Associate(Pow2(n - 1), 2, high);
    }
  }

  lemma JoinParts(low: nat, n: nat, high: nat)
    requires low < Pow2(n)
    ensures Join(low, n, high) % Pow2(n) == low
    ensures ShiftRight(Join(low, n, high), n) == high
  {
    JoinIs(low, n, high);
    DivideIs(Join(low, n, high), Pow2(n), high, low);
  }

  lemma JoinBound(low: nat, n: nat, high: nat, w: nat)
    requires low < Pow2(n) && high < Pow2(w)
    ensures Join(low, n, high) < Pow2(n + w)
  {
    JoinIs(low, n, high);
    Pow2Add(n, w);
    TwoDigits(low, high, Pow2(n), Pow2(w));
  }

  lemma JoinAgain(x: nat, n: nat)
    ensures x == Join(x % Pow2(n), n, ShiftRight(x, n))
  {
    JoinIs(x % Pow2(n), n, ShiftRight(x, n));
  }

  lemma JoinSum(a: int, p: int, b: int, q: int, c: int)
    ensures a + p * b + (p * q) * c == a + p * (b + q * c)
  {
    Associate(p, q, c);
  }

  lemma JoinJoin(a: nat, n: nat, b: nat, m: nat, c: nat)
    ensures Join(Join(a, n, b), n + m, c) == Join(a, n, Join(b, m, c))
  {
    JoinIs(a, n, b);
    JoinIs(Join(a, n, b), n + m, c);
    JoinIs(b, m, c);
    JoinIs(a, n, Join(b, m, c));
    Pow2Add(n, m);
    JoinSum(a, Pow2(n), b, Pow2(m), c);
  }

  lemma JoinZero(low: nat, n: nat)
    ensures Join(low, n, 0) == low
  {
    JoinIs(low, n, 0);
  }

  lemma JoinNothing(low: nat, high: nat)
    ensures Join(low, 0, high) == low + high
  {
  }

  lemma JoinAtLeast(low: nat, n: nat, high: nat, w: nat)
    requires high >= Pow2(w)
    ensures Join(low, n, high) >= Pow2(n + w)
  {
    JoinIs(low, n, high);
    Pow2Add(n, w);
    Product(Pow2(w), high, Pow2(n));
  }
}
