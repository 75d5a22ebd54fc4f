/** Powers of two. */
module Pow2Lemmas {

  function Pow2(n: nat): (r: nat)
    ensures r > 0
    decreases n
  {
    if n == 0 then 1 else 2 * Pow2(n - 1)
  }

  lemma {:induction false} Pow2Add(a: nat, b: nat)
    ensures Pow2(a + b) == Pow2(a) * Pow2(b)
    decreases a
  {
    if a > 0 {
      Pow2Add(a - 1, b);
      assert Pow2(a + b) == 2 * Pow2(a - 1 + b);
    }
  }

  lemma {:induction false} Pow2Monotone(a: nat, b: nat)
    requires a <= b
    ensures Pow2(a) <= Pow2(b)
    ensures a < b ==> 2 * Pow2(a) <= Pow2(b)
    decreases b
  {
    if a < b {
      Pow2Monotone(a, b - 1);
    }
  }

  /** The position of the highest set bit. */
  function HighBit(x: nat): (r: nat)
    requires x > 0
    ensures Pow2(r) <= x < 2 * Pow2(r)
    decreases x
  {
    if x == 1 then 0 else 1 + HighBit(x / 2)
  }

  lemma HighBitIs(x: nat, n: nat)
    requires Pow2(n) <= x < 2 * Pow2(n)
    ensures HighBit(x) == n
  {
    var h := HighBit(x);
    if h < n {
      Pow2Monotone(h, n);
    } else if h > n {
      Pow2Monotone(n, h);
    }
  }
}
