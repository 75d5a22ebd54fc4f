/** Comparing words: where two of them first differ is told by the lowest bit in which they do. */
module Lz4Words {
  import opened ByteType
  import opened Pow2Lemmas
  import opened Bytes

  function Xor(x: nat, y: nat): nat
    decreases x + y
  {
    if x == 0 && y == 0 then 0 else (if x % 2 != y % 2 then 1 else 0) + 2 * Xor(x / 2, y / 2)
  }

  /** The number of zeros below the lowest bit that is set. */
  function TrailingZeros(v: nat): nat
    requires v > 0
  {
    if v % 2 == 1 then 0 else 1 + TrailingZeros(v / 2)
  }

  lemma {:induction false} XorZero(x: nat, y: nat)
    ensures Xor(x, y) == 0 <==> x == y
    decreases x + y
  {
    if x != 0 || y != 0 {
      XorZero(x / 2, y / 2);
    }
  }

  lemma XorStep(x: nat, y: nat)
    ensures Xor(x, y) == (if x % 2 != y % 2 then 1 else 0) + 2 * Xor(x / 2, y / 2)
  {
  }

  /** A number of low and high bits, in units of `p`. */
  function Both(a: nat, p: nat, x: nat): nat {
    a + p * x
  }

  lemma Halved(a: nat, p: nat, x: nat)
    ensures Both(a, 2 * p, x) % 2 == a % 2 && Both(a, 2 * p, x) / 2 == Both(a / 2, p, x)
  {
    assert (2 * p) * x == 2 * (p * x);
  }

  lemma Doubled(bit: nat, a: nat, p: nat, x: nat)
    ensures bit + 2 * Both(a, p, x) == Both(bit + 2 * a, 2 * p, x)
  {
  }

  /** The low bits and the high bits are apart. */
  lemma {:induction false} XorApart(k: nat, a: nat, b: nat, x: nat, y: nat)
    requires a < Pow2(k) && b < Pow2(k)
    ensures Xor(Both(a, Pow2(k), x), Both(b, Pow2(k), y)) == Both(Xor(a, b), Pow2(k), Xor(x, y))
    ensures Xor(a, b) < Pow2(k)
    decreases k
  {
    if k > 0 {
      hide Xor, Both;
      var p := Pow2(k - 1);
      assert Pow2(k) == 2 * p;
      XorApart(k - 1, a / 2, b / 2, x, y);
      XorStep(a, b);
      XorStep(Both(a, 2 * p, x), Both(b, 2 * p, y));
      Halved(a, p, x);
      Halved(b, p, y);
      Doubled(if a % 2 != b % 2 then 1 else 0, Xor(a / 2, b / 2), p, Xor(x, y));
    }
  }

  lemma {:induction false} ZerosApart(k: nat, a: nat, x: nat)
    requires a < Pow2(k) && (a > 0 || x > 0)
    ensures Both(a, Pow2(k), x) > 0
    ensures TrailingZeros(Both(a, Pow2(k), x)) == if a > 0 then TrailingZeros(a) else k + TrailingZeros(x)
    ensures a > 0 ==> TrailingZeros(a) < k
    decreases k
  {
    if k > 0 {
      hide Both;
      var p := Pow2(k - 1);
      assert Pow2(k) == 2 * p;
      Halved(a, p, x);
      if a % 2 == 0 {
        ZerosApart(k - 1, a / 2, x);
      }
    }
  }

  lemma ByEight(n: nat, m: nat)
    ensures n < 8 ==> n / 8 == 0
    ensures n == 8 + m ==> n / 8 == 1 + m / 8
  {
  }

  /** Words compared byte by byte. */
  lemma FirstByte(a: byte, b: byte, x: nat, y: nat)
    ensures Xor(a + 256 * x, b + 256 * y) == 0 <==> a == b && Xor(x, y) == 0
    ensures a != b ==> TrailingZeros(Xor(a + 256 * x, b + 256 * y)) / 8 == 0
    ensures a == b && Xor(x, y) > 0 ==>
      TrailingZeros(Xor(a + 256 * x, b + 256 * y)) / 8 == 1 + TrailingZeros(Xor(x, y)) / 8
  {
    hide Xor, TrailingZeros;
    assert Pow2(8) == 256;
    hide Pow2;
    var low, high := Xor(a, b), Xor(x, y);
    XorApart(8, a, b, x, y);
    XorZero(a, b);
    if low > 0 || high > 0 {
      ZerosApart(8, low, high);
      ByEight(TrailingZeros(Both(low, 256, high)), if high > 0 then TrailingZeros(high) else 0);
    }
  }

  lemma OneMoreByte(s: seq<byte>, t: seq<byte>, r: nat)
    requires |s| == |t| > 0 && s[0] == t[0] && r < |s| - 1 && s[1..][..r] == t[1..][..r]
    ensures s[..r + 1] == t[..r + 1]
  {
    assert s[..r + 1] == [s[0]] + s[1..][..r] && t[..r + 1] == [t[0]] + t[1..][..r];
  }

  lemma LowByte(s: seq<byte>)
    requires s != []
    ensures LittleEndian(s) == s[0] + 256 * LittleEndian(s[1..])
  {
  }

  lemma FirstStep(s: seq<byte>, t: seq<byte>)
    requires |s| == |t| > 0
    ensures var d, rest := Xor(LittleEndian(s), LittleEndian(t)), Xor(LittleEndian(s[1..]), LittleEndian(t[1..]));
      && (d == 0 <==> s[0] == t[0] && rest == 0)
      && (s[0] != t[0] ==> TrailingZeros(d) / 8 == 0)
      && (s[0] == t[0] && rest > 0 ==> TrailingZeros(d) / 8 == 1 + TrailingZeros(rest) / 8)
  {
    hide Xor, TrailingZeros, LittleEndian;
    LowByte(s);
    LowByte(t);
    FirstByte(s[0], t[0], LittleEndian(s[1..]), LittleEndian(t[1..]));
  }

  lemma {:induction false} SameWords(s: seq<byte>, t: seq<byte>)
    requires |s| == |t|
    ensures Xor(LittleEndian(s), LittleEndian(t)) == 0 <==> s == t
    decreases |s|
  {
    if s != [] {
      hide Xor, TrailingZeros, LittleEndian;
      FirstStep(s, t);
      SameWords(s[1..], t[1..]);
      assert s == [s[0]] + s[1..] && t == [t[0]] + t[1..];
    }
  }

  /** The number of equal bytes before the first that differ. */
  lemma {:induction false} CommonBytes(s: seq<byte>, t: seq<byte>)
    requires |s| == |t| && s != t
    ensures Xor(LittleEndian(s), LittleEndian(t)) > 0
    ensures var r := TrailingZeros(Xor(LittleEndian(s), LittleEndian(t))) / 8;
      r < |s| && s[..r] == t[..r] && s[r] != t[r]
    decreases |s|
  {
    hide Xor, TrailingZeros, LittleEndian;
    SameWords(s, t);
    FirstStep(s, t);
    if s[0] == t[0] {
      assert s == [s[0]] + s[1..] && t == [t[0]] + t[1..];
      CommonBytes(s[1..], t[1..]);
      OneMoreByte(s, t, TrailingZeros(Xor(LittleEndian(s[1..]), LittleEndian(t[1..]))) / 8);
    }
  }
}
