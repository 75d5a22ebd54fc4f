/** Bytes and little-endian numbers. */
module Bytes {
  import opened ByteType
  import opened Pow2Lemmas
  import opened BitArithmetic

  function LittleEndian(s: seq<byte>): nat {
    if s == [] then 0 else s[0] + 256 * LittleEndian(s[1..])
  }

  lemma EightMore(n: nat)
    ensures Pow2(8 * (n + 1)) == 256 * Pow2(8 * n)
  {
    var k := 8 * n;
    assert Pow2(k + 8) == 2 * Pow2(k + 7) && Pow2(k + 7) == 2 * Pow2(k + 6) && Pow2(k + 6) == 2 * Pow2(k + 5);
    assert Pow2(k + 5) == 2 * Pow2(k + 4) && Pow2(k + 4) == 2 * Pow2(k + 3) && Pow2(k + 3) == 2 * Pow2(k + 2);
    assert Pow2(k + 2) == 2 * Pow2(k + 1) && Pow2(k + 1) == 2 * Pow2(k);
  }

  lemma OneByte(b: byte, rest: nat)
    ensures Join(b, 8, rest) == b + 256 * rest
    ensures Pow2(8) == 256
  {
    JoinIs(b, 8, rest);
  }

  lemma {:induction false} LittleEndianAppend(s: seq<byte>, t: seq<byte>)
    ensures LittleEndian(s + t) == Join(LittleEndian(s), 8 * |s|, LittleEndian(t))
    decreases |s|
  {
    if s == [] {
      assert s + t == t;
    } else {
      assert (s + t)[1..] == s[1..] + t;
      LittleEndianAppend(s[1..], t);
      OneByte(s[0], LittleEndian((s + t)[1..]));
      OneByte(s[0], LittleEndian(s[1..]));
      JoinJoin(s[0], 8, LittleEndian(s[1..]), 8 * (|s| - 1), LittleEndian(t));
      assert 8 + 8 * (|s| - 1) == 8 * |s|;
    }
  }

  lemma {:induction false} LittleEndianBound(s: seq<byte>)
    ensures LittleEndian(s) < Pow2(8 * |s|)
    decreases |s|
  {
    if s != [] {
      LittleEndianBound(s[1..]);
      OneByte(s[0], LittleEndian(s[1..]));
      JoinBound(s[0], 8, LittleEndian(s[1..]), 8 * (|s| - 1));
      assert 8 + 8 * (|s| - 1) == 8 * |s|;
    }
  }

  /** The first k bytes are the low bits, the others the high ones. */
  lemma LittleEndianSplit(s: seq<byte>, k: nat)
    requires k <= |s|
    ensures LittleEndian(s[..k]) == LittleEndian(s) % Pow2(8 * k)
    ensures LittleEndian(s[k..]) == ShiftRight(LittleEndian(s), 8 * k)
  {
    assert s == s[..k] + s[k..];
    LittleEndianAppend(s[..k], s[k..]);
    LittleEndianBound(s[..k]);
    JoinParts(LittleEndian(s[..k]), 8 * k, LittleEndian(s[k..]));
  }

  lemma LittleEndianWindow(s: seq<byte>, at: nat, k: nat)
    requires at + k <= |s|
    ensures LittleEndian(s[at..at + k]) == Field(LittleEndian(s), 8 * at, 8 * k)
  {
    LittleEndianSplit(s, at);
    LittleEndianSplit(s[at..], k);
    assert s[at..][..k] == s[at..at + k];
  }

  lemma HighBitShift(low: nat, n: nat, high: nat)
    requires low < Pow2(n) && high > 0
    ensures Join(low, n, high) > 0
    ensures HighBit(Join(low, n, high)) == n + HighBit(high)
  {
    var h := HighBit(high);
    JoinBound(low, n, high, h + 1);
    JoinAtLeast(low, n, high, h);
    HighBitIs(Join(low, n, high), n + h);
  }

  lemma LastByte(s: seq<byte>)
    requires |s| > 0 && s[|s| - 1] != 0
    ensures LittleEndian(s) > 0
    ensures HighBit(LittleEndian(s)) == 8 * (|s| - 1) + HighBit(s[|s| - 1])
  {
    var n := |s| - 1;
    LittleEndianAppend(s[..n], [s[n]]);
    assert s == s[..n] + [s[n]] && LittleEndian([s[n]]) == s[n];
    LittleEndianBound(s[..n]);
    HighBitShift(LittleEndian(s[..n]), 8 * n, s[n]);
  }

  lemma LastNonZero(s: seq<byte>, n: nat)
    requires |s| > 0 && LittleEndian(s) >= Pow2(n) && n >= 8 * (|s| - 1)
    ensures s[|s| - 1] != 0
  {
    var front := s[..|s| - 1];
    if s[|s| - 1] == 0 {
      LittleEndianAppend(front, [0]);
      assert s == front + [0] && LittleEndian([0]) == 0;
      JoinZero(LittleEndian(front), 8 * |front|);
      LittleEndianBound(front);
      Pow2Monotone(8 * |front|, n);
    }
  }
}
