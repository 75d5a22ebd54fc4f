/** The header of one distribution, byte for byte: a low probability, a run of zeros, and counts of all widths. */
module FseHeaderValues {
  import opened ByteType
  import opened Bytes
  import opened Pow2Lemmas
  import opened BitArithmetic
  import opened BitStream
  import opened FseNorm
  import opened FseHeader
  import opened FseHeaderWriter

  function Example(): seq<int> {
    [-1, 0, 0, 0, 0, 0, 30, 1]
  }

  lemma ExampleIsNormalized()
    ensures Normalized(Example(), 5)
  {
    var norm := Example();
    assert Pow2(5) == 32;
    assert StatesBefore(norm, 1) == StatesBefore(norm, 2) == StatesBefore(norm, 3) == 1;
    assert StatesBefore(norm, 4) == StatesBefore(norm, 5) == StatesBefore(norm, 6) == 1;
    assert StatesBefore(norm, 7) == 31 && StatesBefore(norm, 8) == 32;
  }

  /** A field for a count, from the power of two in what remains. */
  lemma CountField(b: Bits, count: int, remaining: nat, n: nat, p: nat)
    requires -1 <= count < remaining && p == Pow2(n) && p <= remaining < 2 * p
    ensures var max, v := 2 * p - 1 - remaining, count + 1;
      PushCount(b, count, remaining) == if v < max then Push(b, v, n) else Push(b, if v < p then v else v + max, n + 1)
  {
    HighBitIs(remaining, n);
  }

  /** The next count, if it is not after a zero. */
  lemma NextField(norm: seq<int>, b: Bits, s: nat, remaining: nat, c: Bits)
    requires Counts(norm) && s < |norm| && 1 < remaining && -1 <= norm[s] && Frequency(norm[s]) < remaining
    requires c == PushCount(b, norm[s], remaining)
    ensures Fields(norm, b, s, remaining, false) ==
      Fields(norm, c, s + 1, remaining - Frequency(norm[s]), norm[s] == 0)
  {
    hide PushCount;
  }

  /** The next count, after a zero. */
  lemma AfterZero(norm: seq<int>, b: Bits, s: nat, remaining: nat, t: nat, c: Bits)
    requires Counts(norm) && s <= t < |norm| && 1 < remaining && -1 <= norm[t] && Frequency(norm[t]) < remaining
    requires NextNonZero(norm, s) == t && norm[t] != 0
    requires c == PushCount(PushZeros(b, norm, s, true), norm[t], remaining)
    ensures Fields(norm, b, s, remaining, true) == Fields(norm, c, t + 1, remaining - Frequency(norm[t]), false)
  {
    hide PushCount, PushZeros, NextNonZero;
  }

  lemma ExampleFields()
    requires Normalized(Example(), 5)
    ensures Header(Example(), 5) ==
      Push(Push(Push(Push(Push(Push(Push(Nothing, 0, 4), 0, 5), 1, 5), 3, 2), 1, 2), 31, 6), 3, 2)
  {
    var norm := Example();
    var b := Push(Nothing, 0, 4);
    var c := Push(b, 0, 5);
    var d := Push(c, 1, 5);
    var e := Push(Push(d, 3, 2), 1, 2);
    var f := Push(e, 31, 6);
    ExampleCounts(b, c, d, e, f);
    Run(d);
    hide PushCount, PushZeros, NextNonZero, Fields, Normalized;
    assert Pow2(5) == 32;
    hide Pow2;
    assert Header(norm, 5) == Fields(norm, b, 0, 33, false);
    NextField(norm, b, 0, 33, c);
    NextField(norm, c, 1, 32, d);
    AfterZero(norm, d, 2, 32, 6, f);
    NextField(norm, f, 7, 2, Push(f, 3, 2));
    NoneLeft(norm, Push(f, 3, 2));
  }

  lemma ExampleCounts(b: Bits, c: Bits, d: Bits, e: Bits, f: Bits)
    requires c == Push(b, 0, 5) && d == Push(c, 1, 5) && f == Push(e, 31, 6)
    ensures PushCount(b, -1, 33) == c && PushCount(c, 0, 32) == d && PushCount(e, 30, 32) == f
    ensures PushCount(f, 1, 2) == Push(f, 3, 2)
  {
    assert Pow2(5) == 32 && Pow2(1) == 2;
    hide PushCount, Pow2;
    CountField(b, -1, 33, 5, 32);
    CountField(c, 0, 32, 5, 32);
    CountField(e, 30, 32, 5, 32);
    CountField(f, 1, 2, 1, 2);
  }

  lemma NoneLeft(norm: seq<int>, b: Bits)
    requires Counts(norm)
    ensures Fields(norm, b, |norm|, 1, false) == b
  {
  }

  /** Four zeros after the first: three of them, and one. */
  lemma Run(b: Bits)
    ensures NextNonZero(Example(), 2) == 6 && PushZeros(b, Example(), 2, true) == Push(Push(b, 3, 2), 1, 2)
  {
    var norm := Example();
    assert NextNonZero(norm, 6) == 6 == NextNonZero(norm, 5) == NextNonZero(norm, 4) == NextNonZero(norm, 3);
    assert PushThrees(b, 1) == PushThrees(Push(b, 3, 2), 0);
  }

  lemma ExampleHeader()
    ensures Normalized(Example(), 5) && IsHeader([0x00, 0xC2, 0x7D, 0x03], Header(Example(), 5))
  {
    hide Header, Normalized, LittleEndian, Number, Width;
    ExampleIsNormalized();
    ExampleFields();
    ExampleNumber();
  }

  lemma ExampleNumber()
    ensures var b := Push(Push(Push(Push(Push(Push(Push(Nothing, 0, 4), 0, 5), 1, 5), 3, 2), 1, 2), 31, 6), 3, 2);
      Width(b) == 26 && Number(b) == 58573312 == LittleEndian([0x00, 0xC2, 0x7D, 0x03])
  {
    hide Join, Pow2;
    Powers();
    JoinIs(0, 0, 0);
    JoinIs(0, 4, 0);
    JoinIs(0, 9, 1);
    JoinIs(512, 14, 3);
    JoinIs(49664, 16, 1);
    JoinIs(115200, 18, 31);
    JoinIs(8241664, 24, 3);
    FourBytes();
  }

  lemma Powers()
    ensures Pow2(0) == 1 && Pow2(4) == 16 && Pow2(9) == 512 && Pow2(14) == 16384
    ensures Pow2(16) == 65536 && Pow2(18) == 262144 && Pow2(24) == 16777216
  {
    assert Pow2(5) == 32 && Pow2(2) == 4;
    Pow2Add(5, 4);
    Pow2Add(9, 5);
    Pow2Add(14, 2);
    Pow2Add(16, 2);
    Pow2Add(14, 5);
    Pow2Add(19, 5);
  }

  lemma FourBytes()
    ensures LittleEndian([0x00, 0xC2, 0x7D, 0x03]) == 58573312
  {
    var s: seq<byte> := [0x00, 0xC2, 0x7D, 0x03];
    assert s[1..] == [0xC2, 0x7D, 0x03] && s[1..][1..] == [0x7D, 0x03] && s[1..][1..][1..] == [0x03];
    assert LittleEndian([0x03]) == 3 && LittleEndian([0x7D, 0x03]) == 893 && LittleEndian([0xC2, 0x7D, 0x03]) == 228802;
  }
}
