/** The compact form of a normalised distribution, as bit fields. */
module FseHeader {
  import opened Pow2Lemmas
  import opened BitArithmetic
  import opened BitStream
  import opened FseNorm

  // ----- One count -----

  /** The largest power of two in what remains; a count takes one more bit than its exponent, or as many. */
  function Threshold(remaining: nat): nat
    requires remaining > 0
  {
    Pow2(HighBit(remaining))
  }

  /** How many small counts can save a bit. */
  function Spare(remaining: nat): (max: nat)
    requires remaining > 0
    ensures max < Threshold(remaining)
    ensures max + remaining == 2 * Threshold(remaining) - 1
  {
    2 * Threshold(remaining) - 1 - remaining
  }

  /** The value written for a count, which is one of -1 to remaining - 1. */
  function CountValue(count: int, remaining: nat): (v: nat)
    requires -1 <= count && remaining > 0
  {
    if count + 1 >= Threshold(remaining) then count + 1 + Spare(remaining) else count + 1
  }

  function CountWidth(count: int, remaining: nat): nat
    requires -1 <= count && remaining > 0
  {
    if CountValue(count, remaining) < Spare(remaining) then HighBit(remaining) else HighBit(remaining) + 1
  }

  function PushCount(b: Bits, count: int, remaining: nat): Bits
    requires -1 <= count && remaining > 0
  {
    Push(b, CountValue(count, remaining), CountWidth(count, remaining))
  }

  lemma CountFits(count: int, remaining: nat)
    requires remaining > 0 && -1 <= count < remaining
    ensures CountValue(count, remaining) < Pow2(CountWidth(count, remaining))
  {
    assert Pow2(HighBit(remaining) + 1) == 2 * Threshold(remaining);
  }

  /** What a count is read back as: `low` are the bits below the threshold, `all` one more. */
  function CountFrom(low: nat, all: nat, remaining: nat): int
    requires remaining > 0
  {
    (if low < Spare(remaining) then low else if all >= Threshold(remaining) then all - Spare(remaining) else all) - 1
  }

  lemma LowBits(v: nat, t: nat)
    requires t <= v < 2 * t
    ensures v % t == v - t
  {
    DivideIs(v, t, 1, v - t);
  }

  /** Reading a count gives it back, and tells whether it took the extra bit. */
  lemma CountReadBack(count: int, remaining: nat, low: nat, all: nat)
    requires remaining > 0 && -1 <= count < remaining
    requires low == CountValue(count, remaining) % Threshold(remaining)
    requires CountWidth(count, remaining) == HighBit(remaining) + 1 ==> all == CountValue(count, remaining)
    ensures CountFrom(low, all, remaining) == count
    ensures low < Spare(remaining) <==> CountWidth(count, remaining) == HighBit(remaining)
  {
    var v, t := CountValue(count, remaining), Threshold(remaining);
    if v >= t {
      LowBits(v, t);
    } else {
      DivideIs(v, t, 0, v);
    }
  }

  // ----- A run of zeros -----

  /** Groups of two bits: threes for every three zeros, and then the rest. */
  function PushThrees(b: Bits, n: nat): Bits
    decreases n
  {
    if n == 0 then b else PushThrees(Push(b, 3, 2), n - 1)
  }

  function PushRun(b: Bits, zeros: nat): Bits {
    Push(PushThrees(b, zeros / 3), zeros % 3, 2)
  }

  // ----- The whole header -----

  /** The next symbol with a count other than zero. */
  function NextNonZero(norm: seq<int>, s: nat): (t: nat)
    requires s <= |norm|
    ensures s <= t <= |norm| && (t < |norm| ==> norm[t] != 0)
    ensures forall k :: s <= k < t ==> norm[k] == 0
    decreases |norm| - s
  {
    if s == |norm| || norm[s] != 0 then s else NextNonZero(norm, s + 1)
  }

  /** After a count of zero comes the number of further zeros. */
  function Next(norm: seq<int>, s: nat, zero: bool): (t: nat)
    requires s <= |norm|
    ensures s <= t <= |norm|
    ensures forall k :: s <= k < t ==> norm[k] == 0
  {
    if zero then NextNonZero(norm, s) else s
  }

  function PushZeros(b: Bits, norm: seq<int>, s: nat, zero: bool): Bits
    requires s <= |norm|
  {
    if zero then PushRun(b, NextNonZero(norm, s) - s) else b
  }

  /** The fields for the symbols from `s` on, after those in `b`, when `remaining - 1` states are still to be given. */
  ghost function Fields(norm: seq<int>, b: Bits, s: nat, remaining: nat, zero: bool): Bits
    requires Counts(norm) && s <= |norm|
    decreases |norm| - s
  {
    if remaining <= 1 || Next(norm, s, zero) == |norm| || Frequency(norm[Next(norm, s, zero)]) >= remaining then b
    else
      var t := Next(norm, s, zero);
      Fields(norm, PushCount(PushZeros(b, norm, s, zero), norm[t], remaining), t + 1,
             remaining - Frequency(norm[t]), norm[t] == 0)
  }

  ghost function Header(norm: seq<int>, tableLog: nat): Bits
    requires Normalized(norm, tableLog)
  {
    Fields(norm, Push(Nothing, tableLog - MIN_TABLELOG, 4), 0, Pow2(tableLog) + 1, false)
  }

  /** `b` came about by pushing on `below`. */
  ghost predicate Extends(b: Bits, below: Bits) {
    b == below || (b.Push? && Extends(b.below, below))
  }

  lemma {:induction false} ExtendsTransitive(a: Bits, b: Bits, c: Bits)
    requires Extends(a, b) && Extends(b, c)
    ensures Extends(a, c)
    decreases a
  {
    if a != b {
      ExtendsTransitive(a.below, b, c);
    }
  }

  lemma {:induction false} ThreesExtend(b: Bits, n: nat)
    ensures Extends(PushThrees(b, n), b)
    decreases n
  {
    if n > 0 {
      ThreesExtend(Push(b, 3, 2), n - 1);
      assert Extends(Push(b, 3, 2), b);
      ExtendsTransitive(PushThrees(b, n), Push(b, 3, 2), b);
    }
  }

  lemma ZerosExtend(b: Bits, norm: seq<int>, s: nat, zero: bool)
    requires s <= |norm|
    ensures Extends(PushZeros(b, norm, s, zero), b)
  {
    if zero {
      ThreesExtend(b, (NextNonZero(norm, s) - s) / 3);
    }
  }

  lemma {:induction false} FieldsExtend(norm: seq<int>, b: Bits, s: nat, remaining: nat, zero: bool)
    requires Counts(norm) && s <= |norm|
    ensures Extends(Fields(norm, b, s, remaining, zero), b)
    decreases |norm| - s
  {
    var t := Next(norm, s, zero);
    if remaining > 1 && t < |norm| && Frequency(norm[t]) < remaining {
      var c := PushZeros(b, norm, s, zero);
      var d := PushCount(c, norm[t], remaining);
      ZerosExtend(b, norm, s, zero);
      FieldsExtend(norm, d, t + 1, remaining - Frequency(norm[t]), norm[t] == 0);
      assert Extends(d, c);
      ExtendsTransitive(Fields(norm, b, s, remaining, zero), d, c);
      ExtendsTransitive(Fields(norm, b, s, remaining, zero), c, b);
    }
  }

  lemma {:induction false} ExtendedWidth(b: Bits, below: Bits)
    requires Extends(b, below)
    ensures Width(below) <= Width(b)
    decreases b
  {
    if b != below {
      ExtendedWidth(b.below, below);
    }
  }

  /** The bits of a stack hold everything below its top, too. */
  lemma {:induction false} HoldsBelow(t: nat, b: Bits, below: Bits)
    requires Holds(t, b) && Clean(b) && Extends(b, below)
    ensures Holds(t, below) && Clean(below)
    decreases b
  {
    if b != below {
      Pop(t, b);
      HoldsBelow(t, b.below, below);
    }
  }

  /** A field of the stack is found at its place. */
  lemma FieldAt(t: nat, b: Bits, below: Bits, value: nat, width: nat)
    requires Holds(t, b) && Clean(b) && Extends(b, Push(below, value, width))
    ensures Field(t, Width(below), width) == value < Pow2(width)
    ensures Width(below) + width <= Width(b)
  {
    HoldsBelow(t, b, Push(below, value, width));
    Pop(t, Push(below, value, width));
    ExtendedWidth(b, Push(below, value, width));
  }

  // ----- A normalised distribution -----

  /** What is left to be given after the symbols before `s`. */
  ghost predicate Left(norm: seq<int>, tableLog: nat, s: nat, remaining: int)
    requires Normalized(norm, tableLog)
  {
    s <= |norm| && remaining >= 1 && StatesBefore(norm, s) + remaining == Pow2(tableLog) + 1
  }

  lemma {:induction false} ZerosGiveNothing(norm: seq<int>, s: nat, t: nat)
    requires Counts(norm) && s <= t <= |norm| && forall k :: s <= k < t ==> norm[k] == 0
    ensures StatesBefore(norm, t) == StatesBefore(norm, s)
    decreases t
  {
    if s < t {
      ZerosGiveNothing(norm, s, t - 1);
    }
  }

  /** As long as states remain, there is a next symbol, and its count is in range. */
  lemma NextFits(norm: seq<int>, tableLog: nat, s: nat, remaining: nat, zero: bool)
    requires Normalized(norm, tableLog) && Left(norm, tableLog, s, remaining) && remaining > 1
    ensures Next(norm, s, zero) < |norm|
    ensures Frequency(norm[Next(norm, s, zero)]) < remaining
    ensures Left(norm, tableLog, Next(norm, s, zero) + 1, remaining - Frequency(norm[Next(norm, s, zero)]))
  {
    var t := Next(norm, s, zero);
    ZerosGiveNothing(norm, s, t);
    if t < |norm| {
      StatesMonotone(norm, t + 1, |norm|);
    }
  }

  lemma {:induction false} ThreesClean(b: Bits, n: nat)
    requires Clean(b)
    ensures Clean(PushThrees(b, n)) && Width(PushThrees(b, n)) == Width(b) + 2 * n
    decreases n
  {
    if n > 0 {
      assert Pow2(2) == 4;
      ThreesClean(Push(b, 3, 2), n - 1);
    }
  }

  lemma ZerosClean(b: Bits, norm: seq<int>, s: nat, zero: bool)
    requires s <= |norm| && Clean(b)
    ensures Clean(PushZeros(b, norm, s, zero))
  {
    if zero {
      ThreesClean(b, (NextNonZero(norm, s) - s) / 3);
      assert Pow2(2) == 4;
    }
  }

  lemma {:induction false} FieldsClean(norm: seq<int>, tableLog: nat, b: Bits, s: nat, remaining: nat, zero: bool)
    requires Normalized(norm, tableLog) && s <= |norm| && Clean(b)
    ensures Clean(Fields(norm, b, s, remaining, zero))
    decreases |norm| - s
  {
    var t := Next(norm, s, zero);
    if remaining > 1 && t < |norm| && Frequency(norm[t]) < remaining {
      ZerosClean(b, norm, s, zero);
      CountFits(norm[t], remaining);
      FieldsClean(norm, tableLog, PushCount(PushZeros(b, norm, s, zero), norm[t], remaining), t + 1,
                  remaining - Frequency(norm[t]), norm[t] == 0);
    }
  }
}
