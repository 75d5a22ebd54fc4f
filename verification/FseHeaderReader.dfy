/** Reading the header of a distribution. */
module FseHeaderReader {
  import opened ByteType
  import opened Pow2Lemmas
  import opened BitArithmetic
  import opened Bytes
  import opened BitStream
  import opened FseNorm
  import opened FseHeader

  const TABLELOG_ABSOLUTE_MAX := 15

  datatype Read = Read(size: nat, maxSymbolValue: nat, tableLog: nat) | TableLogTooLarge | Corrupted | TooManySymbols

  // ----- The 32-bit register -----

  /** The register holds what follows bit `bitCount` of the word at `ip`. Away from the end of the buffer that is at
      least 25 bits. */
  ghost predicate Loaded(buffer: seq<byte>, ip: nat, bitCount: nat, bitStream: nat) {
    && ip + 4 <= |buffer| && bitCount <= 31 && (bitCount <= 7 || ip + 4 == |buffer|)
    && bitStream == ShiftRight(LittleEndian(buffer[ip..ip + 4]), bitCount)
  }

  lemma LoadedField(buffer: seq<byte>, ip: nat, bitCount: nat, bitStream: nat, at: nat, w: nat)
    requires Loaded(buffer, ip, bitCount, bitStream) && bitCount + at + w <= 32
    ensures Field(bitStream, at, w) == Field(LittleEndian(buffer), 8 * ip + bitCount + at, w)
  {
    LittleEndianWindow(buffer, ip, 4);
    WindowField(LittleEndian(buffer), 8 * ip, 32, bitCount + at, w);
    ShiftTwice(LittleEndian(buffer[ip..ip + 4]), bitCount, at);
  }

  lemma FieldZero(x: nat, w: nat)
    ensures Field(x, 0, w) == x % Pow2(w)
  {
    DivideIs(x, Pow2(0), x, 0);
  }

  lemma WithinBuffer(size: nat, start: nat, count: nat)
    requires start + count / 8 + 4 <= size || (start + 7 <= size && count <= 31)
    ensures start + count / 8 + 4 <= size && count % 8 <= 7 && 8 * (start + count / 8) + count % 8 == 8 * start + count
  {
  }

  lemma PastBuffer(size: nat, start: nat, count: nat)
    requires start + 4 <= size < start + count / 8 + 4
    ensures count >= 8 * (size - 4 - start)
    ensures var rest := (count - 8 * (size - 4 - start)) % 32;
      0 <= rest <= 31 && (8 * start + count < 8 * size ==> 8 * (size - 4) + rest == 8 * start + count)
  {
    var past := count - 8 * (size - 4 - start);
    assert past >= 8;
    if 8 * start + count < 8 * size {
      assert past < 32;
    }
  }

  /** Move to the byte of the next bit, as far as a word can still be read there. */
  method Advance(buffer: seq<byte>, start: nat, count: nat) returns (ip: nat, bitCount: nat, bitStream: nat)
    requires start + 4 <= |buffer| && |buffer| >= 8
    requires start + 7 <= |buffer| ==> count <= 31
    ensures Loaded(buffer, ip, bitCount, bitStream)
    ensures 8 * start + count < 8 * |buffer| ==> 8 * ip + bitCount == 8 * start + count
  {
    hide ShiftRight, LittleEndian;
    ip, bitCount := start, count;
    if ip + 7 <= |buffer| || ip + bitCount / 8 + 4 <= |buffer| {
      WithinBuffer(|buffer|, start, count);
      ip := ip + bitCount / 8;
      bitCount := bitCount % 8;
    } else {
      PastBuffer(|buffer|, start, count);
      bitCount := bitCount - 8 * (|buffer| - 4 - ip);
      bitCount := bitCount % 32;
      ip := |buffer| - 4;
    }
    bitStream := ShiftRight(LittleEndian(buffer[ip..ip + 4]), bitCount);
  }

  // ----- Counting groups of ones -----

  /** The number of ones at the low end. */
  function TrailingOnes(x: nat, limit: nat): (n: nat)
    ensures n <= limit
    decreases limit
  {
    if limit == 0 || x % 2 == 0 then 0 else 1 + TrailingOnes(x / 2, limit - 1)
  }

  function Digit(x: nat, j: nat): nat
    decreases j
  {
    if j == 0 then x % 4 else Digit(x / 4, j - 1)
  }

  ghost function Groups(x: nat, limit: nat): nat
    decreases limit
  {
    if limit == 0 || x % 4 != 3 then 0 else 1 + Groups(x / 4, limit - 1)
  }

  lemma {:induction false} OnesInGroups(x: nat, m: nat)
    ensures TrailingOnes(x, 2 * m + 1) / 2 == Groups(x, m)
    decreases m
  {
    if m > 0 {
      OnesInGroups(x / 4, m - 1);
      assert x / 2 / 2 == x / 4;
      if x % 4 == 3 {
        assert TrailingOnes(x, 2 * m + 1) == 1 + TrailingOnes(x / 2, 2 * m);
        assert TrailingOnes(x / 2, 2 * m) == 1 + TrailingOnes(x / 4, 2 * m - 1);
      } else if x % 2 == 1 {
        assert TrailingOnes(x / 2, 2 * m) == 0;
      }
    }
  }

  lemma {:induction false} GroupsAtLeast(x: nat, k: nat, m: nat)
    requires k <= m && forall j :: 0 <= j < k ==> Digit(x, j) == 3
    ensures Groups(x, m) >= k
    ensures k < m && Digit(x, k) != 3 ==> Groups(x, m) == k
    decreases k
  {
    if k > 0 {
      assert Digit(x, 0) == 3;
      forall j | 0 <= j < k - 1 ensures Digit(x / 4, j) == 3 {
        assert Digit(x, j + 1) == 3;
      }
      GroupsAtLeast(x / 4, k - 1, m - 1);
    }
  }

  lemma {:induction false} DigitIs(x: nat, j: nat)
    ensures Digit(x, j) == Field(x, 2 * j, 2)
    decreases j
  {
    assert Pow2(2) == 4;
    if j == 0 {
      FieldZero(x, 2);
    } else {
      DigitIs(x / 4, j - 1);
      ShiftTwice(x, 2, 2 * (j - 1));
    }
  }

  lemma {:induction false} GroupsBound(x: nat, m: nat, k: nat)
    requires Groups(x, m) >= k
    ensures x >= Pow2(2 * k) - 1
    decreases k
  {
    if k > 0 {
      GroupsBound(x / 4, m - 1, k - 1);
      assert Pow2(2 * k) == 4 * Pow2(2 * (k - 1)) by {
        assert Pow2(2 * k) == 2 * Pow2(2 * k - 1);
      }
    }
  }

  // ----- A run of zeros -----

  /** The stream has `left` threes and then the group `last`, from the current bit on. */
  ghost predicate RunAhead(t: nat, at: nat, left: nat, last: nat, end: nat)
    decreases left
  {
    && at + 2 <= end && last < 3
    && Field(t, at, 2) == (if left == 0 then last else 3)
    && (left > 0 ==> RunAhead(t, at + 2, left - 1, last, end))
  }

  lemma {:induction false} RunDrop(t: nat, at: nat, left: nat, last: nat, end: nat, n: nat)
    requires RunAhead(t, at, left, last, end) && n <= left
    ensures RunAhead(t, at + 2 * n, left - n, last, end)
    decreases n
  {
    if n > 0 {
      RunDrop(t, at + 2, left - 1, last, end, n - 1);
    }
  }

  lemma VisibleDigit(buffer: seq<byte>, ip: nat, bitCount: nat, bitStream: nat, k: nat)
    requires Loaded(buffer, ip, bitCount, bitStream) && bitCount + 2 * k + 2 <= 32
    ensures Digit(bitStream, k) == Field(LittleEndian(buffer), 8 * ip + bitCount + 2 * k, 2)
  {
    DigitIs(bitStream, k);
    LoadedField(buffer, ip, bitCount, bitStream, 2 * k, 2);
  }

  /** What the register shows of a run: all of it, or twelve groups and more. */
  lemma VisibleRun(buffer: seq<byte>, ip: nat, bitCount: nat, bitStream: nat, left: nat, last: nat)
    requires Loaded(buffer, ip, bitCount, bitStream)
    requires RunAhead(LittleEndian(buffer), 8 * ip + bitCount, left, last, 8 * |buffer|)
    ensures left < 12 ==> Groups(bitStream, 15) == left && Digit(bitStream, left) == last
    ensures left < 12 ==> bitCount + 2 * left + 2 <= 32
    ensures left >= 12 ==> Groups(bitStream, 15) >= 12
  {
    hide Field;
    var t, at, end := LittleEndian(buffer), 8 * ip + bitCount, 8 * |buffer|;
    var seen := if left < 12 then left else 12;
    RunDrop(t, at, left, last, end, seen);
    forall k | 0 <= k < seen ensures Digit(bitStream, k) == 3 {
      RunDrop(t, at, left, last, end, k);
      VisibleDigit(buffer, ip, bitCount, bitStream, k);
    }
    if left < 12 {
      VisibleDigit(buffer, ip, bitCount, bitStream, left);
    }
    GroupsAtLeast(bitStream, seen, 15);
  }

  lemma SmallWord(x: nat, w: nat)
    requires Pow2(24) - 1 <= x < Pow2(w)
    ensures w >= 24
  {
    assert Pow2(24) == 2 * Pow2(23) && Pow2(23) == 2 * Pow2(22);
    if w < 24 {
      Pow2Monotone(w, 23);
    }
  }

  /** At the end of the buffer the register runs empty. */
  lemma FewBitsLeft(buffer: seq<byte>, ip: nat, bitCount: nat, bitStream: nat)
    requires Loaded(buffer, ip, bitCount, bitStream) && Groups(bitStream, 15) >= 12
    ensures bitCount <= 8
  {
    hide LittleEndian, Pow2;
    hide Groups, ShiftRight;
    var word := LittleEndian(buffer[ip..ip + 4]);
    LittleEndianBound(buffer[ip..ip + 4]);
    assert bitCount + (32 - bitCount) == 8 * 4;
    HighPart(word, bitCount, 32 - bitCount);
    GroupsBound(bitStream, 15, 12);
    SmallWord(bitStream, 32 - bitCount);
  }

  function Rounds(bitCount: nat): nat {
    if bitCount == 8 then 2 else if bitCount < 8 then 1 else 0
  }

  /** Skip twelve groups, three bytes. */
  method SkipTwelve(buffer: seq<byte>, start: nat, count: nat) returns (ip: nat, bitCount: nat, bitStream: nat)
    requires |buffer| >= 8 && start + 4 <= |buffer| && count <= 31 && (count <= 7 || start + 4 == |buffer|)
    ensures Loaded(buffer, ip, bitCount, bitStream)
    ensures 8 * start + count + 24 < 8 * |buffer| ==> 8 * ip + bitCount == 8 * start + count + 24
    ensures ip > start || (ip == start && (count <= 8 ==> Rounds(bitCount) < Rounds(count)))
  {
    ip, bitCount := start, count;
    if ip + 7 <= |buffer| {
      ip := ip + 3;
    } else {
      bitCount := (bitCount - 8 * (|buffer| - 7 - ip)) % 32;
      ip := |buffer| - 4;
    }
    bitStream := ShiftRight(LittleEndian(buffer[ip..ip + 4]), bitCount);
  }

  /** Skip groups of three zeros, twelve groups at a time, until fewer are left. */
  method SkipGroups(buffer: seq<byte>, start: nat, count: nat, stream: nat, ghost good: bool, ghost left: nat,
                    ghost last: nat)
    returns (zeros: nat, ip: nat, bitCount: nat, bitStream: nat, repeats: nat, ghost n: nat)
    requires |buffer| >= 8 && Loaded(buffer, start, count, stream)
    requires good ==> RunAhead(LittleEndian(buffer), 8 * start + count, left, last, 8 * |buffer|)
    ensures Loaded(buffer, ip, bitCount, bitStream) && repeats == Groups(bitStream, 15) < 12
    ensures good ==> RunAhead(LittleEndian(buffer), 8 * ip + bitCount, n, last, 8 * |buffer|)
    ensures good ==> n <= left && zeros == 3 * (left - n) && 8 * ip + bitCount == 8 * start + count + 2 * (left - n)
  {
    hide ShiftRight, RunAhead, Rounds, Groups;
    ip, bitCount, zeros, bitStream, n := start, count, 0, stream, left;
    OnesInGroups(bitStream, 15);
    repeats := TrailingOnes(bitStream, 31) / 2;
    while repeats >= 12
      invariant Loaded(buffer, ip, bitCount, bitStream) && repeats == Groups(bitStream, 15)
      invariant good ==> RunAhead(LittleEndian(buffer), 8 * ip + bitCount, n, last, 8 * |buffer|)
      invariant good ==> n <= left && zeros == 3 * (left - n) && 8 * ip + bitCount == 8 * start + count + 2 * (left - n)
      decreases |buffer| - ip, Rounds(bitCount)
    {
      if good {
        VisibleRun(buffer, ip, bitCount, bitStream, n, last);
        RunDrop(LittleEndian(buffer), 8 * ip + bitCount, n, last, 8 * |buffer|, 12);
        n := n - 12;
      }
      FewBitsLeft(buffer, ip, bitCount, bitStream);
      zeros := zeros + 36;
      ip, bitCount, bitStream := SkipTwelve(buffer, ip, bitCount);
      OnesInGroups(bitStream, 15);
      repeats := TrailingOnes(bitStream, 31) / 2;
    }
  }

  /** The number of zeros in a run. */
  method ReadRun(buffer: seq<byte>, start: nat, count: nat, stream: nat, ghost good: bool, ghost left: nat,
                 ghost last: nat)
    returns (zeros: nat, ip: nat, bitCount: nat)
    requires |buffer| >= 8 && Loaded(buffer, start, count, stream)
    requires good ==> RunAhead(LittleEndian(buffer), 8 * start + count, left, last, 8 * |buffer|)
    ensures ip + 4 <= |buffer| && (ip + 7 <= |buffer| ==> bitCount <= 31)
    ensures good ==> zeros == 3 * left + last && 8 * ip + bitCount == 8 * start + count + 2 * left + 2
  {
    hide RunAhead;
    ghost var n;
    var bitStream, repeats;
    zeros, ip, bitCount, bitStream, repeats, n := SkipGroups(buffer, start, count, stream, good, left, last);
    if good {
      VisibleRun(buffer, ip, bitCount, bitStream, n, last);
    }
    DigitAt(bitStream, repeats);
    zeros := zeros + 3 * repeats;
    bitStream := ShiftRight(bitStream, 2 * repeats);
    bitCount := bitCount + 2 * repeats;
    zeros := zeros + bitStream % 4;
    bitCount := bitCount + 2;
  }

  lemma DigitAt(x: nat, k: nat)
    ensures Digit(x, k) == ShiftRight(x, 2 * k) % 4
  {
    DigitIs(x, k);
    assert Pow2(2) == 4;
  }

  lemma {:induction false} ThreeAt(b: Bits, n: nat, k: nat)
    requires k < n
    ensures Extends(PushThrees(b, n), Push(PushThrees(b, k), 3, 2))
    decreases k
  {
    if k == 0 {
      ThreesExtend(Push(b, 3, 2), n - 1);
    } else {
      ThreeAt(Push(b, 3, 2), n - 1, k - 1);
    }
  }

  lemma RunGroup(t: nat, whole: Bits, b: Bits, zeros: nat, k: nat)
    requires Holds(t, whole) && Clean(whole) && Extends(whole, PushRun(b, zeros)) && k < zeros / 3
    ensures Field(t, Width(b) + 2 * k, 2) == 3
  {
    hide Field, Holds;
    var n := zeros / 3;
    ThreeAt(b, n, k);
    assert Extends(PushRun(b, zeros), PushThrees(b, n));
    ExtendsTransitive(PushRun(b, zeros), PushThrees(b, n), Push(PushThrees(b, k), 3, 2));
    ExtendsTransitive(whole, PushRun(b, zeros), Push(PushThrees(b, k), 3, 2));
    FieldAt(t, whole, PushThrees(b, k), 3, 2);
    WidthThrees(b, k);
  }

  lemma {:induction false} RunFrom(t: nat, whole: Bits, b: Bits, zeros: nat, end: nat, k: nat)
    requires Holds(t, whole) && Clean(whole) && Extends(whole, PushRun(b, zeros)) && Width(whole) <= end
    requires k <= zeros / 3
    ensures RunAhead(t, Width(b) + 2 * k, zeros / 3 - k, zeros % 3, end)
    decreases zeros / 3 - k
  {
    hide Field, Holds;
    var n := zeros / 3;
    WidthThrees(b, n);
    FieldAt(t, whole, PushThrees(b, n), zeros % 3, 2);
    if k < n {
      RunGroup(t, whole, b, zeros, k);
      RunFrom(t, whole, b, zeros, end, k + 1);
    }
  }

  /** A run of the header is found in the stream. */
  lemma RunIsAhead(t: nat, whole: Bits, b: Bits, zeros: nat, end: nat)
    requires Holds(t, whole) && Clean(whole) && Extends(whole, PushRun(b, zeros)) && Width(whole) <= end
    ensures RunAhead(t, Width(b), zeros / 3, zeros % 3, end)
    ensures Width(PushRun(b, zeros)) == Width(b) + 2 * (zeros / 3) + 2
  {
    hide Field, Holds, RunAhead;
    WidthThrees(b, zeros / 3);
    RunFrom(t, whole, b, zeros, end, 0);
  }

  lemma {:induction false} WidthThrees(b: Bits, n: nat)
    ensures Width(PushThrees(b, n)) == Width(b) + 2 * n
    decreases n
  {
    if n > 0 {
      WidthThrees(Push(b, 3, 2), n - 1);
    }
  }

  // ----- One count -----

  /** A count, and how many bits it took. */
  method ReadCount(bitStream: nat, remaining: nat, threshold: nat, nbBits: nat) returns (count: int, used: nat)
    requires remaining > 1 && threshold == Threshold(remaining) && nbBits == HighBit(remaining) + 1
    ensures count == CountFrom(bitStream % threshold, bitStream % (2 * threshold), remaining)
    ensures used == if bitStream % threshold < Spare(remaining) then HighBit(remaining) else HighBit(remaining) + 1
  {
    var max := 2 * threshold - 1 - remaining;
    if bitStream % threshold < max {
      count := bitStream % threshold;
      used := nbBits - 1;
    } else {
      count := bitStream % (2 * threshold);
      if count >= threshold {
        count := count - max;
      }
      used := nbBits;
    }
    count := count - 1;
  }

  lemma ModDouble(x: nat, t: nat)
    requires t > 0
    ensures x % (2 * t) % t == x % t && x % (2 * t) < 2 * t
  {
    Digits(x, t, 2);
  }

  /** Whatever the bits, a count is not more than what remains. */
  lemma CountInRange(bitStream: nat, remaining: nat)
    requires remaining > 1
    ensures
      -1 <= CountFrom(bitStream % Threshold(remaining), bitStream % (2 * Threshold(remaining)), remaining) < remaining
  {
    var t := Threshold(remaining);
    ModDouble(bitStream, t);
    var all := bitStream % (2 * t);
    if all >= t {
      LowBits(all, t);
    }
  }

  /** The bits of a count are enough to get it back. */
  lemma CountFromBits(bitStream: nat, count: int, remaining: nat)
    requires 1 < remaining && -1 <= count < remaining
    requires bitStream % Pow2(CountWidth(count, remaining)) == CountValue(count, remaining)
    ensures count == CountFrom(bitStream % Threshold(remaining), bitStream % (2 * Threshold(remaining)), remaining)
    ensures CountWidth(count, remaining) ==
      if bitStream % Threshold(remaining) < Spare(remaining) then HighBit(remaining) else HighBit(remaining) + 1
  {
    var v, t := CountValue(count, remaining), Threshold(remaining);
    ModDouble(bitStream, t);
    assert Pow2(HighBit(remaining) + 1) == 2 * t;
    if CountWidth(count, remaining) == HighBit(remaining) {
      DivideIs(v, t, 0, v);
    }
    CountReadBack(count, remaining, bitStream % t, bitStream % (2 * t));
  }

  /** A count of the header is found in the register. */
  lemma CountIsAhead(buffer: seq<byte>, ip: nat, bitCount: nat, bitStream: nat, whole: Bits, b: Bits, count: int,
                     remaining: nat)
    requires Loaded(buffer, ip, bitCount, bitStream) && 8 * ip + bitCount == Width(b)
    requires Holds(LittleEndian(buffer), whole) && Clean(whole) && Width(whole) <= 8 * |buffer|
    requires 1 < remaining <= 0x1001 && -1 <= count < remaining && Extends(whole, PushCount(b, count, remaining))
    ensures bitStream % Pow2(CountWidth(count, remaining)) == CountValue(count, remaining)
    ensures Width(b) + CountWidth(count, remaining) <= Width(whole)
  {
    hide CountValue, CountWidth, Loaded, Field, Holds, Pow2;
    var v, w := CountValue(count, remaining), CountWidth(count, remaining);
    FieldAt(LittleEndian(buffer), whole, b, v, w);
    CountVisible(buffer, ip, bitCount, bitStream, w, count, remaining);
    LoadedField(buffer, ip, bitCount, bitStream, 0, w);
    FieldZero(bitStream, w);
  }

  lemma CountVisible(buffer: seq<byte>, ip: nat, bitCount: nat, bitStream: nat, w: nat, count: int, remaining: nat)
    requires Loaded(buffer, ip, bitCount, bitStream) && 8 * ip + bitCount + w <= 8 * |buffer|
    requires 1 < remaining <= 0x1001 && -1 <= count && w == CountWidth(count, remaining)
    ensures bitCount + w <= 32
  {
    HighBitSmall(remaining);
  }

  lemma HighBitSmall(remaining: nat)
    requires 0 < remaining <= 0x1001
    ensures HighBit(remaining) <= 12
  {
    assert Pow2(13) == 8192;
    if HighBit(remaining) > 12 {
      Pow2Monotone(13, HighBit(remaining));
    }
  }

  // ----- The whole header -----

  /** The counts read so far: they and what remains make up the table, and all later counts are still zero. */
  ghost predicate Sound(counter: seq<int>, tableLog: nat, charnum: nat, remaining: nat) {
    && Counts(counter) && charnum <= |counter|
    && (forall k :: charnum <= k < |counter| ==> counter[k] == 0)
    && StatesBefore(counter, charnum) + remaining == Pow2(tableLog) + 1
  }

  lemma {:induction false} SameStates(a: seq<int>, b: seq<int>, s: nat)
    requires Counts(a) && Counts(b) && s <= |a| && s <= |b| && forall k :: 0 <= k < s ==> a[k] == b[k]
    ensures StatesBefore(a, s) == StatesBefore(b, s)
  {
    if s > 0 {
      SameStates(a, b, s - 1);
    }
  }

  lemma SoundStep(counter: seq<int>, tableLog: nat, charnum: nat, remaining: nat, t: nat, count: int)
    requires Sound(counter, tableLog, charnum, remaining) && charnum <= t < |counter| && -1 <= count < remaining
    requires Frequency(count) <= remaining
    ensures Sound(counter[t := count], tableLog, t + 1, remaining - Frequency(count))
  {
    var now := counter[t := count];
    SameStates(now, counter, charnum);
    ZerosGiveNothing(now, charnum, t);
  }

  /** The header that is read, and the place in it before symbol `s`. */
  ghost predicate Following(counter: seq<int>, at: nat, norm: seq<int>, tableLog: nat, b: Bits, s: nat, remaining: nat,
                            zero: bool)
    requires Normalized(norm, tableLog)
  {
    && Left(norm, tableLog, s, remaining) && |norm| <= |counter|
    && Fields(norm, b, s, remaining, zero) == Header(norm, tableLog)
    && at == Width(b)
    && forall k :: 0 <= k < s ==> counter[k] == norm[k]
  }

  ghost predicate InStream(t: nat, norm: seq<int>, tableLog: nat, end: nat) {
    Normalized(norm, tableLog) && Holds(t, Header(norm, tableLog)) && Width(Header(norm, tableLog)) <= end
  }

  lemma HeaderClean(norm: seq<int>, tableLog: nat)
    requires Normalized(norm, tableLog)
    ensures Clean(Header(norm, tableLog))
  {
    assert Pow2(4) == 16;
    FieldsClean(norm, tableLog, Push(Nothing, tableLog - MIN_TABLELOG, 4), 0, Pow2(tableLog) + 1, false);
  }

  /** The fields of one symbol come first among those of the rest. */
  lemma StepFields(norm: seq<int>, b: Bits, s: nat, remaining: nat, zero: bool, t: nat)
    requires Counts(norm) && s <= |norm| && remaining > 1
    requires t == Next(norm, s, zero) < |norm| && Frequency(norm[t]) < remaining
    ensures var c := PushZeros(b, norm, s, zero);
            var d := PushCount(c, norm[t], remaining);
      && Fields(norm, b, s, remaining, zero) == Fields(norm, d, t + 1, remaining - Frequency(norm[t]), norm[t] == 0)
      && Extends(Fields(norm, b, s, remaining, zero), c) && Extends(Fields(norm, b, s, remaining, zero), d)
  {
    hide PushZeros;
    var c := PushZeros(b, norm, s, zero);
    var d := PushCount(c, norm[t], remaining);
    FieldsExtend(norm, d, t + 1, remaining - Frequency(norm[t]), norm[t] == 0);
    ExtendsTransitive(Fields(norm, b, s, remaining, zero), d, c);
  }

  lemma StepAhead(norm: seq<int>, tableLog: nat, b: Bits, s: nat, remaining: nat, zero: bool)
    requires Normalized(norm, tableLog) && Left(norm, tableLog, s, remaining) && remaining > 1
    ensures var t := Next(norm, s, zero);
      && t < |norm| && Frequency(norm[t]) < remaining <= 0x1001
      && Left(norm, tableLog, t + 1, remaining - Frequency(norm[t]))
      && var c := PushZeros(b, norm, s, zero);
         var d := PushCount(c, norm[t], remaining);
        && Fields(norm, b, s, remaining, zero) == Fields(norm, d, t + 1, remaining - Frequency(norm[t]), norm[t] == 0)
        && Extends(Fields(norm, b, s, remaining, zero), c) && Extends(Fields(norm, b, s, remaining, zero), d)
  {
    hide Fields, Extends, PushZeros, PushCount, Next;
    NextFits(norm, tableLog, s, remaining, zero);
    StepFields(norm, b, s, remaining, zero, Next(norm, s, zero));
    TableFits(tableLog);
  }

  lemma TableFits(tableLog: nat)
    requires tableLog <= MAX_TABLELOG
    ensures Pow2(tableLog) <= 0x1000
  {
    Pow2Monotone(tableLog, 12);
    assert Pow2(12) == 4096;
  }

  /** Skip a run of zeros, and load the register for the count after it. */
  method ReadZeros(buffer: seq<byte>, start: nat, count: nat, stream: nat, charnum: nat, maxSV1: nat, remaining: nat,
                   ghost good: bool, ghost counter: seq<int>, ghost norm: seq<int>, ghost tableLog: nat, ghost b: Bits)
    returns (next: nat, ip: nat, bitCount: nat, bitStream: nat)
    requires |buffer| >= 8 && Loaded(buffer, start, count, stream) && remaining > 1
    requires good ==> InStream(LittleEndian(buffer), norm, tableLog, 8 * |buffer|)
    requires good ==> Following(counter, 8 * start + count, norm, tableLog, b, charnum, remaining, true)
    ensures next >= charnum && (next < maxSV1 ==> Loaded(buffer, ip, bitCount, bitStream))
    ensures good ==> next == Next(norm, charnum, true)
    ensures good && next < maxSV1 ==> 8 * ip + bitCount == Width(PushZeros(b, norm, charnum, true))
  {
    hide LittleEndian, Pow2, Width, NextNonZero;
    hide Normalized, Fields, Holds, Loaded, RunAhead, PushRun;
    ghost var zeros: nat, end: nat := 0, 8 * |buffer|;
    if good {
      StepAhead(norm, tableLog, b, charnum, remaining, true);
      HeaderClean(norm, tableLog);
      zeros := NextNonZero(norm, charnum) - charnum;
      RunIsAhead(LittleEndian(buffer), Header(norm, tableLog), b, zeros, 8 * |buffer|);
      CountAfterRun(norm, tableLog, b, charnum, remaining);
    }
    var more;
    more, ip, bitCount := ReadRun(buffer, start, count, stream, good, zeros / 3, zeros % 3);
    next := charnum + more;
    bitStream := 0;
    if next < maxSV1 {
      ip, bitCount, bitStream := Advance(buffer, ip, bitCount);
    }
  }

  /** There is room for a count after a run. */
  lemma CountAfterRun(norm: seq<int>, tableLog: nat, b: Bits, s: nat, remaining: nat)
    requires Normalized(norm, tableLog) && Left(norm, tableLog, s, remaining) && remaining > 1
    requires Fields(norm, b, s, remaining, true) == Header(norm, tableLog)
    ensures Width(PushZeros(b, norm, s, true)) < Width(Header(norm, tableLog))
  {
    hide Header;
    StepAhead(norm, tableLog, b, s, remaining, true);
    var t := Next(norm, s, true);
    var c := PushZeros(b, norm, s, true);
    ExtendedWidth(Header(norm, tableLog), PushCount(c, norm[t], remaining));
    SomeWidth(norm[t], remaining);
  }

  lemma SomeWidth(count: int, remaining: nat)
    requires remaining > 1 && count >= -1
    ensures CountWidth(count, remaining) > 0
  {
  }

  lemma FollowOn(counter: seq<int>, norm: seq<int>, s: nat, t: nat)
    requires s <= t < |norm| <= |counter| && (forall k :: 0 <= k < s ==> counter[k] == norm[k])
    requires forall k :: s <= k < |counter| ==> counter[k] == 0
    requires forall k :: s <= k < t ==> norm[k] == 0
    ensures forall k :: 0 <= k < t + 1 ==> counter[t := norm[t]][k] == norm[k]
  {
  }

  /** The count that comes next in the header is in the register. */
  lemma CountAhead(buffer: seq<byte>, ip: nat, bitCount: nat, bitStream: nat, norm: seq<int>, tableLog: nat, b: Bits,
                   s: nat, remaining: nat, zero: bool, t: nat)
    requires Loaded(buffer, ip, bitCount, bitStream) && InStream(LittleEndian(buffer), norm, tableLog, 8 * |buffer|)
    requires Left(norm, tableLog, s, remaining) && remaining > 1 && t == Next(norm, s, zero)
    requires Fields(norm, b, s, remaining, zero) == Header(norm, tableLog)
    requires 8 * ip + bitCount == Width(PushZeros(b, norm, s, zero))
    ensures t < |norm| && -1 <= norm[t] < remaining
    ensures norm[t] == CountFrom(bitStream % Threshold(remaining), bitStream % (2 * Threshold(remaining)), remaining)
    ensures CountWidth(norm[t], remaining) ==
      if bitStream % Threshold(remaining) < Spare(remaining) then HighBit(remaining) else HighBit(remaining) + 1
    ensures 8 * ip + bitCount + CountWidth(norm[t], remaining) <= Width(Header(norm, tableLog))
  {
    hide Fields, Header, Holds, Loaded, PushZeros, CountValue, CountWidth, CountFrom, Threshold, Spare, Pow2;
    StepAhead(norm, tableLog, b, s, remaining, zero);
    HeaderClean(norm, tableLog);
    CountIsAhead(buffer, ip, bitCount, bitStream, Header(norm, tableLog), PushZeros(b, norm, s, zero), norm[t],
                 remaining);
    CountFromBits(bitStream, norm[t], remaining);
  }

  /** The place in the header after one more count. */
  lemma FollowCount(counter: seq<int>, norm: seq<int>, tableLog: nat, b: Bits, s: nat, remaining: nat, zero: bool,
                    t: nat)
    requires Normalized(norm, tableLog) && Following(counter, Width(b), norm, tableLog, b, s, remaining, zero)
    requires remaining > 1 && t == Next(norm, s, zero)
    requires forall k :: s <= k < |counter| ==> counter[k] == 0
    ensures t < |norm| && Frequency(norm[t]) < remaining
    ensures var d := PushCount(PushZeros(b, norm, s, zero), norm[t], remaining);
      Following(counter[t := norm[t]], Width(d), norm, tableLog, d, t + 1, remaining - Frequency(norm[t]), norm[t] == 0)
  {
    hide Normalized, Fields, Header, PushZeros, PushCount;
    StepAhead(norm, tableLog, b, s, remaining, zero);
    FollowOn(counter, norm, s, t);
  }

  /** One count, after the zeros before it. */
  method ReadOne(counter: array<int>, ghost buffer: seq<byte>, ghost ip: nat, ghost bitCount: nat, bitStream: nat,
                 charnum: nat, remaining: nat, threshold: nat, nbBits: nat, ghost done: nat, ghost logRead: nat,
                 ghost good: bool, ghost norm: seq<int>, ghost tableLog: nat, ghost b: Bits, ghost zero: bool)
    returns (count: int, used: nat, ghost d: Bits)
    requires Loaded(buffer, ip, bitCount, bitStream) && done <= charnum < counter.Length
    requires remaining > 1 && threshold == Threshold(remaining) && nbBits == HighBit(remaining) + 1
    requires Sound(counter[..], logRead, done, remaining)
    requires good ==> InStream(LittleEndian(buffer), norm, tableLog, 8 * |buffer|)
    requires good ==> Following(counter[..], Width(b), norm, tableLog, b, done, remaining, zero)
    requires good ==> charnum == Next(norm, done, zero) && 8 * ip + bitCount == Width(PushZeros(b, norm, done, zero))
    modifies counter
    ensures count >= -1 && Frequency(count) < remaining && used <= nbBits
    ensures Sound(counter[..], logRead, charnum + 1, remaining - Frequency(count))
    ensures good ==>
      8 * ip + bitCount + used <= Width(Header(norm, tableLog)) && charnum < |norm| && norm[charnum] == count
    ensures good ==>
      Following(counter[..], 8 * ip + bitCount + used, norm, tableLog, d, charnum + 1, remaining - Frequency(count),
                count == 0)
  {
    hide Normalized, Fields, Header, Holds, Loaded, PushZeros, CountValue, CountFrom, CountWidth, Threshold, Spare;
    CountInRange(bitStream, remaining);
    count, used := ReadCount(bitStream, remaining, threshold, nbBits);
    d := b;
    if good {
      CountAhead(buffer, ip, bitCount, bitStream, norm, tableLog, b, done, remaining, zero, charnum);
      FollowCount(counter[..], norm, tableLog, b, done, remaining, zero, charnum);
      d := PushCount(PushZeros(b, norm, done, zero), norm[charnum], remaining);
    }
    SmallFrequency(count, remaining);
    SoundStep(counter[..], logRead, done, remaining, charnum, count);
    ghost var before := counter[..];
    counter[charnum] := count;
    assert counter[..] == before[charnum := count];
  }

  lemma SmallFrequency(count: int, remaining: nat)
    requires -1 <= count < remaining && remaining > 1
    ensures Frequency(count) < remaining
  {
  }

  /** The last symbol with a count other than zero. */
  ghost predicate LastSymbol(norm: seq<int>, s: nat) {
    s < |norm| && norm[s] != 0 && forall k :: s < k < |norm| ==> norm[k] == 0
  }

  /** What the reader should find. */
  ghost predicate ReadsAs(r: Read, counter: seq<int>, norm: seq<int>, tableLog: nat)
    requires Normalized(norm, tableLog)
  {
    && r.Read? && r.size == (Width(Header(norm, tableLog)) + 7) / 8 && r.tableLog == tableLog
    && LastSymbol(norm, r.maxSymbolValue)
    && forall k :: 0 <= k < |counter| ==> counter[k] == if k < |norm| then norm[k] else 0
  }

  lemma HeaderEnds(counter: seq<int>, at: nat, norm: seq<int>, tableLog: nat, b: Bits, s: nat, zero: bool)
    requires Normalized(norm, tableLog) && Following(counter, at, norm, tableLog, b, s, 1, zero)
    requires s > 0 && norm[s - 1] != 0 && Sound(counter, tableLog, s, 1)
    ensures at == Width(Header(norm, tableLog)) && LastSymbol(norm, s - 1)
    ensures forall k :: 0 <= k < |counter| ==> counter[k] == if k < |norm| then norm[k] else 0
  {
    forall k | s <= k < |norm| ensures norm[k] == 0 {
      StatesMonotone(norm, s, k);
      StatesMonotone(norm, k, |norm|);
      StatesMonotone(norm, k + 1, |norm|);
    }
  }

  /** The state of the reader: what is sound whatever the bytes are, and its place if it follows a header. */
  ghost predicate Reading(counter: seq<int>, buffer: seq<byte>, ip: nat, bitCount: nat, logRead: nat, charnum: nat,
                          remaining: nat, good: bool, norm: seq<int>, tableLog: nat, b: Bits, zero: bool) {
    && Sound(counter, logRead, charnum, remaining)
    && (good ==>
          && InStream(LittleEndian(buffer), norm, tableLog, 8 * |buffer|)
          && Following(counter, 8 * ip + bitCount, norm, tableLog, b, charnum, remaining, zero))
  }

  lemma NewThreshold(before: nat, remaining: nat)
    requires 0 < remaining <= before
    ensures remaining >= Threshold(before) ==> HighBit(remaining) == HighBit(before)
    ensures HighBit(remaining) <= HighBit(before)
  {
    if remaining >= Threshold(before) {
      HighBitIs(remaining, HighBit(before));
    } else if HighBit(remaining) > HighBit(before) {
      Pow2Monotone(HighBit(before), HighBit(remaining));
    }
  }

  /** With fewer states left a count takes fewer bits. */
  method NextThreshold(remaining: nat, threshold: nat, nbBits: nat, ghost before: nat)
    returns (newThreshold: nat, newBits: nat)
    requires 1 <= remaining <= before && threshold == Threshold(before) && nbBits == HighBit(before) + 1
    ensures newThreshold == Threshold(remaining) && newBits == HighBit(remaining) + 1 <= nbBits
  {
    newThreshold, newBits := threshold, nbBits;
    NewThreshold(before, remaining);
    if remaining < threshold {
      newBits := HighBit(remaining) + 1;
      newThreshold := Pow2(newBits - 1);
    }
  }

  lemma FollowAhead(counter: seq<int>, at: nat, norm: seq<int>, tableLog: nat, b: Bits, s: nat, remaining: nat,
                    zero: bool)
    requires Normalized(norm, tableLog) && Following(counter, at, norm, tableLog, b, s, remaining, zero)
      && remaining > 1
    ensures s <= |norm| && at == Width(b) && Next(norm, s, zero) < |norm| <= |counter|
  {
    StepAhead(norm, tableLog, b, s, remaining, zero);
  }

  /** One symbol: the zeros before it, if any, and its count. */
  method ReadSymbol(counter: array<int>, buffer: seq<byte>, start: nat, first: nat, stream: nat, s: nat, remaining: nat,
                    threshold: nat, nbBits: nat, zero: bool, ghost logRead: nat, ghost good: bool,
                    ghost norm: seq<int>, ghost tableLog: nat, ghost b: Bits)
    returns (ok: bool, charnum: nat, ip: nat, bitCount: nat, count: int, ghost d: Bits)
    requires |buffer| >= 8 && Loaded(buffer, start, first, stream) && s < counter.Length && nbBits <= 16
    requires remaining > 1 && threshold == Threshold(remaining) && nbBits == HighBit(remaining) + 1
    requires Reading(counter[..], buffer, start, first, logRead, s, remaining, good, norm, tableLog, b, zero)
    modifies counter
    ensures good ==> ok
    ensures ok ==> count >= -1 && Frequency(count) < remaining && s < charnum <= counter.Length
    ensures ok ==> ip + 4 <= |buffer| && bitCount <= 47 && (ip + 4 < |buffer| ==> bitCount <= 23)
    ensures ok ==>
      Reading(counter[..], buffer, ip, bitCount, logRead, charnum, remaining - Frequency(count), good, norm, tableLog,
              d, count == 0)
    ensures ok && good ==>
      charnum <= |norm| && norm[charnum - 1] == count && 8 * ip + bitCount <= Width(Header(norm, tableLog))
  {
    hide StatesBefore;
    hide Normalized, Holds, Following, Header, PushZeros, Sound, LittleEndian, ShiftRight, Next;
    var bitStream;
    ok, charnum, ip, bitCount, bitStream, count, d := true, s, start, first, stream, 0, b;
    if good {
      FollowAhead(counter[..], 8 * start + first, norm, tableLog, b, s, remaining, zero);
    }
    if zero {
      charnum, ip, bitCount, bitStream := ReadZeros(buffer, ip, bitCount, bitStream, s, counter.Length, remaining, good,
                                                    counter[..], norm, tableLog, b);
      if charnum >= counter.Length {
        ok := false;
        return;
      }
    } else if good {
      NoZeros(b, norm, s);
    }
    var used;
    count, used, d :=
      ReadOne(counter, buffer, ip, bitCount, bitStream, charnum, remaining, threshold, nbBits, s, logRead,
              good, norm, tableLog, b, zero);
    charnum := charnum + 1;
    bitCount := bitCount + used;
  }

  lemma NoZeros(b: Bits, norm: seq<int>, s: nat)
    requires s <= |norm|
    ensures PushZeros(b, norm, s, false) == b && Next(norm, s, false) == s
  {
  }

  ghost predicate HeaderStarts(buffer: seq<byte>, norm: seq<int>, tableLog: nat, counters: nat) {
    InStream(LittleEndian(buffer), norm, tableLog, 8 * |buffer|) && |norm| <= counters
  }

  /** The first four bits are the size of the table. */
  lemma FirstField(buffer: seq<byte>, norm: seq<int>, tableLog: nat)
    requires |buffer| >= 8 && InStream(LittleEndian(buffer), norm, tableLog, 8 * |buffer|)
    ensures LittleEndian(buffer[0..4]) % 16 + MIN_TABLELOG == tableLog
    ensures Left(norm, tableLog, 0, Pow2(tableLog) + 1)
  {
    var b := Push(Nothing, tableLog - MIN_TABLELOG, 4);
    HeaderClean(norm, tableLog);
    FieldsExtend(norm, b, 0, Pow2(tableLog) + 1, false);
    FieldAt(LittleEndian(buffer), Header(norm, tableLog), Nothing, tableLog - MIN_TABLELOG, 4);
    NoShift(LittleEndian(buffer[0..4]));
    LoadedField(buffer, 0, 0, LittleEndian(buffer[0..4]), 0, 4);
    FieldZero(LittleEndian(buffer[0..4]), 4);
    assert Pow2(4) == 16;
  }

  lemma FollowStart(counter: seq<int>, norm: seq<int>, tableLog: nat)
    requires Normalized(norm, tableLog) && |norm| <= |counter|
    ensures Following(counter, 4, norm, tableLog, Push(Nothing, tableLog - MIN_TABLELOG, 4), 0, Pow2(tableLog) + 1,
                      false)
  {
  }

  /** While states are left to be given, there are more bits. */
  lemma MoreToRead(counter: seq<int>, at: nat, norm: seq<int>, tableLog: nat, b: Bits, s: nat, remaining: nat,
                   zero: bool)
    requires Normalized(norm, tableLog) && Following(counter, at, norm, tableLog, b, s, remaining, zero)
      && remaining > 1
    ensures at < Width(Header(norm, tableLog))
  {
    hide Header;
    StepAhead(norm, tableLog, b, s, remaining, zero);
    var t := Next(norm, s, zero);
    var c := PushZeros(b, norm, s, zero);
    ZerosExtend(b, norm, s, zero);
    ExtendedWidth(c, b);
    ExtendedWidth(Header(norm, tableLog), PushCount(c, norm[t], remaining));
    SomeWidth(norm[t], remaining);
  }

  lemma NoShift(x: nat)
    ensures ShiftRight(x, 0) == x
  {
    DivideIs(x, Pow2(0), x, 0);
  }

  lemma StartSound(counter: seq<int>, tableLog: nat)
    requires |counter| <= 256 && forall k :: 0 <= k < |counter| ==> counter[k] == 0
    ensures Sound(counter, tableLog, 0, Pow2(tableLog) + 1)
  {
  }

  lemma TableBits(tableLog: nat)
    requires tableLog >= 1
    ensures HighBit(Pow2(tableLog) + 1) == tableLog
    ensures Threshold(Pow2(tableLog) + 1) == Pow2(tableLog) && Pow2(tableLog) > 1
  {
    hide HighBit;
    Pow2Monotone(1, tableLog);
    var p := Pow2(tableLog);
    HighBitIs(p + 1, tableLog);
  }

  method Clear(counter: array<int>)
    modifies counter
    ensures forall k :: 0 <= k < counter.Length ==> counter[k] == 0
  {
    for i := 0 to counter.Length
      invariant forall k :: 0 <= k < i ==> counter[k] == 0
    {
      counter[i] := 0;
    }
  }

  function StartBits(logRead: nat): Bits {
    if logRead >= MIN_TABLELOG then Push(Nothing, logRead - MIN_TABLELOG, 4) else Nothing
  }

  lemma StartReading(counter: seq<int>, buffer: seq<byte>, logRead: nat, good: bool, norm: seq<int>, tableLog: nat,
                     b: Bits)
    requires |buffer| >= 8 && |counter| <= 256 && forall k :: 0 <= k < |counter| ==> counter[k] == 0
    requires good ==> HeaderStarts(buffer, norm, tableLog, |counter|) && tableLog == logRead
    requires b == StartBits(logRead)
    ensures Reading(counter, buffer, 0, 4, logRead, 0, Pow2(logRead) + 1, good, norm, tableLog, b, false)
  {
    hide Following, Sound;
    StartSound(counter, logRead);
    if good {
      FollowStart(counter, norm, tableLog);
    }
  }

  lemma MoreReading(counter: seq<int>, buffer: seq<byte>, ip: nat, bitCount: nat, logRead: nat, charnum: nat,
                    remaining: nat, good: bool, norm: seq<int>, tableLog: nat, b: Bits, zero: bool)
    requires Reading(counter, buffer, ip, bitCount, logRead, charnum, remaining, good, norm, tableLog, b, zero)
    requires remaining > 1 && good
    ensures charnum < |counter| && 8 * ip + bitCount < 8 * |buffer|
  {
    hide Normalized, Following, Sound;
    FollowAhead(counter, 8 * ip + bitCount, norm, tableLog, b, charnum, remaining, zero);
    MoreToRead(counter, 8 * ip + bitCount, norm, tableLog, b, charnum, remaining, zero);
  }

  lemma EndReading(counter: seq<int>, buffer: seq<byte>, ip: nat, bitCount: nat, logRead: nat, charnum: nat,
                   good: bool, norm: seq<int>, tableLog: nat, b: Bits, zero: bool)
    requires Reading(counter, buffer, ip, bitCount, logRead, charnum, 1, good, norm, tableLog, b, zero)
    requires good && charnum > 0 && charnum <= |norm| && norm[charnum - 1] != 0 && logRead == tableLog
    ensures 8 * ip + bitCount == Width(Header(norm, tableLog)) && LastSymbol(norm, charnum - 1)
    ensures forall k :: 0 <= k < |counter| ==> counter[k] == if k < |norm| then norm[k] else 0
  {
    hide Normalized, Following, Sound;
    HeaderEnds(counter, 8 * ip + bitCount, norm, tableLog, b, charnum, zero);
  }

  /** The reader moved on to the next byte. */
  lemma MovedReading(counter: seq<int>, buffer: seq<byte>, ip: nat, bitCount: nat, newIp: nat, newCount: nat,
                     logRead: nat, charnum: nat, remaining: nat, good: bool, norm: seq<int>, tableLog: nat, b: Bits,
                     zero: bool)
    requires Reading(counter, buffer, ip, bitCount, logRead, charnum, remaining, good, norm, tableLog, b, zero)
    requires good ==> 8 * newIp + newCount == 8 * ip + bitCount
    ensures Reading(counter, buffer, newIp, newCount, logRead, charnum, remaining, good, norm, tableLog, b, zero)
  {
  }

  lemma FirstLoad(buffer: seq<byte>)
    requires |buffer| >= 8
    ensures Loaded(buffer, 0, 4, ShiftRight(LittleEndian(buffer[0..4]), 4))
  {
  }

  /** Symbol after symbol, until all states are given or the counters are full. */
  method ReadSymbols(counter: array<int>, buffer: seq<byte>, logRead: nat, ghost good: bool, ghost norm: seq<int>,
                     ghost tableLog: nat)
    returns (ok: bool, charnum: nat, ip: nat, bitCount: nat, remaining: nat)
    requires |buffer| >= 8 && 0 < counter.Length <= 256 && 1 <= logRead <= TABLELOG_ABSOLUTE_MAX
    requires forall k :: 0 <= k < counter.Length ==> counter[k] == 0
    requires good ==> HeaderStarts(buffer, norm, tableLog, counter.Length) && tableLog == logRead
    modifies counter
    ensures ok ==> 0 < charnum <= counter.Length && remaining >= 1 && Sound(counter[..], logRead, charnum, remaining)
    ensures ok ==> ip + 4 <= |buffer| && bitCount <= 47 && (ip + 4 < |buffer| ==> bitCount <= 23)
    ensures good ==> ok && remaining == 1 && 8 * ip + bitCount == Width(Header(norm, tableLog))
    ensures good ==> LastSymbol(norm, charnum - 1)
    ensures good ==> forall k :: 0 <= k < counter.Length ==> counter[k] == if k < |norm| then norm[k] else 0
  {
    hide Reading, Loaded, LittleEndian, Threshold, ShiftRight, HeaderStarts, LastSymbol, HighBit, StartBits, Header;
    ghost var b := StartBits(logRead);
    StartReading(counter[..], buffer, logRead, good, norm, tableLog, b);
    TableBits(logRead);
    FirstLoad(buffer);
    charnum, remaining := 0, Pow2(logRead) + 1;
    var threshold, nbBits: nat, previous0, bitStream :=
      Pow2(logRead), logRead + 1, false, ShiftRight(LittleEndian(buffer[0..4]), 4);
    ip, bitCount, ok := 0, 4, true;
    while true
      invariant Loaded(buffer, ip, bitCount, bitStream) && charnum < counter.Length
      invariant remaining > 1 && nbBits == HighBit(remaining) + 1 <= 16 && threshold == Threshold(remaining)
      invariant Reading(counter[..], buffer, ip, bitCount, logRead, charnum, remaining, good, norm, tableLog, b,
                        previous0)
      decreases counter.Length - charnum
    {
      var count;
      ok, charnum, ip, bitCount, count, b :=
        ReadSymbol(counter, buffer, ip, bitCount, bitStream, charnum, remaining, threshold, nbBits, previous0, logRead,
                   good, norm, tableLog, b);
      if !ok {
        return;
      }
      ghost var before := remaining;
      remaining := remaining - Frequency(count);
      previous0 := count == 0;
      if remaining <= 1 {
        if good {
          EndReading(counter[..], buffer, ip, bitCount, logRead, charnum, good, norm, tableLog, b, previous0);
        }
        break;
      }
      threshold, nbBits := NextThreshold(remaining, threshold, nbBits, before);
      if good {
        MoreReading(counter[..], buffer, ip, bitCount, logRead, charnum, remaining, good, norm, tableLog, b, previous0);
      }
      if charnum >= counter.Length {
        break;
      }
      ghost var oldIp, oldCount := ip, bitCount;
      ip, bitCount, bitStream := Advance(buffer, ip, bitCount);
      MovedReading(counter[..], buffer, oldIp, oldCount, ip, bitCount, logRead, charnum, remaining, good, norm,
                   tableLog, b, previous0);
    }
    SoundReading(counter[..], buffer, ip, bitCount, logRead, charnum, remaining, good, norm, tableLog, b, previous0);
  }

  lemma SoundReading(counter: seq<int>, buffer: seq<byte>, ip: nat, bitCount: nat, logRead: nat, charnum: nat,
                     remaining: nat, good: bool, norm: seq<int>, tableLog: nat, b: Bits, zero: bool)
    requires Reading(counter, buffer, ip, bitCount, logRead, charnum, remaining, good, norm, tableLog, b, zero)
    ensures Sound(counter, logRead, charnum, remaining)
  {
  }

  /** Whatever the bytes are, counts that are read make up a whole table, and no more bytes are taken than there are. */
  ghost predicate Complete(r: Read, counter: seq<int>, size: nat) {
    r.Read? ==>
      && r.size <= size && r.maxSymbolValue < |counter| && MIN_TABLELOG <= r.tableLog <= TABLELOG_ABSOLUTE_MAX
      && Counts(counter) && StatesBefore(counter, r.maxSymbolValue + 1) == Pow2(r.tableLog)
      && forall k :: r.maxSymbolValue < k < |counter| ==> counter[k] == 0
  }

  /** Read a header from at least eight bytes. */
  method ReadBody(counter: array<int>, buffer: seq<byte>, ghost norm: seq<int>, ghost tableLog: nat) returns (r: Read)
    requires |buffer| >= 8 && 0 < counter.Length <= 256
    modifies counter
    ensures Complete(r, counter[..], |buffer|)
    ensures HeaderStarts(buffer, norm, tableLog, counter.Length) ==> ReadsAs(r, counter[..], norm, tableLog)
  {
    hide Normalized, Header, Width, LittleEndian, LastSymbol;
    ghost var good := HeaderStarts(buffer, norm, tableLog, counter.Length);
    Clear(counter);
    var logRead := LittleEndian(buffer[0..4]) % 16 + MIN_TABLELOG;
    if good {
      FirstField(buffer, norm, tableLog);
      SmallLog(norm, tableLog);
    }
    if logRead > TABLELOG_ABSOLUTE_MAX {
      return TableLogTooLarge;
    }
    var ok, charnum, ip, bitCount, remaining := ReadSymbols(counter, buffer, logRead, good, norm, tableLog);
    if !ok || remaining != 1 {
      return Corrupted;
    }
    if charnum > counter.Length {
      return TooManySymbols;
    }
    if bitCount > 32 {
      return Corrupted;
    }
    r := Read(ip + (bitCount + 7) / 8, charnum - 1, logRead);
  }

  lemma SmallLog(norm: seq<int>, tableLog: nat)
    requires Normalized(norm, tableLog)
    ensures tableLog <= MAX_TABLELOG
  {
  }

  /** Zeros at the end do not change the number. */
  lemma {:induction false} Padded(s: seq<byte>, n: nat)
    ensures LittleEndian(s + seq(n, i => 0)) == LittleEndian(s)
    decreases n
  {
    if n == 0 {
      assert s + seq(0, i => 0) == s;
    } else {
      var zeros: seq<byte> := seq(n - 1, i => 0);
      Padded(s, n - 1);
      LittleEndianAppend(s + zeros, [0]);
      assert LittleEndian([0]) == 0;
      JoinZero(LittleEndian(s + zeros), 8 * |s + zeros|);
      assert s + seq(n, i => 0) == (s + zeros) + [0];
    }
  }

  /** Read a header. A buffer of less than eight bytes is filled up with zeros first. */
  method ReadNCount(counter: array<int>, buffer: seq<byte>, ghost norm: seq<int>, ghost tableLog: nat) returns (r: Read)
    requires 0 < counter.Length <= 256
    modifies counter
    ensures Complete(r, counter[..], |buffer|)
    ensures HeaderStarts(buffer, norm, tableLog, counter.Length) ==> ReadsAs(r, counter[..], norm, tableLog)
  {
    if |buffer| < 8 {
      hide Normalized, Header, Holds, LittleEndian, LastSymbol;
      var filled: seq<byte> := buffer + seq(8 - |buffer|, i => 0);
      Padded(buffer, 8 - |buffer|);
      r := ReadBody(counter, filled, norm, tableLog);
      if r.Read? && r.size > |buffer| {
        r := Corrupted;
      }
    } else {
      r := ReadBody(counter, buffer, norm, tableLog);
    }
  }
}
