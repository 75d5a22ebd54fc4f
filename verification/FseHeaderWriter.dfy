/** Writing the header of a distribution. */
module FseHeaderWriter {
  import opened ByteType
  import opened Pow2Lemmas
  import opened BitArithmetic
  import opened Bytes
  import opened BitStream
  import opened FseNorm
  import opened FseHeader

  datatype Written = Size(n: nat) | Unsupported | DstTooSmall | BadDistribution

  /** The bytes hold the bits of the stack, filled up with zeros. */
  ghost predicate IsHeader(s: seq<byte>, b: Bits) {
    |s| == (Width(b) + 7) / 8 && LittleEndian(s) == Number(b)
  }

  // ----- The 32-bit register -----

  function LowByte(x: nat): byte {
    x % 256
  }

  function SecondByte(x: nat): byte {
    x / 256 % 256
  }

  /** The two low bytes are the 16 low bits. */
  lemma TwoBytes(x: nat)
    ensures LittleEndian([LowByte(x), SecondByte(x)]) == x % Pow2(16)
  {
    var s := [LowByte(x), SecondByte(x)];
    assert s[1..] == [SecondByte(x)] && LittleEndian([SecondByte(x)]) == SecondByte(x);
    OneByte(LowByte(x), SecondByte(x));
    Shifts(x, 8, 8);
    assert Pow2(8 + 8) == Pow2(16);
  }

  lemma FlushTwo(front: seq<byte>, bitStream: nat, bitCount: nat, b: Bits)
    requires Stored(front, bitStream, bitCount, b) && bitCount >= 16
    ensures Stored(front + [LowByte(bitStream), SecondByte(bitStream)], ShiftRight(bitStream, 16), bitCount - 16, b)
  {
    hide Pow2, LittleEndian;
    var two := [LowByte(bitStream), SecondByte(bitStream)];
    TwoBytes(bitStream);
    LittleEndianAppend(front, two);
    JoinAgain(bitStream, 16);
    Regroup(LittleEndian(front), 8 * |front|, bitStream % Pow2(16), 16, ShiftRight(bitStream, 16), bitStream,
            LittleEndian(front + two), 8 * |front + two|);
    HighPart(bitStream, 16, bitCount - 16);
  }

  // ----- The output -----

  /** Where the last store ends, for a header of so many bits: two bytes are stored for every 16 bits begun, though not
      all of them count. */
  function End(width: nat): nat {
    if width == 0 then 2 else 2 * ((width - 1) / 16) + 2
  }

  lemma EndMonotone(v: nat, w: nat)
    requires v <= w
    ensures End(v) <= End(w)
  {
  }

  /** The output: memory, of which the first `capacity` bytes are the buffer. It is written two bytes at a time, without
      checks if `safe`. */
  ghost predicate Place(out: nat, bitCount: nat, size: nat, capacity: nat, safe: bool) {
    && out % 2 == 0 && 1 <= bitCount <= 16 && capacity <= size && out <= size && (safe || out <= capacity)
  }

  /** The store of the last bits ends where a header of these bits does; an earlier one, before that. */
  lemma StoreEnds(front: seq<byte>, bitStream: nat, bitCount: nat, b: Bits)
    requires Stored(front, bitStream, bitCount, b) && bitCount >= 1 && |front| % 2 == 0
    ensures |front| + 2 <= End(Width(b)) && (bitCount <= 16 ==> |front| + 2 == End(Width(b)))
  {
    hide Number, LittleEndian, Join;
  }

  /** Write the two low bytes of the register, if they fit. */
  method Flush(header: array<byte>, capacity: nat, safe: bool, out: nat, bitStream: nat, ghost bitCount: nat,
               ghost b: Bits)
    returns (ok: bool, rest: nat)
    requires capacity <= header.Length && out <= header.Length && (safe ==> out + 2 <= header.Length)
    requires Stored(header[..out], bitStream, bitCount, b) && bitCount >= 16
    modifies header
    ensures ok <==> safe || out + 2 <= capacity
    ensures ok ==> out + 2 <= header.Length && Stored(header[..out + 2], rest, bitCount - 16, b)
    ensures SameFrom(header[..], old(header[..]), if ok then out + 2 else out)
  {
    if !safe && out + 2 > capacity {
      return false, 0;
    }
    ghost var front := header[..out];
    header[out] := LowByte(bitStream);
    header[out + 1] := SecondByte(bitStream);
    FlushTwo(front, bitStream, bitCount, b);
    assert header[..out + 2] == front + [LowByte(bitStream), SecondByte(bitStream)];
    return true, ShiftRight(bitStream, 16);
  }

  method FlushFull(header: array<byte>, capacity: nat, safe: bool, start: nat, stream: nat, count: nat, ghost b: Bits)
    returns (ok: bool, out: nat, bitStream: nat, bitCount: nat)
    requires start % 2 == 0 && start <= header.Length && capacity <= header.Length && (safe || start <= capacity)
    requires Stored(header[..start], stream, count, b) && 1 <= count <= 32
    requires safe ==> End(Width(b)) <= header.Length
    modifies header
    ensures ok ==> Place(out, bitCount, header.Length, capacity, safe) && Stored(header[..out], bitStream, bitCount, b)
    ensures !ok ==> !safe && capacity < End(Width(b)) && out <= capacity
    ensures start <= out <= header.Length && SameFrom(header[..], old(header[..]), out)
  {
    hide Stored;
    ok, out, bitStream, bitCount := true, start, stream, count;
    if bitCount > 16 {
      StoreEnds(header[..start], stream, count, b);
      ok, bitStream := Flush(header, capacity, safe, out, bitStream, bitCount, b);
      if ok {
        out := out + 2;
        bitCount := bitCount - 16;
      }
    }
  }

  // ----- Runs of zeros -----

  /** The number with n groups of two bits set. */
  function Threes(n: nat): nat {
    if n == 0 then 0 else 3 + 4 * Threes(n - 1)
  }

  lemma JoinThree(x: nat)
    ensures Join(3, 2, x) == 3 + 4 * x
  {
    assert Join(3, 2, x) == Join(3, 1, 2 * x);
    assert Join(3, 1, 2 * x) == Join(3, 0, 2 * (2 * x));
  }

  lemma ThreesJoin(low: nat, at: nat, n: nat)
    requires n > 0
    ensures Join(Join(low, at, 3), at + 2, Threes(n - 1)) == Join(low, at, Threes(n))
  {
    hide Join;
    JoinThree(Threes(n - 1));
    JoinJoin(low, at, 3, 2, Threes(n - 1));
  }

  lemma NoThrees()
    ensures Threes(0) == 0
  {
  }

  lemma PushedNumber(b: Bits, v: nat, w: nat)
    ensures Number(Push(b, v, w)) == Join(Number(b), Width(b), v) && Width(Push(b, v, w)) == Width(b) + w
  {
  }

  lemma {:induction false} ThreesNumber(b: Bits, n: nat)
    ensures Number(PushThrees(b, n)) == Join(Number(b), Width(b), Threes(n))
    ensures Width(PushThrees(b, n)) == Width(b) + 2 * n
    decreases n
  {
    hide Join, Pow2, Number, Width, Threes;
    if n == 0 {
      NoThrees();
      JoinZero(Number(b), Width(b));
    } else {
      PushedNumber(b, 3, 2);
      ThreesNumber(Push(b, 3, 2), n - 1);
      ThreesJoin(Number(b), Width(b), n);
    }
  }

  /** Add bits at the top of the register. */
  function AddAt(bitStream: nat, bitCount: nat, v: nat): nat {
    bitStream + v * Pow2(bitCount)
  }

  lemma AddAtIs(bitStream: nat, bitCount: nat, v: nat)
    ensures AddAt(bitStream, bitCount, v) == Join(bitStream, bitCount, v)
  {
    JoinIs(bitStream, bitCount, v);
  }

  lemma Sixteen()
    ensures Pow2(16) == 0x10000
  {
    OneByte(0, 0);
    Pow2Add(8, 8);
  }

  lemma EightOfThem()
    ensures Threes(8) == 0xFFFF
  {
    assert Threes(0) == 0 && Threes(1) == 3 && Threes(2) == 15 && Threes(3) == 63 && Threes(4) == 255;
    assert Threes(5) == 1023 && Threes(6) == 4095 && Threes(7) == 16383;
  }

  /** Eight threes at once. */
  lemma EightThrees(front: seq<byte>, bitStream: nat, bitCount: nat, b: Bits)
    requires Stored(front, bitStream, bitCount, b)
    ensures Stored(front, AddAt(bitStream, bitCount, 0xFFFF), bitCount + 16, PushThrees(b, 8))
  {
    hide AddAt, PushThrees, Join, Pow2;
    Sixteen();
    EightOfThem();
    AddStored(front, bitStream, bitCount, b, 0xFFFF, 16);
    AddAtIs(bitStream, bitCount, 0xFFFF);
    ThreesNumber(b, 8);
  }

  lemma OneField(front: seq<byte>, bitStream: nat, bitCount: nat, b: Bits, v: nat, w: nat)
    requires Stored(front, bitStream, bitCount, b) && v < Pow2(w)
    ensures Stored(front, AddAt(bitStream, bitCount, v), bitCount + w, Push(b, v, w))
  {
    hide AddAt;
    AddStored(front, bitStream, bitCount, b, v, w);
    AddAtIs(bitStream, bitCount, v);
  }

  lemma {:induction false} ThreesMore(b: Bits, n: nat, m: nat)
    ensures PushThrees(PushThrees(b, n), m) == PushThrees(b, n + m)
    decreases n
  {
    if n > 0 {
      ThreesMore(Push(b, 3, 2), n - 1, m);
    }
  }

  /** A run of zeros: 24 of them at a time, then three, then the rest. */
  method WriteRun(header: array<byte>, capacity: nat, safe: bool, start: nat, stream: nat, count: nat, zeros: nat,
                  ghost b: Bits)
    returns (ok: bool, out: nat, bitStream: nat, bitCount: nat)
    requires Place(start, count, header.Length, capacity, safe) && Stored(header[..start], stream, count, b)
    requires safe ==> End(Width(PushRun(b, zeros))) <= header.Length
    modifies header
    ensures ok ==> Place(out, bitCount, header.Length, capacity, safe)
    ensures ok ==> Stored(header[..out], bitStream, bitCount, PushRun(b, zeros))
    ensures !ok ==> !safe && capacity < End(Width(PushRun(b, zeros))) && out <= capacity
    ensures start <= out <= header.Length && SameFrom(header[..], old(header[..]), out)
  {
    hide Stored, AddAt, PushThrees, ShiftRight, Width, SameFrom, End;
    SameStill(header[..], start);
    ok, out, bitStream, bitCount := true, start, stream, count;
    var left: nat := zeros;
    ghost var n: nat := 0;
    PushNone(b);
    while left >= 24
      invariant ok && left + 3 * n == zeros && start <= out && Place(out, bitCount, header.Length, capacity, safe)
      invariant Stored(header[..out], bitStream, bitCount, PushThrees(b, n))
      invariant SameFrom(header[..], old(header[..]), out)
    {
      EightThrees(header[..out], bitStream, bitCount, PushThrees(b, n));
      ThreesMore(b, n, 8);
      StoreEnds(header[..out], AddAt(bitStream, bitCount, 0xFFFF), bitCount + 16, PushThrees(b, n + 8));
      RunWidth(b, n + 8, zeros);
      EndMonotone(Width(PushThrees(b, n + 8)), Width(PushRun(b, zeros)));
      ghost var before := header[..];
      ok, bitStream := Flush(header, capacity, safe, out, AddAt(bitStream, bitCount, 0xFFFF), bitCount + 16,
                             PushThrees(b, n + 8));
      SameThrough(old(header[..]), before, header[..], out, if ok then out + 2 else out);
      if !ok {
        return;
      }
      out := out + 2;
      left := left - 24;
      n := n + 8;
    }
    while left >= 3
      invariant left + 3 * n == zeros && 1 <= bitCount && bitCount + 2 * (left / 3) <= 16 + 2 * 7
      invariant Stored(header[..out], bitStream, bitCount, PushThrees(b, n))
      invariant SameFrom(header[..], old(header[..]), out)
    {
      ThreeFits();
      OneField(header[..out], bitStream, bitCount, PushThrees(b, n), 3, 2);
      OneThree(b, n);
      bitStream := AddAt(bitStream, bitCount, 3);
      bitCount := bitCount + 2;
      left := left - 3;
      n := n + 1;
    }
    ThreeFits();
    OneField(header[..out], bitStream, bitCount, PushThrees(b, n), left, 2);
    assert n == zeros / 3 && left == zeros % 3;
    bitStream := AddAt(bitStream, bitCount, left);
    bitCount := bitCount + 2;
    ghost var middle, at := header[..], out;
    ok, out, bitStream, bitCount := FlushFull(header, capacity, safe, out, bitStream, bitCount, PushRun(b, zeros));
    SameThrough(old(header[..]), middle, header[..], at, out);
  }

  lemma PushNone(b: Bits)
    ensures PushThrees(b, 0) == b
  {
  }

  lemma ThreeFits()
    ensures Pow2(2) == 4
  {
  }

  lemma OneThree(b: Bits, n: nat)
    ensures Push(PushThrees(b, n), 3, 2) == PushThrees(b, n + 1)
  {
    ThreesMore(b, n, 1);
    assert PushThrees(PushThrees(b, n), 1) == PushThrees(Push(PushThrees(b, n), 3, 2), 0);
  }

  lemma RunWidth(b: Bits, n: nat, zeros: nat)
    requires 3 * n <= zeros
    ensures Width(PushThrees(b, n)) <= Width(PushRun(b, zeros))
  {
    ThreesNumber(b, n);
    ThreesNumber(b, zeros / 3);
  }

  /** One count. */
  method WriteCount(header: array<byte>, capacity: nat, safe: bool, start: nat, stream: nat, count: nat, value: int,
                    remaining: nat, ghost b: Bits)
    returns (ok: bool, out: nat, bitStream: nat, bitCount: nat)
    requires Place(start, count, header.Length, capacity, safe) && Stored(header[..start], stream, count, b)
    requires 1 < remaining <= 0x1001 && -1 <= value < remaining
    requires safe ==> End(Width(PushCount(b, value, remaining))) <= header.Length
    modifies header
    ensures ok ==> Place(out, bitCount, header.Length, capacity, safe)
    ensures ok ==> Stored(header[..out], bitStream, bitCount, PushCount(b, value, remaining))
    ensures !ok ==> !safe && capacity < End(Width(PushCount(b, value, remaining))) && out <= capacity
    ensures start <= out <= header.Length && SameFrom(header[..], old(header[..]), out)
  {
    hide Stored, AddAt, Pow2, HighBit, Width;
    var nbBits := HighBit(remaining) + 1;
    var threshold := Pow2(nbBits - 1);
    var max := 2 * threshold - 1 - remaining;
    var v := value + 1;
    if v >= threshold {
      v := v + max;
    }
    CountFits(value, remaining);
    BitsOfCount(remaining);
    var width := if v < max then nbBits - 1 else nbBits;
    OneField(header[..start], stream, count, b, v, width);
    ok, out, bitStream, bitCount :=
      FlushFull(header, capacity, safe, start, AddAt(stream, count, v), count + width, PushCount(b, value, remaining));
  }

  lemma BitsOfCount(remaining: nat)
    requires 0 < remaining <= 0x1001
    ensures HighBit(remaining) <= 12
  {
    assert Pow2(13) == 8192;
    if HighBit(remaining) > 12 {
      Pow2Monotone(13, HighBit(remaining));
    }
  }

  /** The state of the writer before symbol `s`. */
  ghost predicate Writing(front: seq<byte>, bitStream: nat, bitCount: nat, b: Bits, norm: seq<int>, s: nat,
                          remaining: nat, zero: bool, whole: Bits)
    requires Counts(norm) && s <= |norm|
  {
    && Stored(front, bitStream, bitCount, b)
    && Fields(norm, b, s, remaining, zero) == whole
  }

  lemma WritingStep(norm: seq<int>, b: Bits, s: nat, remaining: nat, zero: bool, t: nat)
    requires Counts(norm) && s <= |norm| && remaining > 1
    requires t == Next(norm, s, zero) < |norm| && Frequency(norm[t]) < remaining
    ensures var d := PushCount(PushZeros(b, norm, s, zero), norm[t], remaining);
      && Fields(norm, b, s, remaining, zero) == Fields(norm, d, t + 1, remaining - Frequency(norm[t]), norm[t] == 0)
      && Width(PushZeros(b, norm, s, zero)) <= Width(d) <= Width(Fields(norm, b, s, remaining, zero))
  {
    var d := PushCount(PushZeros(b, norm, s, zero), norm[t], remaining);
    FieldsExtend(norm, d, t + 1, remaining - Frequency(norm[t]), norm[t] == 0);
    ExtendedWidth(Fields(norm, b, s, remaining, zero), d);
  }

  /** Skip the symbols with a count of zero. */
  method SkipZeros(norm: seq<int>, start: nat) returns (symbol: nat)
    requires start <= |norm|
    ensures symbol == NextNonZero(norm, start)
  {
    symbol := start;
    while symbol < |norm| && norm[symbol] == 0
      invariant start <= symbol <= |norm| && NextNonZero(norm, symbol) == NextNonZero(norm, start)
    {
      symbol := symbol + 1;
    }
  }

  lemma FinalBytes(front: seq<byte>, bitStream: nat, bitCount: nat, b: Bits)
    requires Stored(front, bitStream, bitCount, b) && bitCount <= 16
    ensures IsHeader(front + [LowByte(bitStream), SecondByte(bitStream)][..(bitCount + 7) / 8], b)
  {
    var two, k := [LowByte(bitStream), SecondByte(bitStream)], (bitCount + 7) / 8;
    TwoBytes(bitStream);
    assert bitStream % Pow2(16) == bitStream by {
      Pow2Monotone(bitCount, 16);
      DivideIs(bitStream, Pow2(16), 0, bitStream);
    }
    LittleEndianSplit(two, k);
    assert LittleEndian(two[..k]) == bitStream by {
      Pow2Monotone(bitCount, 8 * k);
      DivideIs(bitStream, Pow2(8 * k), 0, bitStream);
    }
    LittleEndianAppend(front, two[..k]);
  }

  /** The zeros before the next symbol, if any are to be written. */
  method WriteZeros(header: array<byte>, capacity: nat, safe: bool, start: nat, stream: nat, count: nat, norm: seq<int>,
                    s: nat, zero: bool, ghost b: Bits)
    returns (ok: bool, t: nat, out: nat, bitStream: nat, bitCount: nat)
    requires Place(start, count, header.Length, capacity, safe) && Stored(header[..start], stream, count, b)
    requires s <= |norm| && (safe ==> End(Width(PushZeros(b, norm, s, zero))) <= header.Length)
    modifies header
    ensures t == Next(norm, s, zero)
    ensures ok && t < |norm| ==> Place(out, bitCount, header.Length, capacity, safe)
    ensures ok && t < |norm| ==> Stored(header[..out], bitStream, bitCount, PushZeros(b, norm, s, zero))
    ensures !ok ==> t < |norm| && !safe && capacity < End(Width(PushZeros(b, norm, s, zero)))
    ensures start <= out <= header.Length && (safe || out <= capacity) && SameFrom(header[..], old(header[..]), out)
  {
    ok, t, out, bitStream, bitCount := true, s, start, stream, count;
    if zero {
      t := SkipZeros(norm, s);
      if t < |norm| {
        ok, out, bitStream, bitCount := WriteRun(header, capacity, safe, out, bitStream, bitCount, t - s, b);
      }
    }
  }

  lemma StartFields(front: seq<byte>, tableLog: nat)
    requires front == [] && MIN_TABLELOG <= tableLog <= MAX_TABLELOG
    ensures Stored(front, tableLog - MIN_TABLELOG, 4, Push(Nothing, tableLog - MIN_TABLELOG, 4))
  {
    assert Pow2(4) == 16;
    JoinNothing(0, tableLog - MIN_TABLELOG);
  }

  /** The fields of a distribution, whether normalised or not. */
  ghost function AllFields(norm: seq<int>, tableLog: nat): Bits
    requires Counts(norm) && tableLog >= MIN_TABLELOG
  {
    Fields(norm, Push(Nothing, tableLog - MIN_TABLELOG, 4), 0, Pow2(tableLog) + 1, false)
  }

  lemma RemainingFits(tableLog: nat)
    requires tableLog <= MAX_TABLELOG
    ensures Pow2(tableLog) + 1 <= 0x1001
  {
    Pow2Monotone(tableLog, 12);
    assert Pow2(12) == 4096;
  }

  method Finish(header: array<byte>, capacity: nat, safe: bool, out: nat, bitStream: nat, bitCount: nat, ghost b: Bits)
    returns (r: Written, ghost reach: nat)
    requires Place(out, bitCount, header.Length, capacity, safe) && Stored(header[..out], bitStream, bitCount, b)
    requires safe ==> End(Width(b)) <= header.Length
    modifies header
    ensures (r.Size? || r.DstTooSmall?) && out <= reach
    ensures r.Size? <==> safe || End(Width(b)) <= capacity
    ensures r.Size? ==> r.n <= reach == End(Width(b)) <= header.Length && IsHeader(header[..r.n], b)
    ensures r.DstTooSmall? ==> reach <= capacity
    ensures SameFrom(header[..], old(header[..]), reach)
  {
    hide Stored;
    reach := out;
    StoreEnds(header[..out], bitStream, bitCount, b);
    if !safe && out + 2 > capacity {
      return DstTooSmall, reach;
    }
    ghost var front := header[..out];
    FinalBytes(front, bitStream, bitCount, b);
    header[out] := LowByte(bitStream);
    header[out + 1] := SecondByte(bitStream);
    reach := out + 2;
    var n := out + (bitCount + 7) / 8;
    assert header[..n] == front + [LowByte(bitStream), SecondByte(bitStream)][..(bitCount + 7) / 8];
    return Size(n), reach;
  }

  /** The zeros before the next symbol, and its count. */
  method WriteSymbol(header: array<byte>, capacity: nat, safe: bool, start: nat, stream: nat, count: nat,
                     norm: seq<int>, s: nat, remaining: nat, zero: bool, ghost b: Bits, ghost whole: Bits)
    returns (r: Written, t: nat, out: nat, bitStream: nat, bitCount: nat, ghost d: Bits)
    requires Place(start, count, header.Length, capacity, safe) && Counts(norm) && s < |norm| && 1 < remaining <= 0x1001
    requires Writing(header[..start], stream, count, b, norm, s, remaining, zero, whole)
    requires safe ==> Room(header.Length, norm, b, s, remaining, zero, whole)
    modifies header
    ensures !r.Unsupported? && t == Next(norm, s, zero)
    ensures r.Size? ==> t < |norm| && Frequency(norm[t]) < remaining
    ensures r.Size? ==> Place(out, bitCount, header.Length, capacity, safe)
    ensures r.Size? ==>
      Writing(header[..out], bitStream, bitCount, d, norm, t + 1, remaining - Frequency(norm[t]), norm[t] == 0, whole)
    ensures r.BadDistribution? ==> t == |norm| || Frequency(norm[t]) >= remaining
    ensures r.DstTooSmall? ==> t < |norm| && !safe
    ensures r.DstTooSmall? && Frequency(norm[t]) < remaining ==> capacity < End(Width(whole))
    ensures start <= out <= header.Length && (safe || out <= capacity) && SameFrom(header[..], old(header[..]), out)
  {
    hide Stored, Fields, Width, End, SameFrom;
    d := b;
    var ok;
    ghost var c := PushZeros(b, norm, s, zero);
    ghost var u := Next(norm, s, zero);
    if u < |norm| && Frequency(norm[u]) < remaining {
      WritingStep(norm, b, s, remaining, zero, u);
      EndMonotone(Width(c), Width(whole));
    }
    ok, t, out, bitStream, bitCount := WriteZeros(header, capacity, safe, start, stream, count, norm, s, zero, b);
    if t == |norm| {
      return BadDistribution, t, out, bitStream, bitCount, d;
    }
    if Frequency(norm[t]) >= remaining {
      return if ok then BadDistribution else DstTooSmall, t, out, bitStream, bitCount, d;
    }
    r := DstTooSmall;
    if ok {
      d := PushCount(c, norm[t], remaining);
      EndMonotone(Width(d), Width(whole));
      ghost var middle, at := header[..], out;
      ok, out, bitStream, bitCount :=
        WriteCount(header, capacity, safe, out, bitStream, bitCount, norm[t], remaining, c);
      SameThrough(old(header[..]), middle, header[..], at, out);
      if ok {
        r := Size(out);
      }
    }
  }

  /** There is memory for all fields, and for the zeros before a count that is too large. */
  ghost predicate Room(size: nat, norm: seq<int>, b: Bits, s: nat, remaining: nat, zero: bool, whole: Bits)
    requires Counts(norm) && s <= |norm|
  {
    && End(Width(whole)) <= size
    && (Next(norm, s, zero) == |norm| || Frequency(norm[Next(norm, s, zero)]) >= remaining ==>
          End(Width(PushZeros(b, norm, s, zero))) <= size)
  }

  /** The size that is taken to be enough for the header of so many symbols. */
  function WriteBound(symbols: nat, tableLog: nat): nat {
    if symbols <= 1 then 512 else (symbols * tableLog + 4 + 2) / 8 + 1 + 2
  }

  /** The output is written without checks. */
  predicate Unchecked(symbols: nat, tableLog: nat, capacity: nat) {
    capacity >= WriteBound(symbols, tableLog)
  }

  /** How much memory the stores may reach: to the end of the header, or if the counts are no distribution, of a run of
      zeros after it. */
  ghost function Memory(norm: seq<int>, tableLog: nat): nat
    requires Counts(norm) && tableLog >= MIN_TABLELOG
  {
    End(Width(AllFields(norm, tableLog)) + if Normalized(norm, tableLog) then 0 else |norm| + 2)
  }

  lemma RunIsShort(b: Bits, norm: seq<int>, s: nat, zero: bool)
    requires s <= |norm|
    ensures Width(PushZeros(b, norm, s, zero)) <= Width(b) + |norm| + 2
  {
    if zero {
      ThreesNumber(b, (NextNonZero(norm, s) - s) / 3);
    }
  }

  lemma HasRoom(norm: seq<int>, tableLog: nat, b: Bits, s: nat, remaining: nat, zero: bool)
    requires Counts(norm) && MIN_TABLELOG <= tableLog && s <= |norm| && remaining > 1
    requires Fields(norm, b, s, remaining, zero) == AllFields(norm, tableLog)
    requires Normalized(norm, tableLog) ==> Left(norm, tableLog, s, remaining)
    ensures Room(Memory(norm, tableLog), norm, b, s, remaining, zero, AllFields(norm, tableLog))
  {
    hide Fields, PushZeros, Normalized, Left, AllFields, End;
    var whole := AllFields(norm, tableLog);
    if Normalized(norm, tableLog) {
      NextFits(norm, tableLog, s, remaining, zero);
    } else {
      FieldsExtend(norm, b, s, remaining, zero);
      ExtendedWidth(whole, b);
      RunIsShort(b, norm, s, zero);
      EndMonotone(Width(PushZeros(b, norm, s, zero)), Width(whole) + |norm| + 2);
      EndMonotone(Width(whole), Width(whole) + |norm| + 2);
    }
  }

  lemma RoomWithin(size: nat, more: nat, norm: seq<int>, b: Bits, s: nat, remaining: nat, zero: bool, whole: Bits)
    requires Counts(norm) && s <= |norm| && Room(size, norm, b, s, remaining, zero, whole) && size <= more
    ensures Room(more, norm, b, s, remaining, zero, whole)
  {
  }

  /** Write the header of a distribution into memory that the buffer, of the given capacity, is the beginning of. The
      bytes written are its header. With checks it fails exactly if the last store does not fit; without, exactly then
      something is stored behind the buffer. */
  method WriteNCount(header: array<byte>, capacity: nat, norm: seq<int>, tableLog: nat)
    returns (r: Written, ghost reach: nat)
    requires Counts(norm) && capacity <= header.Length
    requires Unchecked(|norm|, tableLog, capacity) && tableLog >= MIN_TABLELOG ==>
      Memory(norm, tableLog) <= header.Length
    modifies header
    ensures r.Unsupported? <==> !(MIN_TABLELOG <= tableLog <= MAX_TABLELOG)
    ensures r.Size? ==> r.n <= reach == End(Width(AllFields(norm, tableLog))) <= header.Length
    ensures r.Size? ==> IsHeader(header[..r.n], AllFields(norm, tableLog))
    ensures Normalized(norm, tableLog) ==> r.Size? || r.DstTooSmall?
    ensures Normalized(norm, tableLog) ==>
      (r.Size? <==> Unchecked(|norm|, tableLog, capacity) || End(Width(AllFields(norm, tableLog))) <= capacity)
    ensures !Unchecked(|norm|, tableLog, capacity) ==> reach <= capacity
    ensures Normalized(norm, tableLog) ==>
      (reach <= capacity <==>
        !Unchecked(|norm|, tableLog, capacity) || End(Width(AllFields(norm, tableLog))) <= capacity)
    ensures SameFrom(header[..], old(header[..]), reach)
  {
    hide Stored, Fields, Normalized, End, Width, SameFrom, Memory;
    reach := 0;
    SameStill(header[..], 0);
    if Normalized(norm, tableLog) {
      LogInRange(norm, tableLog);
    }
    if tableLog > MAX_TABLELOG || tableLog < MIN_TABLELOG {
      return Unsupported, reach;
    }
    var safe := Unchecked(|norm|, tableLog, capacity);
    ghost var whole, good := AllFields(norm, tableLog), Normalized(norm, tableLog);
    ghost var b := Push(Nothing, tableLog - MIN_TABLELOG, 4);
    var bitStream: nat, bitCount: nat, out: nat := tableLog - MIN_TABLELOG, 4, 0;
    var remaining: nat, symbol: nat, previousIs0 := Pow2(tableLog) + 1, 0, false;
    StartFields(header[..0], tableLog);
    RemainingFits(tableLog);
    while symbol < |norm| && remaining > 1
      invariant symbol <= |norm| && 1 <= remaining <= 0x1001 && Place(out, bitCount, header.Length, capacity, safe)
      invariant Writing(header[..out], bitStream, bitCount, b, norm, symbol, remaining, previousIs0, whole)
      invariant good ==> Left(norm, tableLog, symbol, remaining)
      invariant reach == out && SameFrom(header[..], old(header[..]), reach)
      decreases |norm| - symbol
    {
      if good {
        NextFits(norm, tableLog, symbol, remaining, previousIs0);
      }
      HasRoom(norm, tableLog, b, symbol, remaining, previousIs0);
      if safe {
        RoomWithin(Memory(norm, tableLog), header.Length, norm, b, symbol, remaining, previousIs0, whole);
      }
      ghost var before := header[..];
      r, symbol, out, bitStream, bitCount, b :=
        WriteSymbol(header, capacity, safe, out, bitStream, bitCount, norm, symbol, remaining, previousIs0, b, whole);
      SameThrough(old(header[..]), before, header[..], reach, out);
      reach := out;
      if !r.Size? {
        return;
      }
      remaining := remaining - Frequency(norm[symbol]);
      previousIs0 := norm[symbol] == 0;
      symbol := symbol + 1;
    }
    if remaining != 1 {
      if good {
        NothingLeft(norm, tableLog, symbol, remaining);
      }
      return BadDistribution, reach;
    }
    AllGiven(norm, b, symbol, remaining, previousIs0);
    MemoryForAll(norm, tableLog);
    ghost var before := header[..];
    r, reach := Finish(header, capacity, safe, out, bitStream, bitCount, b);
    SameThrough(old(header[..]), before, header[..], out, reach);
  }

  lemma MemoryForAll(norm: seq<int>, tableLog: nat)
    requires Counts(norm) && tableLog >= MIN_TABLELOG
    ensures End(Width(AllFields(norm, tableLog))) <= Memory(norm, tableLog)
    ensures Normalized(norm, tableLog) ==> Memory(norm, tableLog) == End(Width(AllFields(norm, tableLog)))
  {
    hide Width, AllFields, Normalized;
  }

  lemma LogInRange(norm: seq<int>, tableLog: nat)
    requires Normalized(norm, tableLog)
    ensures MIN_TABLELOG <= tableLog <= MAX_TABLELOG
  {
  }

  lemma NothingLeft(norm: seq<int>, tableLog: nat, s: nat, remaining: nat)
    requires Normalized(norm, tableLog) && Left(norm, tableLog, s, remaining) && s == |norm|
    ensures remaining == 1
  {
  }

  lemma AllGiven(norm: seq<int>, b: Bits, s: nat, remaining: nat, zero: bool)
    requires Counts(norm) && s <= |norm| && remaining <= 1
    ensures Fields(norm, b, s, remaining, zero) == b
  {
  }
}
