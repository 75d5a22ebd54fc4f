/** Compressing with an encoding table: two interleaved encoders on one bit stream, from the end of the source. */
module FseEncoder {
  import opened ByteType
  import opened Pow2Lemmas
  import opened BitArithmetic
  import opened BitStream
  import opened FseNorm
  import opened FseTables
  import opened FseCodec

  /** The size from which the output is taken to fit. */
  function BlockBound(size: nat): nat {
    size + size / 128 + 4 + 8
  }

  /** The state for the first symbol encoded is its lowest, which saves the bits of this symbol. */
  method InitCState2(ct: CTable, symbol: nat, ghost norm: seq<int>, ghost tableLog: nat) returns (value: nat)
    requires Encodes(norm, tableLog, ct) && symbol < |norm| && norm[symbol] != 0
    requires symbol < |ct.deltaNbBits| == |ct.deltaFindState|
    ensures value == FirstOf(ct, symbol)
  {
    FirstForward(norm, tableLog, ct, symbol);
    var nbBitsOut := (ct.deltaNbBits[symbol] + 0x8000) / 0x10000;
    var v := nbBitsOut * 0x10000 - ct.deltaNbBits[symbol];
    value := ct.stateTable[ShiftRight(v, nbBitsOut) + ct.deltaFindState[symbol]];
  }

  method EncodeSymbol(bitC: CStream, ct: CTable, value: nat, symbol: nat, ghost norm: seq<int>, ghost tableLog: nat)
    returns (next: nat)
    requires Encodes(norm, tableLog, ct) && symbol < |norm| && norm[symbol] != 0
    requires symbol < |ct.deltaNbBits| == |ct.deltaFindState| && InRange(value, Pow2(tableLog))
    requires bitC.Valid() && bitC.bitPos + tableLog < 64 && tableLog < 32
    modifies bitC
    ensures bitC.Valid() && bitC.ptr == old(bitC.ptr) && bitC.lost == old(bitC.lost) && bitC.reach == old(bitC.reach)
    ensures next == Lookup(ct, StateIndex(ct, symbol, value))
    ensures bitC.bits == Push(old(bitC.bits), value % Pow2(BitsOut(ct, symbol, value)), BitsOut(ct, symbol, value))
    ensures bitC.bitPos <= old(bitC.bitPos) + tableLog
  {
    hide Normalized, IsCTable;
    StepForward(norm, tableLog, ct, symbol, value);
    var nbBitsOut := (value + ct.deltaNbBits[symbol]) / 0x10000;
    bitC.AddBits(value, nbBitsOut);
    next := ct.stateTable[ShiftRight(value, nbBitsOut) + ct.deltaFindState[symbol]];
  }

  /** The encoders have done the symbols from place `i` on. */
  ghost predicate Done(ct: CTable, src: seq<byte>, i: nat, state1: nat, state2: nat, bits: Bits)
    requires Usable(ct, src) && |src| >= 2
  {
    EncodeFrom(ct, src, i) == Coded(state1, state2, bits)
  }

  ghost predicate Ready(norm: seq<int>, tableLog: nat, ct: CTable, src: seq<byte>) {
    Encodes(norm, tableLog, ct) && Present(src, norm) && Usable(ct, src) && tableLog <= MAX_TABLELOG && |src| >= 2
  }

  /** The symbol at an odd place goes to the second encoder. */
  method EncodeOdd(bitC: CStream, ct: CTable, src: seq<byte>, i: nat, state1: nat, state2: nat, ghost norm: seq<int>,
                   ghost tableLog: nat)
    returns (next: nat)
    requires Ready(norm, tableLog, ct, src) && i + 2 < |src| && i % 2 == 1
    requires bitC.Valid() && bitC.bitPos + tableLog < 64 && Done(ct, src, i + 1, state1, state2, bitC.bits)
    modifies bitC
    ensures bitC.Valid() && bitC.ptr == old(bitC.ptr) && bitC.lost == old(bitC.lost) && bitC.reach == old(bitC.reach)
    ensures Done(ct, src, i, state1, next, bitC.bits) && bitC.bitPos <= old(bitC.bitPos) + tableLog
  {
    hide Encodes, Clean, CStream.Valid;
    EncodeFromOk(norm, tableLog, ct, src, i + 1);
    next := EncodeSymbol(bitC, ct, state2, src[i], norm, tableLog);
  }

  /** The symbol at an even place goes to the first encoder. */
  method EncodeEven(bitC: CStream, ct: CTable, src: seq<byte>, i: nat, state1: nat, state2: nat, ghost norm: seq<int>,
                    ghost tableLog: nat)
    returns (next: nat)
    requires Ready(norm, tableLog, ct, src) && i + 2 < |src| && i % 2 == 0
    requires bitC.Valid() && bitC.bitPos + tableLog < 64 && Done(ct, src, i + 1, state1, state2, bitC.bits)
    modifies bitC
    ensures bitC.Valid() && bitC.ptr == old(bitC.ptr) && bitC.lost == old(bitC.lost) && bitC.reach == old(bitC.reach)
    ensures Done(ct, src, i, next, state2, bitC.bits) && bitC.bitPos <= old(bitC.bitPos) + tableLog
  {
    hide Encodes, Clean, CStream.Valid;
    EncodeFromOk(norm, tableLog, ct, src, i + 1);
    next := EncodeSymbol(bitC, ct, state1, src[i], norm, tableLog);
  }

  /** The bits of the symbols fit in the output, but for the 8 bytes that the last write may take. */
  ghost predicate BitsFit(ct: CTable, src: seq<byte>, capacity: nat)
    requires Usable(ct, src) && |src| >= 2
  {
    Width(EncodeFrom(ct, src, 0).bits) / 8 + 8 <= capacity
  }

  /** The stream can be written to: there is memory for a word, which without checks may be behind the buffer. */
  ghost predicate Writable(bitC: CStream, fast: bool)
    reads bitC, bitC.dst
  {
    && bitC.Valid() && bitC.ptr + 8 <= bitC.dst.Length
    && if fast then !bitC.lost else bitC.ptr <= bitC.endPtr && bitC.reach <= bitC.endPtr + 8
  }

  /** In the fast mode no word is stored behind the place where the last bits of the symbols are. */
  ghost predicate Reaches(bitC: CStream, ct: CTable, src: seq<byte>)
    requires Usable(ct, src) && |src| >= 2
    reads bitC
  {
    bitC.reach <= Width(EncodeFrom(ct, src, 0).bits) / 8 + 8
  }

  lemma StoredAt(bitC: CStream)
    requires bitC.Valid() && !bitC.lost
    ensures Width(bitC.bits) == 8 * bitC.ptr + bitC.bitPos
  {
  }

  /** Move the bits to memory. The fast way does not check for the end of the output. */
  method Flush(bitC: CStream, fast: bool, ghost ct: CTable, ghost src: seq<byte>, ghost i: nat)
    requires Writable(bitC, fast) && Usable(ct, src) && |src| >= 2 && i <= |src| - 2
    requires bitC.bits == EncodeFrom(ct, src, i).bits
    requires fast ==> BitsFit(ct, src, bitC.dst.Length) && Reaches(bitC, ct, src)
    modifies bitC, bitC.dst
    ensures Writable(bitC, fast) && bitC.bits == old(bitC.bits) && bitC.bitPos <= 7
    ensures fast ==> Reaches(bitC, ct, src)
    ensures SameFrom(bitC.dst[..], old(bitC.dst[..]), bitC.reach) && bitC.reach >= old(bitC.reach)
  {
    hide CStream.Valid, EncodeFrom, SameFrom;
    if fast {
      WidthGrows(ct, src, i);
      StoredAt(bitC);
      bitC.FlushBitsFast();
      StoredAt(bitC);
    } else {
      bitC.FlushBits();
      bitC.Placed();
    }
  }

  /** Two symbols, at an odd and at an even place. */
  method EncodePair(bitC: CStream, ct: CTable, src: seq<byte>, ip: nat, state1: nat, state2: nat,
                    ghost norm: seq<int>, ghost tableLog: nat)
    returns (next1: nat, next2: nat)
    requires Ready(norm, tableLog, ct, src) && 2 <= ip <= |src| - 2 && ip % 2 == 0
    requires bitC.Valid() && bitC.bitPos + 2 * tableLog < 64 && Done(ct, src, ip, state1, state2, bitC.bits)
    modifies bitC
    ensures bitC.Valid() && bitC.ptr == old(bitC.ptr) && bitC.lost == old(bitC.lost) && bitC.reach == old(bitC.reach)
    ensures Done(ct, src, ip - 2, next1, next2, bitC.bits) && bitC.bitPos <= old(bitC.bitPos) + 2 * tableLog
  {
    hide Encodes, EncodeFrom, CStream.Valid;
    next2 := EncodeOdd(bitC, ct, src, ip - 1, state1, state2, norm, tableLog);
    next1 := EncodeEven(bitC, ct, src, ip - 2, state1, next2, norm, tableLog);
  }

  /** The encoders after the first symbols: two, or three if the source has an odd length. */
  method Start(bitC: CStream, ct: CTable, src: seq<byte>, fast: bool, ghost norm: seq<int>, ghost tableLog: nat)
    returns (ip: nat, state1: nat, state2: nat)
    requires Ready(norm, tableLog, ct, src) && |src| > 2
    requires Writable(bitC, fast) && bitC.bits == Nothing && bitC.bitPos == 0
    requires fast ==> BitsFit(ct, src, bitC.dst.Length) && Reaches(bitC, ct, src)
    modifies bitC, bitC.dst
    ensures Writable(bitC, fast) && bitC.bitPos <= 7 && (fast ==> Reaches(bitC, ct, src))
    ensures SameFrom(bitC.dst[..], old(bitC.dst[..]), bitC.reach)
    ensures ip == (if |src| % 2 == 1 then |src| - 3 else |src| - 2)
    ensures Done(ct, src, ip, state1, state2, bitC.bits)
  {
    hide Encodes, FirstOf, CStream.Valid, SameFrom;
    ghost var was := bitC.dst[..];
    ip := |src|;
    if |src| % 2 == 1 {
      state1 := InitCState2(ct, src[ip - 1], norm, tableLog);
      state2 := InitCState2(ct, src[ip - 2], norm, tableLog);
      state1 := EncodeEven(bitC, ct, src, ip - 3, state1, state2, norm, tableLog);
      ip := ip - 3;
      assert bitC.dst[..] == was;
      Flush(bitC, fast, ct, src, ip);
    } else {
      state2 := InitCState2(ct, src[ip - 1], norm, tableLog);
      state1 := InitCState2(ct, src[ip - 2], norm, tableLog);
      ip := ip - 2;
      SameStill(was, bitC.reach);
    }
  }

  /** One or two pairs, and then a flush. */
  method EncodeRound(bitC: CStream, ct: CTable, src: seq<byte>, ip: nat, pairs: nat, first: nat, second: nat,
                     fast: bool, ghost norm: seq<int>, ghost tableLog: nat, ghost was: seq<byte>)
    returns (state1: nat, state2: nat)
    requires Ready(norm, tableLog, ct, src) && 1 <= pairs <= 2 && 2 * pairs <= ip <= |src| - 2 && ip % 2 == 0
    requires Writable(bitC, fast) && bitC.bitPos <= 7 && Done(ct, src, ip, first, second, bitC.bits)
    requires fast ==> BitsFit(ct, src, bitC.dst.Length) && Reaches(bitC, ct, src)
    requires SameFrom(bitC.dst[..], was, bitC.reach)
    modifies bitC, bitC.dst
    ensures Writable(bitC, fast) && bitC.bitPos <= 7 && (fast ==> Reaches(bitC, ct, src))
    ensures SameFrom(bitC.dst[..], was, bitC.reach)
    ensures Done(ct, src, ip - 2 * pairs, state1, state2, bitC.bits)
  {
    hide Encodes, EncodeFrom, CStream.Valid, SameFrom;
    ghost var before, reach := bitC.dst[..], bitC.reach;
    state1, state2 := EncodePair(bitC, ct, src, ip, first, second, norm, tableLog);
    if pairs == 2 {
      state1, state2 := EncodePair(bitC, ct, src, ip - 2, state1, state2, norm, tableLog);
    }
    assert bitC.dst[..] == before;
    Flush(bitC, fast, ct, src, ip - 2 * pairs);
    SameThrough(was, before, bitC.dst[..], reach, bitC.reach);
  }

  /** All symbols: a pair first if their number is not a multiple of four, then two pairs in each round. */
  method EncodeAll(bitC: CStream, ct: CTable, src: seq<byte>, fast: bool, ghost norm: seq<int>, ghost tableLog: nat)
    returns (state1: nat, state2: nat)
    requires Ready(norm, tableLog, ct, src) && |src| > 2
    requires Writable(bitC, fast) && bitC.bits == Nothing && bitC.bitPos == 0
    requires fast ==> BitsFit(ct, src, bitC.dst.Length) && Reaches(bitC, ct, src)
    modifies bitC, bitC.dst
    ensures Writable(bitC, fast) && bitC.bitPos <= 7 && (fast ==> Reaches(bitC, ct, src))
    ensures SameFrom(bitC.dst[..], old(bitC.dst[..]), bitC.reach)
    ensures Done(ct, src, 0, state1, state2, bitC.bits)
  {
    hide Encodes, EncodeFrom, CStream.Valid, SameFrom, Writable, Reaches;
    ghost var was := bitC.dst[..];
    var ip: nat;
    ip, state1, state2 := Start(bitC, ct, src, fast, norm, tableLog);
    if (|src| - 2) / 2 % 2 == 1 {
      state1, state2 := EncodeRound(bitC, ct, src, ip, 1, state1, state2, fast, norm, tableLog, was);
      ip := ip - 2;
    }
    while ip > 0
      invariant ip <= |src| - 2 && ip % 4 == 0
      invariant Writable(bitC, fast) && bitC.bitPos <= 7 && (fast ==> Reaches(bitC, ct, src))
      invariant SameFrom(bitC.dst[..], was, bitC.reach)
      invariant Done(ct, src, ip, state1, state2, bitC.bits)
    {
      state1, state2 := EncodeRound(bitC, ct, src, ip, 2, state1, state2, fast, norm, tableLog, was);
      ip := ip - 4;
    }
  }

  method FlushCState(bitC: CStream, ct: CTable, value: nat)
    requires bitC.Valid() && bitC.ptr + 8 <= bitC.dst.Length && bitC.bitPos <= 7 && ct.tableLog < 32
    modifies bitC, bitC.dst
    ensures bitC.Valid() && bitC.ptr <= bitC.endPtr && bitC.ptr + 8 <= bitC.dst.Length && bitC.bitPos <= 7
    ensures bitC.bits == Push(old(bitC.bits), value % Pow2(ct.tableLog), ct.tableLog)
    ensures bitC.reach == Later(old(bitC.reach), old(bitC.ptr) + 8)
    ensures SameFrom(bitC.dst[..], old(bitC.dst[..]), bitC.reach)
  {
    hide CStream.Valid, SameFrom;
    ghost var before := bitC.dst[..];
    bitC.AddBits(value, ct.tableLog);
    assert bitC.dst[..] == before;
    bitC.FlushBits();
    bitC.Placed();
  }

  /** Both states, and the end mark. */
  method Finish(bitC: CStream, ct: CTable, state1: nat, state2: nat, ghost was: seq<byte>) returns (size: nat)
    requires bitC.Valid() && bitC.ptr + 8 <= bitC.dst.Length && bitC.bitPos <= 7 && ct.tableLog < 32
    requires SameFrom(bitC.dst[..], was, bitC.reach)
    modifies bitC, bitC.dst
    ensures bitC.reach <= Later(Later(old(bitC.reach), old(bitC.ptr) + 8), bitC.endPtr + 8)
    ensures bitC.reach >= Later(old(bitC.reach), old(bitC.ptr) + 8)
    ensures SameFrom(bitC.dst[..], was, bitC.reach)
    ensures var full := Pow2(ct.tableLog);
      var b := Push(Push(old(bitC.bits), state2 % full, ct.tableLog), state1 % full, ct.tableLog);
      && (size == 0 <==> (Width(b) + 1) / 8 >= bitC.endPtr)
      && (size > 0 ==> size <= bitC.endPtr + 8 <= bitC.dst.Length && IsStream(bitC.dst[..size], b))
  {
    hide CStream.Valid, SameFrom, IsStream, Width, Pow2;
    ghost var s0, r0 := bitC.dst[..], bitC.reach;
    FlushCState(bitC, ct, state2);
    ghost var s1, r1 := bitC.dst[..], bitC.reach;
    SameThrough(was, s0, s1, r0, r1);
    FlushCState(bitC, ct, state1);
    ghost var s2, r2 := bitC.dst[..], bitC.reach;
    SameThrough(was, s1, s2, r1, r2);
    size := bitC.Close();
    SameThrough(was, s2, bitC.dst[..], r2, bitC.reach);
  }

  /** What is known of the memory after compressing to a buffer of the given capacity. */
  ghost predicate Touched(reach: nat, now: seq<byte>, was: seq<byte>, fast: bool, ct: CTable, src: seq<byte>,
                          capacity: nat)
    requires Usable(ct, src)
  {
    && SameFrom(now, was, reach)
    && (|src| <= 2 || capacity <= 8 ==> reach == 0)
    && (|src| > 2 && capacity > 8 ==> (reach <= capacity <==> !fast || BitsFit(ct, src, capacity)))
  }

  /** Compress with a given table. The result is 0 exactly if the source is too short or the bits do not fit;
      otherwise the bytes written are the stream of the source. Without checks, words are stored behind the buffer
      exactly if the bits of the symbols do not fit; with checks, never. The memory is the array, which the buffer is
      the beginning of. */
  method CompressGeneric(dst: array<byte>, capacity: nat, src: seq<byte>, ct: CTable, fast: bool, ghost norm: seq<int>,
                         ghost tableLog: nat)
    returns (size: nat, ghost reach: nat)
    requires Encodes(norm, tableLog, ct) && Present(src, norm) && Usable(ct, src) && tableLog == ct.tableLog
    requires capacity <= dst.Length && (fast && |src| > 2 ==> BitsFit(ct, src, dst.Length))
    modifies dst
    ensures size == 0 <==> |src| <= 2 || capacity <= 8 || (Width(Stream(ct, src)) + 1) / 8 + 8 >= capacity
    ensures size > 0 ==> size <= capacity && IsStream(dst[..size], Stream(ct, src))
    ensures Touched(reach, dst[..], old(dst[..]), fast, ct, src, capacity)
  {
    hide IsCTable, EncodeFrom, CStream.Valid, SameFrom, IsStream, Pow2;
    ghost var was := dst[..];
    reach := 0;
    SameStill(was, 0);
    if |src| <= 2 {
      return 0, 0;
    }
    if capacity <= 8 {
      return 0, 0;
    }
    var bitC := new CStream(dst, capacity);
    assert dst[..] == was;
    var state1, state2 := EncodeAll(bitC, ct, src, fast, norm, tableLog);
    bitC.Placed();
    ghost var bits, ptr := bitC.bits, bitC.ptr;
    if fast {
      DivideIs(Width(bits), 8, ptr, bitC.bitPos);
    }
    size := Finish(bitC, ct, state1, state2, was);
    reach := bitC.reach;
  }

  /** With at most 8 bits a symbol the bits always fit where the fast way is taken. */
  lemma SmallTablesFit(norm: seq<int>, tableLog: nat, ct: CTable, src: seq<byte>, capacity: nat)
    requires Encodes(norm, tableLog, ct) && Present(src, norm) && Usable(ct, src)
    requires tableLog <= 8 && |src| >= 2 && capacity >= BlockBound(|src|)
    ensures BitsFit(ct, src, capacity)
  {
    EncodeFromOk(norm, tableLog, ct, src, 0);
    AtMostEight(tableLog, |src| - 2);
  }

  lemma AtMostEight(a: nat, n: nat)
    requires a <= 8
    ensures a * n <= 8 * n
  {
  }

  /** Compress, without checks for the end of the output if that is taken to be large enough. */
  method Compress(dst: array<byte>, capacity: nat, src: seq<byte>, ct: CTable, ghost norm: seq<int>,
                  ghost tableLog: nat)
    returns (size: nat, ghost reach: nat)
    requires Encodes(norm, tableLog, ct) && Present(src, norm) && Usable(ct, src) && tableLog == ct.tableLog
    requires capacity <= dst.Length && (Unchecked(src, capacity) ==> BitsFit(ct, src, dst.Length))
    modifies dst
    ensures size == 0 <==> |src| <= 2 || capacity <= 8 || (Width(Stream(ct, src)) + 1) / 8 + 8 >= capacity
    ensures size > 0 ==> size <= capacity && IsStream(dst[..size], Stream(ct, src))
    ensures SameFrom(dst[..], old(dst[..]), reach)
    ensures reach <= capacity <==> !Unchecked(src, capacity) || BitsFit(ct, src, capacity)
  {
    hide SameFrom, EncodeFrom, IsStream, IsCTable, Pow2;
    var fast := capacity >= BlockBound(|src|);
    if fast {
      size, reach := CompressGeneric(dst, capacity, src, ct, true, norm, tableLog);
    } else {
      size, reach := CompressGeneric(dst, capacity, src, ct, false, norm, tableLog);
    }
  }

  /** The output is written without checks. */
  ghost predicate Unchecked(src: seq<byte>, capacity: nat) {
    |src| > 2 && capacity >= BlockBound(|src|)
  }

  // ----- Tables of more than 8 bits -----

  /** Every symbol with a single state costs as many bits as the table has. */
  lemma RareSymbol(norm: seq<int>, tableLog: nat, ct: CTable, s: nat, x: nat)
    requires Encodes(norm, tableLog, ct) && s < |norm| && (norm[s] == 1 || norm[s] == -1) && InRange(x, Pow2(tableLog))
    ensures BitsOut(ct, s, x) == tableLog
  {
    hide IsCTable, Normalized, Pow2;
    var nb, y := StepIndex(norm, tableLog, ct, s, x);
    assert y == 1 && HighBit(1) == 0;
  }

  lemma {:induction false} RareWidth(norm: seq<int>, tableLog: nat, ct: CTable, src: seq<byte>, i: nat)
    requires Encodes(norm, tableLog, ct) && Present(src, norm) && Usable(ct, src) && i + 2 <= |src|
    requires forall k :: 0 <= k < |src| ==> norm[src[k]] == 1 || norm[src[k]] == -1
    ensures Width(EncodeFrom(ct, src, i).bits) == tableLog * (|src| - 2 - i)
    decreases |src| - i
  {
    hide Pow2, Usable, IsCTable, Normalized;
    if i + 2 < |src| {
      RareWidth(norm, tableLog, ct, src, i + 1);
      EncodeFromOk(norm, tableLog, ct, src, i + 1);
      RareSymbol(norm, tableLog, ct, src[i], StateOf(EncodeFrom(ct, src, i + 1), i));
      OneMore(tableLog, |src| - 3 - i);
    }
  }

  /** A distribution with all but one state given to symbol 0. */
  function Lopsided(tableLog: nat): seq<int> {
    [Pow2(tableLog) - 1, 1]
  }

  lemma LopsidedIsNormalized(tableLog: nat)
    requires MIN_TABLELOG <= tableLog <= MAX_TABLELOG
    ensures Normalized(Lopsided(tableLog), tableLog)
  {
    var norm := Lopsided(tableLog);
    Pow2Monotone(1, tableLog);
    assert StatesBefore(norm, 0) == 0;
    assert StatesBefore(norm, 1) == Pow2(tableLog) - 1;
    assert StatesBefore(norm, 2) == Pow2(tableLog);
  }

  function RareSource(): (src: seq<byte>)
    ensures |src| == 128 && forall k :: 0 <= k < 128 ==> src[k] == 1
  {
    seq(128, i => 1)
  }

  /** With more than 8 bits that is not so: the output is taken to fit, and its bits do not. For a table of 9 bits, the
      counts are 511 and 1, and 128 times symbol 1 is compressed into 141 bytes. */
  lemma LargeTablesNeedNotFit(tableLog: nat, ct: CTable)
    requires 9 <= tableLog <= MAX_TABLELOG && Normalized(Lopsided(tableLog), tableLog)
    requires Encodes(Lopsided(tableLog), tableLog, ct) && Usable(ct, RareSource())
    ensures Present(RareSource(), Lopsided(tableLog)) && BlockBound(128) == 141
    ensures Unchecked(RareSource(), 141) && !BitsFit(ct, RareSource(), 141)
  {
    hide IsCTable, Normalized, EncodeFrom;
    var norm, src := Lopsided(tableLog), RareSource();
    RareWidth(norm, tableLog, ct, src, 0);
    assert tableLog * 126 >= 9 * 126;
  }

  /** The size of the table is what a caller can go by: outputs that are not checked all fit if and only if it has at
      most 8 bits. */
  ghost predicate AlwaysFits(tableLog: nat) {
    forall norm, ct, src, capacity :: FitsIfUnchecked(norm, tableLog, ct, src, capacity)
  }

  ghost predicate FitsIfUnchecked(norm: seq<int>, tableLog: nat, ct: CTable, src: seq<byte>, capacity: nat) {
    Encodes(norm, tableLog, ct) && Present(src, norm) && Usable(ct, src) && Unchecked(src, capacity) ==>
      BitsFit(ct, src, capacity)
  }

  lemma FitsExactly(tableLog: nat, ct: CTable)
    requires MIN_TABLELOG <= tableLog <= MAX_TABLELOG && Encodes(Lopsided(tableLog), tableLog, ct)
    ensures AlwaysFits(tableLog) <==> tableLog <= 8
  {
    hide IsCTable, EncodeFrom, Normalized, BitsFit;
    if tableLog <= 8 {
      forall norm, other, src, capacity ensures FitsIfUnchecked(norm, tableLog, other, src, capacity) {
        if Encodes(norm, tableLog, other) && Present(src, norm) && Usable(other, src) && Unchecked(src, capacity) {
          SmallTablesFit(norm, tableLog, other, src, capacity);
        }
      }
    } else {
      LopsidedIsNormalized(tableLog);
      LopsidedIsPresent(tableLog);
      UsableTable(Lopsided(tableLog), tableLog, ct, RareSource());
      LargeTablesNeedNotFit(tableLog, ct);
      assert !FitsIfUnchecked(Lopsided(tableLog), tableLog, ct, RareSource(), 141);
    }
  }

  lemma LopsidedIsPresent(tableLog: nat)
    ensures Present(RareSource(), Lopsided(tableLog))
  {
  }
}
