/** What the two interleaved encoders put on the bit stream, and that the decoders take it off again. */
module FseCodec {
  import opened ByteType
  import opened Pow2Lemmas
  import opened BitStream
  import opened FseNorm
  import opened FseTables

  /** The states of the two encoders, and the bits written. */
  datatype Coded = Coded(state1: nat, state2: nat, bits: Bits)

  /** Symbols at even places belong to the first encoder. */
  function StateOf(c: Coded, i: nat): nat {
    if i % 2 == 0 then c.state1 else c.state2
  }

  ghost function WithState(c: Coded, i: nat, x: nat, bits: Bits): Coded {
    if i % 2 == 0 then Coded(x, c.state2, bits) else Coded(c.state1, x, bits)
  }

  function Lookup(ct: CTable, index: int): nat {
    if 0 <= index < |ct.stateTable| then ct.stateTable[index] else 0
  }

  ghost predicate Usable(ct: CTable, src: seq<byte>) {
    |ct.deltaNbBits| == |ct.deltaFindState| && forall k :: 0 <= k < |src| ==> src[k] < |ct.deltaNbBits|
  }

  ghost function FirstOf(ct: CTable, s: nat): nat
    requires s < |ct.deltaNbBits| == |ct.deltaFindState|
  {
    if FirstBits(ct, s) * 0x10000 >= ct.deltaNbBits[s] then Lookup(ct, FirstIndex(ct, s)) else 0
  }

  ghost function Encode(ct: CTable, c: Coded, i: nat, s: nat): Coded
    requires s < |ct.deltaNbBits| == |ct.deltaFindState|
  {
    var x := StateOf(c, i);
    var nb := BitsOut(ct, s, x);
    WithState(c, i, Lookup(ct, StateIndex(ct, s, x)), Push(c.bits, x % Pow2(nb), nb))
  }

  /** The states and bits once the symbols from place `i` on are encoded, the last ones first. */
  ghost function EncodeFrom(ct: CTable, src: seq<byte>, i: nat): Coded
    requires Usable(ct, src) && |src| >= 2
    decreases |src| - i
  {
    var n := |src|;
    if i >= n - 2 then
      WithState(WithState(Coded(0, 0, Nothing), n - 1, FirstOf(ct, src[n - 1]), Nothing),
                n - 2, FirstOf(ct, src[n - 2]), Nothing)
    else
      Encode(ct, EncodeFrom(ct, src, i + 1), i, src[i])
  }

  /** All that is written: the bits of the symbols, and then the two states. */
  ghost function Stream(ct: CTable, src: seq<byte>): Bits
    requires Usable(ct, src) && |src| >= 2
  {
    var c := EncodeFrom(ct, src, 0);
    var full := Pow2(ct.tableLog);
    Push(Push(c.bits, c.state2 % full, ct.tableLog), c.state1 % full, ct.tableLog)
  }

  // ----- The decoder undoes the encoder -----

  /** Every symbol of the source is in the distribution. */
  ghost predicate Present(src: seq<byte>, norm: seq<int>) {
    forall k :: 0 <= k < |src| ==> src[k] < |norm| && norm[src[k]] != 0
  }

  /** No symbol has the whole table. */
  ghost predicate NotSingle(norm: seq<int>, tableLog: nat)
    requires Normalized(norm, tableLog)
  {
    forall s :: 0 <= s < |norm| ==> Frequency(norm[s]) < Pow2(tableLog)
  }

  ghost predicate Encodes(norm: seq<int>, tableLog: nat, ct: CTable) {
    Normalized(norm, tableLog) && IsCTable(ct, norm, tableLog)
  }

  ghost predicate Tables(norm: seq<int>, tableLog: nat, ct: CTable, dt: DTable) {
    Encodes(norm, tableLog, ct) && IsDTable(dt, norm, tableLog)
  }

  ghost predicate InRange(x: nat, tableSize: nat) {
    tableSize <= x < 2 * tableSize
  }

  ghost predicate CodedOk(c: Coded, tableLog: nat, count: nat) {
    && InRange(c.state1, Pow2(tableLog)) && InRange(c.state2, Pow2(tableLog))
    && Clean(c.bits) && Width(c.bits) <= tableLog * count
  }

  lemma UsableTable(norm: seq<int>, tableLog: nat, ct: CTable, src: seq<byte>)
    requires Encodes(norm, tableLog, ct) && Present(src, norm)
    ensures Usable(ct, src) && ct.tableLog == tableLog
  {
  }

  /** The cell of the decoding table for a state of the encoder. */
  function CellFor(dt: DTable, x: nat, tableSize: nat): DCell {
    if 0 <= x - tableSize < |dt.cells| then dt.cells[x - tableSize] else DCell(0, 0, 0)
  }

  lemma FirstDecodes(norm: seq<int>, tableLog: nat, ct: CTable, dt: DTable, s: nat)
    requires Tables(norm, tableLog, ct, dt) && s < |norm| && norm[s] != 0
    requires s < |ct.deltaNbBits| == |ct.deltaFindState|
    ensures CellFor(dt, FirstOf(ct, s), Pow2(tableLog)).symbol == s
    ensures NotSingle(norm, tableLog) ==> CellFor(dt, FirstOf(ct, s), Pow2(tableLog)).nbBits > 0
  {
    hide Normalized, IsCTable, IsDTable;
    FirstState(norm, tableLog, ct, dt, s);
    TableLength(norm, tableLog, dt);
  }

  lemma FirstInRange(norm: seq<int>, tableLog: nat, ct: CTable, s: nat)
    requires Encodes(norm, tableLog, ct) && s < |norm| && norm[s] != 0
    requires s < |ct.deltaNbBits| == |ct.deltaFindState|
    ensures InRange(FirstOf(ct, s), Pow2(tableLog))
  {
    FirstForward(norm, tableLog, ct, s);
  }

  /** From the cell of `c` the decoder gets symbol `s`, and with the top of the bits goes back to `d`. */
  ghost predicate Undone(c: Coded, d: Coded, cell: DCell, i: nat, s: nat, tableSize: nat) {
    && cell.symbol == s
    && c.bits.Push? && c.bits.below == d.bits && cell.nbBits == c.bits.width
    && cell.newState + c.bits.value + tableSize == StateOf(d, i)
    && StateOf(c, i + 1) == StateOf(d, i + 1)
  }

  lemma OneMore(tableLog: nat, count: nat)
    ensures tableLog * (count + 1) == tableLog * count + tableLog
  {
  }

  lemma EncodeKeeps(norm: seq<int>, tableLog: nat, ct: CTable, d: Coded, i: nat, s: nat, count: nat)
    requires Encodes(norm, tableLog, ct) && s < |norm| && norm[s] != 0 && CodedOk(d, tableLog, count)
    requires s < |ct.deltaNbBits| == |ct.deltaFindState|
    ensures CodedOk(Encode(ct, d, i, s), tableLog, count + 1)
  {
    hide Normalized, IsCTable;
    StepForward(norm, tableLog, ct, s, StateOf(d, i));
    OneMore(tableLog, count);
  }

  lemma EncodeUndone(norm: seq<int>, tableLog: nat, ct: CTable, dt: DTable, d: Coded, i: nat, s: nat)
    requires Tables(norm, tableLog, ct, dt) && s < |norm| && norm[s] != 0
    requires InRange(d.state1, Pow2(tableLog)) && InRange(d.state2, Pow2(tableLog))
    requires s < |ct.deltaNbBits| == |ct.deltaFindState|
    ensures Undone(Encode(ct, d, i, s), d, CellFor(dt, StateOf(Encode(ct, d, i, s), i), Pow2(tableLog)), i, s,
                   Pow2(tableLog))
  {
    hide Normalized, IsCTable, IsDTable;
    var u, nb := StepInverts(norm, tableLog, ct, dt, s, StateOf(d, i));
    TableLength(norm, tableLog, dt);
  }

  lemma TableLength(norm: seq<int>, tableLog: nat, dt: DTable)
    requires Normalized(norm, tableLog) && IsDTable(dt, norm, tableLog)
    ensures |dt.cells| == Pow2(tableLog)
  {
  }

  lemma {:induction false} EncodeFromOk(norm: seq<int>, tableLog: nat, ct: CTable, src: seq<byte>, i: nat)
    requires Encodes(norm, tableLog, ct) && Present(src, norm) && 2 <= |src| && i <= |src| - 2
    requires Usable(ct, src)
    ensures CodedOk(EncodeFrom(ct, src, i), tableLog, |src| - 2 - i)
    decreases |src| - i
  {
    hide Encodes, Encode, FirstOf;
    if i == |src| - 2 {
      FirstInRange(norm, tableLog, ct, src[|src| - 1]);
      FirstInRange(norm, tableLog, ct, src[|src| - 2]);
    } else {
      EncodeFromOk(norm, tableLog, ct, src, i + 1);
      EncodeKeeps(norm, tableLog, ct, EncodeFrom(ct, src, i + 1), i, src[i], |src| - 3 - i);
    }
  }

  /** The decoder undoes every step of the encoder. */
  lemma DecodeStep(norm: seq<int>, tableLog: nat, ct: CTable, dt: DTable, src: seq<byte>, i: nat)
    requires Tables(norm, tableLog, ct, dt) && Present(src, norm) && i + 2 < |src| && Usable(ct, src)
    ensures CodedOk(EncodeFrom(ct, src, i), tableLog, |src| - 2 - i)
    ensures CodedOk(EncodeFrom(ct, src, i + 1), tableLog, |src| - 3 - i)
    ensures Undone(EncodeFrom(ct, src, i), EncodeFrom(ct, src, i + 1),
                   CellFor(dt, StateOf(EncodeFrom(ct, src, i), i), Pow2(tableLog)), i, src[i], Pow2(tableLog))
  {
    hide Encodes, IsDTable, Encode, CellFor;
    EncodeFromOk(norm, tableLog, ct, src, i);
    EncodeFromOk(norm, tableLog, ct, src, i + 1);
    EncodeUndone(norm, tableLog, ct, dt, EncodeFrom(ct, src, i + 1), i, src[i]);
  }

  /** The last two symbols are in the states; after them no bits are left, and the decoder asks for some. */
  lemma DecodeLast(norm: seq<int>, tableLog: nat, ct: CTable, dt: DTable, src: seq<byte>)
    requires Tables(norm, tableLog, ct, dt) && Present(src, norm) && |src| >= 2 && Usable(ct, src)
    ensures EncodeFrom(ct, src, |src| - 2).bits == Nothing
    ensures CodedOk(EncodeFrom(ct, src, |src| - 2), tableLog, 0)
    ensures CellFor(dt, StateOf(EncodeFrom(ct, src, |src| - 2), |src| - 2), Pow2(tableLog)).symbol == src[|src| - 2]
    ensures CellFor(dt, StateOf(EncodeFrom(ct, src, |src| - 2), |src| - 1), Pow2(tableLog)).symbol == src[|src| - 1]
    ensures NotSingle(norm, tableLog) ==>
      CellFor(dt, StateOf(EncodeFrom(ct, src, |src| - 2), |src| - 2), Pow2(tableLog)).nbBits > 0
  {
    hide Encodes, IsDTable, FirstOf, NotSingle, CellFor;
    EncodeFromOk(norm, tableLog, ct, src, |src| - 2);
    FirstDecodes(norm, tableLog, ct, dt, src[|src| - 1]);
    FirstDecodes(norm, tableLog, ct, dt, src[|src| - 2]);
  }

  lemma {:induction false} WidthGrows(ct: CTable, src: seq<byte>, i: nat)
    requires Usable(ct, src) && 2 <= |src| && i <= |src| - 2
    ensures Width(EncodeFrom(ct, src, i).bits) <= Width(EncodeFrom(ct, src, 0).bits)
    decreases i
  {
    if i > 0 {
      WidthGrows(ct, src, i - 1);
    }
  }
}
