/** Decompressing with a decoding table: two interleaved decoders on one bit stream. */
module FseDecoder {
  import opened ByteType
  import opened Pow2Lemmas
  import opened BitArithmetic
  import opened Bytes
  import opened BitStream
  import opened FseNorm
  import opened FseTables
  import opened FseCodec

  datatype Result = Decoded(size: nat) | Corrupted | TooSmall

  /** A source, and the tables it is encoded and decoded with. */
  datatype Origin = Origin(norm: seq<int>, tableLog: nat, ct: CTable, src: seq<byte>)

  ghost predicate Decodes(norm: seq<int>, tableLog: nat, dt: DTable) {
    Normalized(norm, tableLog) && IsDTable(dt, norm, tableLog)
  }

  ghost predicate Fair(g: Origin, dt: DTable) {
    && Tables(g.norm, g.tableLog, g.ct, dt) && NotSingle(g.norm, g.tableLog)
    && Present(g.src, g.norm) && Usable(g.ct, g.src) && |g.src| > 2
    && g.tableLog <= MAX_TABLELOG && g.ct.tableLog == g.tableLog
  }

  /** The decoders are where the encoders were when they had done the symbols from place `i` on: `t` is the stream and
      `left` the number of bits still to be read. */
  ghost predicate Synced(g: Origin, t: nat, left: int, state1: nat, state2: nat, i: nat)
    requires Usable(g.ct, g.src) && |g.src| >= 2
  {
    var c := EncodeFrom(g.ct, g.src, i);
    && i + 2 <= |g.src|
    && state1 + Pow2(g.tableLog) == c.state1 && state2 + Pow2(g.tableLog) == c.state2
    && left == Width(c.bits) && Holds(t, c.bits)
  }

  /** So many bits, in the register. */
  ghost predicate Room(bitD: DStream)
    reads bitD
  {
    bitD.Valid() && bitD.ptr != ELSEWHERE && (bitD.bitsConsumed <= 52 || bitD.ptr == 0)
  }

  method DecodeSymbol(bitD: DStream, dt: DTable, state: nat, fast: bool, ghost norm: seq<int>, ghost tableLog: nat)
    returns (symbol: byte, next: nat)
    requires Decodes(norm, tableLog, dt) && state < Pow2(tableLog) == |dt.cells| && tableLog <= MAX_TABLELOG
    requires |norm| <= 256 && bitD.Valid() && (fast ==> dt.fastMode)
    modifies bitD`bitsConsumed
    ensures bitD.Valid() && next < Pow2(tableLog) && symbol == dt.cells[state].symbol
    ensures bitD.bitsConsumed == old(bitD.bitsConsumed) + dt.cells[state].nbBits && dt.cells[state].nbBits <= tableLog
    ensures bitD.ptr != ELSEWHERE && bitD.bitsConsumed <= 64 ==>
      next == dt.cells[state].newState + Field(LittleEndian(bitD.src), bitD.Remaining(), dt.cells[state].nbBits)
  {
    hide Normalized, IsDTable, DStream.Valid;
    CellRange(dt, norm, tableLog, state);
    var cell := dt.cells[state];
    var lowBits;
    if fast {
      lowBits := bitD.ReadBitsFast(cell.nbBits);
    } else {
      lowBits := bitD.ReadBits(cell.nbBits);
    }
    symbol := cell.symbol;
    next := cell.newState + lowBits;
  }

  lemma SyncedStep(g: Origin, dt: DTable, t: nat, left: int, state1: nat, state2: nat, i: nat, next: nat)
    requires Fair(g, dt) && i + 2 < |g.src| && Synced(g, t, left, state1, state2, i)
    requires var cell := CellFor(dt, (if i % 2 == 0 then state1 else state2) + Pow2(g.tableLog), Pow2(g.tableLog));
      left >= cell.nbBits ==> next == cell.newState + Field(t, left - cell.nbBits, cell.nbBits)
    ensures var cell := CellFor(dt, (if i % 2 == 0 then state1 else state2) + Pow2(g.tableLog), Pow2(g.tableLog));
      && cell.nbBits <= left && cell.symbol == g.src[i]
      && Synced(g, t, left - cell.nbBits, if i % 2 == 0 then next else state1, if i % 2 == 0 then state2 else next,
                i + 1)
  {
    hide Encodes, IsDTable, NotSingle, EncodeFrom;
    DecodeStep(g.norm, g.tableLog, g.ct, dt, g.src, i);
    Pop(t, EncodeFrom(g.ct, g.src, i).bits);
  }

  /** What the decoder knows at place `i`: its states are in the table, and if the stream is that of `g`, it is where
      the encoder was. */
  ghost predicate At(good: bool, g: Origin, bitD: DStream, dt: DTable, tableLog: nat, state1: nat, state2: nat, i: nat)
    reads bitD
  {
    && bitD.Valid() && state1 < Pow2(tableLog) && state2 < Pow2(tableLog)
    && (good ==>
          && Fair(g, dt) && g.tableLog == tableLog && bitD.ptr != ELSEWHERE
          && Synced(g, LittleEndian(bitD.src), bitD.Remaining(), state1, state2, i))
  }

  /** The symbol of the first decoder, at an even place. */
  method DecodeEven(bitD: DStream, dt: DTable, state1: nat, state2: nat, fast: bool, ghost norm: seq<int>,
                    ghost tableLog: nat, ghost good: bool, ghost g: Origin, ghost i: nat)
    returns (symbol: byte, next: nat)
    requires Decodes(norm, tableLog, dt) && Pow2(tableLog) == |dt.cells| && tableLog <= MAX_TABLELOG && |norm| <= 256
    requires (fast ==> dt.fastMode) && At(good, g, bitD, dt, tableLog, state1, state2, i)
    requires good ==> Room(bitD) && i % 2 == 0 && i + 2 < |g.src|
    modifies bitD`bitsConsumed
    ensures At(good, g, bitD, dt, tableLog, next, state2, i + 1) && symbol == dt.cells[state1].symbol
    ensures bitD.bitsConsumed == old(bitD.bitsConsumed) + dt.cells[state1].nbBits <= old(bitD.bitsConsumed) + 12
    ensures good ==> symbol == g.src[i] && bitD.bitsConsumed <= 64
  {
    hide DStream.Valid;
    hide Fair, Decodes, Synced;
    ghost var t, left := LittleEndian(bitD.src), bitD.Remaining();
    symbol, next := DecodeSymbol(bitD, dt, state1, fast, norm, tableLog);
    if good {
      SyncedStep(g, dt, t, left, state1, state2, i, next);
    }
  }

  /** The symbol of the second decoder, at an odd place. */
  method DecodeOdd(bitD: DStream, dt: DTable, state1: nat, state2: nat, fast: bool, ghost norm: seq<int>,
                   ghost tableLog: nat, ghost good: bool, ghost g: Origin, ghost i: nat)
    returns (symbol: byte, next: nat)
    requires Decodes(norm, tableLog, dt) && Pow2(tableLog) == |dt.cells| && tableLog <= MAX_TABLELOG && |norm| <= 256
    requires (fast ==> dt.fastMode) && At(good, g, bitD, dt, tableLog, state1, state2, i)
    requires good ==> Room(bitD) && i % 2 == 1 && i + 2 < |g.src|
    modifies bitD`bitsConsumed
    ensures At(good, g, bitD, dt, tableLog, state1, next, i + 1) && symbol == dt.cells[state2].symbol
    ensures bitD.bitsConsumed == old(bitD.bitsConsumed) + dt.cells[state2].nbBits <= old(bitD.bitsConsumed) + 12
    ensures good ==> symbol == g.src[i] && bitD.bitsConsumed <= 64
  {
    hide Fair, Decodes, Synced;
    ghost var t, left := LittleEndian(bitD.src), bitD.Remaining();
    symbol, next := DecodeSymbol(bitD, dt, state2, fast, norm, tableLog);
    if good {
      SyncedStep(g, dt, t, left, state1, state2, i, next);
    }
  }

  /** Refilling the register changes nothing. */
  method Refill(bitD: DStream, ghost dt: DTable, ghost tableLog: nat, state1: nat, state2: nat, ghost good: bool,
                ghost g: Origin, ghost i: nat)
    returns (status: Status)
    requires At(good, g, bitD, dt, tableLog, state1, state2, i)
    modifies bitD
    ensures status == Overflow <==> old(bitD.bitsConsumed) > 64
    ensures At(good && status != Overflow, g, bitD, dt, tableLog, state1, state2, i)
    ensures status != Overflow ==> Room(bitD) && bitD.bitsConsumed <= 64
    ensures status == Unfinished ==> bitD.bitsConsumed <= 7 && bitD.Remaining() >= 57
  {
    hide Fair, Synced;
    status := bitD.Reload();
  }

  /** A full register is enough for four symbols, and there are that many before the last two. */
  lemma FullRegister(g: Origin, dt: DTable, t: nat, left: int, state1: nat, state2: nat, i: nat)
    requires Fair(g, dt) && Synced(g, t, left, state1, state2, i) && left >= 57
    ensures i + 6 <= |g.src|
  {
    hide IsCTable, IsDTable, NotSingle, EncodeFrom;
    EncodeFromOk(g.norm, g.tableLog, g.ct, g.src, i);
    AtMostTwelve(g.tableLog, |g.src| - 2 - i);
  }

  lemma AtMostTwelve(a: nat, n: nat)
    requires a <= 12
    ensures a * n <= 12 * n
  {
  }

  method DecodeFour(bitD: DStream, dt: DTable, dst: array<byte>, op: nat, state1: nat, state2: nat, fast: bool,
                    ghost norm: seq<int>, ghost tableLog: nat, ghost good: bool, ghost g: Origin)
    returns (next1: nat, next2: nat)
    requires Decodes(norm, tableLog, dt) && Pow2(tableLog) == |dt.cells| && tableLog <= MAX_TABLELOG && |norm| <= 256
    requires (fast ==> dt.fastMode) && At(good, g, bitD, dt, tableLog, state1, state2, op) && op % 2 == 0
    requires bitD.bitsConsumed <= 7 && op + 4 <= dst.Length && (good ==> op + 6 <= |g.src|)
    modifies bitD`bitsConsumed, dst
    ensures At(good, g, bitD, dt, tableLog, next1, next2, op + 4) && bitD.bitsConsumed <= 55
    ensures forall j :: 0 <= j < dst.Length && !(op <= j < op + 4) ==> dst[j] == old(dst[j])
    ensures good ==> forall j :: op <= j < op + 4 ==> dst[j] == g.src[j]
  {
    hide Fair, Decodes, Synced, DStream.Valid;
    var a, b, c, d;
    a, next1 := DecodeEven(bitD, dt, state1, state2, fast, norm, tableLog, good, g, op);
    dst[op] := a;
    b, next2 := DecodeOdd(bitD, dt, next1, state2, fast, norm, tableLog, good, g, op + 1);
    dst[op + 1] := b;
    c, next1 := DecodeEven(bitD, dt, next1, next2, fast, norm, tableLog, good, g, op + 2);
    dst[op + 2] := c;
    d, next2 := DecodeOdd(bitD, dt, next1, next2, fast, norm, tableLog, good, g, op + 3);
    dst[op + 3] := d;
  }

  /** At the last place but one all bits are read, the next symbol asks for more, and the last one is in the other
      decoder. */
  lemma LastTwo(g: Origin, dt: DTable, t: nat, left: int, state1: nat, state2: nat, i: nat)
    requires Fair(g, dt) && Synced(g, t, left, state1, state2, i) && i + 2 >= |g.src|
    requires |dt.cells| == Pow2(g.tableLog) && state1 < |dt.cells| && state2 < |dt.cells|
    ensures left == 0 && i + 2 == |g.src|
    ensures var mine, other := (if i % 2 == 0 then state1 else state2), (if i % 2 == 0 then state2 else state1);
      dt.cells[mine].symbol == g.src[i] && dt.cells[mine].nbBits > 0 && dt.cells[other].symbol == g.src[i + 1]
  {
    hide Encodes, IsDTable, NotSingle, EncodeFrom;
    DecodeLast(g.norm, g.tableLog, g.ct, dt, g.src);
  }

  /** One symbol of the first decoder, near the end of the stream: after the last place but one the stream has
      overflowed. */
  method TailEven(bitD: DStream, dt: DTable, state1: nat, state2: nat, fast: bool, ghost norm: seq<int>,
                  ghost tableLog: nat, ghost good: bool, ghost g: Origin, ghost i: nat)
    returns (symbol: byte, next: nat, over: bool)
    requires Decodes(norm, tableLog, dt) && Pow2(tableLog) == |dt.cells| && tableLog <= MAX_TABLELOG && |norm| <= 256
    requires (fast ==> dt.fastMode) && At(good, g, bitD, dt, tableLog, state1, state2, i)
    requires good ==> Room(bitD) && i % 2 == 0
    modifies bitD
    ensures At(good && !over, g, bitD, dt, tableLog, next, state2, i + 1) && (!over ==> Room(bitD))
    ensures good ==> symbol == g.src[i] && (over <==> i + 2 == |g.src|)
    ensures good && over ==> dt.cells[state2].symbol == g.src[i + 1]
  {
    hide Fair, Decodes, Synced;
    ghost var within := good && i + 2 < |g.src|;
    if good && !within {
      LastTwo(g, dt, LittleEndian(bitD.src), bitD.Remaining(), state1, state2, i);
    }
    symbol, next := DecodeEven(bitD, dt, state1, state2, fast, norm, tableLog, within, g, i);
    var status := Refill(bitD, dt, tableLog, next, state2, within, g, i + 1);
    over := status == Overflow;
  }

  lemma PlaceFits(g: Origin, dt: DTable, t: nat, left: int, state1: nat, state2: nat, i: nat)
    requires Fair(g, dt) && Synced(g, t, left, state1, state2, i)
    ensures i + 2 <= |g.src|
  {
    hide Tables, NotSingle, EncodeFrom;
  }

  /** The same for the second decoder. */
  method TailOdd(bitD: DStream, dt: DTable, state1: nat, state2: nat, fast: bool, ghost norm: seq<int>,
                 ghost tableLog: nat, ghost good: bool, ghost g: Origin, ghost i: nat)
    returns (symbol: byte, next: nat, over: bool)
    requires Decodes(norm, tableLog, dt) && Pow2(tableLog) == |dt.cells| && tableLog <= MAX_TABLELOG && |norm| <= 256
    requires (fast ==> dt.fastMode) && At(good, g, bitD, dt, tableLog, state1, state2, i)
    requires good ==> Room(bitD) && i % 2 == 1
    modifies bitD
    ensures At(good && !over, g, bitD, dt, tableLog, state1, next, i + 1) && (!over ==> Room(bitD))
    ensures good ==> symbol == g.src[i] && (over <==> i + 2 == |g.src|)
    ensures good && over ==> dt.cells[state1].symbol == g.src[i + 1]
  {
    hide Fair, Decodes, Synced;
    ghost var within := good && i + 2 < |g.src|;
    if good && !within {
      LastTwo(g, dt, LittleEndian(bitD.src), bitD.Remaining(), state1, state2, i);
    }
    symbol, next := DecodeOdd(bitD, dt, state1, state2, fast, norm, tableLog, within, g, i);
    var status := Refill(bitD, dt, tableLog, state1, next, within, g, i + 1);
    over := status == Overflow;
  }

  /** The symbols one by one, until the stream overflows; one more is then in the other decoder. */
  method DecodeTail(bitD: DStream, dt: DTable, dst: array<byte>, start: nat, first: nat, second: nat, fast: bool,
                    ghost norm: seq<int>, ghost tableLog: nat, ghost good: bool, ghost g: Origin)
    returns (r: Result)
    requires Decodes(norm, tableLog, dt) && Pow2(tableLog) == |dt.cells| && tableLog <= MAX_TABLELOG && |norm| <= 256
    requires (fast ==> dt.fastMode) && At(good, g, bitD, dt, tableLog, first, second, start)
    requires (good ==> Room(bitD)) && start % 2 == 0 && start <= dst.Length
    modifies bitD, dst
    ensures r != Corrupted && (r.Decoded? ==> r.size <= dst.Length)
    ensures forall j :: 0 <= j < start ==> dst[j] == old(dst[j])
    ensures good ==> r == if dst.Length >= |g.src| then Decoded(|g.src|) else TooSmall
    ensures good && r.Decoded? ==> forall j :: start <= j < |g.src| ==> dst[j] == g.src[j]
  {
    hide Pow2;
    hide Fair, Decodes, Synced, DStream.Valid;
    var op, state1, state2 := start, first, second;
    if good {
      PlaceFits(g, dt, LittleEndian(bitD.src), bitD.Remaining(), state1, state2, op);
    }
    while true
      invariant start <= op <= dst.Length && op % 2 == 0
      invariant At(good, g, bitD, dt, tableLog, state1, state2, op)
      invariant good ==> Room(bitD) && op + 2 <= |g.src|
      invariant forall j :: 0 <= j < start ==> dst[j] == old(dst[j])
      invariant good ==> forall j :: start <= j < op ==> dst[j] == g.src[j]
      decreases dst.Length - op
    {
      var symbol, over;
      if op + 2 > dst.Length {
        return TooSmall;
      }
      symbol, state1, over := TailEven(bitD, dt, state1, state2, fast, norm, tableLog, good, g, op);
      dst[op] := symbol;
      if over {
        symbol, state2 := DecodeOdd(bitD, dt, state1, state2, fast, norm, tableLog, false, g, op + 1);
        dst[op + 1] := symbol;
        return Decoded(op + 2);
      }
      if op + 3 > dst.Length {
        return TooSmall;
      }
      symbol, state2, over := TailOdd(bitD, dt, state1, state2, fast, norm, tableLog, good, g, op + 1);
      dst[op + 1] := symbol;
      if over {
        symbol, state1 := DecodeEven(bitD, dt, state1, state2, fast, norm, tableLog, false, g, op + 2);
        dst[op + 2] := symbol;
        return Decoded(op + 3);
      }
      op := op + 2;
    }
  }

  /** The initial state of a decoder is the field on top of the stream. */
  method InitDState(bitD: DStream, tableLog: nat, ghost good: bool, ghost b: Bits) returns (state: nat)
    requires bitD.Valid() && tableLog <= MAX_TABLELOG
    requires good ==> Room(bitD) && b.Push? && b.width == tableLog && Clean(b)
    requires good ==> Holds(LittleEndian(bitD.src), b) && bitD.Remaining() == Width(b)
    modifies bitD
    ensures bitD.Valid() && bitD.src == old(bitD.src) && state < Pow2(tableLog)
    ensures good ==> Room(bitD) && bitD.bitsConsumed <= 64 && state == b.value
    ensures good ==> Holds(LittleEndian(bitD.src), b.below) && bitD.Remaining() == Width(b.below)
  {
    if good {
      Pop(LittleEndian(bitD.src), b);
    }
    state := bitD.ReadBits(tableLog);
    var status := bitD.Reload();
  }

  lemma StreamStarts(g: Origin, dt: DTable, t: nat, state1: nat, state2: nat)
    requires Fair(g, dt) && Stream(g.ct, g.src).below.below == EncodeFrom(g.ct, g.src, 0).bits
    requires state1 == Stream(g.ct, g.src).value && state2 == Stream(g.ct, g.src).below.value
    requires Holds(t, EncodeFrom(g.ct, g.src, 0).bits)
    ensures Synced(g, t, Width(EncodeFrom(g.ct, g.src, 0).bits), state1, state2, 0)
  {
    hide IsCTable, IsDTable, NotSingle, EncodeFrom;
    EncodeFromOk(g.norm, g.tableLog, g.ct, g.src, 0);
    var c := EncodeFrom(g.ct, g.src, 0);
    StateModulo(c.state1, Pow2(g.tableLog));
    StateModulo(c.state2, Pow2(g.tableLog));
  }

  lemma StateModulo(x: nat, n: nat)
    requires InRange(x, n)
    ensures n > 0 && x % n == x - n
  {
    DivideIs(x, n, 1, x - n);
  }

  /** The bytes are what encoding the source writes. */
  ghost predicate IsEncoded(cSrc: seq<byte>, g: Origin, dt: DTable) {
    Fair(g, dt) && g.tableLog == dt.tableLog && IsStream(cSrc, Stream(g.ct, g.src))
  }

  /** Both decoders, ready for the first symbol. */
  method StartDecoders(bitD: DStream, cSrc: seq<byte>, ghost dt: DTable, tableLog: nat, ghost good: bool,
                       ghost g: Origin)
    returns (ok: bool, state1: nat, state2: nat)
    requires tableLog <= MAX_TABLELOG
    requires good ==> IsEncoded(cSrc, g, dt) && tableLog == dt.tableLog
    modifies bitD
    ensures ok ==> At(good, g, bitD, dt, tableLog, state1, state2, 0)
    ensures good ==> ok && Room(bitD) && bitD.bitsConsumed <= 64
  {
    hide Tables, NotSingle, EncodeFrom;
    state1, state2 := 0, 0;
    ghost var b := if good then Stream(g.ct, g.src) else Nothing;
    ok := bitD.Init(cSrc);
    if !ok {
      return;
    }
    if good {
      EndMark(LittleEndian(cSrc), b);
    }
    state1 := InitDState(bitD, tableLog, good, b);
    state2 := InitDState(bitD, tableLog, good, if good then b.below else Nothing);
    if good {
      StreamStarts(g, dt, LittleEndian(bitD.src), state1, state2);
    }
  }

  /** Four symbols in each round while the register can be filled. */
  method DecodeRounds(bitD: DStream, dt: DTable, dst: array<byte>, first: nat, second: nat, fast: bool,
                      ghost norm: seq<int>, ghost tableLog: nat, ghost good: bool, ghost g: Origin)
    returns (op: nat, state1: nat, state2: nat)
    requires Decodes(norm, tableLog, dt) && Pow2(tableLog) == |dt.cells| && tableLog <= MAX_TABLELOG && |norm| <= 256
    requires (fast ==> dt.fastMode) && At(good, g, bitD, dt, tableLog, first, second, 0)
    requires good ==> bitD.bitsConsumed <= 64
    modifies bitD, dst
    ensures op <= dst.Length && op % 2 == 0 && At(good, g, bitD, dt, tableLog, state1, state2, op)
    ensures good ==> Room(bitD) && op + 2 <= |g.src|
    ensures good ==> forall j :: 0 <= j < op ==> dst[j] == g.src[j]
  {
    hide Fair, Decodes, Synced, DStream.Valid;
    op, state1, state2 := 0, first, second;
    var status := Refill(bitD, dt, tableLog, state1, state2, good, g, op);
    while status == Unfinished && op + 3 < dst.Length
      invariant op <= dst.Length && op % 2 == 0 && At(good, g, bitD, dt, tableLog, state1, state2, op)
      invariant good ==> Room(bitD) && op <= |g.src|
      invariant good ==> forall j :: 0 <= j < op ==> dst[j] == g.src[j]
      invariant status == Unfinished ==> bitD.bitsConsumed <= 7 && bitD.Remaining() >= 57
      decreases dst.Length - op
    {
      if good {
        FullRegister(g, dt, LittleEndian(bitD.src), bitD.Remaining(), state1, state2, op);
      }
      state1, state2 := DecodeFour(bitD, dt, dst, op, state1, state2, fast, norm, tableLog, good, g);
      op := op + 4;
      status := Refill(bitD, dt, tableLog, state1, state2, good, g, op);
    }
    if good {
      PlaceFits(g, dt, LittleEndian(bitD.src), bitD.Remaining(), state1, state2, op);
    }
  }

  /** Decompress, for any bytes. If they are the stream of a source, the source comes back exactly, given the room for
      it; and with less room that is reported. */
  method DecompressGeneric(dst: array<byte>, cSrc: seq<byte>, dt: DTable, fast: bool, ghost norm: seq<int>,
                           ghost g: Origin)
    returns (r: Result)
    requires Decodes(norm, dt.tableLog, dt) && (fast ==> dt.fastMode)
    modifies dst
    ensures r.Decoded? ==> r.size <= dst.Length
    ensures IsEncoded(cSrc, g, dt) ==>
      if dst.Length >= |g.src| then r == Decoded(|g.src|) && dst[..|g.src|] == g.src else r == TooSmall
  {
    hide IsDTable, IsEncoded, Fair, Synced, DStream.Valid;
    TableLength(norm, dt.tableLog, dt);
    ghost var good := IsEncoded(cSrc, g, dt);
    var bitD := new DStream();
    var ok, state1, state2 := StartDecoders(bitD, cSrc, dt, dt.tableLog, good, g);
    if !ok {
      return Corrupted;
    }
    var status := Refill(bitD, dt, dt.tableLog, state1, state2, good, g, 0);
    if status == Overflow {
      return Corrupted;
    }
    var op;
    op, state1, state2 := DecodeRounds(bitD, dt, dst, state1, state2, fast, norm, dt.tableLog, good, g);
    r := DecodeTail(bitD, dt, dst, op, state1, state2, fast, norm, dt.tableLog, good, g);
  }

  /** With the mode the table says. */
  method Decompress(dst: array<byte>, cSrc: seq<byte>, dt: DTable, ghost norm: seq<int>, ghost g: Origin)
    returns (r: Result)
    requires Decodes(norm, dt.tableLog, dt)
    modifies dst
    ensures r.Decoded? ==> r.size <= dst.Length
    ensures IsEncoded(cSrc, g, dt) ==>
      if dst.Length >= |g.src| then r == Decoded(|g.src|) && dst[..|g.src|] == g.src else r == TooSmall
  {
    if dt.fastMode {
      r := DecompressGeneric(dst, cSrc, dt, true, norm, g);
    } else {
      r := DecompressGeneric(dst, cSrc, dt, false, norm, g);
    }
  }
}
