/** Building the encoding and decoding tables. */
module FseBuild {
  import opened Pow2Lemmas
  import opened Counting
  import opened FseNorm
  import opened FseSpread
  import opened FseTables

  // ----- Encoder -----

  /** Whether the cells of the low-probability symbols before `s` are in place. */
  ghost predicate LowPlaced(cells: seq<int>, norm: seq<int>, tableLog: nat, s: nat)
    requires Normalized(norm, tableLog) && s <= |norm|
  {
    LowAtMostStates(norm, |norm|);
    Agrees(cells, LowCells(norm, tableLog, s))
  }

  lemma LowStart(cells: seq<int>, norm: seq<int>, tableLog: nat)
    requires Normalized(norm, tableLog) && |cells| == Pow2(tableLog)
    ensures LowPlaced(cells, norm, tableLog, 0)
    ensures High(norm, tableLog, 0) == Pow2(tableLog) - 1
  {
    LowAtMostStates(norm, |norm|);
  }

  lemma LowStep(cells: seq<int>, norm: seq<int>, tableLog: nat, s: nat)
    requires Normalized(norm, tableLog) && s < |norm| && LowPlaced(cells, norm, tableLog, s)
    ensures norm[s] == -1 ==> 0 <= High(norm, tableLog, s) < |cells|
    ensures norm[s] == -1 ==> LowPlaced(cells[High(norm, tableLog, s) := s], norm, tableLog, s + 1)
    ensures norm[s] != -1 ==> LowPlaced(cells, norm, tableLog, s + 1)
  {
    LowAtMostStates(norm, |norm|);
    LowMonotone(norm, s + 1, |norm|);
  }

  lemma LowEnd(cells: seq<int>, norm: seq<int>, tableLog: nat)
    requires Normalized(norm, tableLog) && LowPlaced(cells, norm, tableLog, |norm|)
    ensures Agrees(cells, SpreadAt(norm, tableLog, 0).table)
  {
  }

  /** Where the states of each symbol start; low-probability symbols take the last cells. */
  method StartPositions(norm: seq<int>, tableLog: nat, tableSymbol: array<int>)
    returns (cumul: array<nat>, highThreshold: int)
    requires Normalized(norm, tableLog) && tableSymbol.Length == Pow2(tableLog)
    modifies tableSymbol
    ensures fresh(cumul) && cumul.Length == |norm| + 1
    ensures forall s :: 0 <= s < |norm| ==> cumul[s] == StatesBefore(norm, s)
    ensures highThreshold == High(norm, tableLog, |norm|)
    ensures Agrees(tableSymbol[..], SpreadAt(norm, tableLog, 0).table)
  {
    hide Pow2;
    cumul := new nat[|norm| + 1];
    cumul[0] := 0;
    highThreshold := Pow2(tableLog) - 1;
    LowStart(tableSymbol[..], norm, tableLog);
    for u := 1 to |norm| + 1
      invariant forall s :: 0 <= s < u ==> cumul[s] == StatesBefore(norm, s)
      invariant highThreshold == High(norm, tableLog, u - 1)
      invariant LowPlaced(tableSymbol[..], norm, tableLog, u - 1)
    {
      LowStep(tableSymbol[..], norm, tableLog, u - 1);
      if norm[u - 1] == -1 {
        cumul[u] := cumul[u - 1] + 1;
        tableSymbol[highThreshold] := u - 1;
        highThreshold := highThreshold - 1;
      } else {
        cumul[u] := cumul[u - 1] + norm[u - 1];
      }
    }
    cumul[|norm|] := Pow2(tableLog) + 1;
    LowEnd(tableSymbol[..], norm, tableLog);
  }

  /** The place of cell `u` in the list of states sorted by symbol. */
  ghost function Slot(norm: seq<int>, table: seq<int>, u: nat): nat
    requires Counts(norm) && u < |table| && 0 <= table[u] < |norm|
  {
    StatesBefore(norm, table[u]) + Rank(table, u)
  }

  ghost predicate SymbolsFit(norm: seq<int>, table: seq<int>) {
    && Counts(norm)
    && (forall u :: 0 <= u < |table| ==> 0 <= table[u] < |norm|)
    && (forall s :: 0 <= s < |norm| ==> Count(table, s) == Frequency(norm[s]))
    && StatesBefore(norm, |norm|) == |table|
  }

  lemma TableFits(norm: seq<int>, tableLog: nat)
    requires Normalized(norm, tableLog)
    ensures SymbolsFit(norm, SymbolTable(norm, tableLog))
  {
    var table := SymbolTable(norm, tableLog);
    forall u | 0 <= u < |table| ensures 0 <= table[u] < |norm| {
      RankBelow(norm, tableLog, u);
    }
    forall s | 0 <= s < |norm| ensures Count(table, s) == Frequency(norm[s]) {
      SymbolCells(norm, tableLog, s);
    }
  }

  /** Different cells have different places. */
  lemma SlotsDiffer(norm: seq<int>, table: seq<int>, w: nat, u: nat)
    requires SymbolsFit(norm, table) && w < u < |table|
    ensures Slot(norm, table, w) != Slot(norm, table, u)
  {
    EarlierFewer(table, w);
    EarlierFewer(table, u);
    if table[w] == table[u] {
      EarlierFewer(table[..u], w);
      assert table[..u][..w] == table[..w];
    } else if table[w] < table[u] {
      StatesMonotone(norm, table[w], table[u]);
    } else {
      StatesMonotone(norm, table[u], table[w]);
    }
  }

  lemma SlotFits(norm: seq<int>, table: seq<int>, u: nat)
    requires SymbolsFit(norm, table) && u < |table|
    ensures Slot(norm, table, u) < |table|
  {
    EarlierFewer(table, u);
    StatesMonotone(norm, table[u], |norm|);
  }

  /** The positions of the symbols after the first u cells. */
  ghost predicate Cumulated(cumul: seq<nat>, norm: seq<int>, table: seq<int>, u: nat)
    requires SymbolsFit(norm, table) && u <= |table|
  {
    |cumul| > |norm| && forall s :: 0 <= s < |norm| ==> cumul[s] == StatesBefore(norm, s) + Count(table[..u], s)
  }

  ghost predicate Listed(states: seq<nat>, norm: seq<int>, table: seq<int>, u: nat)
    requires SymbolsFit(norm, table) && u <= |table|
  {
    |states| == |table| && forall w :: 0 <= w < u ==> StateAt(states, norm, table, w, |table|)
  }

  lemma CumulStep(cumul: seq<nat>, norm: seq<int>, table: seq<int>, u: nat)
    requires SymbolsFit(norm, table) && u < |table| && Cumulated(cumul, norm, table, u)
    ensures Cumulated(cumul[table[u] := cumul[table[u]] + 1], norm, table, u + 1)
    ensures cumul[table[u]] == Slot(norm, table, u) < |table|
  {
    SlotFits(norm, table, u);
    forall t ensures Count(table[..u + 1], t) == Count(table[..u], t) + if table[u] == t then 1 else 0 {
      CountSnoc(table[..u], table[u], t);
      assert table[..u] + [table[u]] == table[..u + 1];
    }
  }

  lemma ListStep(states: seq<nat>, norm: seq<int>, table: seq<int>, u: nat)
    requires SymbolsFit(norm, table) && u < |table| && Listed(states, norm, table, u)
    ensures Slot(norm, table, u) < |states|
    ensures Listed(states[Slot(norm, table, u) := |table| + u], norm, table, u + 1)
  {
    SlotFits(norm, table, u);
    var now := states[Slot(norm, table, u) := |table| + u];
    forall w | 0 <= w < u ensures StateAt(now, norm, table, w, |table|) {
      SlotsDiffer(norm, table, w, u);
      assert StateAt(states, norm, table, w, |table|);
    }
  }

  /** The next states, sorted by symbol. */
  method ListStates(tableSymbol: array<int>, cumul: array<nat>, ghost norm: seq<int>) returns (tableU16: array<nat>)
    requires SymbolsFit(norm, tableSymbol[..]) && Cumulated(cumul[..], norm, tableSymbol[..], 0)
    modifies cumul
    ensures fresh(tableU16) && Listed(tableU16[..], norm, tableSymbol[..], tableSymbol.Length)
  {
    ghost var table := tableSymbol[..];
    tableU16 := new nat[tableSymbol.Length];
    for u := 0 to tableSymbol.Length
      invariant tableSymbol[..] == table
      invariant Cumulated(cumul[..], norm, table, u) && Listed(tableU16[..], norm, table, u)
    {
      var s := tableSymbol[u];
      CumulStep(cumul[..], norm, table, u);
      ListStep(tableU16[..], norm, table, u);
      tableU16[cumul[s]] := tableSymbol.Length + u;
      cumul[s] := cumul[s] + 1;
    }
  }

  // ----- The transformation of each symbol -----

  /** A symbol's bit count and first position; symbols that do not occur only get a bit count. */
  ghost predicate Transformed(deltaNbBits: nat, deltaFindState: int, norm: seq<int>, tableLog: nat, s: nat)
    requires Normalized(norm, tableLog) && s < |norm|
  {
    if norm[s] == 0 then deltaNbBits == (tableLog + 1) * 0x10000 - Pow2(tableLog)
    else TransformIs(deltaNbBits, deltaFindState, norm, tableLog, s)
  }

  method Transformation(norm: seq<int>, tableLog: nat, s: nat, total: nat)
    returns (deltaNbBits: nat, deltaFindState: int, next: nat)
    requires Normalized(norm, tableLog) && s < |norm| && total == StatesBefore(norm, s)
    ensures Transformed(deltaNbBits, deltaFindState, norm, tableLog, s) && next == StatesBefore(norm, s + 1)
  {
    FrequencyFits(norm, tableLog, s);
    TableSizeFits(tableLog);
    deltaFindState, next := 0, total;
    if norm[s] == 0 {
      deltaNbBits := (tableLog + 1) * 0x10000 - Pow2(tableLog);
    } else if norm[s] == -1 || norm[s] == 1 {
      assert Scaled(1, tableLog) == Pow2(tableLog);
      deltaNbBits := tableLog * 0x10000 - Pow2(tableLog);
      deltaFindState := total - 1;
      next := total + 1;
    } else {
      CountBits(tableLog, norm[s]);
      MaxBitsRange(tableLog, norm[s]);
      var maxBitsOut: nat := tableLog - HighBit(norm[s] - 1);
      var minStatePlus := Scaled(norm[s], maxBitsOut);
      deltaNbBits := maxBitsOut * 0x10000 - minStatePlus;
      deltaFindState := total - norm[s];
      next := total + norm[s];
    }
  }

  /** Positions of the first states, and how the number of bits to write depends on the state. */
  method Transformations(norm: seq<int>, tableLog: nat) returns (deltaNbBits: array<nat>, deltaFindState: array<int>)
    requires Normalized(norm, tableLog)
    ensures deltaNbBits.Length == deltaFindState.Length == |norm|
    ensures forall s :: 0 <= s < |norm| ==> Transformed(deltaNbBits[s], deltaFindState[s], norm, tableLog, s)
  {
    deltaNbBits := new nat[|norm|];
    deltaFindState := new int[|norm|];
    var total := 0;
    for s := 0 to |norm|
      invariant total == StatesBefore(norm, s)
      invariant forall t :: 0 <= t < s ==> Transformed(deltaNbBits[t], deltaFindState[t], norm, tableLog, t)
    {
      var delta, find;
      delta, find, total := Transformation(norm, tableLog, s, total);
      deltaNbBits[s] := delta;
      deltaFindState[s] := find;
    }
  }

  /** The symbols are laid out in two stages if no cells are taken yet. */
  method SpreadSymbols(norm: seq<int>, tableLog: nat, tableSymbol: array<int>, highThreshold: int)
      returns (position: nat)
    requires Normalized(norm, tableLog) && highThreshold == High(norm, tableLog, |norm|)
    requires Agrees(tableSymbol[..], SpreadAt(norm, tableLog, 0).table)
    modifies tableSymbol
    ensures tableSymbol[..] == SymbolTable(norm, tableLog) && position == 0
  {
    if highThreshold == Pow2(tableLog) - 1 {
      position := SpreadUnrolled(norm, tableLog, tableSymbol);
    } else {
      position := SpreadSkipping(norm, tableLog, tableSymbol, highThreshold);
    }
  }

  /** The encoding table of a distribution. */
  method BuildCTable(norm: seq<int>, tableLog: nat) returns (ct: CTable)
    requires Normalized(norm, tableLog)
    ensures IsCTable(ct, norm, tableLog)
    ensures forall s :: 0 <= s < |norm| && norm[s] == 0 ==>
      ct.deltaNbBits[s] == (tableLog + 1) * 0x10000 - Pow2(tableLog)
  {
    var tableSymbol := new int[Pow2(tableLog)];
    var cumul, highThreshold := StartPositions(norm, tableLog, tableSymbol);
    var position := SpreadSymbols(norm, tableLog, tableSymbol, highThreshold);
    assert position == 0;
    TableFits(norm, tableLog);
    var tableU16 := ListStates(tableSymbol, cumul, norm);
    var deltaNbBits, deltaFindState := Transformations(norm, tableLog);
    ct := CTable(tableLog, tableU16[..], deltaNbBits[..], deltaFindState[..]);
    forall s | 0 <= s < |norm| && norm[s] != 0
      ensures TransformIs(ct.deltaNbBits[s], ct.deltaFindState[s], norm, tableLog, s)
    {
      assert Transformed(deltaNbBits[s], deltaFindState[s], norm, tableLog, s);
    }
  }

  // ----- Decoder -----

  /** What the decoder counts from, and whether every step will read at least one bit. */
  method StartCounts(norm: seq<int>, tableLog: nat, symbols: array<int>)
    returns (symbolNext: array<nat>, highThreshold: int, fastMode: bool)
    requires Normalized(norm, tableLog) && symbols.Length == Pow2(tableLog)
    modifies symbols
    ensures fresh(symbolNext) && symbolNext.Length == |norm|
    ensures forall s :: 0 <= s < |norm| ==> symbolNext[s] == Frequency(norm[s])
    ensures highThreshold == High(norm, tableLog, |norm|)
    ensures Agrees(symbols[..], SpreadAt(norm, tableLog, 0).table)
    ensures fastMode <==> forall s :: 0 <= s < |norm| ==> norm[s] < Pow2(tableLog - 1)
  {
    symbolNext := new nat[|norm|];
    highThreshold := Pow2(tableLog) - 1;
    fastMode := true;
    LowStart(symbols[..], norm, tableLog);
    for s := 0 to |norm|
      invariant forall t :: 0 <= t < s ==> symbolNext[t] == Frequency(norm[t])
      invariant highThreshold == High(norm, tableLog, s)
      invariant LowPlaced(symbols[..], norm, tableLog, s)
      invariant fastMode <==> forall t :: 0 <= t < s ==> norm[t] < Pow2(tableLog - 1)
    {
      LowStep(symbols[..], norm, tableLog, s);
      if norm[s] == -1 {
        symbols[highThreshold] := s;
        highThreshold := highThreshold - 1;
        symbolNext[s] := 1;
      } else {
        if norm[s] >= Pow2(tableLog - 1) {
          fastMode := false;
        }
        symbolNext[s] := norm[s];
      }
    }
    LowEnd(symbols[..], norm, tableLog);
  }

  /** The numbers of the next states after the first u cells. */
  ghost predicate Counted(symbolNext: seq<nat>, norm: seq<int>, table: seq<int>, u: nat)
    requires SymbolsFit(norm, table) && u <= |table|
  {
    |symbolNext| == |norm| &&
    forall s :: 0 <= s < |norm| ==> symbolNext[s] == Frequency(norm[s]) + Count(table[..u], s)
  }

  lemma CountedStep(symbolNext: seq<nat>, norm: seq<int>, table: seq<int>, u: nat)
    requires SymbolsFit(norm, table) && u < |table| && Counted(symbolNext, norm, table, u)
    ensures Counted(symbolNext[table[u] := symbolNext[table[u]] + 1], norm, table, u + 1)
    ensures symbolNext[table[u]] == Frequency(norm[table[u]]) + Rank(table, u)
    ensures Rank(table, u) < Frequency(norm[table[u]]) <= |table|
  {
    EarlierFewer(table, u);
    StatesMonotone(norm, table[u], |norm|);
    forall t ensures Count(table[..u + 1], t) == Count(table[..u], t) + if table[u] == t then 1 else 0 {
      CountSnoc(table[..u], table[u], t);
      assert table[..u] + [table[u]] == table[..u + 1];
    }
  }

  /** The cell for a given next state. */
  method MakeCell(symbol: int, nextState: nat, tableLog: nat) returns (cell: DCell)
    requires 0 < nextState < 2 * Pow2(tableLog)
    ensures cell.symbol == symbol && cell.nbBits + HighBit(nextState) == tableLog
    ensures cell.newState + Pow2(tableLog) == nextState * Pow2(cell.nbBits)
  {
    var h := HighBit(nextState);
    if h > tableLog {
      Pow2Monotone(tableLog + 1, h);
    }
    Pow2Add(h, tableLog - h);
    ScaledAtLeast(nextState, Pow2(h), Pow2(tableLog - h));
    cell := DCell(nextState * Pow2(tableLog - h) - Pow2(tableLog), symbol, tableLog - h);
  }

  lemma ScaledAtLeast(a: nat, b: nat, p: nat)
    requires a >= b
    ensures a * p >= b * p
  {
  }

  method FillCells(symbols: array<int>, symbolNext: array<nat>, ghost norm: seq<int>, tableLog: nat)
    returns (cells: array<DCell>)
    requires SymbolsFit(norm, symbols[..]) && Counted(symbolNext[..], norm, symbols[..], 0)
    requires symbols.Length == Pow2(tableLog) && Counts(norm)
    modifies symbolNext
    ensures cells.Length == symbols.Length
    ensures forall u :: 0 <= u < cells.Length ==> CellIs(cells[u], norm, symbols[..], u, tableLog)
  {
    ghost var table := symbols[..];
    cells := new DCell[symbols.Length];
    for u := 0 to symbols.Length
      invariant symbols[..] == table && Counted(symbolNext[..], norm, table, u)
      invariant forall w :: 0 <= w < u ==> CellIs(cells[w], norm, table, w, tableLog)
    {
      CountedStep(symbolNext[..], norm, table, u);
      var nextState := symbolNext[symbols[u]];
      symbolNext[symbols[u]] := nextState + 1;
      var cell := MakeCell(symbols[u], nextState, tableLog);
      cells[u] := cell;
    }
  }

  /** The decoding table of a distribution. The check that the walk over the table has come full circle never fails. */
  method BuildDTable(norm: seq<int>, tableLog: nat) returns (ok: bool, dt: DTable)
    requires Normalized(norm, tableLog)
    ensures ok && IsDTable(dt, norm, tableLog)
  {
    ok, dt := false, DTable(0, false, []);
    var symbols := new int[Pow2(tableLog)];
    var symbolNext, highThreshold, fastMode := StartCounts(norm, tableLog, symbols);
    var position := SpreadSymbols(norm, tableLog, symbols, highThreshold);
    if position != 0 {
      return;
    }
    TableFits(norm, tableLog);
    var cells := FillCells(symbols, symbolNext, norm, tableLog);
    return true, DTable(tableLog, fastMode, cells[..]);
  }
}
