/** The encoding and decoding tables of a distribution. */
module FseTables {
  import opened Pow2Lemmas
  import opened BitArithmetic
  import opened Counting
  import opened FseNorm
  import opened FseSpread

  /** `deltaNbBits` and `deltaFindState` are per symbol, `stateTable` has the next states sorted by symbol. */
  datatype CTable = CTable(tableLog: nat, stateTable: seq<nat>, deltaNbBits: seq<nat>, deltaFindState: seq<int>)

  datatype DCell = DCell(newState: nat, symbol: int, nbBits: nat)

  datatype DTable = DTable(tableLog: nat, fastMode: bool, cells: seq<DCell>)

  // ----- What the tables are -----

  /** The number of cells before `u` with the same symbol. */
  ghost function Rank(table: seq<int>, u: nat): nat
    requires u < |table|
  {
    Count(table[..u], table[u])
  }

  lemma CountBits(tableLog: nat, frequency: nat)
    requires 1 < frequency <= Pow2(tableLog)
    ensures HighBit(frequency - 1) < tableLog
  {
    if HighBit(frequency - 1) >= tableLog {
      Pow2Monotone(tableLog, HighBit(frequency - 1));
    }
  }

  /** The most bits a symbol of the given frequency takes. */
  function MaxBits(tableLog: nat, frequency: nat): (m: nat)
    requires 0 < frequency <= Pow2(tableLog)
    ensures m <= tableLog && (tableLog > 0 ==> m > 0)
  {
    if frequency == 1 then tableLog else CountBits(tableLog, frequency); tableLog - HighBit(frequency - 1)
  }

  function Scaled(x: nat, n: nat): nat {
    x * Pow2(n)
  }

  lemma ScaledRange(f: nat, p: nat, q: nat)
    requires p < f <= 2 * p
    ensures p * q <= f * q <= 2 * (p * q)
  {
    Product(p, f, q);
    Product(f, 2 * p, q);
    Associate(2, p, q);
  }

  /** The smallest state from which the most bits are written. */
  lemma MaxBitsRange(tableLog: nat, frequency: nat)
    requires 0 < frequency <= Pow2(tableLog) && tableLog > 0
    ensures Pow2(tableLog) <= Scaled(frequency, MaxBits(tableLog, frequency)) <= 2 * Pow2(tableLog)
  {
    if frequency > 1 {
      CountBits(tableLog, frequency);
      var h := HighBit(frequency - 1);
      var m := tableLog - h;
      Pow2Add(h, m);
      ScaledRange(frequency, Pow2(h), Pow2(m));
    }
  }

  /** Adding this to a state gives the number of bits to write in the bits from 16 on. */
  ghost function NbDelta(tableLog: nat, frequency: nat): int
    requires 0 < frequency <= Pow2(tableLog)
  {
    MaxBits(tableLog, frequency) * 0x10000 - Scaled(frequency, MaxBits(tableLog, frequency))
  }

  lemma FrequencyFits(norm: seq<int>, tableLog: nat, s: nat)
    requires Normalized(norm, tableLog) && s < |norm|
    ensures Frequency(norm[s]) <= Pow2(tableLog)
    ensures StatesBefore(norm, s) + Frequency(norm[s]) <= Pow2(tableLog)
  {
    StatesMonotone(norm, s, |norm|);
  }

  ghost predicate IsStateTable(stateTable: seq<nat>, norm: seq<int>, tableLog: nat)
    requires Normalized(norm, tableLog)
  {
    && |stateTable| == Pow2(tableLog)
    && forall u {:trigger SymbolTable(norm, tableLog)[u]} :: 0 <= u < Pow2(tableLog) ==>
      StateAt(stateTable, norm, SymbolTable(norm, tableLog), u, Pow2(tableLog))
  }

  /** The state of cell `u` is listed under its symbol. */
  ghost predicate StateAt(stateTable: seq<nat>, norm: seq<int>, table: seq<int>, u: nat, tableSize: nat)
    requires u < |table| && Counts(norm)
  {
    && 0 <= table[u] < |norm|
    && StatesBefore(norm, table[u]) + Rank(table, u) < |stateTable|
    && stateTable[StatesBefore(norm, table[u]) + Rank(table, u)] == tableSize + u
  }

  ghost predicate IsCTable(ct: CTable, norm: seq<int>, tableLog: nat)
    requires Normalized(norm, tableLog)
  {
    && ct.tableLog == tableLog
    && IsStateTable(ct.stateTable, norm, tableLog)
    && |ct.deltaNbBits| == |norm| == |ct.deltaFindState|
    && forall s :: 0 <= s < |norm| && norm[s] != 0 ==>
      TransformIs(ct.deltaNbBits[s], ct.deltaFindState[s], norm, tableLog, s)
  }

  ghost predicate TransformIs(deltaNbBits: nat, deltaFindState: int, norm: seq<int>, tableLog: nat, s: nat)
    requires Normalized(norm, tableLog) && s < |norm| && norm[s] != 0
  {
    FrequencyFits(norm, tableLog, s);
    && deltaNbBits == NbDelta(tableLog, Frequency(norm[s]))
    && deltaFindState == StatesBefore(norm, s) - Frequency(norm[s])
  }

  ghost predicate IsDTable(dt: DTable, norm: seq<int>, tableLog: nat)
    requires Normalized(norm, tableLog)
  {
    && dt.tableLog == tableLog && |dt.cells| == Pow2(tableLog)
    && (dt.fastMode <==> forall s :: 0 <= s < |norm| ==> norm[s] < Pow2(tableLog - 1))
    && forall u :: 0 <= u < |dt.cells| ==> CellIs(dt.cells[u], norm, SymbolTable(norm, tableLog), u, tableLog)
  }

  /** A cell holds the state to go to, less the bits to be read. */
  ghost predicate CellIs(cell: DCell, norm: seq<int>, table: seq<int>, u: nat, tableLog: nat)
    requires u < |table| && Counts(norm)
  {
    && cell.symbol == table[u] && 0 <= table[u] < |norm|
    && Frequency(norm[table[u]]) + Rank(table, u) > 0
    && var next := Frequency(norm[table[u]]) + Rank(table, u);
      cell.nbBits + HighBit(next) == tableLog && cell.newState + Pow2(tableLog) == next * Pow2(cell.nbBits)
  }

  // ----- One step of encoding -----

  function BitsOut(ct: CTable, s: nat, x: nat): nat
    requires s < |ct.deltaNbBits|
  {
    (x + ct.deltaNbBits[s]) / 0x10000
  }

  lemma QuotientRange(x: nat, p: nat, f: nat)
    requires p > 0 && f * p <= x < 2 * (f * p)
    ensures f <= x / p < 2 * f
  {
    var y, r := x / p, x % p;
    assert x == y * p + r;
    if y < f {
      Product(y + 1, f, p);
      Distribute(y, 1, p);
    }
    if y >= 2 * f {
      Product(2 * f, y, p);
      Associate(2, f, p);
    }
  }

  /** Either all bits, or one less. */
  lemma BitsOutCases(x: nat, m: nat, full: nat, nb: nat)
    requires m >= 1 && full <= 0x10000 && x < full + 0x10000
    requires nb == (x + (m * 0x10000 - full)) / 0x10000
    ensures nb == if x >= full then m else m - 1
  {
  }

  lemma TableSizeFits(tableLog: nat)
    requires tableLog <= MAX_TABLELOG
    ensures 2 * Pow2(tableLog) <= 0x2000
  {
    Pow2Monotone(tableLog, 12);
    assert Pow2(12) == 4096;
  }

  lemma ScaledHalf(f: nat, nb: nat)
    ensures Scaled(f, nb + 1) == 2 * Scaled(f, nb)
  {
    Associate(f, 2, Pow2(nb));
  }

  lemma ShiftedRange(x: nat, nb: nat, f: nat)
    requires Scaled(f, nb) <= x < 2 * Scaled(f, nb)
    ensures f <= ShiftRight(x, nb) < 2 * f
  {
    QuotientRange(x, Pow2(nb), f);
  }

  /** The bits to write leave a number of the size of the frequency. */
  lemma BitsOutIs(tableLog: nat, f: nat, x: nat, nb: nat)
    requires 0 < f <= Pow2(tableLog) && 0 < tableLog <= MAX_TABLELOG
    requires Pow2(tableLog) <= x < 2 * Pow2(tableLog)
    requires nb == (x + NbDelta(tableLog, f)) / 0x10000
    ensures nb <= tableLog && f <= ShiftRight(x, nb) < 2 * f
    ensures HighBit(ShiftRight(x, nb)) == tableLog - nb
  {
    var m := MaxBits(tableLog, f);
    var full := Scaled(f, m);
    MaxBitsRange(tableLog, f);
    TableSizeFits(tableLog);
    BitsOutCases(x, m, full, nb);
    if x < full {
      ScaledHalf(f, nb);
    }
    ShiftedRange(x, nb, f);
    assert Scaled(Pow2(tableLog - nb), nb) == Pow2(tableLog) by {
      Pow2Add(tableLog - nb, nb);
    }
    ShiftedRange(x, nb, Pow2(tableLog - nb));
    HighBitIs(ShiftRight(x, nb), tableLog - nb);
  }

  /** The cell of a symbol's (j + 1)-th state. */
  lemma CellOf(norm: seq<int>, tableLog: nat, s: nat, j: nat) returns (u: nat)
    requires Normalized(norm, tableLog) && s < |norm| && j < Frequency(norm[s])
    ensures u < Pow2(tableLog) && SymbolTable(norm, tableLog)[u] == s && Rank(SymbolTable(norm, tableLog), u) == j
  {
    SymbolCells(norm, tableLog, s);
    u := Occurrence(SymbolTable(norm, tableLog), s, j);
  }

  lemma ListedState(stateTable: seq<nat>, norm: seq<int>, tableLog: nat, u: nat)
    requires Normalized(norm, tableLog) && IsStateTable(stateTable, norm, tableLog) && u < Pow2(tableLog)
    ensures StateAt(stateTable, norm, SymbolTable(norm, tableLog), u, Pow2(tableLog))
  {
    assert SymbolTable(norm, tableLog)[u] == SymbolTable(norm, tableLog)[u];
  }

  lemma FindState(norm: seq<int>, tableLog: nat, stateTable: seq<nat>, s: nat, j: nat) returns (u: nat)
    requires Normalized(norm, tableLog) && IsStateTable(stateTable, norm, tableLog)
    requires s < |norm| && j < Frequency(norm[s])
    ensures u < Pow2(tableLog) && SymbolTable(norm, tableLog)[u] == s && Rank(SymbolTable(norm, tableLog), u) == j
    ensures StatesBefore(norm, s) + j < |stateTable|
    ensures stateTable[StatesBefore(norm, s) + j] == Pow2(tableLog) + u
  {
    u := CellOf(norm, tableLog, s, j);
    ListedState(stateTable, norm, tableLog, u);
  }

  /** What the decoder finds in the cell of a symbol's (j + 1)-th state. */
  lemma CellFacts(norm: seq<int>, tableLog: nat, dt: DTable, u: nat, s: nat, j: nat)
    requires Normalized(norm, tableLog) && IsDTable(dt, norm, tableLog) && u < Pow2(tableLog) && s < |norm|
    requires SymbolTable(norm, tableLog)[u] == s && Rank(SymbolTable(norm, tableLog), u) == j
    ensures dt.cells[u].symbol == s && Frequency(norm[s]) + j > 0
    ensures dt.cells[u].nbBits + HighBit(Frequency(norm[s]) + j) == tableLog
    ensures dt.cells[u].newState + Pow2(tableLog) == Scaled(Frequency(norm[s]) + j, dt.cells[u].nbBits)
  {
    assert CellIs(dt.cells[u], norm, SymbolTable(norm, tableLog), u, tableLog);
  }

  /** Encoding symbol `s` in state `x`: the number of bits written, and the next state. */
  function StateIndex(ct: CTable, s: nat, x: nat): int
    requires s < |ct.deltaNbBits| == |ct.deltaFindState|
  {
    ShiftRight(x, BitsOut(ct, s, x)) + ct.deltaFindState[s]
  }

  lemma Unshift(x: nat, nb: nat)
    ensures x == Scaled(ShiftRight(x, nb), nb) + x % Pow2(nb)
  {
    JoinAgain(x, nb);
    JoinIs(x % Pow2(nb), nb, ShiftRight(x, nb));
  }

  /** The index of the next state is in the symbol's part of the table. */
  lemma StepIndex(norm: seq<int>, tableLog: nat, ct: CTable, s: nat, x: nat) returns (nb: nat, y: nat)
    requires Normalized(norm, tableLog) && IsCTable(ct, norm, tableLog)
    requires s < |norm| && norm[s] != 0 && Pow2(tableLog) <= x < 2 * Pow2(tableLog)
    ensures nb == BitsOut(ct, s, x) <= tableLog
    ensures x == Scaled(y, nb) + x % Pow2(nb)
    ensures Frequency(norm[s]) <= y < 2 * Frequency(norm[s]) && HighBit(y) == tableLog - nb
    ensures StateIndex(ct, s, x) == StatesBefore(norm, s) + (y - Frequency(norm[s]))
  {
    FrequencyFits(norm, tableLog, s);
    assert TransformIs(ct.deltaNbBits[s], ct.deltaFindState[s], norm, tableLog, s);
    nb := BitsOut(ct, s, x);
    y := ShiftRight(x, nb);
    BitsOutIs(tableLog, Frequency(norm[s]), x, nb);
    Unshift(x, nb);
  }

  /** From this cell the decoder goes back to state `x`, having read `nb` bits. */
  ghost predicate GoesBack(cell: DCell, s: nat, x: nat, nb: nat, tableSize: nat) {
    cell.symbol == s && cell.nbBits == nb && cell.newState + x % Pow2(nb) == x - tableSize
  }

  lemma CellGoesBack(cell: DCell, s: nat, x: nat, nb: nat, y: nat, tableSize: nat)
    requires cell.symbol == s && cell.nbBits == nb
    requires cell.newState + tableSize == Scaled(y, cell.nbBits) && x == Scaled(y, nb) + x % Pow2(nb)
    ensures GoesBack(cell, s, x, nb, tableSize)
  {
    var p := Scaled(y, nb);
    assert cell.newState + tableSize == p;
  }

  /** A step of the encoder stays in the table. */
  lemma StepForward(norm: seq<int>, tableLog: nat, ct: CTable, s: nat, x: nat)
    requires Normalized(norm, tableLog) && IsCTable(ct, norm, tableLog)
    requires s < |norm| && norm[s] != 0 && Pow2(tableLog) <= x < 2 * Pow2(tableLog)
    ensures BitsOut(ct, s, x) <= tableLog
    ensures 0 <= StateIndex(ct, s, x) < |ct.stateTable|
    ensures Pow2(tableLog) <= ct.stateTable[StateIndex(ct, s, x)] < 2 * Pow2(tableLog)
  {
    var nb, y := StepIndex(norm, tableLog, ct, s, x);
    var u := FindState(norm, tableLog, ct.stateTable, s, y - Frequency(norm[s]));
  }

  lemma CellUndoes(norm: seq<int>, tableLog: nat, dt: DTable, u: nat, s: nat, x: nat, nb: nat, y: nat)
    requires Normalized(norm, tableLog) && IsDTable(dt, norm, tableLog) && u < Pow2(tableLog) && s < |norm|
    requires SymbolTable(norm, tableLog)[u] == s
    requires Rank(SymbolTable(norm, tableLog), u) == y - Frequency(norm[s])
    requires x == Scaled(y, nb) + x % Pow2(nb) && y > 0 && HighBit(y) == tableLog - nb
    ensures GoesBack(dt.cells[u], s, x, nb, Pow2(tableLog))
  {
    CellFacts(norm, tableLog, dt, u, s, y - Frequency(norm[s]));
    CellGoesBack(dt.cells[u], s, x, nb, y, Pow2(tableLog));
  }

  /** The decoder undoes one step of the encoder: from the state reached it reads the same number of bits, and with them
      it gets the symbol and the state before. */
  lemma StepInverts(norm: seq<int>, tableLog: nat, ct: CTable, dt: DTable, s: nat, x: nat)
    returns (u: nat, nb: nat)
    requires Normalized(norm, tableLog) && IsCTable(ct, norm, tableLog) && IsDTable(dt, norm, tableLog)
    requires s < |norm| && norm[s] != 0 && Pow2(tableLog) <= x < 2 * Pow2(tableLog)
    ensures nb == BitsOut(ct, s, x) <= tableLog
    ensures 0 <= StateIndex(ct, s, x) < |ct.stateTable|
    ensures u < Pow2(tableLog) && ct.stateTable[StateIndex(ct, s, x)] == Pow2(tableLog) + u
    ensures GoesBack(dt.cells[u], s, x, nb, Pow2(tableLog))
  {
    var y;
    nb, y := StepIndex(norm, tableLog, ct, s, x);
    u := FindState(norm, tableLog, ct.stateTable, s, y - Frequency(norm[s]));
    CellUndoes(norm, tableLog, dt, u, s, x, nb, y);
  }

  // ----- The first symbol, which takes no bits -----

  function FirstBits(ct: CTable, s: nat): nat
    requires s < |ct.deltaNbBits|
  {
    (ct.deltaNbBits[s] + 0x8000) / 0x10000
  }

  function FirstIndex(ct: CTable, s: nat): int
    requires s < |ct.deltaNbBits| == |ct.deltaFindState|
    requires FirstBits(ct, s) * 0x10000 >= ct.deltaNbBits[s]
  {
    ShiftRight(FirstBits(ct, s) * 0x10000 - ct.deltaNbBits[s], FirstBits(ct, s)) + ct.deltaFindState[s]
  }

  lemma FirstBitsIs(m: nat, full: nat, nb: nat)
    requires 0 < full <= 0x8000 && full <= m * 0x10000
    requires nb == (m * 0x10000 - full + 0x8000) / 0x10000
    ensures nb == m
  {
  }

  lemma Descale(f: nat, m: nat)
    ensures ShiftRight(Scaled(f, m), m) == f
  {
    DivideIs(Scaled(f, m), Pow2(m), f, 0);
  }

  lemma FirstIndexIs(norm: seq<int>, tableLog: nat, ct: CTable, s: nat)
    requires Normalized(norm, tableLog) && IsCTable(ct, norm, tableLog) && s < |norm| && norm[s] != 0
    ensures 0 <= FirstBits(ct, s) * 0x10000 - ct.deltaNbBits[s]
    ensures FirstIndex(ct, s) == StatesBefore(norm, s)
  {
    hide Pow2, StatesBefore, Scaled;
    var f := Frequency(norm[s]);
    FrequencyFits(norm, tableLog, s);
    assert TransformIs(ct.deltaNbBits[s], ct.deltaFindState[s], norm, tableLog, s);
    MaxBitsRange(tableLog, f);
    TableSizeFits(tableLog);
    FirstShift(f, MaxBits(tableLog, f), ct.deltaNbBits[s], FirstBits(ct, s));
  }

  lemma FirstShift(f: nat, m: nat, delta: nat, nb: nat)
    requires 0 < Scaled(f, m) <= 0x8000
    requires delta == m * 0x10000 - Scaled(f, m) && nb == (delta + 0x8000) / 0x10000
    ensures 0 <= nb * 0x10000 - delta
    ensures ShiftRight(nb * 0x10000 - delta, nb) == f
  {
    FirstBitsIs(m, Scaled(f, m), nb);
    Descale(f, m);
  }

  lemma FirstForward(norm: seq<int>, tableLog: nat, ct: CTable, s: nat)
    requires Normalized(norm, tableLog) && IsCTable(ct, norm, tableLog) && s < |norm| && norm[s] != 0
    ensures 0 <= FirstBits(ct, s) * 0x10000 - ct.deltaNbBits[s]
    ensures 0 <= FirstIndex(ct, s) < |ct.stateTable|
    ensures Pow2(tableLog) <= ct.stateTable[FirstIndex(ct, s)] < 2 * Pow2(tableLog)
  {
    FirstIndexIs(norm, tableLog, ct, s);
    var u := FindState(norm, tableLog, ct.stateTable, s, 0);
  }

  lemma FewerBits(f: nat, tableLog: nat)
    requires 0 < f < Pow2(tableLog)
    ensures HighBit(f) < tableLog
  {
    if HighBit(f) >= tableLog {
      Pow2Monotone(tableLog, HighBit(f));
    }
  }

  /** The first state is the lowest one of the symbol. The decoder gets the symbol from it, and then asks for at least
      one bit, unless the symbol has the whole table. */
  lemma FirstState(norm: seq<int>, tableLog: nat, ct: CTable, dt: DTable, s: nat)
    requires Normalized(norm, tableLog) && IsCTable(ct, norm, tableLog) && IsDTable(dt, norm, tableLog)
    requires s < |norm| && norm[s] != 0
    ensures 0 <= FirstBits(ct, s) * 0x10000 - ct.deltaNbBits[s]
    ensures 0 <= FirstIndex(ct, s) < |ct.stateTable|
    ensures var u := ct.stateTable[FirstIndex(ct, s)] - Pow2(tableLog);
      && 0 <= u < Pow2(tableLog)
      && dt.cells[u].symbol == s
      && (Frequency(norm[s]) < Pow2(tableLog) ==> dt.cells[u].nbBits > 0)
  {
    FirstIndexIs(norm, tableLog, ct, s);
    var u := FindState(norm, tableLog, ct.stateTable, s, 0);
    CellFacts(norm, tableLog, dt, u, s, 0);
    if Frequency(norm[s]) < Pow2(tableLog) {
      FewerBits(Frequency(norm[s]), tableLog);
    }
  }

  // ----- Decoding stays in the table, in fast mode with at least one bit a step -----

  lemma ScaledBelow(y: nat, nb: nat, n: nat)
    requires y < 2 * Pow2(n)
    ensures Scaled(y, nb) + Pow2(nb) <= 2 * Pow2(n + nb)
  {
    Pow2Add(n, nb);
    Product(y + 1, 2 * Pow2(n), Pow2(nb));
    Distribute(y, 1, Pow2(nb));
    Associate(2, Pow2(n), Pow2(nb));
  }

  lemma RankBelow(norm: seq<int>, tableLog: nat, u: nat)
    requires Normalized(norm, tableLog) && u < Pow2(tableLog)
    ensures 0 <= SymbolTable(norm, tableLog)[u] < |norm|
    ensures Rank(SymbolTable(norm, tableLog), u) < Frequency(norm[SymbolTable(norm, tableLog)[u]])
  {
    var table := SymbolTable(norm, tableLog);
    EarlierFewer(table, u);
    TableSymbols(norm, tableLog, Pow2(tableLog), u);
    var s := table[u];
    if s == BLANK {
      SymbolCells(norm, tableLog, 0);
    } else {
      SymbolCells(norm, tableLog, s);
    }
  }

  lemma {:induction false} TableSymbols(norm: seq<int>, tableLog: nat, k: nat, u: nat)
    requires Normalized(norm, tableLog) && k <= Pow2(tableLog) && u < Pow2(tableLog)
    ensures BLANK <= SpreadAt(norm, tableLog, k).table[u] < |norm|
    decreases k
  {
    LaidFits(norm, tableLog);
    if k == 0 {
      LowCellsBlank(norm, tableLog, |norm|);
    } else {
      TableSymbols(norm, tableLog, k - 1, u);
    }
  }

  lemma FastBits(f: nat, r: nat, tableLog: nat)
    requires tableLog >= 1 && r < f <= Pow2(tableLog - 1)
    ensures HighBit(f + r) < tableLog
  {
    FewerBits(f + r, tableLog);
  }

  lemma CellRange(dt: DTable, norm: seq<int>, tableLog: nat, u: nat)
    requires Normalized(norm, tableLog) && IsDTable(dt, norm, tableLog) && u < Pow2(tableLog)
    ensures dt.cells[u].nbBits <= tableLog && 0 <= dt.cells[u].symbol < |norm|
    ensures dt.cells[u].newState + Pow2(dt.cells[u].nbBits) <= Pow2(tableLog)
    ensures dt.fastMode ==> dt.cells[u].nbBits > 0
  {
    RankBelow(norm, tableLog, u);
    var s, r := SymbolTable(norm, tableLog)[u], Rank(SymbolTable(norm, tableLog), u);
    CellFacts(norm, tableLog, dt, u, s, r);
    var next := Frequency(norm[s]) + r;
    ScaledBelow(next, dt.cells[u].nbBits, HighBit(next));
    if dt.fastMode {
      Pow2Monotone(1, tableLog - 1);
      assert norm[s] < Pow2(tableLog - 1);
      FastBits(Frequency(norm[s]), r, tableLog);
    }
  }
}
