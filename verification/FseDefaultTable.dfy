/** The decoding table of the default distribution of literal lengths. */
module FseDefaultTable {
  import opened Pow2Lemmas
  import opened BitArithmetic
  import opened Counting
  import opened FseNorm
  import opened FseSpread
  import opened FseTables

  function LiteralLengths(): seq<int> {
    [4, 3, 2, 2, 2, 2, 2, 2]
    + [2, 2, 2, 2, 2, 1, 1, 1]
    + [2, 2, 2, 2, 2, 2, 2, 2]
    + [2, 3, 2, 1, 1, 1, 1, 1]
    + [-1, -1, -1, -1]
  }

  // ----- The distribution by formula -----

  function Share(s: nat): nat {
    if s == 0 then 4 else if s == 1 || s == 25 then 3 else if s <= 12 then 2 else if s <= 15 then 1
    else if s <= 26 then 2 else 1
  }

  lemma ShareIs(s: nat)
    requires s < 36
    ensures |LiteralLengths()| == 36 && LiteralLengths()[s] == if s < 32 then Share(s) else -1
  {
    var a, b, c, d: seq<int> := [4, 3, 2, 2, 2, 2, 2, 2], [2, 2, 2, 2, 2, 1, 1, 1], [2, 2, 2, 2, 2, 2, 2, 2],
      [2, 3, 2, 1, 1, 1, 1, 1];
    if s < 8 {
      assert LiteralLengths()[s] == a[s];
    } else if s < 16 {
      assert LiteralLengths()[s] == b[s - 8];
    } else if s < 24 {
      assert LiteralLengths()[s] == c[s - 16];
    } else if s < 32 {
      assert LiteralLengths()[s] == d[s - 24];
    }
  }

  /** Where the copies of a symbol start when all are laid down in order. */
  function Start(s: nat): nat {
    if s == 0 then 0 else if s == 1 then 4 else if s <= 13 then 2 * s + 3 else if s <= 16 then s + 16
    else if s <= 25 then 2 * s else if s == 26 then 53 else s + 28
  }

  /** The laid symbol at a place. */
  function LaidSymbol(i: nat): nat {
    if i < 4 then 0 else if i < 7 then 1 else if i < 29 then (i - 3) / 2 else if i < 32 then i - 16
    else if i < 50 then i / 2 else if i < 53 then 25 else if i < 55 then 26 else i - 28
  }

  lemma StartIs(s: nat)
    requires s < 32
    ensures Start(s + 1) == Start(s) + Share(s) <= 60
    ensures forall i :: 0 <= i < 60 ==> (LaidSymbol(i) == s <==> Start(s) <= i < Start(s + 1))
  {
  }

  lemma {:induction false} LowIs(s: nat)
    requires s <= 36
    ensures |LiteralLengths()| == 36 && LowBefore(LiteralLengths(), s) == if s <= 32 then 0 else s - 32
    decreases s
  {
    ShareIs(if s > 0 then s - 1 else 0);
    if s > 0 {
      LowIs(s - 1);
    }
  }

  lemma {:induction false} StatesAre(s: nat)
    requires s <= 36
    ensures |LiteralLengths()| == 36 && Counts(LiteralLengths())
    ensures StatesBefore(LiteralLengths(), s) == if s <= 32 then Start(s) else s + 28
    decreases s
  {
    forall k | 0 <= k < 36 ensures LiteralLengths()[k] >= -1 {
      ShareIs(k);
    }
    ShareIs(if s > 0 then s - 1 else 0);
    if s > 0 {
      StatesAre(s - 1);
    }
  }

  lemma IsNormalized()
    ensures Normalized(LiteralLengths(), 6) && |LiteralLengths()| == 36 && Pow2(6) == 64
    ensures High(LiteralLengths(), 6, 36) == 59
  {
    assert Pow2(6) == 64;
    StatesAre(36);
    LowIs(36);
  }

  lemma {:induction false} LaidIs(s: nat)
    requires s <= 36
    ensures |LiteralLengths()| == 36 && |Laid(LiteralLengths(), s)| == (if s <= 32 then Start(s) else 60)
    ensures forall i :: 0 <= i < |Laid(LiteralLengths(), s)| ==> Laid(LiteralLengths(), s)[i] == LaidSymbol(i)
    decreases s
  {
    ShareIs(if s > 0 then s - 1 else 0);
    if s > 0 {
      LaidIs(s - 1);
      if s <= 32 {
        StartIs(s - 1);
      }
    }
  }

  // ----- The walk -----

  lemma PositionIs(k: nat)
    ensures Position(6, k) == 43 * k % 64
  {
    assert Pow2(6) == 64 && Step(64) == 43;
  }

  /** The step that goes to a cell. */
  function StepAt(u: nat): nat {
    3 * u % 64
  }

  /** How many symbols are placed before a step: all but four steps place one. */
  function Placed(k: nat): nat {
    if k <= 52 then k else if k <= 55 then k - 1 else if k <= 58 then k - 2 else if k <= 61 then k - 3 else k - 4
  }

  /** Three undoes 43. */
  lemma StepUndone(k: nat, u: nat)
    ensures k < 64 ==> StepAt(43 * k % 64) == k
    ensures u < 64 ==> 43 * StepAt(u) % 64 == u
  {
    var a, q := 43 * k / 64, 43 * k % 64;
    if k < 64 {
      assert 3 * q == (2 * k - 3 * a) * 64 + k;
      DivideIs(3 * q, 64, 2 * k - 3 * a, k);
    }
    var b, p := 3 * u / 64, 3 * u % 64;
    if u < 64 {
      assert 43 * p == (2 * u - 43 * b) * 64 + u;
      DivideIs(43 * p, 64, 2 * u - 43 * b, u);
    }
  }

  lemma OneMorePlaced(k: nat)
    requires k < 64
    ensures Placed(k + 1) == Placed(k) + if 43 * k % 64 <= 59 then 1 else 0
  {
    StepUndone(k, 60);
    StepUndone(k, 61);
    StepUndone(k, 62);
    StepUndone(k, 63);
    if k == 52 || k == 55 || k == 58 || k == 61 {
      assert 43 * k % 64 > 59;
    }
  }

  lemma {:induction false} PlacedIs(k: nat)
    requires k <= 64 && Normalized(LiteralLengths(), 6)
    ensures SpreadAt(LiteralLengths(), 6, k).used == Placed(k)
    decreases k
  {
    IsNormalized();
    hide Normalized, LiteralLengths, Laid, LowCells, Position, LowBefore, Pow2;
    if k > 0 {
      PlacedIs(k - 1);
      PositionIs(k - 1);
      OneMorePlaced(k - 1);
      hide Placed;
      if 43 * (k - 1) % 64 <= 59 {
        PlaceStep(LiteralLengths(), 6, k - 1);
      }
    }
  }

  /** The laid symbol that is placed in a cell. */
  function LaidAt(u: nat): nat
    requires u < 64
  {
    Placed(StepAt(u))
  }

  /** The symbol of a cell. */
  function Symbol(u: nat): nat
    requires u < 64
  {
    if u <= 59 then LaidSymbol(LaidAt(u)) else 95 - u
  }

  /** And the cell of a laid symbol. */
  function StepOf(i: nat): nat {
    if i < 52 then i else if i < 54 then i + 1 else if i < 56 then i + 2 else if i < 58 then i + 3 else i + 4
  }

  function CellAt(i: nat): nat {
    43 * StepOf(i) % 64
  }

  lemma ThereAndBack(u: nat, i: nat)
    ensures u <= 59 ==> LaidAt(u) < 60 && CellAt(LaidAt(u)) == u
    ensures i < 60 ==> CellAt(i) <= 59 && LaidAt(CellAt(i)) == i
  {
    if u <= 59 {
      OneMorePlaced(StepAt(u));
      StepUndone(0, u);
      assert StepOf(Placed(StepAt(u))) == StepAt(u);
    }
    if i < 60 {
      StepUndone(StepOf(i), 0);
      OneMorePlaced(StepOf(i));
    }
  }

  lemma LowSymbols(p: nat)
    requires 59 < p < 64
    ensures |LiteralLengths()| == 36 && LowBefore(LiteralLengths(), 36) == 4 && Pow2(6) == 64
    ensures LowCells(LiteralLengths(), 6, 36)[p] == 95 - p
  {
    assert Pow2(6) == 64;
    LowIs(36);
    LowIs(35);
    LowIs(34);
    LowIs(33);
    LowIs(32);
    ShareIs(35);
    ShareIs(34);
    ShareIs(33);
    ShareIs(32);
    hide LiteralLengths;
    assert LowCells(LiteralLengths(), 6, 33)[63] == 32;
    assert LowCells(LiteralLengths(), 6, 34)[62] == 33 && LowCells(LiteralLengths(), 6, 34)[63] == 32;
    assert LowCells(LiteralLengths(), 6, 35)[61] == 34;
  }

  lemma SymbolIs(u: nat)
    requires u < 64 && Normalized(LiteralLengths(), 6)
    ensures SymbolTable(LiteralLengths(), 6)[u] == Symbol(u)
  {
    IsNormalized();
    hide Normalized, LiteralLengths, Laid, LowCells, Position, LowBefore, Pow2, SpreadAt;
    if u <= 59 {
      StepUndone(0, u);
      ThereAndBack(u, 0);
      PositionIs(StepAt(u));
      PlacedIs(StepAt(u));
      LaidCell(LiteralLengths(), 6, StepAt(u));
      LaidIs(36);
    } else {
      LowCell(LiteralLengths(), 6, u, 64);
      LowSymbols(u);
    }
  }

  // ----- The cells of a symbol, in the order of the table -----

  function Below(i: nat, u: nat): nat {
    if CellAt(i) < u then 1 else 0
  }

  /** How many cells before `u` a symbol has. */
  function CellsBefore(v: nat, u: nat): nat {
    if v >= 32 then (if v < 36 && 95 - v < u then 1 else 0)
    else
      Below(Start(v), u) + (if Share(v) > 1 then Below(Start(v) + 1, u) else 0)
      + (if Share(v) > 2 then Below(Start(v) + 2, u) else 0) + (if Share(v) > 3 then Below(Start(v) + 3, u) else 0)
  }

  lemma BelowStep(i: nat, u: nat)
    requires i < 60 && u < 64
    ensures Below(i, u + 1) == Below(i, u) + if u <= 59 && LaidAt(u) == i then 1 else 0
  {
    hide LaidAt;
    ThereAndBack(u, i);
  }

  lemma CellsStep(v: nat, u: nat)
    requires v < 36 && u < 64
    ensures CellsBefore(v, u + 1) == CellsBefore(v, u) + if Symbol(u) == v then 1 else 0
  {
    if v < 32 {
      StartIs(v);
      var i := Start(v);
      BelowStep(i, u);
      if Share(v) > 1 { BelowStep(i + 1, u); }
      if Share(v) > 2 { BelowStep(i + 2, u); }
      if Share(v) > 3 { BelowStep(i + 3, u); }
      ThereAndBack(u, 0);
    }
    SymbolBound(u);
    hide LaidAt, Below, Start, Share, LaidSymbol;
  }

  lemma SymbolBound(u: nat)
    requires u < 64
    ensures Symbol(u) < 36 && (Symbol(u) < 32 <==> u <= 59)
  {
    hide LaidAt;
    ThereAndBack(u, 0);
  }

  lemma {:induction false} CellsAre(table: seq<int>, v: nat, u: nat)
    requires |table| == 64 && v < 36 && u <= 64 && forall p :: 0 <= p < 64 ==> table[p] == Symbol(p)
    ensures Count<int>(table[..u], v) == CellsBefore(v, u)
    decreases u
  {
    hide Symbol, CellsBefore;
    if u == 0 {
      NoneBefore(v);
    } else {
      CellsAre(table, v, u - 1);
      CellsStep(v, u - 1);
      assert table[..u][..u - 1] == table[..u - 1];
    }
  }

  lemma NoneBefore(v: nat)
    ensures CellsBefore(v, 0) == 0
  {
  }

  /** The state of a symbol that a cell stands for, and what the cell holds. */
  function Next(u: nat): nat
    requires u < 64
  {
    (if Symbol(u) < 32 then Share(Symbol(u)) else 1) + CellsBefore(Symbol(u), u)
  }

  function CellFor(symbol: nat, next: nat): DCell {
    if next < 2 then DCell(0, symbol, 6) else if next < 4 then DCell((next - 2) * 32, symbol, 5)
    else DCell(if next < 8 then (next - 4) * 16 else 0, symbol, 4)
  }

  lemma CellForIs(cell: DCell, symbol: nat, next: nat)
    requires 0 < next < 8 && cell.symbol == symbol
    requires cell.nbBits + HighBit(next) == 6 && cell.newState + 64 == next * Pow2(cell.nbBits)
    ensures cell == CellFor(symbol, next)
  {
    assert Pow2(0) == 1 && Pow2(1) == 2 && Pow2(2) == 4 && Pow2(4) == 16 && Pow2(5) == 32 && Pow2(6) == 64;
    HighBitIs(next, if next == 1 then 0 else if next < 4 then 1 else 2);
  }

  lemma NextBound(u: nat)
    requires u < 64
    ensures 0 < Next(u) < 8 && Symbol(u) < 36
  {
    SymbolBound(u);
    CellsStep(Symbol(u), u);
    CellsAtMost(Symbol(u), u + 1);
    hide Symbol, CellsBefore;
  }

  lemma CellsAtMost(v: nat, u: nat)
    ensures CellsBefore(v, u) <= (if v < 32 then Share(v) else 1) <= 4
  {
    hide CellAt, Start;
  }

  lemma RankIs(table: seq<int>, u: nat)
    requires Normalized(LiteralLengths(), 6) && table == SymbolTable(LiteralLengths(), 6) && u < 64
    ensures |table| == 64 && table[u] == Symbol(u) && Rank(table, u) == CellsBefore(Symbol(u), u)
  {
    hide Normalized, LiteralLengths, Symbol, SymbolTable, CellsBefore, Pow2;
    SixtyFour();
    forall p | 0 <= p < 64 ensures table[p] == Symbol(p) {
      SymbolIs(p);
    }
    SymbolBound(u);
    CellsAre(table, Symbol(u), u);
  }

  lemma SixtyFour()
    ensures Pow2(6) == 64
  {
  }

  lemma TableCell(dt: DTable, norm: seq<int>, tableLog: nat, u: nat)
    requires Normalized(norm, tableLog) && IsDTable(dt, norm, tableLog) && u < Pow2(tableLog)
    ensures |dt.cells| == Pow2(tableLog) && CellIs(dt.cells[u], norm, SymbolTable(norm, tableLog), u, tableLog)
  {
    hide SymbolTable, Normalized;
  }

  lemma CellNext(cell: DCell, norm: seq<int>, table: seq<int>, u: nat, symbol: nat, share: int, rank: nat)
    requires u < |table| && Counts(norm) && CellIs(cell, norm, table, u, 6)
    requires symbol < |norm| && table[u] == symbol && norm[symbol] == share && Rank(table, u) == rank
    requires 0 < Frequency(share) + rank < 8
    ensures cell == CellFor(symbol, Frequency(share) + rank)
  {
    hide Rank, Pow2, HighBit, CellFor;
    SixtyFour();
    CellForIs(cell, symbol, Frequency(share) + rank);
  }

  lemma RowIs(dt: DTable, u: nat)
    requires Normalized(LiteralLengths(), 6) && IsDTable(dt, LiteralLengths(), 6) && u < 64
    ensures |dt.cells| == 64 && dt.cells[u] == CellFor(Symbol(u), Next(u))
  {
    NextBound(u);
    ShareIs(Symbol(u));
    IsNormalized();
    hide LiteralLengths, Symbol, SymbolTable, CellsBefore, Pow2, CellFor, HighBit, Rank, Share, IsDTable, CellIs,
         StatesBefore;
    var table := SymbolTable(LiteralLengths(), 6);
    TableCell(dt, LiteralLengths(), 6, u);
    RankIs(table, u);
    var v := Symbol(u);
    CellNext(dt.cells[u], LiteralLengths(), table, u, v, LiteralLengths()[v], CellsBefore(v, u));
  }

  // ----- The table -----

  function Quarter0(): seq<DCell> {
    [DCell(0, 0, 4), DCell(16, 0, 4), DCell(32, 1, 5), DCell(0, 3, 5)]
    + [DCell(0, 4, 5), DCell(0, 6, 5), DCell(0, 7, 5), DCell(0, 9, 5)]
    + [DCell(0, 10, 5), DCell(0, 12, 5), DCell(0, 14, 6), DCell(0, 16, 5)]
    + [DCell(0, 18, 5), DCell(0, 19, 5), DCell(0, 21, 5), DCell(0, 22, 5)]
  }

  function Quarter1(): seq<DCell> {
    [DCell(0, 24, 5), DCell(32, 25, 5), DCell(0, 26, 5), DCell(0, 27, 6)]
    + [DCell(0, 29, 6), DCell(0, 31, 6), DCell(32, 0, 4), DCell(0, 1, 4)]
    + [DCell(0, 2, 5), DCell(32, 4, 5), DCell(0, 5, 5), DCell(32, 7, 5)]
    + [DCell(0, 8, 5), DCell(32, 10, 5), DCell(0, 11, 5), DCell(0, 13, 6)]
  }

  function Quarter2(): seq<DCell> {
    [DCell(32, 16, 5), DCell(0, 17, 5), DCell(32, 19, 5), DCell(0, 20, 5)]
    + [DCell(32, 22, 5), DCell(0, 23, 5), DCell(0, 25, 4), DCell(16, 25, 4)]
    + [DCell(32, 26, 5), DCell(0, 28, 6), DCell(0, 30, 6), DCell(48, 0, 4)]
    + [DCell(16, 1, 4), DCell(32, 2, 5), DCell(32, 3, 5), DCell(32, 5, 5)]
  }

  function Quarter3(): seq<DCell> {
    [DCell(32, 6, 5), DCell(32, 8, 5), DCell(32, 9, 5), DCell(32, 11, 5)]
    + [DCell(32, 12, 5), DCell(0, 15, 6), DCell(32, 17, 5), DCell(32, 18, 5)]
    + [DCell(32, 20, 5), DCell(32, 21, 5), DCell(32, 23, 5), DCell(32, 24, 5)]
    + [DCell(0, 35, 6), DCell(0, 34, 6), DCell(0, 33, 6), DCell(0, 32, 6)]
  }

  /** What a cell of the default table holds. */
  function Cell(u: nat): DCell
    requires u < 64
  {
    CellFor(Symbol(u), Next(u))
  }

  /** With the place in the laid symbols, the symbol, and the number of cells it has before. */
  lemma CellFrom(u: nat, i: nat, symbol: nat, rank: nat)
    requires u <= 59 && Placed(StepAt(u)) == i && LaidSymbol(i) == symbol < 32 && CellsBefore(symbol, u) == rank
    ensures Cell(u) == CellFor(symbol, Share(symbol) + rank)
  {
    hide CellsBefore, Share, CellFor;
  }

  lemma CellLow(u: nat)
    requires 60 <= u < 64
    ensures Cell(u) == DCell(0, 95 - u, 6)
  {
  }

  lemma Cells0()
    ensures Cell(0) == DCell(0, 0, 4) && Cell(1) == DCell(16, 0, 4)
    ensures Cell(2) == DCell(32, 1, 5) && Cell(3) == DCell(0, 3, 5)
  {
    hide Cell;
    CellFrom(0, 0, 0, 0);
    CellFrom(1, 3, 0, 1);
    CellFrom(2, 6, 1, 0);
    CellFrom(3, 9, 3, 0);
  }

  lemma Cells1()
    ensures Cell(4) == DCell(0, 4, 5) && Cell(5) == DCell(0, 6, 5)
    ensures Cell(6) == DCell(0, 7, 5) && Cell(7) == DCell(0, 9, 5)
  {
    hide Cell;
    CellFrom(4, 12, 4, 0);
    CellFrom(5, 15, 6, 0);
    CellFrom(6, 18, 7, 0);
    CellFrom(7, 21, 9, 0);
  }

  lemma Cells2()
    ensures Cell(8) == DCell(0, 10, 5) && Cell(9) == DCell(0, 12, 5)
    ensures Cell(10) == DCell(0, 14, 6) && Cell(11) == DCell(0, 16, 5)
  {
    hide Cell;
    CellFrom(8, 24, 10, 0);
    CellFrom(9, 27, 12, 0);
    CellFrom(10, 30, 14, 0);
    CellFrom(11, 33, 16, 0);
  }

  lemma Cells3()
    ensures Cell(12) == DCell(0, 18, 5) && Cell(13) == DCell(0, 19, 5)
    ensures Cell(14) == DCell(0, 21, 5) && Cell(15) == DCell(0, 22, 5)
  {
    hide Cell;
    CellFrom(12, 36, 18, 0);
    CellFrom(13, 39, 19, 0);
    CellFrom(14, 42, 21, 0);
    CellFrom(15, 45, 22, 0);
  }

  lemma Cells4()
    ensures Cell(16) == DCell(0, 24, 5) && Cell(17) == DCell(32, 25, 5)
    ensures Cell(18) == DCell(0, 26, 5) && Cell(19) == DCell(0, 27, 6)
  {
    hide Cell;
    CellFrom(16, 48, 24, 0);
    CellFrom(17, 51, 25, 0);
    CellFrom(18, 53, 26, 0);
    CellFrom(19, 55, 27, 0);
  }

  lemma Cells5()
    ensures Cell(20) == DCell(0, 29, 6) && Cell(21) == DCell(0, 31, 6)
    ensures Cell(22) == DCell(32, 0, 4) && Cell(23) == DCell(0, 1, 4)
  {
    hide Cell;
    CellFrom(20, 57, 29, 0);
    CellFrom(21, 59, 31, 0);
    CellFrom(22, 2, 0, 2);
    CellFrom(23, 5, 1, 1);
  }

  lemma Cells6()
    ensures Cell(24) == DCell(0, 2, 5) && Cell(25) == DCell(32, 4, 5)
    ensures Cell(26) == DCell(0, 5, 5) && Cell(27) == DCell(32, 7, 5)
  {
    hide Cell;
    CellFrom(24, 8, 2, 0);
    CellFrom(25, 11, 4, 1);
    CellFrom(26, 14, 5, 0);
    CellFrom(27, 17, 7, 1);
  }

  lemma Cells7()
    ensures Cell(28) == DCell(0, 8, 5) && Cell(29) == DCell(32, 10, 5)
    ensures Cell(30) == DCell(0, 11, 5) && Cell(31) == DCell(0, 13, 6)
  {
    hide Cell;
    CellFrom(28, 20, 8, 0);
    CellFrom(29, 23, 10, 1);
    CellFrom(30, 26, 11, 0);
    CellFrom(31, 29, 13, 0);
  }

  lemma Cells8()
    ensures Cell(32) == DCell(32, 16, 5) && Cell(33) == DCell(0, 17, 5)
    ensures Cell(34) == DCell(32, 19, 5) && Cell(35) == DCell(0, 20, 5)
  {
    hide Cell;
    CellFrom(32, 32, 16, 1);
    CellFrom(33, 35, 17, 0);
    CellFrom(34, 38, 19, 1);
    CellFrom(35, 41, 20, 0);
  }

  lemma Cells9()
    ensures Cell(36) == DCell(32, 22, 5) && Cell(37) == DCell(0, 23, 5)
    ensures Cell(38) == DCell(0, 25, 4) && Cell(39) == DCell(16, 25, 4)
  {
    hide Cell;
    CellFrom(36, 44, 22, 1);
    CellFrom(37, 47, 23, 0);
    CellFrom(38, 50, 25, 1);
    CellFrom(39, 52, 25, 2);
  }

  lemma Cells10()
    ensures Cell(40) == DCell(32, 26, 5) && Cell(41) == DCell(0, 28, 6)
    ensures Cell(42) == DCell(0, 30, 6) && Cell(43) == DCell(48, 0, 4)
  {
    hide Cell;
    CellFrom(40, 54, 26, 1);
    CellFrom(41, 56, 28, 0);
    CellFrom(42, 58, 30, 0);
    CellFrom(43, 1, 0, 3);
  }

  lemma Cells11()
    ensures Cell(44) == DCell(16, 1, 4) && Cell(45) == DCell(32, 2, 5)
    ensures Cell(46) == DCell(32, 3, 5) && Cell(47) == DCell(32, 5, 5)
  {
    hide Cell;
    CellFrom(44, 4, 1, 2);
    CellFrom(45, 7, 2, 1);
    CellFrom(46, 10, 3, 1);
    CellFrom(47, 13, 5, 1);
  }

  lemma Cells12()
    ensures Cell(48) == DCell(32, 6, 5) && Cell(49) == DCell(32, 8, 5)
    ensures Cell(50) == DCell(32, 9, 5) && Cell(51) == DCell(32, 11, 5)
  {
    hide Cell;
    CellFrom(48, 16, 6, 1);
    CellFrom(49, 19, 8, 1);
    CellFrom(50, 22, 9, 1);
    CellFrom(51, 25, 11, 1);
  }

  lemma Cells13()
    ensures Cell(52) == DCell(32, 12, 5) && Cell(53) == DCell(0, 15, 6)
    ensures Cell(54) == DCell(32, 17, 5) && Cell(55) == DCell(32, 18, 5)
  {
    hide Cell;
    CellFrom(52, 28, 12, 1);
    CellFrom(53, 31, 15, 0);
    CellFrom(54, 34, 17, 1);
    CellFrom(55, 37, 18, 1);
  }

  lemma Cells14()
    ensures Cell(56) == DCell(32, 20, 5) && Cell(57) == DCell(32, 21, 5)
    ensures Cell(58) == DCell(32, 23, 5) && Cell(59) == DCell(32, 24, 5)
  {
    hide Cell;
    CellFrom(56, 40, 20, 1);
    CellFrom(57, 43, 21, 1);
    CellFrom(58, 46, 23, 1);
    CellFrom(59, 49, 24, 1);
  }

  lemma Cells15()
    ensures Cell(60) == DCell(0, 35, 6) && Cell(61) == DCell(0, 34, 6)
    ensures Cell(62) == DCell(0, 33, 6) && Cell(63) == DCell(0, 32, 6)
  {
    hide Cell;
    CellLow(60);
    CellLow(61);
    CellLow(62);
    CellLow(63);
  }

  lemma Row(s: seq<DCell>, n: nat)
    requires n + 4 <= |s| == 64 && forall u :: 0 <= u < 64 ==> s[u] == Cell(u)
    ensures s[n..n + 4] == [Cell(n), Cell(n + 1), Cell(n + 2), Cell(n + 3)]
  {
    hide Cell;
  }

  lemma QuarterIs0(s: seq<DCell>)
    requires |s| == 64 && forall u :: 0 <= u < 64 ==> s[u] == Cell(u)
    ensures s[0..16] == Quarter0()
  {
    hide Cell;
    FourRows(s, 0);
    Cells0();
    Row(s, 0);
    Cells1();
    Row(s, 4);
    Cells2();
    Row(s, 8);
    Cells3();
    Row(s, 12);
  }

  lemma QuarterIs1(s: seq<DCell>)
    requires |s| == 64 && forall u :: 0 <= u < 64 ==> s[u] == Cell(u)
    ensures s[16..32] == Quarter1()
  {
    hide Cell;
    FourRows(s, 16);
    Cells4();
    Row(s, 16);
    Cells5();
    Row(s, 20);
    Cells6();
    Row(s, 24);
    Cells7();
    Row(s, 28);
  }

  lemma QuarterIs2(s: seq<DCell>)
    requires |s| == 64 && forall u :: 0 <= u < 64 ==> s[u] == Cell(u)
    ensures s[32..48] == Quarter2()
  {
    hide Cell;
    FourRows(s, 32);
    Cells8();
    Row(s, 32);
    Cells9();
    Row(s, 36);
    Cells10();
    Row(s, 40);
    Cells11();
    Row(s, 44);
  }

  lemma QuarterIs3(s: seq<DCell>)
    requires |s| == 64 && forall u :: 0 <= u < 64 ==> s[u] == Cell(u)
    ensures s[48..64] == Quarter3()
  {
    hide Cell;
    FourRows(s, 48);
    Cells12();
    Row(s, 48);
    Cells13();
    Row(s, 52);
    Cells14();
    Row(s, 56);
    Cells15();
    Row(s, 60);
  }

  lemma FourRows(s: seq<DCell>, n: nat)
    requires n + 16 <= |s|
    ensures s[n..n + 16] == s[n..n + 4] + s[n + 4..n + 8] + s[n + 8..n + 12] + s[n + 12..n + 16]
  {
  }

  lemma AllCells(dt: DTable)
    requires Normalized(LiteralLengths(), 6) && IsDTable(dt, LiteralLengths(), 6)
    ensures |dt.cells| == 64 && forall u :: 0 <= u < 64 ==> dt.cells[u] == Cell(u)
  {
    hide Normalized, IsDTable, LiteralLengths, Cell;
    RowIs(dt, 0);
    forall u | 0 <= u < 64 ensures dt.cells[u] == Cell(u) {
      RowIs(dt, u);
      CellIs64(u);
    }
  }

  lemma CellIs64(u: nat)
    requires u < 64
    ensures Cell(u) == CellFor(Symbol(u), Next(u))
  {
    hide Symbol, Next, CellFor;
  }

  lemma FourQuarters(s: seq<DCell>)
    requires |s| == 64 && forall u :: 0 <= u < 64 ==> s[u] == Cell(u)
    ensures s == Quarter0() + Quarter1() + Quarter2() + Quarter3()
  {
    QuarterIs0(s);
    QuarterIs1(s);
    QuarterIs2(s);
    QuarterIs3(s);
    hide Quarter0, Quarter1, Quarter2, Quarter3, Cell;
    assert s == s[0..16] + s[16..32] + s[32..48] + s[48..64];
  }

  lemma IsFast(dt: DTable)
    requires Normalized(LiteralLengths(), 6) && IsDTable(dt, LiteralLengths(), 6)
    ensures dt.tableLog == 6 && dt.fastMode
  {
    forall s | 0 <= s < 36 ensures |LiteralLengths()| == 36 && LiteralLengths()[s] < 32 {
      ShareIs(s);
    }
    assert Pow2(5) == 32;
    hide LiteralLengths, Normalized, SymbolTable, CellIs;
  }

  /** The table built for the default distribution is the one that is written out: next state, symbol and number of bits
      of every cell. */
  lemma DefaultTable(dt: DTable)
    requires Normalized(LiteralLengths(), 6) && IsDTable(dt, LiteralLengths(), 6)
    ensures dt.cells == Quarter0() + Quarter1() + Quarter2() + Quarter3() && dt.tableLog == 6 && dt.fastMode
  {
    hide Normalized, IsDTable, LiteralLengths, Cell, Quarter0, Quarter1, Quarter2, Quarter3;
    AllCells(dt);
    FourQuarters(dt.cells);
    IsFast(dt);
  }
}
