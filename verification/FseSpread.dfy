/** Spreading the symbols of a distribution over the table of states. */
module FseSpread {
  import opened Pow2Lemmas
  import opened Counting
  import opened FseNorm

  // A cell no symbol has been assigned to yet.
  const BLANK := -1

  ghost function Repeat(v: int, n: nat): (r: seq<int>)
    ensures |r| == n && forall i :: 0 <= i < n ==> r[i] == v
  {
    if n == 0 then [] else Repeat(v, n - 1) + [v]
  }

  function Copies(count: int): nat {
    if count > 0 then count else 0
  }

  /** The symbols before `s` in order, each as often as its count; those of low probability are left out. */
  ghost function Laid(norm: seq<int>, s: nat): seq<int>
    requires s <= |norm|
  {
    if s == 0 then [] else Laid(norm, s - 1) + Repeat(s - 1, Copies(norm[s - 1]))
  }

  /** The last cell below those of the low-probability symbols before `s`. */
  ghost function High(norm: seq<int>, tableLog: nat, s: nat): int
    requires s <= |norm|
  {
    Pow2(tableLog) - 1 - LowBefore(norm, s)
  }

  /** The table with only the low-probability symbols before `s`, which take one cell each from the end down. */
  ghost function LowCells(norm: seq<int>, tableLog: nat, s: nat): (cells: seq<int>)
    requires s <= |norm| && LowBefore(norm, |norm|) <= Pow2(tableLog)
    ensures |cells| == Pow2(tableLog)
  {
    if s == 0 then Repeat(BLANK, Pow2(tableLog))
    else
      LowMonotone(norm, s, |norm|);
      var cells := LowCells(norm, tableLog, s - 1);
      if norm[s - 1] == -1 then cells[High(norm, tableLog, s - 1) := s - 1] else cells
  }

  datatype Spread = Spread(table: seq<int>, used: nat)

  /** At each step the next laid symbol goes to the cell, unless a low-probability symbol is there. */
  ghost function Place(sp: Spread, p: nat, laid: seq<int>, high: int): Spread
    requires p < |sp.table|
  {
    if p <= high && sp.used < |laid| then Spread(sp.table[p := laid[sp.used]], sp.used + 1) else sp
  }

  /** The table after k steps. */
  ghost function SpreadAt(norm: seq<int>, tableLog: nat, k: nat): (sp: Spread)
    requires Normalized(norm, tableLog)
    ensures |sp.table| == Pow2(tableLog)
  {
    LowAtMostStates(norm, |norm|);
    if k == 0 then Spread(LowCells(norm, tableLog, |norm|), 0)
    else Place(SpreadAt(norm, tableLog, k - 1), Position(tableLog, k - 1),
               Laid(norm, |norm|), High(norm, tableLog, |norm|))
  }

  /** The symbol of every state. */
  ghost function SymbolTable(norm: seq<int>, tableLog: nat): (table: seq<int>)
    requires Normalized(norm, tableLog)
    ensures |table| == Pow2(tableLog)
  {
    SpreadAt(norm, tableLog, Pow2(tableLog)).table
  }

  // ----- Every symbol gets as many cells as its frequency -----

  lemma {:induction false} CountRepeat(v: int, n: nat, w: int)
    ensures Count(Repeat(v, n), w) == if v == w then n else 0
  {
    if n > 0 {
      CountRepeat(v, n - 1, w);
      CountSnoc(Repeat(v, n - 1), v, w);
    }
  }

  lemma {:induction false} CountAppend(s: seq<int>, t: seq<int>, w: int)
    ensures Count(s + t, w) == Count(s, w) + Count(t, w)
    decreases |t|
  {
    if t == [] {
      assert s + t == s;
    } else {
      var u := t[..|t| - 1];
      CountAppend(s, u, w);
      CountSnoc(s + u, t[|t| - 1], w);
      assert s + t == (s + u) + [t[|t| - 1]];
    }
  }

  lemma {:induction false} LaidCount(norm: seq<int>, s: nat, v: int)
    requires s <= |norm|
    ensures Count(Laid(norm, s), v) == if 0 <= v < s then Copies(norm[v]) else 0
  {
    if s > 0 {
      LaidCount(norm, s - 1, v);
      CountRepeat(s - 1, Copies(norm[s - 1]), v);
      CountAppend(Laid(norm, s - 1), Repeat(s - 1, Copies(norm[s - 1])), v);
    }
  }

  lemma {:induction false} LaidLength(norm: seq<int>, s: nat)
    requires s <= |norm| && Counts(norm)
    ensures |Laid(norm, s)| == StatesBefore(norm, s) - LowBefore(norm, s)
    ensures forall i :: 0 <= i < |Laid(norm, s)| ==> 0 <= Laid(norm, s)[i] < s
  {
    if s > 0 {
      LaidLength(norm, s - 1);
    }
  }

  lemma {:induction false} LowCellsBlank(norm: seq<int>, tableLog: nat, s: nat)
    requires s <= |norm| && LowBefore(norm, |norm|) <= Pow2(tableLog)
    ensures forall p :: 0 <= p < Pow2(tableLog) ==>
      (LowCells(norm, tableLog, s)[p] == BLANK <==> p <= High(norm, tableLog, s))
    ensures forall p :: 0 <= p < Pow2(tableLog) ==> -1 <= LowCells(norm, tableLog, s)[p] < s
  {
    LowMonotone(norm, s, |norm|);
    if s > 0 {
      LowCellsBlank(norm, tableLog, s - 1);
    }
  }

  lemma {:induction false} LowCellsCount(norm: seq<int>, tableLog: nat, s: nat, v: int)
    requires s <= |norm| && LowBefore(norm, |norm|) <= Pow2(tableLog)
    ensures Count(LowCells(norm, tableLog, s), v) ==
      if v == BLANK then High(norm, tableLog, s) + 1 else if 0 <= v < s && norm[v] == -1 then 1 else 0
  {
    LowMonotone(norm, s, |norm|);
    if s == 0 {
      CountRepeat(BLANK, Pow2(tableLog), v);
    } else {
      LowCellsCount(norm, tableLog, s - 1, v);
      if norm[s - 1] == -1 {
        LowCellsBlank(norm, tableLog, s - 1);
        CountUpdate(LowCells(norm, tableLog, s - 1), High(norm, tableLog, s - 1), s - 1, v);
      }
    }
  }

  /** The blank cells are those the walk has yet to reach. */
  ghost predicate BlankAhead(table: seq<int>, tableLog: nat, high: int, k: nat) {
    |table| == Pow2(tableLog) &&
    forall p :: 0 <= p < |table| ==> (table[p] == BLANK <==> p <= high && StepTo(tableLog, p) >= k)
  }

  lemma PlaceKeepsBlanks(sp: Spread, tableLog: nat, laid: seq<int>, high: int, k: nat)
    requires tableLog >= MIN_TABLELOG && k < Pow2(tableLog) && BlankAhead(sp.table, tableLog, high, k)
    requires forall i :: 0 <= i < |laid| ==> laid[i] >= 0
    requires Position(tableLog, k) <= high ==> sp.used < |laid|
    ensures BlankAhead(Place(sp, Position(tableLog, k), laid, high).table, tableLog, high, k + 1)
  {
    var at := Position(tableLog, k);
    EveryCellOnce(tableLog, k);
    forall p | 0 <= p < Pow2(tableLog) && p != at
      ensures StepTo(tableLog, p) != k
    {
      EveryCellOnce(tableLog, p);
    }
  }

  /** The blank cells left are as many as the symbols still to be placed. */
  ghost predicate Balanced(norm: seq<int>, tableLog: nat, sp: Spread, k: nat)
    requires Normalized(norm, tableLog)
  {
    && BlankAhead(sp.table, tableLog, High(norm, tableLog, |norm|), k)
    && Count(sp.table, BLANK) + sp.used == High(norm, tableLog, |norm|) + 1 == |Laid(norm, |norm|)|
  }

  lemma LaidFits(norm: seq<int>, tableLog: nat)
    requires Normalized(norm, tableLog)
    ensures High(norm, tableLog, |norm|) + 1 == |Laid(norm, |norm|)|
    ensures LowBefore(norm, |norm|) <= Pow2(tableLog)
    ensures forall i :: 0 <= i < |Laid(norm, |norm|)| ==> 0 <= Laid(norm, |norm|)[i] < |norm|
  {
    LaidLength(norm, |norm|);
    LowAtMostStates(norm, |norm|);
  }

  /** The symbol of a free cell is still to be placed. */
  lemma CellIsFree(norm: seq<int>, tableLog: nat, sp: Spread, k: nat)
    requires Normalized(norm, tableLog) && Balanced(norm, tableLog, sp, k) && k < Pow2(tableLog)
    requires Position(tableLog, k) <= High(norm, tableLog, |norm|)
    ensures sp.table[Position(tableLog, k)] == BLANK && sp.used < |Laid(norm, |norm|)|
  {
    EveryCellOnce(tableLog, k);
    CountPositive(sp.table, BLANK);
  }

  lemma NoSteps(norm: seq<int>, tableLog: nat)
    requires Normalized(norm, tableLog)
    ensures Balanced(norm, tableLog, SpreadAt(norm, tableLog, 0), 0)
  {
    LaidFits(norm, tableLog);
    LowCellsBlank(norm, tableLog, |norm|);
    LowCellsCount(norm, tableLog, |norm|, BLANK);
  }

  lemma {:induction false} SpreadBalanced(norm: seq<int>, tableLog: nat, k: nat)
    requires Normalized(norm, tableLog) && k <= Pow2(tableLog)
    ensures Balanced(norm, tableLog, SpreadAt(norm, tableLog, k), k)
    decreases k
  {
    hide Position, LowCells, LowBefore, Pow2, StepTo, Laid;
    LaidFits(norm, tableLog);
    if k == 0 {
      NoSteps(norm, tableLog);
    } else {
      SpreadBalanced(norm, tableLog, k - 1);
      var sp := SpreadAt(norm, tableLog, k - 1);
      var high, at := High(norm, tableLog, |norm|), Position(tableLog, k - 1);
      if at <= high {
        CellIsFree(norm, tableLog, sp, k - 1);
        CountUpdate(sp.table, at, Laid(norm, |norm|)[sp.used], BLANK);
      }
      PlaceKeepsBlanks(sp, tableLog, Laid(norm, |norm|), high, k - 1);
    }
  }

  lemma PlaceCount(sp: Spread, at: nat, laid: seq<int>, v: nat, low: nat)
    requires sp.used < |laid| && at < |sp.table| && sp.table[at] == BLANK
    requires Count(sp.table, v) == low + Count(laid[..sp.used], v)
    ensures Count(sp.table[at := laid[sp.used]], v) == low + Count(laid[..sp.used + 1], v)
  {
    CountUpdate(sp.table, at, laid[sp.used], v);
    CountSnoc(laid[..sp.used], laid[sp.used], v);
    assert laid[..sp.used] + [laid[sp.used]] == laid[..sp.used + 1];
  }

  lemma PlaceStep(norm: seq<int>, tableLog: nat, k: nat)
    requires Normalized(norm, tableLog) && k < Pow2(tableLog)
    requires Position(tableLog, k) <= High(norm, tableLog, |norm|)
    ensures var sp, at := SpreadAt(norm, tableLog, k), Position(tableLog, k);
      && sp.used < |Laid(norm, |norm|)| && sp.table[at] == BLANK
      && SpreadAt(norm, tableLog, k + 1) == Spread(sp.table[at := Laid(norm, |norm|)[sp.used]], sp.used + 1)
  {
    SpreadBalanced(norm, tableLog, k);
    CellIsFree(norm, tableLog, SpreadAt(norm, tableLog, k), k);
  }

  lemma {:induction false} SpreadCount(norm: seq<int>, tableLog: nat, k: nat, v: nat, low: nat)
    requires Normalized(norm, tableLog) && k <= Pow2(tableLog)
    requires low == Count(SpreadAt(norm, tableLog, 0).table, v)
    ensures SpreadAt(norm, tableLog, k).used <= |Laid(norm, |norm|)|
    ensures Count(SpreadAt(norm, tableLog, k).table, v) ==
      low + Count(Laid(norm, |norm|)[..SpreadAt(norm, tableLog, k).used], v)
    decreases k
  {
    if k > 0 {
      SpreadCount(norm, tableLog, k - 1, v, low);
      if Position(tableLog, k - 1) <= High(norm, tableLog, |norm|) {
        PlaceStep(norm, tableLog, k - 1);
        PlaceCount(SpreadAt(norm, tableLog, k - 1), Position(tableLog, k - 1), Laid(norm, |norm|), v, low);
      }
    }
  }

  /** Every cell is filled, and every symbol has exactly as many cells as its frequency says. */
  lemma SymbolCells(norm: seq<int>, tableLog: nat, v: nat)
    requires Normalized(norm, tableLog)
    ensures v < |norm| ==> Count(SymbolTable(norm, tableLog), v) == Frequency(norm[v])
    ensures v >= |norm| ==> Count(SymbolTable(norm, tableLog), v) == 0
    ensures SpreadAt(norm, tableLog, Pow2(tableLog)).used == |Laid(norm, |norm|)|
    ensures forall p :: 0 <= p < Pow2(tableLog) ==> SymbolTable(norm, tableLog)[p] != BLANK
  {
    var n := Pow2(tableLog);
    var sp, laid := SpreadAt(norm, tableLog, n), Laid(norm, |norm|);
    SpreadBalanced(norm, tableLog, n);
    CountPositive(sp.table, BLANK);
    assert sp.used == |laid|;
    assert laid[..sp.used] == laid;
    SpreadCount(norm, tableLog, n, v, Count(SpreadAt(norm, tableLog, 0).table, v));
    LowCellsCount(norm, tableLog, |norm|, v);
    LaidCount(norm, |norm|, v);
  }

  // ----- What is in a cell -----

  /** A cell keeps the symbol it was given. */
  lemma {:induction false} Stays(norm: seq<int>, tableLog: nat, k: nat, m: nat)
    requires Normalized(norm, tableLog) && k < m <= Pow2(tableLog)
    ensures SpreadAt(norm, tableLog, m).table[Position(tableLog, k)] ==
      SpreadAt(norm, tableLog, k + 1).table[Position(tableLog, k)]
    decreases m
  {
    hide Position, StepTo, Laid, LowCells, LowBefore, Pow2;
    if k + 1 < m {
      Stays(norm, tableLog, k, m - 1);
      EveryCellOnce(tableLog, k);
      EveryCellOnce(tableLog, m - 1);
    }
  }

  /** The cell of a step has the next laid symbol. */
  lemma LaidCell(norm: seq<int>, tableLog: nat, k: nat)
    requires Normalized(norm, tableLog) && k < Pow2(tableLog)
    requires Position(tableLog, k) <= High(norm, tableLog, |norm|)
    ensures SpreadAt(norm, tableLog, k).used < |Laid(norm, |norm|)|
    ensures SymbolTable(norm, tableLog)[Position(tableLog, k)] == Laid(norm, |norm|)[SpreadAt(norm, tableLog, k).used]
  {
    hide Position, Laid, LowCells, LowBefore, Pow2;
    PlaceStep(norm, tableLog, k);
    Stays(norm, tableLog, k, Pow2(tableLog));
  }

  /** The last cells have the low-probability symbols. */
  lemma {:induction false} LowCell(norm: seq<int>, tableLog: nat, p: nat, m: nat)
    requires Normalized(norm, tableLog) && High(norm, tableLog, |norm|) < p < Pow2(tableLog)
    ensures LowBefore(norm, |norm|) <= Pow2(tableLog)
    ensures SpreadAt(norm, tableLog, m).table[p] == LowCells(norm, tableLog, |norm|)[p]
    decreases m
  {
    hide Position, Laid, LowCells, LowBefore, Pow2;
    LowAtMostStates(norm, |norm|);
    if m > 0 {
      LowCell(norm, tableLog, p, m - 1);
    }
  }

  // ----- The loops that fill the table -----

  /** The table agrees with the specification wherever that has a symbol. */
  ghost predicate Agrees(table: seq<int>, spec: seq<int>) {
    |table| == |spec| && forall p :: 0 <= p < |spec| && spec[p] != BLANK ==> table[p] == spec[p]
  }

  /** Eight copies of a symbol, written at once. */
  method WriteEight(spread: array<int>, at: nat, s: nat)
    requires at + 8 <= spread.Length
    modifies spread
    ensures forall i :: 0 <= i < spread.Length ==> spread[i] == if at <= i < at + 8 then s else old(spread[i])
  {
    for i := 0 to 8
      invariant forall j :: 0 <= j < spread.Length ==> spread[j] == if at <= j < at + i then s else old(spread[j])
    {
      spread[at + i] := s;
    }
  }

  /** n copies of a symbol, eight at a time; what follows them within eight cells may be overwritten too. */
  method WriteCopies(spread: array<int>, pos: nat, s: nat, n: nat)
    requires pos + n + 8 <= spread.Length
    modifies spread
    ensures forall i :: 0 <= i < pos ==> spread[i] == old(spread[i])
    ensures forall i :: pos <= i < pos + n ==> spread[i] == s
  {
    WriteEight(spread, pos, s);
    var i := 8;
    while i < n
      invariant 8 <= i <= n + 7 || i == 8
      invariant forall j :: 0 <= j < pos ==> spread[j] == old(spread[j])
      invariant forall j :: pos <= j < pos + i && j < pos + n ==> spread[j] == s
    {
      WriteEight(spread, pos + i, s);
      i := i + 8;
    }
  }

  lemma LaidPrefix(norm: seq<int>, s: nat)
    requires s < |norm|
    ensures |Laid(norm, s)| + Copies(norm[s]) == |Laid(norm, s + 1)| <= |Laid(norm, |norm|)|
  {
    LaidMonotone(norm, s + 1, |norm|);
  }

  lemma {:induction false} LaidMonotone(norm: seq<int>, s: nat, t: nat)
    requires s <= t <= |norm|
    ensures |Laid(norm, s)| <= |Laid(norm, t)|
    decreases t
  {
    if s < t {
      LaidMonotone(norm, s, t - 1);
    }
  }

  /** Lay the symbols down in order. */
  method LaySymbols(norm: seq<int>, tableLog: nat) returns (spread: array<int>)
    requires Normalized(norm, tableLog) && LowBefore(norm, |norm|) == 0
    ensures fresh(spread) && spread.Length == Pow2(tableLog) + 8
    ensures spread[..Pow2(tableLog)] == Laid(norm, |norm|)
  {
    LaidFits(norm, tableLog);
    spread := new int[Pow2(tableLog) + 8];
    var pos := 0;
    for s := 0 to |norm|
      invariant pos == |Laid(norm, s)| <= Pow2(tableLog) && spread[..pos] == Laid(norm, s)
    {
      LaidPrefix(norm, s);
      LowMonotone(norm, s + 1, |norm|);
      ghost var before := spread[..pos];
      WriteCopies(spread, pos, s, norm[s]);
      assert spread[..pos] == before;
      assert spread[pos..pos + norm[s]] == Repeat(s, norm[s]);
      assert spread[..pos + norm[s]] == before + Repeat(s, norm[s]);
      pos := pos + norm[s];
    }
  }

  lemma PlaceAgrees(table: seq<int>, norm: seq<int>, tableLog: nat, k: nat)
    requires Normalized(norm, tableLog) && k < Pow2(tableLog)
    requires Position(tableLog, k) <= High(norm, tableLog, |norm|)
    requires Agrees(table, SpreadAt(norm, tableLog, k).table)
    ensures SpreadAt(norm, tableLog, k).used < |Laid(norm, |norm|)|
    ensures SpreadAt(norm, tableLog, k + 1).used == SpreadAt(norm, tableLog, k).used + 1
    ensures Agrees(table[Position(tableLog, k) := Laid(norm, |norm|)[SpreadAt(norm, tableLog, k).used]],
                   SpreadAt(norm, tableLog, k + 1).table)
  {
    PlaceStep(norm, tableLog, k);
  }

  /** With no low-probability symbols, the k-th step uses the k-th laid symbol. */
  lemma {:induction false} NothingSkipped(norm: seq<int>, tableLog: nat, k: nat)
    requires Normalized(norm, tableLog) && LowBefore(norm, |norm|) == 0 && k <= Pow2(tableLog)
    ensures SpreadAt(norm, tableLog, k).used == k
    decreases k
  {
    if k > 0 {
      NothingSkipped(norm, tableLog, k - 1);
      LaidFits(norm, tableLog);
    }
  }

  /** One laid symbol goes to its cell. */
  method SpreadOne(tableSymbol: array<int>, symbol: int, position: nat, ghost norm: seq<int>, ghost tableLog: nat,
                   ghost k: nat)
    requires Normalized(norm, tableLog) && k < Pow2(tableLog)
    requires position == Position(tableLog, k) <= High(norm, tableLog, |norm|)
    requires Agrees(tableSymbol[..], SpreadAt(norm, tableLog, k).table)
    requires SpreadAt(norm, tableLog, k).used < |Laid(norm, |norm|)|
    requires symbol == Laid(norm, |norm|)[SpreadAt(norm, tableLog, k).used]
    modifies tableSymbol
    ensures Agrees(tableSymbol[..], SpreadAt(norm, tableLog, k + 1).table)
    ensures SpreadAt(norm, tableLog, k + 1).used == SpreadAt(norm, tableLog, k).used + 1
  {
    PlaceAgrees(tableSymbol[..], norm, tableLog, k);
    tableSymbol[position] := symbol;
  }

  /** The next two cells. */
  method SpreadPair(tableSymbol: array<int>, spread: array<int>, s: nat, position: nat, ghost norm: seq<int>,
                    tableLog: nat)
    requires tableSymbol != spread && spread.Length >= Pow2(tableLog)
    requires Normalized(norm, tableLog) && LowBefore(norm, |norm|) == 0 && s + 2 <= Pow2(tableLog)
    requires position == Position(tableLog, s) && spread[..Pow2(tableLog)] == Laid(norm, |norm|)
    requires Agrees(tableSymbol[..], SpreadAt(norm, tableLog, s).table)
    modifies tableSymbol
    ensures Agrees(tableSymbol[..], SpreadAt(norm, tableLog, s + 2).table)
  {
    hide SpreadAt;
    for u := 0 to 2
      invariant Agrees(tableSymbol[..], SpreadAt(norm, tableLog, s + u).table)
      invariant spread[..Pow2(tableLog)] == Laid(norm, |norm|)
    {
      StepsFrom(tableLog, s, u);
      NothingSkipped(norm, tableLog, s + u);
      var uPosition := (position + u * Step(Pow2(tableLog))) % Pow2(tableLog);
      SpreadOne(tableSymbol, spread[s + u], uPosition, norm, tableLog, s + u);
    }
  }

  lemma StartAgrees(table: seq<int>, norm: seq<int>, tableLog: nat)
    requires Normalized(norm, tableLog) && LowBefore(norm, |norm|) == 0 && |table| == Pow2(tableLog)
    ensures Agrees(table, SpreadAt(norm, tableLog, 0).table)
  {
    LowCellsBlank(norm, tableLog, |norm|);
  }

  lemma AgreesAtEnd(table: seq<int>, norm: seq<int>, tableLog: nat)
    requires Normalized(norm, tableLog) && Agrees(table, SpreadAt(norm, tableLog, Pow2(tableLog)).table)
    ensures table == SymbolTable(norm, tableLog)
  {
    SymbolCells(norm, tableLog, 0);
  }

  /** The table filled from the laid symbols, two cells in each round. The walk ends where it began. */
  method SpreadUnrolled(norm: seq<int>, tableLog: nat, tableSymbol: array<int>) returns (position: nat)
    requires Normalized(norm, tableLog) && LowBefore(norm, |norm|) == 0
    requires tableSymbol.Length == Pow2(tableLog)
    modifies tableSymbol
    ensures tableSymbol[..] == SymbolTable(norm, tableLog) && position == 0
  {
    hide Pow2, Agrees, SpreadAt, SymbolTable, Position, Step, LowBefore, Laid, StatesBefore;
    var tableSize := Pow2(tableLog);
    var spread := LaySymbols(norm, tableLog);
    OddStep(tableLog);
    FullCircle(tableLog);
    StartAgrees(tableSymbol[..], norm, tableLog);
    position := 0;
    var s: nat := 0;
    ghost var rounds: nat := 0;
    while s < tableSize
      invariant s == 2 * rounds <= tableSize && position == Position(tableLog, s)
      invariant spread[..tableSize] == Laid(norm, |norm|)
      invariant Agrees(tableSymbol[..], SpreadAt(norm, tableLog, s).table)
    {
      SpreadPair(tableSymbol, spread, s, position, norm, tableLog);
      StepsFrom(tableLog, s, 2);
      position := (position + 2 * Step(tableSize)) % tableSize;
      s := s + 2;
      rounds := rounds + 1;
    }
    AgreesAtEnd(tableSymbol[..], norm, tableLog);
  }

  // ----- With low-probability symbols -----

  /** The walk stands at a free cell, or has come full circle. */
  ghost predicate AtFree(norm: seq<int>, tableLog: nat, k: nat)
    requires Normalized(norm, tableLog)
  {
    k <= Pow2(tableLog) && (k == Pow2(tableLog) || Position(tableLog, k) <= High(norm, tableLog, |norm|))
  }

  lemma StillFree(norm: seq<int>, tableLog: nat, k: nat)
    requires Normalized(norm, tableLog) && AtFree(norm, tableLog, k)
    requires SpreadAt(norm, tableLog, k).used < |Laid(norm, |norm|)|
    ensures k < Pow2(tableLog)
  {
    SymbolCells(norm, tableLog, 0);
  }

  lemma {:induction false} AllLow(norm: seq<int>, tableLog: nat, k: nat)
    requires Normalized(norm, tableLog) && High(norm, tableLog, |norm|) < 0
    ensures SpreadAt(norm, tableLog, k) == SpreadAt(norm, tableLog, 0)
    decreases k
  {
    if k > 0 {
      AllLow(norm, tableLog, k - 1);
    }
  }

  /** When all symbols are placed, the walk has come full circle. */
  lemma AllPlaced(norm: seq<int>, tableLog: nat, k: nat)
    requires Normalized(norm, tableLog)
    requires if High(norm, tableLog, |norm|) >= 0 then AtFree(norm, tableLog, k) else k == 0
    requires SpreadAt(norm, tableLog, k).used == |Laid(norm, |norm|)|
    ensures Position(tableLog, k) == 0
    ensures SpreadAt(norm, tableLog, k) == SpreadAt(norm, tableLog, Pow2(tableLog))
  {
    FullCircle(tableLog);
    if High(norm, tableLog, |norm|) < 0 {
      AllLow(norm, tableLog, Pow2(tableLog));
    } else if k < Pow2(tableLog) {
      PlaceStep(norm, tableLog, k);
      assert false;
    }
  }

  /** Step over the cells of the low-probability symbols. */
  method SkipLow(position: nat, tableLog: nat, high: int, ghost norm: seq<int>, ghost k: nat)
    returns (next: nat, ghost m: nat)
    requires Normalized(norm, tableLog) && high == High(norm, tableLog, |norm|) >= 0
    requires k <= Pow2(tableLog) && position == Position(tableLog, k)
    ensures next == Position(tableLog, m) && AtFree(norm, tableLog, m)
    ensures SpreadAt(norm, tableLog, m) == SpreadAt(norm, tableLog, k)
  {
    next, m := position, k;
    FullCircle(tableLog);
    while next > high
      invariant m <= Pow2(tableLog) && next == Position(tableLog, m)
      invariant SpreadAt(norm, tableLog, m) == SpreadAt(norm, tableLog, k)
      decreases Pow2(tableLog) - m
    {
      StepsFrom(tableLog, m, 1);
      next := (next + Step(Pow2(tableLog))) % Pow2(tableLog);
      m := m + 1;
    }
  }

  lemma IndexPrefix(prefix: seq<int>, whole: seq<int>, i: nat)
    requires prefix <= whole && i < |prefix|
    ensures i < |whole| && whole[i] == prefix[i]
  {
  }

  lemma LaidAt(norm: seq<int>, s: nat, i: nat)
    requires s < |norm| && i < Copies(norm[s])
    ensures |Laid(norm, s)| + i < |Laid(norm, |norm|)|
    ensures Laid(norm, |norm|)[|Laid(norm, s)| + i] == s
  {
    var front, copies := Laid(norm, s), Repeat(s, Copies(norm[s]));
    LaidExtends(norm, s + 1, |norm|);
    assert Laid(norm, s + 1) == front + copies;
    assert (front + copies)[|front| + i] == copies[i];
    IndexPrefix(front + copies, Laid(norm, |norm|), |front| + i);
  }

  lemma {:induction false} LaidExtends(norm: seq<int>, s: nat, t: nat)
    requires s <= t <= |norm|
    ensures Laid(norm, s) <= Laid(norm, t)
    decreases t
  {
    if s < t {
      LaidExtends(norm, s, t - 1);
    }
  }

  /** The state of the filling loop after `used` symbols. */
  ghost predicate Filling(table: seq<int>, norm: seq<int>, tableLog: nat, k: nat, used: nat, position: nat)
    requires Normalized(norm, tableLog)
  {
    && position == Position(tableLog, k)
    && (if High(norm, tableLog, |norm|) >= 0 then AtFree(norm, tableLog, k) else k == 0)
    && Agrees(table, SpreadAt(norm, tableLog, k).table)
    && SpreadAt(norm, tableLog, k).used == used
  }

  method FillOne(tableSymbol: array<int>, s: nat, i: nat, norm: seq<int>, tableLog: nat, high: int, position: nat,
                 ghost k: nat)
    returns (next: nat, ghost m: nat)
    requires Normalized(norm, tableLog) && high == High(norm, tableLog, |norm|)
    requires s < |norm| && i < Copies(norm[s])
    requires Filling(tableSymbol[..], norm, tableLog, k, |Laid(norm, s)| + i, position)
    modifies tableSymbol
    ensures Filling(tableSymbol[..], norm, tableLog, m, |Laid(norm, s)| + i + 1, next)
  {
    hide Pow2, SpreadAt;
    LaidAt(norm, s, i);
    LaidFits(norm, tableLog);
    StillFree(norm, tableLog, k);
    SpreadOne(tableSymbol, s, position, norm, tableLog, k);
    StepsFrom(tableLog, k, 1);
    next := (position + Step(Pow2(tableLog))) % Pow2(tableLog);
    next, m := SkipLow(next, tableLog, high, norm, k + 1);
  }

  /** The table filled symbol by symbol, around the cells of the low-probability symbols, which are filled already. The
      walk ends where it began. */
  method SpreadSkipping(norm: seq<int>, tableLog: nat, tableSymbol: array<int>, high: int) returns (position: nat)
    requires Normalized(norm, tableLog) && high == High(norm, tableLog, |norm|)
    requires Agrees(tableSymbol[..], SpreadAt(norm, tableLog, 0).table)
    modifies tableSymbol
    ensures tableSymbol[..] == SymbolTable(norm, tableLog) && position == 0
  {
    position := 0;
    ghost var k: nat := 0;
    FullCircle(tableLog);
    for s := 0 to |norm|
      invariant Filling(tableSymbol[..], norm, tableLog, k, |Laid(norm, s)|, position)
    {
      var i := 0;
      while i < norm[s]
        invariant 0 <= i <= Copies(norm[s])
        invariant Filling(tableSymbol[..], norm, tableLog, k, |Laid(norm, s)| + i, position)
      {
        position, k := FillOne(tableSymbol, s, i, norm, tableLog, high, position, k);
        i := i + 1;
      }
      LaidPrefix(norm, s);
    }
    AllPlaced(norm, tableLog, k);
    AgreesAtEnd(tableSymbol[..], norm, tableLog);
  }
}
