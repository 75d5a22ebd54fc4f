/** How large the header of a distribution gets, and whether the size that is taken to be enough is. */
module FseHeaderBound {
  import opened Pow2Lemmas
  import opened BitArithmetic
  import opened BitStream
  import opened FseNorm
  import opened FseHeader
  import opened FseHeaderWriter

  // ----- Counting bits -----

  /** A count takes its full width unless it is so small that it can save a bit. */
  lemma WidthIs(count: int, remaining: nat)
    requires -1 <= count && remaining > 0
    ensures CountWidth(count, remaining) ==
      HighBit(remaining) + if count + 1 < Spare(remaining) then 0 else 1
  {
  }

  /** A way to bound the bits: counted in units of a part of a bit, so many units are allowed for each symbol, and some
      more that depend on what remains to be given. */
  datatype Measure = Whole(tableLog: nat) | Halves(tableLog: nat) | Tenths
  {
    function Unit(): nat {
      match this
      case Whole(_) => 1
      case Halves(_) => 2
      case Tenths => 10
    }

    function Rate(): nat {
      match this
      case Whole(tableLog) => tableLog
      case Halves(tableLog) => 2 * tableLog + 1
      case Tenths => 49
    }

    function Slack(r: nat): nat {
      match this
      case Whole(tableLog) => Excess(tableLog, r)
      case Halves(tableLog) => HalfExcess(tableLog, r)
      case Tenths => TenthExcess(r)
    }

    function Most(): nat {
      match this
      case Whole(tableLog) => Pow2(tableLog) + 1
      case Halves(tableLog) => Pow2(tableLog) + 1
      case Tenths => 33
    }
  }

  /** It covers a count, and a count of zero with the count after it. */
  ghost predicate Covers(m: Measure) {
    && m.Unit() <= m.Rate()
    && (forall r :: 1 < r <= m.Most() ==> m.Unit() * CountWidth(0, r) <= m.Rate() + m.Slack(r))
    && (forall r: nat, c: int :: 1 < r <= m.Most() && -1 <= c < r && c != 0 ==> Covered(m, r, c))
  }

  ghost predicate Covered(m: Measure, r: nat, c: int)
    requires -1 <= c < r && c != 0 && 1 < r
  {
    && m.Unit() * CountWidth(c, r) + m.Slack(r - Frequency(c)) <= m.Rate() + m.Slack(r)
    && m.Unit() * (CountWidth(0, r) + 2 + CountWidth(c, r)) + m.Slack(r - Frequency(c)) <= 2 * m.Rate() + m.Slack(r)
  }

  /** What is allowed for so many symbols. */
  ghost function Allowed(m: Measure, symbols: nat, remaining: nat, zero: bool): int {
    m.Rate() * symbols + m.Slack(remaining) +
      if zero && remaining > 0 then m.Rate() - m.Unit() * CountWidth(0, remaining) else 0
  }

  lemma NotNegative(m: Measure, symbols: nat, remaining: nat, zero: bool)
    requires 1 <= remaining <= m.Most() && Covers(m) && (zero ==> remaining > 1)
    ensures Allowed(m, symbols, remaining, zero) >= 0
  {
    hide Covered, CountWidth, Measure.Unit, Measure.Rate, Measure.Slack;
    Product(0, m.Rate(), symbols);
  }

  /** The bits of a run of zeros. */
  function RunBits(zeros: nat): nat {
    2 * (zeros / 3) + 2
  }

  lemma RunCovered(unit: nat, rate: nat, k: nat)
    requires unit <= rate
    ensures unit * RunBits(k) <= rate * k + unit * 2
  {
    assert 2 * (k / 3) <= k;
    Product(unit, rate, k);
    Product(2 * (k / 3), k, unit);
    assert unit * RunBits(k) == (2 * (k / 3)) * unit + unit * 2;
  }

  /** One count, after `k` zeros if a run is written, uses what is allowed for it. */
  lemma CountAllowed(m: Measure, n: nat, k: nat, r: nat, zero: bool, c: int)
    requires Covers(m) && 1 < r <= m.Most() && -1 <= c < r && (zero ==> c != 0) && (!zero ==> k == 0)
    ensures
      m.Unit() * ((if zero then RunBits(k) else 0) + CountWidth(c, r)) +
        Allowed(m, n, r - Frequency(c), c == 0) <= Allowed(m, n + k + 1, r, zero)
  {
    hide CountWidth, RunBits, Measure.Unit, Measure.Rate, Measure.Slack;
    var unit, rate := m.Unit(), m.Rate();
    assert rate * (n + k + 1) == rate * n + rate * k + rate;
    if c == 0 {
      assert Frequency(c) == 0;
    } else {
      assert Covered(m, r, c);
      if zero {
        RunCovered(unit, rate, k);
        assert unit * (CountWidth(0, r) + 2 + CountWidth(c, r)) ==
          unit * CountWidth(0, r) + unit * 2 + unit * CountWidth(c, r);
        assert unit * (RunBits(k) + CountWidth(c, r)) == unit * RunBits(k) + unit * CountWidth(c, r);
      }
    }
  }

  lemma StepWidth(norm: seq<int>, b: Bits, s: nat, remaining: nat, zero: bool, t: nat)
    requires Counts(norm) && s <= |norm| && t == Next(norm, s, zero) < |norm| && remaining > 0
    ensures Width(PushCount(PushZeros(b, norm, s, zero), norm[t], remaining)) ==
      Width(b) + (if zero then RunBits(t - s) else 0) + CountWidth(norm[t], remaining)
  {
    hide CountValue, CountWidth, NextNonZero, PushThrees, Number;
    if zero {
      ThreesNumber(b, (t - s) / 3);
    }
  }

  lemma {:induction false} FieldsBound(m: Measure, norm: seq<int>, b: Bits, s: nat, remaining: nat, zero: bool)
    requires Counts(norm) && s <= |norm| && 1 <= remaining <= m.Most() && Covers(m) && (zero ==> remaining > 1)
    ensures m.Unit() * Width(Fields(norm, b, s, remaining, zero)) <=
      m.Unit() * Width(b) + Allowed(m, |norm| - s, remaining, zero)
    decreases |norm| - s
  {
    hide Width, CountWidth, Covers, Allowed, PushCount, PushZeros, RunBits, Measure.Unit, Measure.Most;
    var t := Next(norm, s, zero);
    if remaining > 1 && t < |norm| && Frequency(norm[t]) < remaining {
      var c := PushZeros(b, norm, s, zero);
      var d := PushCount(c, norm[t], remaining);
      FieldsBound(m, norm, d, t + 1, remaining - Frequency(norm[t]), norm[t] == 0);
      CountAllowed(m, |norm| - t - 1, t - s, remaining, zero, norm[t]);
      StepWidth(norm, b, s, remaining, zero, t);
      var more := (if zero then RunBits(t - s) else 0) + CountWidth(norm[t], remaining);
      assert m.Unit() * (Width(b) + more) == m.Unit() * Width(b) + m.Unit() * more;
    } else {
      NotNegative(m, |norm| - s, remaining, zero);
    }
  }

  // ----- The largest headers -----

  /** How much the symbols may take in excess of as many bits as the table has, by what remains: at first a zero and a
      count of one take two bits more, twice for each of the two sizes of the remainder they come with; and then, as
      long as half of the states remain, a count that doubles what can be saved takes one. */
  function Excess(tableLog: nat, r: nat): nat {
    if r > Pow2(tableLog) then tableLog + 7
    else if r == Pow2(tableLog) then tableLog + 5
    else if 2 * r >= Pow2(tableLog) then LateExcess(tableLog, Pow2(tableLog) - 1 - r)
    else 0
  }

  function LateExcess(tableLog: nat, spare: nat): nat {
    if spare == 0 then tableLog + 3
    else if spare == 1 then tableLog + 1
    else if tableLog <= HighBit(spare - 1) then 0
    else tableLog - 1 - HighBit(spare - 1)
  }

  lemma HighBitMonotone(x: nat, y: nat)
    requires 0 < x <= y
    ensures HighBit(x) <= HighBit(y)
    ensures 2 * x <= y ==> HighBit(x) + 1 <= HighBit(y)
  {
    if HighBit(y) < HighBit(x) {
      Pow2Monotone(HighBit(y) + 1, HighBit(x));
    }
  }

  lemma LateMonotone(tableLog: nat, x: nat, y: nat)
    requires x <= y
    ensures LateExcess(tableLog, y) <= LateExcess(tableLog, x)
  {
    if x > 1 {
      HighBitMonotone(x - 1, y - 1);
    }
  }

  /** A full count, after a zero. */
  lemma LateFull(tableLog: nat, x: nat, y: nat)
    requires tableLog >= 2 && x < y && 2 * x - 1 <= y
    ensures LateExcess(tableLog, x) == 0
            || LateExcess(tableLog, y) + (if x <= 1 then 2 else 1) <= LateExcess(tableLog, x)
  {
    if x > 1 {
      HighBitMonotone(x - 1, y - 1);
    } else if y > 2 {
      LateMonotone(tableLog, 2, y);
    }
  }

  lemma LatePositive(tableLog: nat, spare: nat)
    requires tableLog >= 2 && spare < Pow2(tableLog - 1)
    ensures LateExcess(tableLog, spare) >= 1
  {
    if spare > 1 && HighBit(spare - 1) >= tableLog - 1 {
      Pow2Monotone(tableLog - 1, HighBit(spare - 1));
    }
  }

  /** By how many bits a remainder is written. */
  lemma Level(tableLog: nat, r: nat)
    requires tableLog >= MIN_TABLELOG && 0 < r <= Pow2(tableLog) + 1
    ensures Pow2(tableLog) == 2 * Pow2(tableLog - 1) == 4 * Pow2(tableLog - 2) >= 32
    ensures r < Pow2(tableLog - 1) ==> HighBit(r) <= tableLog - 2
    ensures Pow2(tableLog - 1) <= r < Pow2(tableLog) ==>
      HighBit(r) == tableLog - 1 && Spare(r) == Pow2(tableLog) - 1 - r
    ensures r >= Pow2(tableLog) ==> HighBit(r) == tableLog && Spare(r) == 2 * Pow2(tableLog) - 1 - r
  {
    Pow2Monotone(5, tableLog);
    assert Pow2(5) == 32;
    if r < Pow2(tableLog - 1) {
      if HighBit(r) >= tableLog - 1 {
        Pow2Monotone(tableLog - 1, HighBit(r));
      }
    } else {
      HighBitIs(r, if r < Pow2(tableLog) then tableLog - 1 else tableLog);
    }
  }

  lemma ExcessIs(tableLog: nat, r: nat, p: nat)
    requires tableLog >= MIN_TABLELOG && p == Pow2(tableLog)
    ensures r > p ==> Excess(tableLog, r) == tableLog + 7
    ensures r == p ==> Excess(tableLog, r) == tableLog + 5
    ensures p <= 2 * r < 2 * p ==>
      Excess(tableLog, r) == LateExcess(tableLog, p - 1 - r) <= tableLog + 3 && LateExcess(tableLog, p - 1 - r) >= 1
    ensures 2 * r < p ==> Excess(tableLog, r) == 0
  {
    assert p == 2 * Pow2(tableLog - 1);
    if p <= 2 * r < 2 * p {
      LateMonotone(tableLog, 0, p - 1 - r);
      LatePositive(tableLog, p - 1 - r);
    }
  }

  /** What has to be shown, with `first` and `second` telling whether the zero and the count are written in full. */
  lemma CoveredIf(m: Measure, r: nat, c: int, h: nat, first: nat, second: nat)
    requires 1 < r && -1 <= c < r && c != 0
    requires CountWidth(0, r) == h + first && CountWidth(c, r) == h + second
    requires m.Unit() * (h + second) + m.Slack(r - Frequency(c)) <= m.Rate() + m.Slack(r)
    requires m.Unit() * (2 * h + 2 + first + second) + m.Slack(r - Frequency(c)) <= 2 * m.Rate() + m.Slack(r)
    ensures Covered(m, r, c)
  {
    assert CountWidth(0, r) + 2 + CountWidth(c, r) == 2 * h + 2 + first + second;
  }

  lemma LateCovered(tableLog: nat, r: nat, c: int, p: nat)
    requires tableLog >= MIN_TABLELOG && 1 < r && -1 <= c < r && c != 0
    requires p == Pow2(tableLog) && p <= 2 * r < 2 * p && HighBit(r) == tableLog - 1 && Spare(r) == p - 1 - r
    ensures Covered(Whole(tableLog), r, c)
  {
    hide Covered, Excess, LateExcess, CountWidth, HighBit, Pow2, Spare;
    var f, spare := Frequency(c), p - 1 - r;
    WidthIs(0, r);
    WidthIs(c, r);
    ExcessIs(tableLog, r, p);
    ExcessIs(tableLog, r - f, p);
    var first, second := if 1 < spare then 0 else 1, if c + 1 < spare then 0 else 1;
    if p <= 2 * (r - f) {
      if second == 1 || spare <= 1 {
        LateFull(tableLog, spare, spare + f);
      } else {
        LateMonotone(tableLog, spare, spare + f);
      }
    } else if spare <= 1 {
      LateMonotone(tableLog, spare, 1);
      LateOne(tableLog);
    }
    CoveredIf(Whole(tableLog), r, c, tableLog - 1, first, second);
  }

  lemma LateOne(tableLog: nat)
    ensures LateExcess(tableLog, 1) == tableLog + 1
  {
  }

  lemma TopCovered(tableLog: nat, r: nat, c: int, p: nat)
    requires tableLog >= MIN_TABLELOG && 1 < r && -1 <= c < r && c != 0 && p >= 32
    requires p == Pow2(tableLog) && p <= r <= p + 1 && HighBit(r) == tableLog && Spare(r) == 2 * p - 1 - r
    ensures Covered(Whole(tableLog), r, c)
  {
    hide Covered, Excess, LateExcess, CountWidth, HighBit, Pow2, Spare;
    var f := Frequency(c);
    WidthIs(0, r);
    WidthIs(c, r);
    ExcessIs(tableLog, r, p);
    ExcessIs(tableLog, r - f, p);
    CoveredIf(Whole(tableLog), r, c, tableLog, 0, if c + 1 < Spare(r) then 0 else 1);
  }

  lemma LowCovered(tableLog: nat, r: nat, c: int, p: nat)
    requires tableLog >= MIN_TABLELOG && 1 < r && -1 <= c < r && c != 0
    requires p == Pow2(tableLog) && 2 * r < p && HighBit(r) <= tableLog - 2
    ensures Covered(Whole(tableLog), r, c)
  {
    hide Covered, Excess, LateExcess, CountWidth, HighBit, Pow2, Spare;
    WidthIs(0, r);
    WidthIs(c, r);
    ExcessIs(tableLog, r, p);
    ExcessIs(tableLog, r - Frequency(c), p);
    CoveredIf(Whole(tableLog), r, c, HighBit(r), if 1 < Spare(r) then 0 else 1, if c + 1 < Spare(r) then 0 else 1);
  }

  lemma WholeCovers(tableLog: nat)
    requires tableLog >= MIN_TABLELOG
    ensures Covers(Whole(tableLog))
  {
    hide Excess, CountWidth, HighBit, Pow2, Spare;
    var m, p := Whole(tableLog), Pow2(tableLog);
    forall r | 1 < r <= p + 1 ensures m.Unit() * CountWidth(0, r) <= m.Rate() + m.Slack(r) {
      Level(tableLog, r);
      WidthIs(0, r);
    }
    forall r: nat, c: int | 1 < r <= p + 1 && -1 <= c < r && c != 0 ensures Covered(m, r, c) {
      Level(tableLog, r);
      if p <= r {
        TopCovered(tableLog, r, c, p);
      } else if p <= 2 * r {
        LateCovered(tableLog, r, c, p);
      } else {
        LowCovered(tableLog, r, c, p);
      }
    }
  }

  // ----- Headers of few symbols -----

  /** In excess of half a bit more for each symbol only the first four pairs take anything. */
  function HalfExcess(tableLog: nat, r: nat): nat {
    var p := Pow2(tableLog);
    if r > p then 8 else if r == p then 6 else if r + 1 == p then 4 else if r + 2 == p then 2 else 0
  }

  lemma HalfCovered(tableLog: nat, r: nat, c: int, p: nat)
    requires tableLog >= MIN_TABLELOG && 1 < r <= p + 1 && -1 <= c < r && c != 0 && p == Pow2(tableLog) && p >= 32
    requires 2 * r < p ==> HighBit(r) <= tableLog - 2
    requires p <= 2 * r < 2 * p ==> HighBit(r) == tableLog - 1 && Spare(r) == p - 1 - r
    requires p <= r ==> HighBit(r) == tableLog && Spare(r) == 2 * p - 1 - r
    ensures Covered(Halves(tableLog), r, c)
  {
    hide Covered, CountWidth, HighBit, Pow2, Spare;
    WidthIs(0, r);
    WidthIs(c, r);
    CoveredIf(Halves(tableLog), r, c, HighBit(r), if 1 < Spare(r) then 0 else 1, if c + 1 < Spare(r) then 0 else 1);
  }

  lemma HalvesCover(tableLog: nat)
    requires tableLog >= MIN_TABLELOG
    ensures Covers(Halves(tableLog))
  {
    hide CountWidth, HighBit, Pow2, Spare, HalfExcess;
    var m, p := Halves(tableLog), Pow2(tableLog);
    forall r | 1 < r <= p + 1 ensures m.Unit() * CountWidth(0, r) <= m.Rate() + m.Slack(r) {
      Level(tableLog, r);
      WidthIs(0, r);
    }
    forall r: nat, c: int | 1 < r <= p + 1 && -1 <= c < r && c != 0 ensures Covered(m, r, c) {
      Level(tableLog, r);
      HalfCovered(tableLog, r, c, p);
    }
  }

  // ----- Headers for the smallest table -----

  /** For tables of 5 bits, in excess of 4.9 bits for each symbol. */
  function TenthExcess(r: nat): nat {
    if r <= 13 then 0
    else if r <= 15 then 2 * (r - 13)
    else if r <= 24 then 2 * (r - 10)
    else if r <= 27 then 4 * (r - 17)
    else if r == 28 then 48
    else if r == 29 then 60
    else 22 * (r - 29) + 60
  }

  lemma TenthCovered(r: nat, c: int, h: nat, p: nat)
    requires 1 < r <= 33 && -1 <= c < r && c != 0 && h == HighBit(r) && Spare(r) == 2 * p - 1 - r && p <= r < 2 * p
    requires 1 <= h <= 5 && p == [1, 2, 4, 8, 16, 32][h]
    ensures Covered(Tenths, r, c)
  {
    hide Covered, CountWidth, HighBit, Spare;
    WidthIs(0, r);
    WidthIs(c, r);
    CoveredIf(Tenths, r, c, h, if 1 < Spare(r) then 0 else 1, if c + 1 < Spare(r) then 0 else 1);
  }

  lemma SmallPowers()
    ensures Pow2(1) == 2 && Pow2(2) == 4 && Pow2(3) == 8 && Pow2(4) == 16 && Pow2(5) == 32
  {
  }

  lemma SmallLevel(r: nat) returns (h: nat)
    requires 1 < r <= 33
    ensures 1 <= h <= 5 && h == HighBit(r) && Pow2(h) <= r < 2 * Pow2(h) && Spare(r) == 2 * Pow2(h) - 1 - r
  {
    SmallPowers();
    h := if r < 4 then 1 else if r < 8 then 2 else if r < 16 then 3 else if r < 32 then 4 else 5;
    HighBitIs(r, h);
  }

  lemma TenthsCover()
    ensures Covers(Tenths)
  {
    hide CountWidth, HighBit, Spare, TenthExcess, Pow2;
    SmallPowers();
    forall r | 1 < r <= 33 ensures 10 * CountWidth(0, r) <= 49 + Tenths.Slack(r) {
      var h := SmallLevel(r);
      TenthZero(r, h);
    }
    forall r: nat, c: int | 1 < r <= 33 && -1 <= c < r && c != 0 ensures Covered(Tenths, r, c) {
      var h := SmallLevel(r);
      TenthCovered(r, c, h, Pow2(h));
    }
  }

  lemma TenthZero(r: nat, h: nat)
    requires 1 < r <= 33 && 1 <= h <= 5 && h == HighBit(r) && Pow2(h) <= r < 2 * Pow2(h)
      && Spare(r) == 2 * Pow2(h) - 1 - r
    ensures 10 * CountWidth(0, r) <= 49 + Tenths.Slack(r)
  {
    hide CountWidth, HighBit, Spare, Pow2;
    SmallPowers();
    WidthIs(0, r);
  }

  // ----- Whether the size is enough -----

  lemma HeaderStart(norm: seq<int>, tableLog: nat) returns (b: Bits)
    requires Normalized(norm, tableLog)
    ensures Header(norm, tableLog) == Fields(norm, b, 0, Pow2(tableLog) + 1, false) && Width(b) == 4
    ensures Counts(norm) && MIN_TABLELOG <= tableLog <= MAX_TABLELOG
  {
    hide Fields, Pow2, StatesBefore;
    b := Push(Nothing, tableLog - MIN_TABLELOG, 4);
  }

  lemma WholeBound(norm: seq<int>, tableLog: nat)
    requires Normalized(norm, tableLog)
    ensures Width(Header(norm, tableLog)) <= tableLog * |norm| + tableLog + 11
  {
    hide Header, Width, Normalized, Covers, Fields, Pow2, CountWidth, Excess, LateExcess;
    var b := HeaderStart(norm, tableLog);
    WholeCovers(tableLog);
    ExcessIs(tableLog, Pow2(tableLog) + 1, Pow2(tableLog));
    FieldsBound(Whole(tableLog), norm, b, 0, Pow2(tableLog) + 1, false);
  }

  lemma HalfBound(norm: seq<int>, tableLog: nat)
    requires Normalized(norm, tableLog)
    ensures 2 * Width(Header(norm, tableLog)) <= Halves(tableLog).Rate() * |norm| + 16
  {
    hide Header, Width, Normalized, Covers, Fields, Pow2, CountWidth, Measure.Rate;
    var b := HeaderStart(norm, tableLog);
    HalvesCover(tableLog);
    FieldsBound(Halves(tableLog), norm, b, 0, Pow2(tableLog) + 1, false);
  }

  lemma TenthBound(norm: seq<int>)
    requires Normalized(norm, 5)
    ensures 10 * Width(Header(norm, 5)) <= 49 * |norm| + 188
  {
    hide Header, Width, Normalized, Covers, Fields, Pow2, CountWidth;
    var b := HeaderStart(norm, 5);
    SmallPowers();
    TenthsCover();
    FieldsBound(Tenths, norm, b, 0, 33, false);
  }

  /** Every store is inside a buffer of the size that is taken to be enough. */
  ghost predicate Fits(norm: seq<int>, tableLog: nat)
    requires Normalized(norm, tableLog)
  {
    End(Width(Header(norm, tableLog))) <= WriteBound(|norm|, tableLog)
  }

  /** The header itself is never larger; but its last store may be, by one byte. */
  lemma OneMoreFits(norm: seq<int>, tableLog: nat)
    requires Normalized(norm, tableLog)
    ensures (Width(Header(norm, tableLog)) + 7) / 8 <= WriteBound(|norm|, tableLog)
    ensures End(Width(Header(norm, tableLog))) <= WriteBound(|norm|, tableLog) + 1
  {
    hide Header, Width;
    WholeBound(norm, tableLog);
  }

  /** For at most 17 symbols the size is enough. */
  lemma FewSymbolsFit(norm: seq<int>, tableLog: nat)
    requires Normalized(norm, tableLog) && |norm| <= 17
    ensures Fits(norm, tableLog)
  {
    hide Header, Width, Normalized;
    HalfBound(norm, tableLog);
    LogInRange(norm, tableLog);
    FewBits(Width(Header(norm, tableLog)), |norm|, tableLog, Halves(tableLog).Rate());
  }

  lemma FewBits(width: nat, symbols: nat, tableLog: nat, rate: nat)
    requires 2 * width <= rate * symbols + 16 && rate == 2 * tableLog + 1 && symbols <= 17 && 5 <= tableLog <= 12
    ensures End(width) <= WriteBound(symbols, tableLog)
  {
    hide End;
    var x := symbols * tableLog;
    assert rate * symbols == 2 * x + symbols;
    FewBitsEnd(width, symbols, tableLog, x);
  }

  lemma FewBitsEnd(width: nat, symbols: nat, tableLog: nat, x: nat)
    requires 2 * width <= 2 * x + symbols + 16 && symbols <= 17 && 5 <= tableLog <= 12
    requires symbols <= 15 || (symbols == 16 && x == 16 * tableLog) || (symbols == 17 && x == 17 * tableLog)
    ensures End(width) <= (x + 6) / 8 + 3
    ensures symbols <= 1 && x <= 12 ==> End(width) <= 512
  {
  }

  /** For the smallest table it is. */
  lemma SmallestTableFits(norm: seq<int>)
    requires Normalized(norm, 5)
    ensures Fits(norm, 5)
  {
    hide Header, Width;
    if |norm| <= 17 {
      FewSymbolsFit(norm, 5);
    } else {
      WholeBound(norm, 5);
      TenthBound(norm);
    }
  }

  // ----- Where it is not -----

  /** The counts of every other symbol: ones, then numbers that double, ones again, and at last all the rest. The
      symbols between them do not occur. */
  function PairCount(tableLog: nat, ones: nat, k: nat): int {
    if k == 5 then 2 else if k == 6 then 4 else if k == 7 then 8
    else if k < 8 + ones then 1 else Pow2(tableLog) - 19 - ones
  }

  function Pairs(tableLog: nat, ones: nat): seq<int> {
    seq(18 + 2 * ones, i requires 0 <= i => if i % 2 == 0 then 0 else PairCount(tableLog, ones, i / 2))
  }

  /** What is given after k pairs. */
  function PairsGiven(tableLog: nat, ones: nat, k: nat): nat {
    if k <= 5 then k else if k == 6 then 7 else if k == 7 then 11 else if k <= 8 + ones then 11 + k
    else Pow2(tableLog)
  }

  /** And how many bits that takes in excess of those of the table. */
  function PairsExcess(ones: nat, k: nat): nat {
    if k <= 4 then 4 + 2 * k else if k <= 8 then 8 + k else if k <= 8 + ones then 16 else 17
  }

  lemma PairsAt(tableLog: nat, ones: nat, k: nat)
    requires tableLog >= 6 && ones <= 7 && k < 9 + ones
    ensures |Pairs(tableLog, ones)| == 18 + 2 * ones && Pow2(tableLog) >= 64
    ensures Pairs(tableLog, ones)[2 * k] == 0 && Pairs(tableLog, ones)[2 * k + 1] == PairCount(tableLog, ones, k) > 0
    ensures PairsGiven(tableLog, ones, k + 1) == PairsGiven(tableLog, ones, k) + PairCount(tableLog, ones, k)
    ensures PairsGiven(tableLog, ones, k + 1) <= Pow2(tableLog)
  {
    Pow2Monotone(6, tableLog);
    assert Pow2(6) == 64;
  }

  lemma PairsAreCounts(tableLog: nat, ones: nat)
    requires tableLog >= 6 && ones <= 7
    ensures Counts(Pairs(tableLog, ones))
  {
    forall i | 0 <= i < 18 + 2 * ones ensures Pairs(tableLog, ones)[i] >= -1 {
      PairsAt(tableLog, ones, i / 2);
    }
  }

  lemma {:induction false} PairsStates(tableLog: nat, ones: nat, k: nat)
    requires tableLog >= 6 && ones <= 7 && k <= 9 + ones
    ensures |Pairs(tableLog, ones)| == 18 + 2 * ones && Counts(Pairs(tableLog, ones))
    ensures StatesBefore(Pairs(tableLog, ones), 2 * k) == PairsGiven(tableLog, ones, k)
    decreases k
  {
    PairsAreCounts(tableLog, ones);
    if k > 0 {
      PairsAt(tableLog, ones, k - 1);
      PairsStates(tableLog, ones, k - 1);
    }
  }

  /** A zero and a count. */
  lemma PairStep(norm: seq<int>, b: Bits, s: nat, remaining: nat) returns (d: Bits)
    requires Counts(norm) && s + 2 <= |norm| && norm[s] == 0 && 0 < norm[s + 1] < remaining
    ensures Fields(norm, b, s, remaining, false) == Fields(norm, d, s + 2, remaining - norm[s + 1], false)
    ensures Width(d) == Width(b) + CountWidth(0, remaining) + 2 + CountWidth(norm[s + 1], remaining)
  {
    hide CountWidth, CountValue;
    var c := PushCount(b, 0, remaining);
    assert Fields(norm, b, s, remaining, false) == Fields(norm, c, s + 1, remaining, true);
    assert NextNonZero(norm, s + 1) == s + 1;
    d := PushCount(PushZeros(c, norm, s + 1, true), norm[s + 1], remaining);
    StepWidth(norm, c, s + 1, remaining, true, s + 1);
  }

  lemma PairWidth(tableLog: nat, ones: nat, k: nat, r: nat)
    requires tableLog >= 6 && ones <= 7 && k < 9 + ones && r == Pow2(tableLog) + 1 - PairsGiven(tableLog, ones, k)
    ensures 0 < PairCount(tableLog, ones, k) < r
    ensures CountWidth(0, r) + 2 + CountWidth(PairCount(tableLog, ones, k), r) ==
      2 * tableLog + PairsExcess(ones, k + 1) - PairsExcess(ones, k)
  {
    PairsAt(tableLog, ones, k);
    Level(tableLog, r);
    hide Pow2, CountWidth, HighBit, Spare;
    WidthIs(0, r);
    WidthIs(PairCount(tableLog, ones, k), r);
  }

  lemma PairsStart(tableLog: nat, ones: nat) returns (b: Bits)
    requires 6 <= tableLog <= MAX_TABLELOG && ones <= 7 && Counts(Pairs(tableLog, ones))
    ensures PairsGiven(tableLog, ones, 0) == 0
    ensures AllFields(Pairs(tableLog, ones), tableLog) ==
      Fields(Pairs(tableLog, ones), b, 0, Pow2(tableLog) + 1, false)
    ensures Width(b) == PairsExcess(ones, 0)
  {
    hide Pairs, Fields, Pow2;
    b := Push(Nothing, tableLog - MIN_TABLELOG, 4);
  }

  lemma {:induction false} PairsTake(tableLog: nat, ones: nat, k: nat) returns (b: Bits)
    requires 6 <= tableLog <= MAX_TABLELOG && ones <= 7 && k <= 9 + ones
    requires |Pairs(tableLog, ones)| == 18 + 2 * ones && Counts(Pairs(tableLog, ones))
    ensures PairsGiven(tableLog, ones, k) <= Pow2(tableLog)
    ensures AllFields(Pairs(tableLog, ones), tableLog) ==
      Fields(Pairs(tableLog, ones), b, 2 * k, Pow2(tableLog) + 1 - PairsGiven(tableLog, ones, k), false)
    ensures Width(b) == 2 * tableLog * k + PairsExcess(ones, k)
    decreases k
  {
    hide Pairs, PairsGiven, PairsExcess, PairCount, Fields, AllFields, Width, CountWidth, Pow2;
    if k == 0 {
      b := PairsStart(tableLog, ones);
    } else {
      var c := PairsTake(tableLog, ones, k - 1);
      PairsAt(tableLog, ones, k - 1);
      PairWidth(tableLog, ones, k - 1, Pow2(tableLog) + 1 - PairsGiven(tableLog, ones, k - 1));
      b := PairStep(Pairs(tableLog, ones), c, 2 * k - 2, Pow2(tableLog) + 1 - PairsGiven(tableLog, ones, k - 1));
      assert 2 * tableLog * k == 2 * tableLog * (k - 1) + 2 * tableLog;
    }
  }

  lemma PairsHeader(tableLog: nat, ones: nat)
    requires 6 <= tableLog <= MAX_TABLELOG && ones <= 7
    ensures Normalized(Pairs(tableLog, ones), tableLog) && |Pairs(tableLog, ones)| == 18 + 2 * ones
    ensures Width(Header(Pairs(tableLog, ones), tableLog)) == tableLog * (18 + 2 * ones) + 17
  {
    hide Pairs, PairCount, Fields, Width, StatesBefore, Counts, Pow2;
    var k := 9 + ones;
    PairsStates(tableLog, ones, k);
    var b := PairsTake(tableLog, ones, k);
    AllGiven(Pairs(tableLog, ones), b, 2 * k, 1, false);
    assert 2 * tableLog * k == tableLog * (18 + 2 * ones);
  }

  /** For every larger table there is a distribution for which it is not enough. */
  lemma LargerTablesNeedNotFit(tableLog: nat)
    requires 6 <= tableLog <= MAX_TABLELOG
    ensures Normalized(Pairs(tableLog, 7), tableLog) && !Fits(Pairs(tableLog, 7), tableLog)
  {
    hide Pairs, Header, Normalized, Width;
    PairsHeader(tableLog, 7);
  }

  /** With a table of 8 bits 18 symbols are enough for that: the bound is 21 bytes, and the last store ends one after.
      */
  lemma EighteenSymbols(norm: seq<int>)
    requires norm == [0, 1, 0, 1, 0, 1, 0, 1, 0, 1, 0, 2, 0, 4, 0, 8, 0, 237]
    ensures Normalized(norm, 8) && WriteBound(|norm|, 8) == 21 && End(Width(Header(norm, 8))) == 22
  {
    assert Pow2(8) == 256;
    hide Header, Width, Normalized, Pow2;
    PairsHeader(8, 0);
    assert norm == Pairs(8, 0);
  }

  /** The size is enough for every distribution of the table. */
  ghost predicate AlwaysFits(tableLog: nat) {
    forall norm :: Normalized(norm, tableLog) ==> Fits(norm, tableLog)
  }

  /** What a caller can check: the size is always enough exactly for the smallest table. */
  lemma FitsExactly(tableLog: nat)
    requires MIN_TABLELOG <= tableLog <= MAX_TABLELOG
    ensures AlwaysFits(tableLog) <==> tableLog == MIN_TABLELOG
  {
    hide Normalized, Fits;
    if tableLog == MIN_TABLELOG {
      forall norm | Normalized(norm, tableLog) ensures Fits(norm, tableLog) {
        SmallestTableFits(norm);
      }
    } else {
      LargerTablesNeedNotFit(tableLog);
    }
  }
}
