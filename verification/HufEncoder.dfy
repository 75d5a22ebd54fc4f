/** The Huffman encoder: the codes of the symbols, from the last to the first, with unrolled loops over two
    registers. */
module HufEncoder {
  import opened ByteType
  import opened Pow2Lemmas
  import opened BitArithmetic
  import opened BitStream
  import opened HufStream

  datatype Code = Code(value: nat, nbBits: nat)

  datatype CTable = CTable(tableLog: nat, elts: seq<nat>)

  ghost predicate IsCTable(ct: CTable, codes: seq<Code>) {
    && |ct.elts| == |codes| && ct.tableLog <= MAX_CODE_BITS
    && forall s :: 0 <= s < |codes| ==> IsElt(ct.elts[s], codes[s], ct.tableLog)
  }

  ghost predicate IsElt(elt: nat, code: Code, tableLog: nat) {
    code.nbBits <= tableLog <= MAX_CODE_BITS && code.value < Pow2(code.nbBits)
      && elt == MakeElt(code.value, code.nbBits)
  }

  /** Every symbol of the source has a code. */
  ghost predicate Coded(codes: seq<Code>, src: seq<byte>) {
    forall k :: 0 <= k < |src| ==> src[k] < |codes| && codes[src[k]].nbBits > 0
  }

  /** The codes of the symbols from place `i` up to place `n`, the last one first. */
  ghost function Codes(codes: seq<Code>, src: seq<byte>, i: nat, n: nat): Bits
    requires Coded(codes, src) && i <= n <= |src|
    decreases n - i
  {
    if i == n then Nothing
    else Push(Codes(codes, src, i + 1, n), codes[src[i]].value, codes[src[i]].nbBits)
  }

  lemma {:induction false} CodesAppend(codes: seq<Code>, src: seq<byte>, i: nat, m: nat, n: nat)
    requires Coded(codes, src) && i <= m <= n <= |src|
    ensures Codes(codes, src, i, n) == Append(Codes(codes, src, m, n), Codes(codes, src, i, m))
    decreases m - i
  {
    if i < m {
      CodesAppend(codes, src, i + 1, m, n);
    }
  }

  lemma {:induction false} CodesWidth(ct: CTable, codes: seq<Code>, src: seq<byte>, i: nat, n: nat)
    requires IsCTable(ct, codes) && Coded(codes, src) && i <= n <= |src|
    ensures Width(Codes(codes, src, i, n)) <= ct.tableLog * (n - i)
    ensures Clean(Codes(codes, src, i, n))
    decreases n - i
  {
    if i < n {
      CodesWidth(ct, codes, src, i + 1, n);
      assert IsElt(ct.elts[src[i]], codes[src[i]], ct.tableLog);
      OneMore(ct.tableLog, n - i - 1);
    }
  }

  lemma OneMore(a: nat, n: nat)
    ensures a * (n + 1) == a * n + a
  {
  }

  // ----- How many codes fit in a register -----

  /** `k` codes fit above the at most 7 bits left over, and the noise of the fast ones stays below the valid bits. */
  ghost predicate Roomy(tableLog: nat, k: nat, lastFast: bool) {
    && k >= 1 && 7 + k * tableLog <= 63
    && (k - 1) * tableLog <= 57 && tableLog < Pow2(57 - (k - 1) * tableLog)
    && (lastFast ==> k * tableLog <= 57 && tableLog < Pow2(57 - k * tableLog))
  }

  lemma Grows(a: nat, n: nat, m: nat)
    requires n <= m
    ensures n * a <= m * a
  {
  }

  /** One code into the first register. */
  method EncodeSymbol0(bitC: HufCStream, ct: CTable, src: seq<byte>, i: nat, fast: bool, ghost codes: seq<Code>,
                       ghost used: nat)
    requires IsCTable(ct, codes) && Coded(codes, src) && i < |src| && bitC.Valid()
    requires bitC.Pos0() + ct.tableLog <= 64 && bitC.bits == Codes(codes, src, i + 1, |src|)
    requires fast ==> bitC.Pos0() + ct.tableLog <= 7 + used && used <= 57 && ct.tableLog < Pow2(57 - used)
    modifies bitC`bitContainer0, bitC`bitPos0, bitC`bits, bitC`c0
    ensures bitC.Valid() && bitC.bits == Codes(codes, src, i, |src|)
    ensures old(bitC.Pos0()) < bitC.Pos0() <= old(bitC.Pos0()) + ct.tableLog
  {
    hide Top, Stored, MakeElt;
    ghost var code := codes[src[i]];
    assert IsElt(ct.elts[src[i]], code, ct.tableLog);
    if fast {
      Pow2Monotone(57 - used, 64 - bitC.Pos0() - code.nbBits);
    }
    bitC.AddBits0(ct.elts[src[i]], fast, code.value, code.nbBits);
  }

  /** One code into the second register. */
  method EncodeSymbol1(bitC: HufCStream, ct: CTable, src: seq<byte>, i: nat, n: nat, fast: bool, ghost codes: seq<Code>,
                       ghost used: nat)
    requires IsCTable(ct, codes) && Coded(codes, src) && i < n <= |src| && bitC.Second()
    requires bitC.Pos1() + ct.tableLog <= SPARE1 && bitC.bits1 == Codes(codes, src, i + 1, n)
    requires fast ==> bitC.Pos1() + ct.tableLog <= used && used <= 57 && ct.tableLog < Pow2(57 - used)
    modifies bitC`bitContainer1, bitC`bitPos1, bitC`bits1
    ensures bitC.Second() && bitC.bits1 == Codes(codes, src, i, n)
    ensures bitC.Pos1() <= old(bitC.Pos1()) + ct.tableLog
  {
    hide Top, MakeElt;
    ghost var code := codes[src[i]];
    assert IsElt(ct.elts[src[i]], code, ct.tableLog);
    if fast {
      Pow2Monotone(57 - used, SPARE1 - bitC.Pos1() - code.nbBits);
    }
    bitC.AddBits1(ct.elts[src[i]], fast, code.value, code.nbBits);
  }

  /** `k` codes into the first register, all but perhaps the last one the fast way. */
  method EncodeGroup0(bitC: HufCStream, ct: CTable, src: seq<byte>, n: nat, kUnroll: nat, kLastFast: bool,
                      ghost codes: seq<Code>)
    requires IsCTable(ct, codes) && Coded(codes, src) && kUnroll <= n <= |src| && bitC.Valid()
    requires Roomy(ct.tableLog, kUnroll, kLastFast) && bitC.Pos0() <= 7 && bitC.bits == Codes(codes, src, n, |src|)
    modifies bitC`bitContainer0, bitC`bitPos0, bitC`bits, bitC`c0
    ensures bitC.Valid() && bitC.bits == Codes(codes, src, n - kUnroll, |src|)
    ensures 0 < bitC.Pos0() <= 63
  {
    hide HufCStream.Valid, IsCTable, Codes;
    for u := 1 to kUnroll
      invariant bitC.Valid() && bitC.bits == Codes(codes, src, n - (u - 1), |src|)
      invariant bitC.Pos0() <= 7 + (u - 1) * ct.tableLog
    {
      Grows(ct.tableLog, u, kUnroll - 1);
      OneMore(ct.tableLog, u - 1);
      EncodeSymbol0(bitC, ct, src, n - u, true, codes, (kUnroll - 1) * ct.tableLog);
    }
    OneMore(ct.tableLog, kUnroll - 1);
    EncodeSymbol0(bitC, ct, src, n - kUnroll, kLastFast, codes, kUnroll * ct.tableLog);
  }

  /** `k` codes into the second register. */
  method EncodeGroup1(bitC: HufCStream, ct: CTable, src: seq<byte>, n: nat, kUnroll: nat, kLastFast: bool,
                      ghost codes: seq<Code>)
    requires IsCTable(ct, codes) && Coded(codes, src) && kUnroll <= n <= |src| && bitC.Second()
    requires Roomy(ct.tableLog, kUnroll, kLastFast) && bitC.Pos1() == 0 && bitC.bits1 == Nothing
    modifies bitC`bitContainer1, bitC`bitPos1, bitC`bits1
    ensures bitC.Second() && bitC.bits1 == Codes(codes, src, n - kUnroll, n)
    ensures bitC.Pos1() <= 56
  {
    hide HufCStream.Second, IsCTable;
    for u := 1 to kUnroll
      invariant bitC.Second() && bitC.bits1 == Codes(codes, src, n - (u - 1), n)
      invariant bitC.Pos1() <= (u - 1) * ct.tableLog
    {
      Grows(ct.tableLog, u, kUnroll - 1);
      OneMore(ct.tableLog, u - 1);
      EncodeSymbol1(bitC, ct, src, n - u, n, true, codes, (kUnroll - 1) * ct.tableLog);
    }
    OneMore(ct.tableLog, kUnroll - 1);
    EncodeSymbol1(bitC, ct, src, n - kUnroll, n, kLastFast, codes, kUnroll * ct.tableLog);
  }

  // ----- All symbols -----

  /** The bits of all codes fit in the output, but for the 8 bytes that the last write may take. */
  ghost predicate BitsFit(codes: seq<Code>, src: seq<byte>, capacity: nat)
    requires Coded(codes, src)
  {
    Width(Codes(codes, src, 0, |src|)) / 8 + 8 <= capacity
  }

  lemma {:induction false} WidthGrows(codes: seq<Code>, src: seq<byte>, i: nat)
    requires Coded(codes, src) && i <= |src|
    ensures Width(Codes(codes, src, i, |src|)) <= Width(Codes(codes, src, 0, |src|))
    decreases i
  {
    if i > 0 {
      WidthGrows(codes, src, i - 1);
    }
  }

  /** The state between groups: the symbols from place `n` on are done. */
  ghost predicate Done(bitC: HufCStream, codes: seq<Code>, src: seq<byte>, n: nat, fast: bool)
    requires Coded(codes, src) && n <= |src|
    reads bitC, bitC.dst
  {
    && bitC.Valid() && bitC.ptr <= bitC.endPtr && (fast ==> !bitC.lost && BitsFit(codes, src, bitC.dst.Length))
    && bitC.bits == Codes(codes, src, n, |src|)
  }

  lemma Placed(bitC: HufCStream)
    requires bitC.Valid() && !bitC.lost
    ensures Width(bitC.bits) == 8 * bitC.ptr + bitC.Pos0()
  {
  }

  method Flush(bitC: HufCStream, kFast: bool, ghost codes: seq<Code>, ghost src: seq<byte>, ghost n: nat)
    requires Coded(codes, src) && n <= |src| && Done(bitC, codes, src, n, kFast) && bitC.Pos0() <= 63
    modifies bitC`bitPos0, bitC`ptr, bitC`lost, bitC`c0, bitC.dst
    ensures Done(bitC, codes, src, n, kFast) && bitC.Pos0() <= 7
  {
    bitC.FlushBits(kFast);
    if kFast {
      WidthGrows(codes, src, n);
      Placed(bitC);
    }
  }

  /** A few symbols, so that the number of those left is a multiple of `kUnroll`. */
  method EncodeRemainder(bitC: HufCStream, ct: CTable, src: seq<byte>, kUnroll: nat, kFastFlush: bool,
                         ghost codes: seq<Code>)
    returns (n: nat)
    requires IsCTable(ct, codes) && Coded(codes, src) && kUnroll >= 1 && 7 + kUnroll * ct.tableLog <= 63
    requires Done(bitC, codes, src, |src|, kFastFlush) && bitC.Pos0() == 0
    modifies bitC`bitContainer0, bitC`bitPos0, bitC`bits, bitC`c0, bitC`ptr, bitC`lost, bitC.dst
    ensures n <= |src| && n % kUnroll == 0 && Done(bitC, codes, src, n, kFastFlush) && bitC.Pos0() <= 7
  {
    hide IsCTable, Codes, HufCStream.Valid, BitsFit;
    n := |src|;
    var rem := n % kUnroll;
    Multiple(n, kUnroll);
    if rem > 0 {
      EncodeSome(bitC, ct, src, rem, kUnroll, kFastFlush, codes);
      n := n - rem;
      Flush(bitC, kFastFlush, codes, src, n);
    }
  }

  /** The last symbols, one by one. */
  method EncodeSome(bitC: HufCStream, ct: CTable, src: seq<byte>, rem: nat, ghost kUnroll: nat, ghost fast: bool,
                    ghost codes: seq<Code>)
    requires IsCTable(ct, codes) && Coded(codes, src) && rem < kUnroll && 7 + kUnroll * ct.tableLog <= 63
    requires rem <= |src| && Done(bitC, codes, src, |src|, fast) && bitC.Pos0() == 0
    modifies bitC`bitContainer0, bitC`bitPos0, bitC`bits, bitC`c0
    ensures Done(bitC, codes, src, |src| - rem, fast) && bitC.Pos0() <= 63
  {
    hide IsCTable, Codes, HufCStream.Valid, BitsFit;
    for k := 0 to rem
      invariant Done(bitC, codes, src, |src| - k, fast) && bitC.Pos0() <= k * ct.tableLog
    {
      OneMore(ct.tableLog, k);
      Grows(ct.tableLog, k + 1, kUnroll);
      EncodeSymbol0(bitC, ct, src, |src| - k - 1, false, codes, 0);
    }
    Grows(ct.tableLog, rem, kUnroll);
  }

  lemma Multiple(n: nat, k: nat)
    requires k >= 1
    ensures n % k < k && n % k <= n && (n - n % k) % k == 0
  {
    DivideIs(n - n % k, k, n / k, 0);
  }

  /** Two groups, the second one by way of the second register. */
  method EncodeTwoGroups(bitC: HufCStream, ct: CTable, src: seq<byte>, n: nat, kUnroll: nat, kFastFlush: bool,
                         kLastFast: bool, ghost codes: seq<Code>)
    requires IsCTable(ct, codes) && Coded(codes, src) && Roomy(ct.tableLog, kUnroll, kLastFast)
    requires 2 * kUnroll <= n <= |src| && Done(bitC, codes, src, n, kFastFlush) && bitC.Pos0() <= 7
    modifies bitC`bitContainer0, bitC`bitPos0, bitC`bits, bitC`c0, bitC`ptr, bitC`lost, bitC.dst
    modifies bitC`bitContainer1, bitC`bitPos1, bitC`bits1
    ensures Done(bitC, codes, src, n - 2 * kUnroll, kFastFlush) && bitC.Pos0() <= 7
  {
    hide IsCTable, Codes, Top, Stored, BitsFit, Roomy, Width, Clean;
    EncodeGroup0(bitC, ct, src, n, kUnroll, kLastFast, codes);
    Flush(bitC, kFastFlush, codes, src, n - kUnroll);
    bitC.ZeroIndex1();
    EncodeGroup1(bitC, ct, src, n - kUnroll, kUnroll, kLastFast, codes);
    bitC.MergeIndex1();
    CodesAppend(codes, src, n - 2 * kUnroll, n - kUnroll, |src|);
    Flush(bitC, kFastFlush, codes, src, n - 2 * kUnroll);
  }

  /** All symbols, from the last to the first. */
  method EncodeAll(bitC: HufCStream, ct: CTable, src: seq<byte>, kUnroll: nat, kFastFlush: bool, kLastFast: bool,
                   ghost codes: seq<Code>)
    requires IsCTable(ct, codes) && Coded(codes, src) && Roomy(ct.tableLog, kUnroll, kLastFast)
    requires Done(bitC, codes, src, |src|, kFastFlush) && bitC.Pos0() == 0
    modifies bitC, bitC.dst
    ensures Done(bitC, codes, src, 0, kFastFlush) && bitC.Pos0() <= 7
  {
    hide IsCTable, Codes, HufCStream.Valid, BitsFit;
    var n: nat := EncodeRemainder(bitC, ct, src, kUnroll, kFastFlush, codes);
    EvenOrOdd(n, kUnroll);
    if n % (2 * kUnroll) != 0 {
      EncodeGroup0(bitC, ct, src, n, kUnroll, kLastFast, codes);
      Flush(bitC, kFastFlush, codes, src, n - kUnroll);
      n := n - kUnroll;
    }
    while n > 0
      invariant n <= |src| && n % (2 * kUnroll) == 0 && Done(bitC, codes, src, n, kFastFlush) && bitC.Pos0() <= 7
    {
      OneLess(n, 2 * kUnroll);
      EncodeTwoGroups(bitC, ct, src, n, kUnroll, kFastFlush, kLastFast, codes);
      n := n - 2 * kUnroll;
    }
  }

  lemma OneLess(n: nat, k: nat)
    requires k >= 1 && n > 0 && n % k == 0
    ensures n >= k && (n - k) % k == 0
  {
    var q := n / k;
    assert n == q * k;
    if n < k {
      Product(1, q, k);
    }
    Distribute(q - 1, 1, k);
    DivideIs(n - k, k, q - 1, 0);
  }

  lemma EvenOrOdd(n: nat, k: nat)
    requires k >= 1 && n % k == 0
    ensures n % (2 * k) != 0 ==> n >= k && (n - k) % (2 * k) == 0
  {
    var q := n / k;
    assert n == q * k;
    var h := q / 2;
    if q % 2 == 0 {
      assert q == h * 2;
      Associate(h, 2, k);
      DivideIs(n, 2 * k, h, 0);
    } else {
      assert q == h * 2 + 1;
      Distribute(h * 2, 1, k);
      Associate(h, 2, k);
      Product(0, h, 2 * k);
      DivideIs(n - k, 2 * k, h, 0);
    }
  }

  // ----- Compressing -----

  /** From this size on the output is taken to fit. */
  function TightBound(srcSize: nat, tableLog: nat): nat {
    srcSize * tableLog / 8 + 8
  }

  /** And it does. */
  lemma TightBoundFits(ct: CTable, codes: seq<Code>, src: seq<byte>, capacity: nat)
    requires IsCTable(ct, codes) && Coded(codes, src) && capacity >= TightBound(|src|, ct.tableLog)
    ensures BitsFit(codes, src, capacity)
  {
    hide Codes, IsCTable, Width;
    CodesWidth(ct, codes, src, 0, |src|);
    EighthMonotone(Width(Codes(codes, src, 0, |src|)), ct.tableLog, |src|);
  }

  lemma EighthMonotone(w: nat, a: nat, n: nat)
    requires w <= a * n
    ensures w / 8 <= n * a / 8
  {
    assert a * n == n * a;
  }

  lemma RoomyIs(tableLog: nat, k: nat, lastFast: bool)
    requires k >= 1 && tableLog < 16 && k * tableLog <= 56 && (k - 1) * tableLog <= 53
    requires lastFast ==> k * tableLog <= 53 || (k * tableLog <= 54 && tableLog < 8)
    ensures Roomy(tableLog, k, lastFast)
  {
    assert Pow2(3) == 8 && Pow2(4) == 16;
    Pow2Monotone(4, 57 - (k - 1) * tableLog);
    if lastFast && tableLog < 8 {
      Pow2Monotone(3, 57 - k * tableLog);
    } else if lastFast {
      Pow2Monotone(4, 57 - k * tableLog);
    }
  }

  /** How many codes are put in a register at once, by the length of the longest code. */
  method Unrolling(tableLog: nat, fast: bool) returns (kUnroll: nat, kLastFast: bool)
    requires tableLog <= MAX_CODE_BITS && (fast ==> tableLog <= 11)
    ensures Roomy(tableLog, kUnroll, kLastFast)
  {
    hide Roomy;
    if !fast {
      kUnroll, kLastFast := 4, false;
    } else if tableLog == 11 {
      kUnroll, kLastFast := 5, false;
    } else if tableLog == 10 {
      kUnroll, kLastFast := 5, true;
    } else if tableLog == 9 {
      kUnroll, kLastFast := 6, false;
    } else if tableLog == 8 {
      kUnroll, kLastFast := 7, false;
    } else if tableLog == 7 {
      kUnroll, kLastFast := 8, false;
    } else {
      kUnroll, kLastFast := 9, true;
    }
    RoomyIs(tableLog, kUnroll, kLastFast);
  }

  /** Add the end mark. */
  method Close(bitC: HufCStream) returns (size: nat)
    requires bitC.Valid() && bitC.ptr <= bitC.endPtr && bitC.Pos0() <= 7
    modifies bitC, bitC.dst
    ensures size == 0 <==> (Width(old(bitC.bits)) + 1) / 8 >= bitC.endPtr
    ensures size > 0 ==> size <= bitC.dst.Length && IsStream(bitC.dst[..size], old(bitC.bits))
  {
    hide Top, MakeElt, Join, Pow2;
    ghost var fields := bitC.bits;
    OneBitWord();
    bitC.AddBits0(MakeElt(1, 1), false, 1, 1);
    bitC.FlushBits(false);
    if bitC.ptr >= bitC.endPtr {
      return 0;
    }
    var nbBits := bitC.bitPos0 % 256;
    size := bitC.ptr + if nbBits > 0 then 1 else 0;
    SmallByte(bitC.c0, nbBits);
    Closed(bitC.dst[..bitC.ptr], bitC.c0, nbBits, fields);
    assert bitC.dst[..bitC.ptr] + [bitC.dst[bitC.ptr]] == bitC.dst[..bitC.ptr + 1];
  }

  lemma OneBitWord()
    ensures 1 < Pow2(1)
  {
  }

  /** Compress with a given table. The result is 0 exactly if the bits do not fit; otherwise the bytes are those of
      writing one code after the other. */
  method Compress(dst: array<byte>, src: seq<byte>, ct: CTable, ghost codes: seq<Code>) returns (size: nat)
    requires IsCTable(ct, codes) && Coded(codes, src)
    modifies dst
    ensures size == 0 <==> dst.Length <= 8 || (Width(Codes(codes, src, 0, |src|)) + 1) / 8 + 8 >= dst.Length
    ensures size > 0 ==> size <= dst.Length && IsStream(dst[..size], Codes(codes, src, 0, |src|))
  {
    hide HufCStream.Valid, Roomy;
    if dst.Length < 8 {
      return 0;
    }
    if dst.Length <= 8 {
      return 0;
    }
    var bitC := new HufCStream(dst);
    var fast := dst.Length >= TightBound(|src|, ct.tableLog) && ct.tableLog <= 11;
    if fast {
      TightBoundFits(ct, codes, src, dst.Length);
    }
    var kUnroll, kLastFast := Unrolling(ct.tableLog, fast);
    EncodeAll(bitC, ct, src, kUnroll, fast, kLastFast, codes);
    size := Close(bitC);
  }
}
