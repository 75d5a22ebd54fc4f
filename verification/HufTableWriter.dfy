/** Writing the weights of a code. */
module HufTableWriter {
  import opened ByteType
  import opened Pow2Lemmas
  import opened HufStream
  import opened HufCodes
  import opened HufCTable
  import opened HufWeights
  import opened HufEncoder
  import opened HufTableReader
  import BitStream
  import FseNorm
  import FseTables
  import FseBuild
  import FseCodec
  import FseEncoder
  import FseHeader
  import FseHeaderWriter
  import FseHeaderBound
  import FseDecoder
  import FseNormalize
  import FseShares

  const SYMBOLVALUE_MAX: nat := 255

  // ----- The histogram of the weights -----

  ghost predicate Counted(count: seq<nat>, weights: seq<byte>) {
    forall v :: 0 <= v < |count| ==> count[v] == Occurrences(weights, v)
  }

  lemma {:induction false} SumZeros(count: seq<nat>, n: nat)
    requires n <= |count| && forall v :: n <= v < |count| ==> count[v] == 0
    ensures FseNormalize.Sum(count) == FseNormalize.Sum(count[..n])
    decreases |count|
  {
    if n < |count| {
      SumZeros(count[..|count| - 1], n);
      assert count[..|count| - 1][..n] == count[..n];
    } else {
      assert count[..n] == count;
    }
  }

  lemma {:induction false} SumUpdate(count: seq<nat>, i: nat, v: nat)
    requires i < |count|
    ensures FseNormalize.Sum(count[i := v]) == FseNormalize.Sum(count) - count[i] + v
    decreases |count|
  {
    var now, front := count[i := v], count[..|count| - 1];
    if i == |count| - 1 {
      assert now[..|count| - 1] == front;
    } else {
      assert now[..|count| - 1] == front[i := v];
      SumUpdate(front, i, v);
    }
  }

  /** How often each weight occurs, the largest weight that does, and how often the most frequent one does. */
  method CountSimple(weights: seq<byte>) returns (count: array<nat>, maxSymbolValue: nat, largestCount: nat)
    requires |weights| > 0 && forall s :: 0 <= s < |weights| ==> weights[s] <= TABLELOG_MAX
    ensures fresh(count) && count.Length == TABLELOG_MAX + 1 && maxSymbolValue <= TABLELOG_MAX
    ensures Counted(count[..maxSymbolValue + 1], weights) && count[maxSymbolValue] > 0
    ensures FseNormalize.Sum(count[..maxSymbolValue + 1]) == |weights|
    ensures forall s :: 0 <= s < |weights| ==> weights[s] <= maxSymbolValue
    ensures forall v :: 0 <= v <= maxSymbolValue ==> count[v] <= largestCount
    ensures exists v :: 0 <= v <= maxSymbolValue && count[v] == largestCount
  {
    hide Occurrences, FseNormalize.Sum;
    count := new nat[TABLELOG_MAX + 1](i => 0);
    SumZeros(count[..], 0);
    NothingTaken();
    SumOfNone();
    assert count[..][..0] == [] && weights[..0] == [];
    for i := 0 to |weights|
      invariant forall v :: 0 <= v <= TABLELOG_MAX ==> count[v] == Occurrences(weights[..i], v)
      invariant FseNormalize.Sum(count[..]) == i
    {
      ghost var before := count[..];
      forall v: nat
        ensures Occurrences(weights[..i + 1], v) == Occurrences(weights[..i], v) + if weights[i] == v then 1 else 0 {
        OccurrencesSnoc(weights, i, v);
      }
      SumUpdate(before, weights[i], before[weights[i]] + 1);
      count[weights[i]] := count[weights[i]] + 1;
      assert count[..] == before[weights[i] := before[weights[i]] + 1];
    }
    assert weights[..|weights|] == weights;
    forall s | 0 <= s < |weights| ensures count[weights[s]] > 0 {
      Occurs(weights, weights[s]);
    }
    assert count[weights[0]] > 0;
    maxSymbolValue := TABLELOG_MAX;
    while count[maxSymbolValue] == 0
      invariant maxSymbolValue <= TABLELOG_MAX && weights[0] <= maxSymbolValue
      invariant forall v :: maxSymbolValue < v <= TABLELOG_MAX ==> count[v] == 0
      decreases maxSymbolValue
    {
      maxSymbolValue := maxSymbolValue - 1;
    }
    SumZeros(count[..], maxSymbolValue + 1);
    assert count[..][..maxSymbolValue + 1] == count[..maxSymbolValue + 1];
    largestCount := 0;
    ghost var at := 0;
    for s := 0 to maxSymbolValue + 1
      invariant forall v :: 0 <= v < s ==> count[v] <= largestCount
      invariant if s == 0 then largestCount == 0 else 0 <= at < s && count[at] == largestCount
    {
      if s == 0 || count[s] > largestCount {
        at := s;
      }
      if count[s] > largestCount {
        largestCount := count[s];
      }
    }
  }

  lemma SumOfNone()
    ensures FseNormalize.Sum([]) == 0
  {
  }

  /** The size of the table: no larger than the source calls for, no smaller than the symbols need. */
  function OptimalTableLog(maxTableLog: nat, srcSize: nat, maxSymbolValue: nat): (tableLog: nat)
    requires srcSize > 1 && maxSymbolValue > 0 && maxTableLog > 0
    ensures FseNorm.MIN_TABLELOG <= tableLog <= FseNorm.MAX_TABLELOG
  {
    var maxBitsSrc := (HighBit(srcSize - 1) + 0x1_0000_0000 - 2) % 0x1_0000_0000;
    var minBits := FseNormalize.MinTableLog(srcSize, maxSymbolValue);
    var t := if maxBitsSrc < maxTableLog then maxBitsSrc else maxTableLog;
    var u := if minBits > t then minBits else t;
    var v := if u < FseNorm.MIN_TABLELOG then FseNorm.MIN_TABLELOG else u;
    if v > FseNorm.MAX_TABLELOG then FseNorm.MAX_TABLELOG else v
  }

  /** The table is as large as all symbols are sure to fit in, if one may be; and larger than asked for only to be that,
      or of the least size there is. */
  lemma NeededTableLog(maxTableLog: nat, srcSize: nat, maxSymbolValue: nat)
    requires srcSize > 1 && maxSymbolValue > 0 && maxTableLog > 0
    ensures var tableLog := OptimalTableLog(maxTableLog, srcSize, maxSymbolValue);
      && (FseNormalize.LargeEnough(tableLog, srcSize, maxSymbolValue) || tableLog == 12)
      && (tableLog > maxTableLog && tableLog > 5 ==>
        tableLog == 12 || !FseNormalize.LargeEnough(tableLog - 1, srcSize, maxSymbolValue))
  {
    hide HighBit, FseNormalize.MinTableLog, FseNormalize.LargeEnough;
    var tableLog := OptimalTableLog(maxTableLog, srcSize, maxSymbolValue);
    FseNormalize.MinTableLogIs(tableLog, srcSize, maxSymbolValue);
    FseNormalize.MinTableLogIs(tableLog - 1, srcSize, maxSymbolValue);
  }

  lemma SmallHighBit(x: nat, n: nat)
    requires 0 < x < Pow2(n)
    ensures HighBit(x) < n
  {
    if HighBit(x) >= n {
      Pow2Monotone(n, HighBit(x));
    }
  }

  /** For so few weights the least that the source calls for wraps around below zero, and the table has the six bits it
      may have; else it has five. */
  lemma FiveBits(srcSize: nat, maxSymbolValue: nat)
    requires 1 < srcSize <= SYMBOLVALUE_MAX && 0 < maxSymbolValue <= TABLELOG_MAX
    ensures OptimalTableLog(MAX_FSE_TABLELOG, srcSize, maxSymbolValue) == if srcSize <= 4 then 6 else 5
  {
    hide HighBit;
    var h := HighBit(srcSize - 1);
    assert Pow2(0) == 1 && Pow2(1) == 2 && Pow2(2) == 4 && Pow2(4) == 16 && Pow2(8) == 256;
    SmallHighBit(srcSize - 1, 8);
    SmallHighBit(maxSymbolValue, 4);
    if srcSize <= 4 {
      SmallHighBit(srcSize - 1, 2);
    } else if h < 2 {
      Pow2Monotone(h, 1);
    }
  }

  // ----- Packing the weights -----

  datatype Compressed = NotCompressible | OneWeight | Bytes(bytes: seq<byte>) | NoRoom

  ghost predicate Alike(weights: seq<byte>) {
    forall i, j :: 0 <= i < j < |weights| ==> weights[i] == weights[j]
  }

  ghost predicate Distinct(weights: seq<byte>) {
    forall i, j :: 0 <= i < j < |weights| ==> weights[i] != weights[j]
  }

  /** Only weights of several kinds, some of them repeated, are tried to be packed. */
  ghost predicate Varied(weights: seq<byte>) {
    !Alike(weights) && !Distinct(weights)
  }

  ghost function CountsOf(weights: seq<byte>, n: nat): seq<nat> {
    seq(n, v requires 0 <= v < n => Occurrences(weights, v))
  }

  /** The distribution the weights are packed with: theirs, in a table of 5 bits, or 6 for no more than four weights. */
  ghost predicate Planned(g: FseDecoder.Origin) {
    && FseNorm.Normalized(g.norm, g.tableLog) && 2 <= |g.norm| <= TABLELOG_MAX + 1 && g.norm[|g.norm| - 1] != 0
    && FseCodec.Present(g.src, g.norm) && |g.src| > 2
    && (forall s :: 0 <= s < |g.norm| && g.norm[s] != 0 ==> s in g.src)
    && g.tableLog == (if |g.src| <= 4 then 6 else 5)
    && FseNormalize.Distribution(g.norm, CountsOf(g.src, |g.norm|), |g.src|, g.tableLog, 1)
  }

  /** And with a table for it. */
  ghost predicate Tabled(g: FseDecoder.Origin) {
    Planned(g) && FseCodec.Encodes(g.norm, g.tableLog, g.ct) && FseCodec.Usable(g.ct, g.src)
  }

  ghost function HeaderSize(g: FseDecoder.Origin): nat
    requires Planned(g)
  {
    (BitStream.Width(FseHeader.Header(g.norm, g.tableLog)) + 7) / 8
  }

  ghost function StreamSize(g: FseDecoder.Origin): nat
    requires Tabled(g)
  {
    BitStream.Width(FseCodec.Stream(g.ct, g.src)) / 8 + 1
  }

  /** The header is stored two bytes at a time. */
  ghost predicate HeaderFits(g: FseDecoder.Origin, room: int)
    requires Planned(g)
  {
    FseHeaderWriter.End(BitStream.Width(FseHeader.Header(g.norm, g.tableLog))) <= room
  }

  /** The stream is stored eight bytes at a time. */
  ghost predicate StreamFits(g: FseDecoder.Origin, room: int)
    requires Tabled(g)
  {
    room > 8 && (BitStream.Width(FseCodec.Stream(g.ct, g.src)) + 1) / 8 + 8 < room
  }

  /** What is known of the histogram when more than one weight occurs. */
  ghost predicate Mixed(count: seq<nat>, weights: seq<byte>) {
    && 2 <= |count| <= TABLELOG_MAX + 1 && Counted(count, weights) && count[|count| - 1] > 0
    && FseNormalize.Sum(count) == |weights| <= SYMBOLVALUE_MAX
    && (forall s :: 0 <= s < |weights| ==> weights[s] < |count|)
    && (forall v :: 0 <= v < |count| ==> count[v] < |weights|)
  }

  lemma {:induction false} AtMostSum(count: seq<nat>, i: nat)
    requires i < |count|
    ensures count[i] <= FseNormalize.Sum(count)
    ensures (forall v :: 0 <= v < |count| && v != i ==> count[v] == 0) ==> count[i] == FseNormalize.Sum(count)
  {
    hide FseNormalize.Sum;
    SumUpdate(count, i, 0);
    if forall v :: 0 <= v < |count| && v != i ==> count[v] == 0 {
      SumZeros(count[i := 0], 0);
      assert count[i := 0][..0] == [];
      SumOfNone();
    }
  }

  lemma MixedCounts(count: seq<nat>, weights: seq<byte>, largestCount: nat)
    requires 0 < |weights| <= SYMBOLVALUE_MAX && 1 <= |count| <= TABLELOG_MAX + 1
    requires Counted(count, weights) && count[|count| - 1] > 0 && FseNormalize.Sum(count) == |weights|
    requires forall s :: 0 <= s < |weights| ==> weights[s] < |count|
    requires forall v :: 0 <= v < |count| ==> count[v] <= largestCount
    requires largestCount != |weights| && exists v :: 0 <= v < |count| && count[v] == largestCount
    ensures Mixed(count, weights)
  {
    hide FseNormalize.Sum, Occurrences;
    var at :| 0 <= at < |count| && count[at] == largestCount;
    AtMostSum(count, at);
  }

  /** The distribution of more than one weight gives no weight all states, and leaves none out. */
  lemma MixedIsFair(count: seq<nat>, weights: seq<byte>, norm: seq<int>, tableLog: nat)
    requires Mixed(count, weights) && FseNorm.Normalized(norm, tableLog) && |norm| == |count|
    requires forall s :: 0 <= s < |count| ==> (norm[s] == 0 <==> count[s] == 0)
    ensures FseCodec.NotSingle(norm, tableLog) && FseCodec.Present(weights, norm) && norm[|norm| - 1] != 0
  {
    hide FseNormalize.Sum, Occurrences, FseNorm.StatesBefore;
    forall s | 0 <= s < |norm| ensures FseNorm.Frequency(norm[s]) < Pow2(tableLog) {
      if FseNorm.Frequency(norm[s]) >= Pow2(tableLog) {
        forall v | 0 <= v < |count| && v != s ensures count[v] == 0 {
          OthersNone(norm, tableLog, s, v);
        }
        AtMostSum(count, s);
      }
    }
    forall k | 0 <= k < |weights| ensures norm[weights[k]] != 0 {
      Occurs(weights, weights[k]);
    }
  }

  lemma OthersNone(norm: seq<int>, tableLog: nat, s: nat, v: nat)
    requires FseNorm.Normalized(norm, tableLog) && s < |norm| && v < |norm| && s != v
    requires FseNorm.Frequency(norm[s]) >= Pow2(tableLog)
    ensures norm[v] == 0
  {
    var first, second := if s < v then s else v, if s < v then v else s;
    FseNorm.StatesMonotone(norm, first, second);
    FseNorm.StatesMonotone(norm, second, |norm|);
    assert FseNorm.StatesBefore(norm, first) >= 0;
  }

  /** The work space is too small for exactly the largest table with the greatest weight. */
  lemma EnoughSpace(tableLog: nat, maxSymbolValue: nat)
    requires FseNorm.MIN_TABLELOG <= tableLog <= MAX_FSE_TABLELOG && maxSymbolValue <= TABLELOG_MAX
    ensures WorkspaceWords(tableLog, maxSymbolValue) <= WorkspaceWords(MAX_FSE_TABLELOG, TABLELOG_MAX - 1) <==>
      !(tableLog == 6 && maxSymbolValue == TABLELOG_MAX)
  {
    assert Pow2(5) == 32 && Pow2(6) == 64;
  }

  lemma IsPacked(bytes: seq<byte>, g: FseDecoder.Origin, h: nat, head: seq<byte>, body: seq<byte>)
    requires bytes == head + body && h == |head|
    requires FseCodec.Encodes(g.norm, g.tableLog, g.ct) && g.ct.tableLog == g.tableLog <= MAX_FSE_TABLELOG
    requires g.norm[|g.norm| - 1] != 0 && FseCodec.NotSingle(g.norm, g.tableLog)
    requires FseCodec.Present(g.src, g.norm) && FseCodec.Usable(g.ct, g.src) && |g.src| > 2
    requires FseHeaderWriter.IsHeader(head, FseHeader.Header(g.norm, g.tableLog))
    requires BitStream.IsStream(body, FseCodec.Stream(g.ct, g.src))
    ensures PackedAs(bytes, g, h)
  {
    hide FseHeader.Header, FseCodec.Stream, FseTables.IsCTable, BitStream.IsStream, FseCodec.NotSingle, WorkspaceWords;
    assert bytes[..h] == head && bytes[h..] == body;
  }

  lemma {:induction false} OccursAlways(weights: seq<byte>, v: nat)
    ensures Occurrences(weights, v) <= |weights|
    ensures Occurrences(weights, v) == |weights| <==> forall k :: 0 <= k < |weights| ==> weights[k] == v
    decreases |weights|
  {
    if weights != [] {
      OccursAlways(weights[..|weights| - 1], v);
    }
  }

  lemma {:induction false} OccursOnce(weights: seq<byte>, v: byte)
    ensures Occurrences(weights, v) <= 1 <==>
      forall i, j :: 0 <= i < j < |weights| && weights[i] == v ==> weights[j] != v
    decreases |weights|
  {
    if weights != [] {
      var front := weights[..|weights| - 1];
      OccursOnce(front, v);
      Occurs(front, v);
    }
  }

  /** Weights are all alike, or all distinct, exactly if the most frequent one is all of them, or occurs once. */
  lemma Kinds(weights: seq<byte>, count: seq<nat>, maxCount: nat)
    requires |weights| > 1 && Counted(count, weights) && forall s :: 0 <= s < |weights| ==> weights[s] < |count|
    requires forall v :: 0 <= v < |count| ==> count[v] <= maxCount
    requires exists v :: 0 <= v < |count| && count[v] == maxCount
    ensures maxCount == |weights| <==> Alike(weights)
    ensures maxCount == 1 <==> Distinct(weights)
  {
    hide Occurrences;
    var at :| 0 <= at < |count| && count[at] == maxCount;
    OccursAlways(weights, at);
    OccursAlways(weights, weights[0]);
    Occurs(weights, weights[0]);
    assert count[weights[0]] <= maxCount;
    if maxCount == 1 {
      forall i, j | 0 <= i < j < |weights| ensures weights[i] != weights[j] {
        assert count[weights[i]] <= 1;
        OccursOnce(weights, weights[i]);
      }
    } else {
      assert at < 256 by {
        if at !in weights {
          NeverOccurs(weights, at);
        }
      }
      OccursOnce(weights, at);
    }
  }

  lemma {:induction false} NeverOccurs(weights: seq<byte>, v: nat)
    requires forall k :: 0 <= k < |weights| ==> weights[k] != v
    ensures Occurrences(weights, v) == 0
    decreases |weights|
  {
    if weights != [] {
      NeverOccurs(weights[..|weights| - 1], v);
    }
  }

  lemma EnoughBits(srcSize: nat, maxSymbolValue: nat)
    requires 1 < srcSize && 0 < maxSymbolValue <= TABLELOG_MAX
    ensures FseNormalize.MinTableLog(srcSize, maxSymbolValue) <= 5
  {
    hide HighBit;
    assert Pow2(4) == 16;
    SmallHighBit(maxSymbolValue, 4);
  }

  lemma PlanIs(count: seq<nat>, weights: seq<byte>, norm: seq<int>, tableLog: nat, ct: FseTables.CTable)
    requires Mixed(count, weights) && FseNorm.Normalized(norm, tableLog) && |norm| == |count|
    requires norm[|norm| - 1] != 0 && FseCodec.Present(weights, norm) && Varied(weights)
    requires tableLog == if |weights| <= 4 then 6 else 5
    requires forall s :: 0 <= s < |count| ==> (norm[s] == 0 <==> count[s] == 0)
    requires FseNormalize.Distribution(norm, count, |weights|, tableLog, 1)
    ensures Planned(FseDecoder.Origin(norm, tableLog, ct, weights))
  {
    hide FseNorm.Normalized, FseNormalize.Distribution, FseNormalize.Sum, Occurrences;
    assert count == CountsOf(weights, |norm|);
    AtLeastThree(weights);
    forall s | 0 <= s < |norm| && norm[s] != 0 ensures s in weights {
      Occurs(weights, s);
    }
  }

  lemma AtLeastThree(weights: seq<byte>)
    requires Varied(weights)
    ensures |weights| > 2
  {
  }

  /** Pack weights, if they are of several kinds, some of them repeated, and header and stream fit. What is packed is
      the header of their distribution and their stream. There is work space to unpack it unless the greatest weight is
      among no more than four. */
  method CompressWeights(capacity: nat, weights: seq<byte>)
    returns (r: Compressed, ghost g: FseDecoder.Origin, ghost h: nat)
    requires |weights| <= SYMBOLVALUE_MAX && forall s :: 0 <= s < |weights| ==> weights[s] <= TABLELOG_MAX
    ensures g.src == weights && (Varied(weights) ==> Planned(g) && (HeaderFits(g, capacity) ==> Tabled(g)))
    ensures r.OneWeight? <==> |weights| > 1 && Alike(weights)
    ensures r.NoRoom? <==> Varied(weights) && !HeaderFits(g, capacity)
    ensures r.Bytes? <==>
      Varied(weights) && HeaderFits(g, capacity) && StreamFits(g, capacity - HeaderSize(g))
    ensures r.Bytes? ==> |r.bytes| == HeaderSize(g) + StreamSize(g) <= capacity
    ensures r.Bytes? ==> PackedAs(r.bytes, g, h) && (Fits(g) <==> !(|weights| <= 4 && TABLELOG_MAX in weights))
  {
    hide FseCodec.Present, PackedAs, FseCodec.NotSingle, FseNorm.Normalized, FseTables.IsCTable,
         FseHeaderWriter.IsHeader, BitStream.IsStream, FseCodec.Stream, FseHeader.Header, FseNormalize.Sum, Occurrences,
         OptimalTableLog, FseNormalize.MinTableLog, FseCodec.Encodes, Planned, Tabled, HeaderFits, StreamFits,
         HeaderSize, StreamSize, FseNormalize.Distribution, FseNormalize.LargeEnough;
    g, h := FseDecoder.Origin([], 0, FseTables.CTable(0, [], [], []), weights), 0;
    if |weights| <= 1 {
      return NotCompressible, g, h;
    }
    var counter, maxSymbolValue, maxCount := CountSimple(weights);
    Kinds(weights, counter[..maxSymbolValue + 1], maxCount);
    if maxCount == |weights| {
      return OneWeight, g, h;
    }
    if maxCount == 1 {
      return NotCompressible, g, h;
    }
    var count := counter[..maxSymbolValue + 1];
    MixedCounts(count, weights, maxCount);
    Occurs(weights, maxSymbolValue);
    FiveBits(|weights|, maxSymbolValue);
    EnoughBits(|weights|, maxSymbolValue);
    FseNormalize.MinTableLogIs(OptimalTableLog(MAX_FSE_TABLELOG, |weights|, maxSymbolValue), |weights|, maxSymbolValue);
    var tableLog := OptimalTableLog(MAX_FSE_TABLELOG, |weights|, maxSymbolValue);
    var norm := new int[|count|];
    var normal := FseNormalize.NormalizeCount(norm, tableLog, count, |weights|, false);
    if !normal.Done? {
      assert false;
      return NoRoom, g, h;
    }
    assert forall s :: 0 <= s < |count| ==> norm[..][s] == norm[s];
    MixedIsFair(count, weights, norm[..], tableLog);
    PlanIs(count, weights, norm[..], tableLog, g.ct);
    r, g, h := PackWith(capacity, weights, norm[..], tableLog);
    EnoughSpace(tableLog, maxSymbolValue);
  }

  lemma HeaderIs(g: FseDecoder.Origin, head: seq<byte>)
    requires Planned(g) && FseHeaderWriter.IsHeader(head, FseHeader.Header(g.norm, g.tableLog))
    ensures |head| == HeaderSize(g)
  {
  }

  lemma StreamIs(g: FseDecoder.Origin, body: seq<byte>)
    requires Tabled(g) && BitStream.IsStream(body, FseCodec.Stream(g.ct, g.src))
    ensures |body| == StreamSize(g)
  {
  }

  /** Pack weights with a distribution. */
  method PackWith(capacity: nat, weights: seq<byte>, norm: seq<int>, tableLog: nat)
    returns (r: Compressed, ghost g: FseDecoder.Origin, ghost h: nat)
    requires FseNorm.Normalized(norm, tableLog) && FseCodec.NotSingle(norm, tableLog)
    requires Planned(FseDecoder.Origin(norm, tableLog, FseTables.CTable(0, [], [], []), weights))
    ensures g.src == weights && g.norm == norm && g.tableLog == tableLog && Planned(g)
    ensures HeaderFits(g, capacity) ==> Tabled(g)
    ensures r.NoRoom? <==> !HeaderFits(g, capacity)
    ensures r.Bytes? <==> HeaderFits(g, capacity) && StreamFits(g, capacity - HeaderSize(g))
    ensures !r.OneWeight?
    ensures r.Bytes? ==> |r.bytes| == HeaderSize(g) + StreamSize(g) <= capacity && PackedAs(r.bytes, g, h)
  {
    hide FseHeaderWriter.WriteBound, FseHeaderWriter.Memory, PackedAs, FseCodec.NotSingle, FseTables.IsCTable,
         FseHeaderWriter.IsHeader, BitStream.IsStream, FseCodec.Stream, FseHeader.Fields, FseNormalize.Distribution,
         BitStream.Width;
    g, h := FseDecoder.Origin(norm, tableLog, FseTables.CTable(0, [], [], []), weights), 0;
    var header := new byte[capacity];
    assert FseHeaderWriter.AllFields(norm, tableLog) == FseHeader.Header(norm, tableLog);
    FseHeaderWriter.MemoryForAll(norm, tableLog);
    FseHeaderBound.FewSymbolsFit(norm, tableLog);
    ghost var reach;
    var written;
    written, reach := FseHeaderWriter.WriteNCount(header, capacity, norm, tableLog);
    if !written.Size? {
      return NoRoom, g, h;
    }
    HeaderIs(g, header[..written.n]);
    var ct := FseBuild.BuildCTable(norm, tableLog);
    FseCodec.UsableTable(norm, tableLog, ct, weights);
    var body := new byte[capacity - written.n];
    if FseEncoder.Unchecked(weights, body.Length) {
      FseEncoder.SmallTablesFit(norm, tableLog, ct, weights, body.Length);
    }
    g, h := FseDecoder.Origin(norm, tableLog, ct, weights), written.n;
    var cSize;
    cSize, reach := FseEncoder.Compress(body, body.Length, weights, ct, norm, tableLog);
    if cSize == 0 {
      return NotCompressible, g, h;
    }
    r := Bytes(header[..written.n] + body[..cSize]);
    StreamIs(g, body[..cSize]);
    IsPacked(r.bytes, g, h, header[..written.n], body[..cSize]);
  }

  // ----- Writing -----

  datatype Written = Written(size: nat) | MaxSymbolValueTooLarge | DstSizeTooSmall | Uncompressible

  lemma EltBits(elt: nat, code: Code, tableLog: nat)
    requires IsElt(elt, code, tableLog)
    ensures GetNbBits(elt) == code.nbBits <= tableLog
  {
    if code.nbBits > 0 {
      EltParts(code.value, code.nbBits);
    }
  }

  /** The lengths of all words but the last as weights. */
  method ToWeights(ct: CTable, maxSymbolValue: nat, huffLog: nat, ghost nb: seq<nat>) returns (huffWeight: array<byte>)
    requires huffLog == ct.tableLog <= TABLELOG_MAX && |nb| == maxSymbolValue + 1 <= SYMBOLVALUE_MAX + 1
    requires IsCTable(ct, CodesOf(nb, huffLog))
    ensures fresh(huffWeight) && huffWeight.Length == SYMBOLVALUE_MAX
    ensures WeightsOf(huffWeight[..maxSymbolValue], nb, huffLog)
    ensures forall s :: 0 <= s < maxSymbolValue ==> huffWeight[s] <= huffLog
  {
    hide IsElt;
    var bitsToWeight := new byte[huffLog + 1];
    bitsToWeight[0] := 0;
    for n := 1 to huffLog + 1
      invariant forall m :: 0 <= m < n ==> bitsToWeight[m] == Weight(m, huffLog)
    {
      bitsToWeight[n] := huffLog + 1 - n;
    }
    huffWeight := new byte[SYMBOLVALUE_MAX];
    for n := 0 to maxSymbolValue
      invariant forall m :: 0 <= m <= huffLog ==> bitsToWeight[m] == Weight(m, huffLog)
      invariant forall s :: 0 <= s < n ==> huffWeight[s] == Weight(nb[s], huffLog) <= huffLog
    {
      EltBits(ct.elts[n], CodesOf(nb, huffLog)[n], huffLog);
      BackAndForth(nb[n], huffLog);
      huffWeight[n] := bitsToWeight[GetNbBits(ct.elts[n])];
    }
  }

  lemma TwoNibbles(a: nat, b: nat)
    requires b < 16
    ensures (a * 16 + b) / 16 == a && (a * 16 + b) % 16 == b
  {
  }

  /** Two weights in each byte, with one more of zero if their number is odd. */
  method WriteNibbles(dst: array<byte>, huffWeight: array<byte>, maxSymbolValue: nat)
    requires dst != huffWeight && (maxSymbolValue + 1) / 2 + 1 <= dst.Length && maxSymbolValue < huffWeight.Length
    requires forall s :: 0 <= s < maxSymbolValue ==> huffWeight[s] < 16
    modifies dst, huffWeight
    ensures dst.Length > 0 && dst[0] == old(dst[0])
    ensures forall k :: 0 <= k < maxSymbolValue ==> Nibble(dst[..], k) == old(huffWeight[k])
  {
    huffWeight[maxSymbolValue] := 0;
    var n := 0;
    while n < maxSymbolValue
      invariant n % 2 == 0 && n <= maxSymbolValue + 1 && dst[0] == old(dst[0]) && huffWeight[maxSymbolValue] == 0
      invariant forall k :: 0 <= k < maxSymbolValue ==> huffWeight[k] == old(huffWeight[k]) < 16
      invariant forall k :: 0 <= k < n && k < maxSymbolValue ==> Nibble(dst[..], k) == huffWeight[k]
    {
      TwoNibbles(huffWeight[n], huffWeight[n + 1]);
      ghost var before := dst[..];
      dst[n / 2 + 1] := huffWeight[n] * 16 + huffWeight[n + 1];
      forall k | 0 <= k < n + 2 && k < maxSymbolValue ensures Nibble(dst[..], k) == huffWeight[k] {
        if k < n {
          assert Nibble(dst[..], k) == Nibble(before, k);
        }
      }
      n := n + 2;
    }
  }

  /** There is no room for the header of the weights' distribution. */
  ghost predicate NoHeader(g: FseDecoder.Origin, room: int) {
    Varied(g.src) && Planned(g) && !HeaderFits(g, room)
  }

  /** The weights are packed: that fits, and takes less than half a byte for each. */
  ghost predicate Packs(g: FseDecoder.Origin, room: int) {
    && Varied(g.src) && Tabled(g) && HeaderFits(g, room) && StreamFits(g, room - HeaderSize(g))
    && 1 < HeaderSize(g) + StreamSize(g) < |g.src| / 2
  }

  /** How weights are written into so many bytes. */
  ghost function Outcome(g: FseDecoder.Origin, size: nat): Written {
    if size == 0 || NoHeader(g, size - 1) then DstSizeTooSmall
    else if Packs(g, size - 1) then Written(1 + HeaderSize(g) + StreamSize(g))
    else RawOutcome(|g.src|, size)
  }

  /** How so many weights are written with four bits each. */
  function RawOutcome(weights: nat, size: nat): Written {
    if weights > 128 then Uncompressible
    else if (weights + 1) / 2 + 1 > size then DstSizeTooSmall
    else Written((weights + 1) / 2 + 1)
  }

  /** Write weights with four bits each, if there are not too many, and they fit. */
  method WriteRaw(dst: array<byte>, huffWeight: array<byte>, maxSymbolValue: nat) returns (r: Written)
    requires dst != huffWeight && maxSymbolValue < 256 <= huffWeight.Length + 1
    requires forall s :: 0 <= s < maxSymbolValue ==> huffWeight[s] < 16
    modifies dst, huffWeight
    ensures r == RawOutcome(maxSymbolValue, dst.Length)
    ensures r.Written? ==> r.size <= dst.Length
    ensures r.Written? && maxSymbolValue > 0 ==> SentRaw(dst[..r.size], old(huffWeight[..maxSymbolValue]), r.size)
  {
    if maxSymbolValue > 128 {
      return Uncompressible;
    }
    if (maxSymbolValue + 1) / 2 + 1 > dst.Length {
      return DstSizeTooSmall;
    }
    dst[0] := (128 + (maxSymbolValue - 1)) % 256;
    WriteNibbles(dst, huffWeight, maxSymbolValue);
    return Written((maxSymbolValue + 1) / 2 + 1);
  }

  /** Write the weights of a code. The bytes written are those weights, packed if that takes less than half a byte for
      each, and four bits each otherwise; they can always be unpacked. */
  method WriteCTable(dst: array<byte>, ct: CTable, maxSymbolValue: nat, huffLog: nat, ghost nb: seq<nat>)
    returns (r: Written, ghost g: FseDecoder.Origin, ghost how: Packing)
    requires |nb| == maxSymbolValue + 1 && huffLog == ct.tableLog <= TABLELOG_MAX && IsCTable(ct, CodesOf(nb, huffLog))
    modifies dst
    ensures r.MaxSymbolValueTooLarge? <==> maxSymbolValue > SYMBOLVALUE_MAX
    ensures maxSymbolValue <= SYMBOLVALUE_MAX ==> WeightsOf(g.src, nb, huffLog) && r == Outcome(g, dst.Length)
    ensures maxSymbolValue <= SYMBOLVALUE_MAX && dst.Length > 0 && Varied(g.src) ==>
      Planned(g) && (HeaderFits(g, dst.Length - 1) ==> Tabled(g))
    ensures r.Written? ==> r.size <= dst.Length && r.size <= (maxSymbolValue + 1) / 2 + 1
    ensures r.Written? ==> (how.Packed? <==> Packs(g, dst.Length - 1))
    ensures r.Written? && maxSymbolValue > 0 ==> Sent(dst[..r.size], g.src, how, r.size) && Readable(how)
  {
    hide PackedAs, IsCTable, Fits, Varied, Planned, Tabled, HeaderFits, StreamFits, HeaderSize, StreamSize, SentRaw;
    g, how := FseDecoder.Origin([], 0, FseTables.CTable(0, [], [], []), []), Raw;
    if maxSymbolValue > SYMBOLVALUE_MAX {
      return MaxSymbolValueTooLarge, g, how;
    }
    var huffWeight := ToWeights(ct, maxSymbolValue, huffLog, nb);
    g := g.(src := huffWeight[..maxSymbolValue]);
    if dst.Length < 1 {
      return DstSizeTooSmall, g, how;
    }
    var packed;
    ghost var h;
    packed, g, h := CompressWeights(dst.Length - 1, huffWeight[..maxSymbolValue]);
    if packed.NoRoom? {
      return DstSizeTooSmall, g, how;
    }
    if packed.Bytes? && 1 < |packed.bytes| < maxSymbolValue / 2 {
      how := Packed(g, h);
      dst[0] := |packed.bytes|;
      CopyIn(dst, packed.bytes);
      assert dst[..|packed.bytes| + 1][1..|packed.bytes| + 1] == packed.bytes;
      return Written(|packed.bytes| + 1), g, how;
    }
    r := WriteRaw(dst, huffWeight, maxSymbolValue);
  }

  method CopyIn(dst: array<byte>, bytes: seq<byte>)
    requires dst.Length > |bytes|
    modifies dst
    ensures dst[0] == old(dst[0]) && dst[1..|bytes| + 1] == bytes
  {
    for i := 0 to |bytes|
      invariant dst[0] == old(dst[0]) && dst[1..i + 1] == bytes[..i]
    {
      dst[i + 1] := bytes[i];
    }
  }
}
