/** Reading the weights of a code, and from them the table of its words. */
module HufTableReader {
  import opened ByteType
  import opened Pow2Lemmas
  import opened Bytes
  import opened HufCodes
  import opened HufCTable
  import opened HufWeights
  import opened HufEncoder
  import BitStream
  import FseNorm
  import FseTables
  import FseBuild
  import FseCodec
  import FseHeader
  import FseHeaderWriter
  import FseHeaderReader
  import FseHeaderRoundTrip
  import FseDecoder

  const MAX_FSE_TABLELOG: nat := 6
  const HW_SIZE: nat := 256

  datatype Failure = SrcSizeWrong | Corrupted | TableLogTooLarge | TooManySymbols | DstTooSmall

  datatype Unpacked = Size(n: nat) | Failed(why: Failure)

  // ----- Weights packed with finite state entropy -----

  /** The work space, in words of 32 bits, for decoding with a table of the given size. */
  function WorkspaceWords(tableLog: nat, maxSymbolValue: nat): nat {
    1 + Pow2(tableLog) + 1 + (2 * (maxSymbolValue + 1) + Pow2(tableLog) + 8 + 3) / 4 + 128 + 1
  }

  /** The work space, which is made for weights below the greatest, is enough. */
  ghost predicate Fits(g: FseDecoder.Origin) {
    g.norm != [] &&
    WorkspaceWords(g.tableLog, |g.norm| - 1) <= WorkspaceWords(MAX_FSE_TABLELOG, TABLELOG_MAX - 1)
  }

  /** The bytes are the header of a distribution, h bytes of it, and the stream of the source. */
  ghost predicate PackedAs(cSrc: seq<byte>, g: FseDecoder.Origin, h: nat) {
    && FseCodec.Encodes(g.norm, g.tableLog, g.ct) && g.ct.tableLog == g.tableLog <= MAX_FSE_TABLELOG
    && g.norm[|g.norm| - 1] != 0 && FseCodec.NotSingle(g.norm, g.tableLog)
    && FseCodec.Present(g.src, g.norm) && FseCodec.Usable(g.ct, g.src) && |g.src| > 2
    && h <= |cSrc| && FseHeaderWriter.IsHeader(cSrc[..h], FseHeader.Header(g.norm, g.tableLog))
    && BitStream.IsStream(cSrc[h..], FseCodec.Stream(g.ct, g.src))
  }

  lemma HeaderFound(cSrc: seq<byte>, g: FseDecoder.Origin, h: nat)
    requires PackedAs(cSrc, g, h)
    ensures FseHeaderReader.HeaderStarts(cSrc, g.norm, g.tableLog, HW_SIZE)
    ensures h == (BitStream.Width(FseHeader.Header(g.norm, g.tableLog)) + 7) / 8
  {
    hide FseHeader.Header, FseCodec.Stream, LittleEndian, FseTables.IsCTable, FseCodec.NotSingle;
    FseHeaderRoundTrip.WrittenStarts(cSrc[..h], cSrc[h..], g.norm, g.tableLog, HW_SIZE);
    assert cSrc[..h] + cSrc[h..] == cSrc;
  }

  /** Counts that make up a whole table are a distribution. */
  lemma ReadIsNormalized(read: FseHeaderReader.Read, counter: seq<int>, size: nat)
    requires read.Read? && FseHeaderReader.Complete(read, counter, size) && read.tableLog <= FseNorm.MAX_TABLELOG
    ensures FseNorm.Normalized(counter[..read.maxSymbolValue + 1], read.tableLog)
  {
    FseHeaderReader.SameStates(counter, counter[..read.maxSymbolValue + 1], read.maxSymbolValue + 1);
  }

  lemma CountersAre(read: FseHeaderReader.Read, counter: seq<int>, norm: seq<int>, tableLog: nat)
    requires FseNorm.Normalized(norm, tableLog) && norm[|norm| - 1] != 0 && |norm| <= |counter|
    requires FseHeaderReader.ReadsAs(read, counter, norm, tableLog)
    ensures read.Read? && read.maxSymbolValue == |norm| - 1 && counter[..|norm|] == norm && read.tableLog == tableLog
    ensures read.size == (BitStream.Width(FseHeader.Header(norm, tableLog)) + 7) / 8
  {
    hide FseHeader.Header;
  }

  lemma StreamFollows(cSrc: seq<byte>, g: FseDecoder.Origin, h: nat, dt: FseTables.DTable)
    requires PackedAs(cSrc, g, h) && FseTables.IsDTable(dt, g.norm, g.tableLog)
    ensures FseDecoder.IsEncoded(cSrc[h..], g, dt)
  {
    hide FseHeader.Header, FseCodec.Stream, FseTables.IsCTable, FseCodec.NotSingle, BitStream.IsStream;
  }

  /** Unpack weights: any bytes are either refused or give no more than the buffer takes. */
  method DecompressWeights(dst: array<byte>, cSrc: seq<byte>, ghost g: FseDecoder.Origin, ghost h: nat)
    returns (r: Unpacked)
    modifies dst
    ensures r.Size? ==> r.n <= dst.Length
    ensures PackedAs(cSrc, g, h) && |g.src| <= dst.Length ==>
      if Fits(g) then r == Size(|g.src|) && dst[..|g.src|] == g.src else r == Failed(TableLogTooLarge)
  {
    hide Pow2, WorkspaceWords, PackedAs, FseHeader.Header, FseHeaderReader.HeaderStarts, FseHeaderReader.ReadsAs,
    FseDecoder.IsEncoded, FseTables.IsDTable, FseNorm.Normalized;
    ghost var good := PackedAs(cSrc, g, h) && |g.src| <= dst.Length;
    if good {
      HeaderFound(cSrc, g, h);
      PackedParts(cSrc, g, h);
    }
    var ncount := new int[HW_SIZE];
    var read := FseHeaderReader.ReadNCount(ncount, cSrc, g.norm, g.tableLog);
    if good {
      CountersAre(read, ncount[..], g.norm, g.tableLog);
    }
    match read {
      case TableLogTooLarge => return Failed(TableLogTooLarge);
      case Corrupted => return Failed(Corrupted);
      case TooManySymbols => return Failed(TooManySymbols);
      case Read(_, _, _) =>
    }
    if read.tableLog > MAX_FSE_TABLELOG {
      return Failed(TableLogTooLarge);
    }
    if WorkspaceWords(read.tableLog, read.maxSymbolValue) > WorkspaceWords(MAX_FSE_TABLELOG, TABLELOG_MAX - 1) {
      return Failed(TableLogTooLarge);
    }
    ReadIsNormalized(read, ncount[..], |cSrc|);
    ghost var norm := ncount[..read.maxSymbolValue + 1];
    var ok, dt := FseBuild.BuildDTable(ncount[..read.maxSymbolValue + 1], read.tableLog);
    LogOfTable(norm, read.tableLog, dt);
    if good {
      StreamFollows(cSrc, g, h, dt);
    }
    var d := FseDecoder.Decompress(dst, cSrc[read.size..], dt, norm, g);
    match d {
      case Decoded(n) => r := Size(n);
      case Corrupted => r := Failed(Corrupted);
      case TooSmall => r := Failed(DstTooSmall);
    }
  }

  lemma LogOfTable(norm: seq<int>, tableLog: nat, dt: FseTables.DTable)
    requires FseNorm.Normalized(norm, tableLog) && FseTables.IsDTable(dt, norm, tableLog)
    ensures FseDecoder.Decodes(norm, dt.tableLog, dt)
  {
  }

  lemma PackedParts(cSrc: seq<byte>, g: FseDecoder.Origin, h: nat)
    requires PackedAs(cSrc, g, h)
    ensures g.norm != [] && |g.norm| <= HW_SIZE && FseNorm.Normalized(g.norm, g.tableLog) && g.norm[|g.norm| - 1] != 0
    ensures g.tableLog <= MAX_FSE_TABLELOG && h <= |cSrc|
  {
    hide FseHeader.Header, FseCodec.Stream, FseTables.IsCTable, FseCodec.NotSingle, BitStream.IsStream, WorkspaceWords;
  }

  // ----- Weights as transmitted -----

  /** How weights are sent: four bits each, or packed with a distribution whose header has h bytes. */
  datatype Packing = Raw | Packed(g: FseDecoder.Origin, h: nat)

  /** A weight of four bits, after the first byte. */
  function Nibble(src: seq<byte>, k: nat): byte
    requires 1 + k / 2 < |src|
  {
    if k % 2 == 0 then src[1 + k / 2] / 16 else src[1 + k / 2] % 16
  }

  ghost predicate SentRaw(src: seq<byte>, w: seq<byte>, size: nat) {
    && 1 <= |w| <= 128 && size == (|w| + 1) / 2 + 1 <= |src| && src[0] == 127 + |w|
    && forall k :: 0 <= k < |w| ==> w[k] == Nibble(src, k)
  }

  /** The first `size` bytes are these weights. */
  ghost predicate Sent(src: seq<byte>, w: seq<byte>, how: Packing, size: nat) {
    match how
    case Raw => SentRaw(src, w, size)
    case Packed(g, h) =>
      && |src| > 0 && src[0] < 128 && size == src[0] + 1 <= |src|
      && g.src == w && PackedAs(src[1..size], g, h)
  }

  /** Take the weights of four bits out of the bytes, two at a time. */
  method ReadNibbles(huffWeight: array<byte>, src: seq<byte>, oSize: nat)
    requires 1 + (oSize + 1) / 2 <= |src| && oSize < huffWeight.Length
    modifies huffWeight
    ensures forall k :: 0 <= k < oSize ==> huffWeight[k] == Nibble(src, k)
  {
    var n := 0;
    while n < oSize
      invariant n % 2 == 0 && n <= oSize + 1
      invariant forall k :: 0 <= k < n ==> huffWeight[k] == Nibble(src, k)
    {
      huffWeight[n] := src[1 + n / 2] / 16;
      huffWeight[n + 1] := src[1 + n / 2] % 16;
      n := n + 2;
    }
  }

  method Copy(to: array<byte>, from: array<byte>, n: nat)
    requires n <= from.Length && n <= to.Length && to != from
    modifies to
    ensures to[..n] == from[..n]
  {
    for i := 0 to n
      invariant to[..i] == from[..i]
    {
      to[i] := from[i];
    }
  }

  /** Packed weights can be unpacked. */
  ghost predicate Readable(how: Packing) {
    how.Packed? ==> Fits(how.g)
  }

  /** The transmitted weights, and the number of bytes they take. */
  method ReadWeights(huffWeight: array<byte>, src: seq<byte>, ghost w: seq<byte>, ghost how: Packing, ghost sent: nat)
    returns (r: Unpacked, size: nat)
    requires huffWeight.Length > 0
    modifies huffWeight
    ensures r.Size? ==> r.n < huffWeight.Length && size <= |src|
    ensures Sent(src, w, how, sent) && |w| < huffWeight.Length ==>
      if Readable(how) then r == Size(|w|) && size == sent && huffWeight[..|w|] == w else r == Failed(TableLogTooLarge)
  {
    hide PackedAs;
    size := 0;
    if |src| == 0 {
      return Failed(SrcSizeWrong), 0;
    }
    var iSize: nat := src[0];
    if iSize >= 128 {
      var oSize := iSize - 127;
      iSize := (oSize + 1) / 2;
      if iSize + 1 > |src| {
        return Failed(SrcSizeWrong), 0;
      }
      if oSize >= huffWeight.Length {
        return Failed(Corrupted), 0;
      }
      ReadNibbles(huffWeight, src, oSize);
      r := Size(oSize);
    } else {
      if iSize + 1 > |src| {
        return Failed(SrcSizeWrong), 0;
      }
      ghost var packed := how.Packed? && Sent(src, w, how, sent);
      ghost var g := if packed then how.g else Nobody();
      var unpacked := new byte[huffWeight.Length - 1];
      r := DecompressWeights(unpacked, src[1..iSize + 1], g, if packed then how.h else 0);
      if r.Failed? {
        return;
      }
      Copy(huffWeight, unpacked, r.n);
    }
    size := iSize + 1;
  }

  ghost function Nobody(): FseDecoder.Origin {
    FseDecoder.Origin([], 0, FseTables.CTable(0, [], [], []), [])
  }

  datatype Stats = Stats(size: nat, nbSymbols: nat, tableLog: nat) | Bad(why: Failure)

  /** The weights before the last fill up a table of `tableLog` bits but for the last one, and some words have the
      full length. */
  ghost predicate Completed(w: seq<byte>, tableLog: nat, last: byte) {
    tableLog <= TABLELOG_MAX && Lacks(TotalSpace(w), tableLog, last) && Occurrences(w + [last], 1) >= 2
  }

  lemma OneMoreWeight(w: seq<byte>, last: byte, v: nat)
    ensures Occurrences(w + [last], v) == Occurrences(w, v) + if last == v then 1 else 0
  {
    assert (w + [last])[..|w|] == w;
  }

  lemma EvenOnes(w: seq<byte>, tableLog: nat)
    requires Whole(w, tableLog)
    ensures Occurrences(w, 1) % 2 == 0
  {
    hide Occurrences, Space;
    OnesAreLongest(w, LengthsOf(w, tableLog), tableLog);
    EvenLongest(LengthsOf(w, tableLog), tableLog);
  }

  lemma CompletedIs(w: seq<byte>, tableLog: nat, last: byte, t: nat, l: byte)
    requires Completed(w, tableLog, last) && Lacks(TotalSpace(w), t, l)
    ensures t == tableLog && l == last && forall s :: 0 <= s < |w| ==> w[s] <= TABLELOG_MAX
  {
    hide Pow2, HighBit, Occurrences;
    BitsOfSum(TotalSpace(w), tableLog, last);
    BitsOfSum(TotalSpace(w), t, l);
    WeightsFit(w, tableLog);
  }

  /** Read the weights of a code. Whatever the bytes are, weights that are accepted are those of a complete code, with
      at least two words of the full length; and weights that were sent are read. */
  method ReadStats(huffWeight: array<byte>, rankStats: array<nat>, src: seq<byte>, ghost w: seq<byte>,
                   ghost how: Packing, ghost sent: nat, ghost tableLog: nat, ghost last: byte)
    returns (r: Stats)
    requires huffWeight.Length > 0 && rankStats.Length == TABLELOG_MAX + 1
    modifies huffWeight, rankStats
    ensures r.Stats? ==>
      0 < r.nbSymbols <= huffWeight.Length && r.size <= |src| && Whole(huffWeight[..r.nbSymbols], r.tableLog)
    ensures r.Stats? ==> forall v :: 0 <= v <= TABLELOG_MAX ==>
      rankStats[v] == Occurrences(huffWeight[..r.nbSymbols], v)
    ensures r.Stats? ==> rankStats[1] >= 2 && huffWeight[r.nbSymbols - 1] > 0
    ensures Sent(src, w, how, sent) && |w| < huffWeight.Length && Completed(w, tableLog, last) ==>
      if Readable(how) then r == Stats(sent, |w| + 1, tableLog) && huffWeight[..|w| + 1] == w + [last]
      else r == Bad(TableLogTooLarge)
  {
    hide Sent, Completed, Whole, Lacks, TotalSpace, Occurrences, Readable;
    ghost var good := Sent(src, w, how, sent) && |w| < huffWeight.Length && Completed(w, tableLog, last);
    var o, size := ReadWeights(huffWeight, src, w, how, sent);
    if o.Failed? {
      return Bad(o.why);
    }
    ghost var front := huffWeight[..o.n];
    var ok, weightTotal := CollectStats(huffWeight[..o.n], rankStats);
    if good {
      CompletedLacks(w, tableLog, last);
      CompletedIs(w, tableLog, last, tableLog, last);
    }
    if !ok {
      return Bad(Corrupted);
    }
    var log, lastWeight;
    ok, log, lastWeight := LastWeight(weightTotal);
    if !ok {
      return Bad(Corrupted);
    }
    if good {
      CompletedIs(w, tableLog, last, log, lastWeight);
    }
    LacksRange(weightTotal, log, lastWeight);
    FillsUp(front, log, lastWeight);
    huffWeight[o.n] := lastWeight;
    rankStats[lastWeight] := rankStats[lastWeight] + 1;
    assert huffWeight[..o.n + 1] == front + [lastWeight];
    forall v: nat
      ensures Occurrences(front + [lastWeight], v) == Occurrences(front, v) + if lastWeight == v then 1 else 0 {
      OneMoreWeight(front, lastWeight, v);
    }
    EvenOnes(front + [lastWeight], log);
    if rankStats[1] < 2 || rankStats[1] % 2 == 1 {
      return Bad(Corrupted);
    }
    r := Stats(size, o.n + 1, log);
  }

  lemma CompletedLacks(w: seq<byte>, tableLog: nat, last: byte)
    requires Completed(w, tableLog, last)
    ensures tableLog <= TABLELOG_MAX && Lacks(TotalSpace(w), tableLog, last) && Occurrences(w + [last], 1) >= 2
  {
  }

  lemma LacksRange(total: nat, tableLog: nat, last: byte)
    requires Lacks(total, tableLog, last)
    ensures 1 <= last <= tableLog
  {
  }

  // ----- The table of words -----

  datatype TableRead =
    | TableRead(ct: CTable, maxSymbolValue: nat, hasZeroWeights: bool, size: nat)
    | Refused(why: Failure)

  /** Weights to lengths. */
  method FillLengths(huffWeight: seq<byte>, tableLog: nat) returns (nb: array<nat>)
    requires forall s :: 0 <= s < |huffWeight| ==> huffWeight[s] <= tableLog
    ensures nb[..] == LengthsOf(huffWeight, tableLog)
  {
    nb := new nat[|huffWeight|];
    for n := 0 to |huffWeight|
      invariant forall s :: 0 <= s < n ==> nb[s] == BitsOf(huffWeight[s], tableLog)
    {
      var w := huffWeight[n];
      nb[n] := if w != 0 then tableLog + 1 - w else 0;
    }
  }

  lemma WholeIs(weights: seq<byte>, tableLog: nat)
    requires Whole(weights, tableLog)
    ensures 1 <= tableLog <= TABLELOG_MAX && CompleteLengths(LengthsOf(weights, tableLog), tableLog)
    ensures forall s :: 0 <= s < |weights| ==> weights[s] <= tableLog
    ensures forall s :: 0 <= s < |weights| ==> LengthsOf(weights, tableLog)[s] <= tableLog
    ensures forall s :: 0 <= s < |weights| ==> (weights[s] == 0 <==> LengthsOf(weights, tableLog)[s] == 0)
    ensures 1 in weights ==> tableLog in LengthsOf(weights, tableLog)
  {
    if 1 in weights {
      var s :| 0 <= s < |weights| && weights[s] == 1;
      assert LengthsOf(weights, tableLog)[s] == tableLog;
    }
  }

  lemma {:induction false} Occurs(weights: seq<byte>, v: byte)
    ensures Occurrences(weights, v) > 0 <==> v in weights
    decreases |weights|
  {
    if weights != [] {
      Occurs(weights[..|weights| - 1], v);
      assert weights == weights[..|weights| - 1] + [weights[|weights| - 1]];
    }
  }

  /** Read the table of code words. Whatever the bytes are, a table that is accepted is a canonical code that is
      complete, no larger than its longest word, and whose last symbol has a word; and a table whose weights were sent
      is read as the code they stand for. */
  method ReadCTable(maxSymbolValue: nat, src: seq<byte>, ghost w: seq<byte>, ghost how: Packing, ghost sent: nat,
                    ghost tableLog: nat, ghost last: byte)
    returns (r: TableRead, ghost nb: seq<nat>)
    ensures r.TableRead? ==>
      1 <= r.ct.tableLog <= TABLELOG_MAX && r.maxSymbolValue <= maxSymbolValue && r.size <= |src|
    ensures r.TableRead? ==> CompleteLengths(nb, r.ct.tableLog)
    ensures r.TableRead? ==> IsCTable(r.ct, CodesOf(nb, r.ct.tableLog)) && r.ct.tableLog in nb
    ensures r.TableRead? ==> |nb| == r.maxSymbolValue + 1 && nb[r.maxSymbolValue] > 0
    ensures r.TableRead? ==> (r.hasZeroWeights <==> 0 in nb)
    ensures Sent(src, w, how, sent) && |w| <= maxSymbolValue && |w| < HW_SIZE && Completed(w, tableLog, last) ==>
      if Readable(how) then
        r.TableRead? && r.size == sent && r.ct.tableLog == tableLog && nb == LengthsOf(w + [last], tableLog)
      else r == Refused(TableLogTooLarge)
  {
    hide Sent, Completed, Whole, CompleteLengths, Occurrences, IsCTable, First, Readable;
    nb := [];
    var huffWeight := new byte[HW_SIZE];
    var rankVal := new nat[TABLELOG_MAX + 1];
    var stats := ReadStats(huffWeight, rankVal, src, w, how, sent, tableLog, last);
    if stats.Bad? {
      return Refused(stats.why), [];
    }
    var nbSymbols, log := stats.nbSymbols, stats.tableLog;
    var hasZeroWeights := rankVal[0] > 0;
    Occurs(huffWeight[..nbSymbols], 0);
    Occurs(huffWeight[..nbSymbols], 1);
    WholeIs(huffWeight[..nbSymbols], log);
    if nbSymbols > maxSymbolValue + 1 {
      return Refused(TooManySymbols), [];
    }
    var nbBits := FillLengths(huffWeight[..nbSymbols], log);
    nb := nbBits[..];
    var nbPerRank := CountLengths(nbBits[..], log);
    var valPerRank := RankStarts(nbPerRank, log, nb);
    var elts := SetValues(nbBits[..], log, valPerRank);
    TableIs(nb, log, elts[..]);
    r := TableRead(CTable(log, elts[..]), nbSymbols - 1, hasZeroWeights, stats.size);
  }
}
