/** Reading a table of code words that was written gives it back. */
module HufTableRoundTrip {
  import opened ByteType
  import Pow2Lemmas
  import opened HufCodes
  import opened HufCTable
  import opened HufWeights
  import opened HufEncoder
  import opened HufTableReader
  import opened HufTableWriter
  import BitArithmetic
  import BitStream
  import FseDecoder
  import FseHeader
  import FseHeaderBound
  import FseHeaderWriter
  import FseNorm
  import FseNormalize

  /** Whatever follows the weights. */
  lemma SentBefore(src: seq<byte>, rest: seq<byte>, w: seq<byte>, how: Packing)
    requires Sent(src, w, how, |src|)
    ensures Sent(src + rest, w, how, |src|)
  {
    hide PackedAs;
    match how {
      case Raw =>
        assert forall k :: 0 <= k < |w| ==> Nibble(src + rest, k) == Nibble(src, k);
      case Packed(_, _) =>
        assert (src + rest)[1..|src|] == src[1..|src|];
    }
  }

  lemma AtLeastTwo(nb: seq<nat>, top: nat)
    requires CompleteLengths(nb, top)
    ensures |nb| > 1
  {
    if |nb| <= 1 {
      var front: seq<nat> := [];
      assert Space(front, top) == 0;
      if nb != [] {
        assert nb[..0] == front;
        if nb[0] > 0 {
          Pow2Lemmas.Pow2Monotone(top - nb[0], top);
        }
      }
    }
  }

  /** A table of the same codes is the same table. */
  lemma SameTable(a: CTable, b: CTable, codes: seq<Code>)
    requires IsCTable(a, codes) && IsCTable(b, codes) && a.tableLog == b.tableLog
    ensures a == b
  {
    assert forall s :: 0 <= s < |codes| ==> a.elts[s] == b.elts[s];
  }

  /** A table is of one code only. */
  lemma SameLengths(ct: CTable, nb: seq<nat>, other: seq<nat>)
    requires IsCTable(ct, CodesOf(nb, ct.tableLog)) && IsCTable(ct, CodesOf(other, ct.tableLog))
    ensures nb == other
  {
    hide IsElt;
    forall s | 0 <= s < |ct.elts| ensures nb[s] == other[s] {
      EltBits(ct.elts[s], CodesOf(nb, ct.tableLog)[s], ct.tableLog);
      EltBits(ct.elts[s], CodesOf(other, ct.tableLog)[s], ct.tableLog);
    }
  }

  /** The table is as large as its longest word, and its last symbol has a word. */
  ghost predicate Tight(ct: CTable, nb: seq<nat>) {
    nb != [] && ct.tableLog in nb && nb[|nb| - 1] > 0
  }

  /** For every complete canonical code, whether its weights are packed or not and whatever follows them: the table that
      is written is read back if and only if it is as large as its longest word and its last symbol has a word; else it
      is refused or read as another one. */
  method RoundTrip(dst: array<byte>, ct: CTable, nb: seq<nat>, rest: seq<byte>, maxSymbolValue: nat)
    returns (written: Written, r: TableRead, ghost g: FseDecoder.Origin, ghost how: Packing)
    requires |nb| > 0 && CompleteLengths(nb, ct.tableLog) && IsCTable(ct, CodesOf(nb, ct.tableLog))
    requires ct.tableLog <= TABLELOG_MAX && maxSymbolValue >= |nb| - 1
    modifies dst
    ensures written.MaxSymbolValueTooLarge? <==> |nb| > 256
    ensures |nb| <= 256 ==> WeightsOf(g.src, nb, ct.tableLog) && written == Outcome(g, dst.Length)
    ensures |nb| <= 256 && dst.Length > 0 && Varied(g.src) ==>
      Planned(g) && (HeaderFits(g, dst.Length - 1) ==> Tabled(g))
    ensures written.Written? && Tight(ct, nb) ==> r == TableRead(ct, |nb| - 1, 0 in nb, written.size)
    ensures written.Written? && !Tight(ct, nb) ==> r.TableRead? ==> r.ct != ct
  {
    hide CompleteLengths, IsCTable, Sent, Lacks, WeightsOf, Occurrences, Readable, Outcome, Planned, Tabled, HeaderFits,
         Varied, Packs;
    var tableLog := ct.tableLog;
    written, g, how := WriteCTable(dst, ct, |nb| - 1, tableLog, nb);
    r := Refused(Corrupted);
    if written.Written? {
      ghost var w := g.src;
      AtLeastTwo(nb, tableLog);
      Parts(w, nb, tableLog);
      ghost var last: byte := Weight(nb[|w|], tableLog);
      if Tight(ct, nb) {
        LengthsBack(w, nb, tableLog, last);
        LastIsLacking(w, nb, tableLog, last);
        TwoLongest(w, nb, tableLog, last);
      }
      SentBefore(dst[..written.size], rest, w, how);
      ghost var read;
      r, read := ReadCTable(maxSymbolValue, dst[..written.size] + rest, w, how, written.size, tableLog, last);
      if Tight(ct, nb) {
        SameTable(r.ct, ct, CodesOf(nb, tableLog));
      } else if r.TableRead? && r.ct == ct {
        SameLengths(ct, nb, read);
      }
    }
  }

  lemma Parts(w: seq<byte>, nb: seq<nat>, tableLog: nat)
    requires WeightsOf(w, nb, tableLog) && CompleteLengths(nb, tableLog) && tableLog <= TABLELOG_MAX
    ensures |nb| == |w| + 1 && Weight(nb[|w|], tableLog) < 256
    ensures forall s :: 0 <= s < |nb| ==> nb[s] <= tableLog
  {
  }

  // ----- When a table is written -----

  /** The header of the weights' distribution takes no more than 13 bytes. */
  lemma ThirteenBytes(g: FseDecoder.Origin, room: int)
    requires Planned(g) && room >= 13
    ensures HeaderFits(g, room)
  {
    hide FseNorm.Normalized, FseHeader.Header, BitStream.Width, FseNormalize.Distribution;
    FseHeaderBound.FewSymbolsFit(g.norm, g.tableLog);
    SmallBound(|g.norm|, g.tableLog);
  }

  lemma SmallBound(symbols: nat, tableLog: nat)
    requires symbols <= 13 && tableLog <= 6
    ensures symbols > 1 ==> FseHeaderWriter.WriteBound(symbols, tableLog) <= 13
  {
    BitArithmetic.Product(symbols, 13, tableLog);
  }

  /** Where the weights fit with four bits each, the table is written if and only if the header of their distribution
      fits as well, be it used or not; 14 bytes are enough for that. */
  lemma WhenWritten(g: FseDecoder.Origin, size: nat)
    requires |g.src| <= 128 && size >= (|g.src| + 1) / 2 + 1 && (Varied(g.src) ==> Planned(g))
    ensures Outcome(g, size).Written? <==> !Varied(g.src) || HeaderFits(g, size - 1)
    ensures size >= 14 ==> Outcome(g, size).Written?
  {
    hide Planned, Tabled, Varied, HeaderFits, StreamFits, HeaderSize, StreamSize;
    if Varied(g.src) && size >= 14 {
      ThirteenBytes(g, size - 1);
    }
  }

  lemma TwoFrequencies(norm: seq<int>)
    requires FseNorm.Normalized(norm, 6) && |norm| == 3 && norm[0] == 0 && norm[1] != 0 && norm[2] != 0
    ensures 0 < FseNorm.Frequency(norm[1]) < 64
  {
    assert Pow2Lemmas.Pow2(6) == 64;
    assert FseNorm.StatesBefore(norm, 3) == FseNorm.StatesBefore(norm, 2) + FseNorm.Frequency(norm[2]);
    assert FseNorm.StatesBefore(norm, 2) == FseNorm.StatesBefore(norm, 1) + FseNorm.Frequency(norm[1]);
  }

  /** Four bits for the size, at least six for each of the first two counts, and two for no further zeros. */
  lemma EighteenBits(norm: seq<int>)
    requires FseNorm.Normalized(norm, 6) && |norm| == 3 && norm[0] == 0 && norm[1] != 0 && norm[2] != 0
    ensures BitStream.Width(FseHeader.Header(norm, 6)) >= 18
  {
    assert Pow2Lemmas.Pow2(6) == 64;
    var a := FseNorm.Frequency(norm[1]);
    TwoFrequencies(norm);
    hide Pow2Lemmas.HighBit, FseNorm.StatesBefore, FseHeader.PushCount, FseHeader.CountValue;
    assert Pow2Lemmas.Pow2(6) == 64;
    var start := BitStream.Push(BitStream.Nothing, 1, 4);
    var first := FseHeader.PushCount(start, 0, 65);
    var second := FseHeader.PushCount(BitStream.Push(first, 0, 2), norm[1], 65);
    assert FseHeader.Header(norm, 6) == FseHeader.Fields(norm, first, 1, 65, true);
    assert FseHeader.PushZeros(first, norm, 1, true) == BitStream.Push(first, 0, 2);
    assert FseHeader.Fields(norm, first, 1, 65, true) == FseHeader.Fields(norm, second, 2, 65 - a, false);
    FseHeader.FieldsExtend(norm, second, 2, 65 - a, false);
    FseHeader.ExtendedWidth(FseHeader.Header(norm, 6), second);
    AtLeastSix(start, 0);
    AtLeastSix(BitStream.Push(first, 0, 2), norm[1]);
  }

  lemma AtLeastSix(b: BitStream.Bits, count: int)
    requires -1 <= count
    ensures BitStream.Width(FseHeader.PushCount(b, count, 65)) >= BitStream.Width(b) + 6
  {
    Pow2Lemmas.HighBitIs(65, 6);
  }

  /** The lengths 3, 3, 2 and 1: their weights take three bytes with four bits each, but the header of their
      distribution has more than 16 bits, so that three bytes are refused. */
  lemma ThreeBytesRefused(g: FseDecoder.Origin)
    requires g.src == [1, 1, 2] && Planned(g)
    ensures WeightsOf(g.src, [3, 3, 2, 1], 3) && CompleteLengths([3, 3, 2, 1], 3)
    ensures (|g.src| + 1) / 2 + 1 == 3 && Outcome(g, 3) == DstSizeTooSmall
  {
    hide Planned, Tabled, StreamFits, HeaderSize, StreamSize, CompleteLengths, HeaderFits, Packs;
    ThreeWeights(g);
    FourLengths();
    assert g.src[0] == g.src[1] == 1 && g.src[2] == 2;
    assert NoHeader(g, 2);
  }

  lemma FourLengths()
    ensures CompleteLengths([3, 3, 2, 1], 3)
  {
    var nb: seq<nat> := [3, 3, 2, 1];
    assert nb[..3] == [3, 3, 2] && nb[..3][..2] == [3, 3] && nb[..3][..2][..1] == [3];
    assert Space([3], 3) == 1 && Space([3, 3], 3) == 2 && Space([3, 3, 2], 3) == 4;
  }

  lemma ThreeWeights(g: FseDecoder.Origin)
    requires g.src == [1, 1, 2] && Planned(g)
    ensures !HeaderFits(g, 2)
  {
    hide FseNorm.Normalized, FseNormalize.Distribution, FseHeader.Header, BitStream.Width;
    assert g.src[1] == 1 && g.src[2] == 2;
    assert |g.norm| - 1 in g.src;
    EighteenBits(g.norm);
  }
}
