/** Compressing and decompressing with the tables of one distribution gives back the source. */
module FseRoundTrip {
  import opened ByteType
  import opened BitStream
  import opened FseNorm
  import opened FseTables
  import opened FseBuild
  import opened FseCodec
  import opened FseEncoder
  import opened FseDecoder

  /** For any source whose symbols are all in the distribution, no symbol having the whole table: what is compressed
      to a nonzero size decompresses to the source, into any buffer that is large enough. The memory is an array that
      the output buffer is the beginning of; what is stored without checks is inside the buffer exactly if the bits of
      the symbols fit. */
  method RoundTrip(norm: seq<int>, tableLog: nat, ct: CTable, src: seq<byte>, packed: array<byte>, capacity: nat,
                   back: array<byte>)
    returns (size: nat, r: Result, ghost reach: nat)
    requires Encodes(norm, tableLog, ct) && ct.tableLog == tableLog && NotSingle(norm, tableLog)
    requires Present(src, norm) && Usable(ct, src)
    requires capacity <= packed.Length && (Unchecked(src, capacity) ==> BitsFit(ct, src, packed.Length))
    requires packed != back && back.Length >= |src|
    modifies packed, back
    ensures size == 0 <==> |src| <= 2 || capacity <= 8 || (Width(Stream(ct, src)) + 1) / 8 + 8 >= capacity
    ensures size > 0 ==> r == Decoded(|src|) && back[..|src|] == src
    ensures reach <= capacity <==> !Unchecked(src, capacity) || BitsFit(ct, src, capacity)
  {
    hide Normalized, NotSingle, IsCTable, IsDTable, SameFrom, EncodeFrom, BitsFit;
    var ok, dt := BuildDTable(norm, tableLog);
    LogOf(norm, tableLog, dt);
    size, reach := FseEncoder.Compress(packed, capacity, src, ct, norm, tableLog);
    r := TooSmall;
    if size > 0 {
      ghost var g := Origin(norm, tableLog, ct, src);
      r := FseDecoder.Decompress(back, packed[..size], dt, norm, g);
    }
  }

  lemma LogOf(norm: seq<int>, tableLog: nat, dt: DTable)
    requires Normalized(norm, tableLog) && IsDTable(dt, norm, tableLog)
    ensures dt.tableLog == tableLog <= MAX_TABLELOG
  {
  }

  /** Outputs that are written without checks all fit exactly for tables of at most 8 bits. The table returned is of a
      distribution with which, for any more, one does not. */
  method WhenUncheckedFits(tableLog: nat) returns (ct: CTable)
    requires MIN_TABLELOG <= tableLog <= MAX_TABLELOG
    ensures Encodes(Lopsided(tableLog), tableLog, ct)
    ensures AlwaysFits(tableLog) <==> tableLog <= 8
  {
    hide Normalized, IsCTable, AlwaysFits;
    LopsidedIsNormalized(tableLog);
    ct := BuildCTable(Lopsided(tableLog), tableLog);
    FitsExactly(tableLog, ct);
  }
}
