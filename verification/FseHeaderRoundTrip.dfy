/** Reading the header of a distribution gives it back. */
module FseHeaderRoundTrip {
  import opened ByteType
  import opened Pow2Lemmas
  import opened BitArithmetic
  import opened Bytes
  import opened BitStream
  import opened FseNorm
  import opened FseHeader
  import opened FseHeaderWriter
  import opened FseHeaderReader
  import opened FseHeaderBound

  /** A header is found at the start of any bytes that begin with it. */
  lemma WrittenStarts(s: seq<byte>, rest: seq<byte>, norm: seq<int>, tableLog: nat, counters: nat)
    requires Normalized(norm, tableLog) && IsHeader(s, Header(norm, tableLog)) && |norm| <= counters
    ensures HeaderStarts(s + rest, norm, tableLog, counters)
  {
    hide Normalized, Header;
    var b := Header(norm, tableLog);
    HeaderClean(norm, tableLog);
    NumberBound(b);
    LittleEndianSplit(s + rest, |s|);
    assert (s + rest)[..|s|] == s;
    BelowWidth(LittleEndian(s + rest), 8 * |s|, Width(b), Number(b));
  }

  lemma BelowWidth(t: nat, wide: nat, n: nat, v: nat)
    requires t % Pow2(wide) == v < Pow2(n) && n <= wide
    ensures t % Pow2(n) == v
  {
    var d := wide - n;
    assert n + d == wide;
    Shifts(t, n, d);
    DivideIs(v, Pow2(n), 0, v);
  }

  /** Whatever follows the header, reading gives back the counts, the table size, the last symbol that occurs and the
      number of bytes written. The memory is an array that the buffer is the beginning of; all stores are inside the
      buffer exactly if they are checked or the last of them fits, and if there is a byte more than is taken to be
      enough, they are. */
  method RoundTrip(norm: seq<int>, tableLog: nat, header: array<byte>, capacity: nat, rest: seq<byte>,
                   counter: array<int>)
    returns (w: Written, r: Read, ghost reach: nat)
    requires Normalized(norm, tableLog) && counter.Length <= 256 && |norm| <= counter.Length
    requires capacity <= header.Length
    requires Unchecked(|norm|, tableLog, capacity) ==> End(Width(Header(norm, tableLog))) <= header.Length
    modifies header, counter
    ensures w.Size? || w.DstTooSmall?
    ensures w.Size? <==> Unchecked(|norm|, tableLog, capacity) || End(Width(Header(norm, tableLog))) <= capacity
    ensures w.Size? ==> r.Read? && r.size == w.n && r.tableLog == tableLog && LastSymbol(norm, r.maxSymbolValue)
    ensures w.Size? ==> forall k :: 0 <= k < counter.Length ==> counter[k] == if k < |norm| then norm[k] else 0
    ensures reach <= capacity <==>
      !Unchecked(|norm|, tableLog, capacity) || End(Width(Header(norm, tableLog))) <= capacity
    ensures capacity > WriteBound(|norm|, tableLog) ==> w.Size? && reach <= capacity
    ensures SameFrom(header[..], old(header[..]), reach)
  {
    hide Fields, LastSymbol, HeaderStarts, End, Width, SameFrom, StatesBefore;
    assert AllFields(norm, tableLog) == Header(norm, tableLog);
    MemoryForAll(norm, tableLog);
    OneMoreFits(norm, tableLog);
    w, reach := WriteNCount(header, capacity, norm, tableLog);
    r := Corrupted;
    if w.Size? {
      WrittenStarts(header[..w.n], rest, norm, tableLog, counter.Length);
      r := ReadNCount(counter, header[..w.n] + rest, norm, tableLog);
    }
  }
}
