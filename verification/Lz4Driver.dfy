/** The compression entry points over one context, and the kernel driver that keeps a context across calls. */
module Lz4Api {
  import opened ByteType
  import opened Lz4Format
  import opened Lz4Context
  import opened Lz4Matcher
  import opened Lz4Greedy
  import opened Lz4Compressor
  import opened Lz4EqualBytes

  const LIMIT_64K := 64 * KB + MFLIMIT - 1
  const ACCELERATION_MAX := 65537

  function ClampAcceleration(a: int): (r: nat)
    ensures 1 <= r <= 65537 && (1 <= a <= 65537 ==> r == a)
    ensures (a < 1 ==> r == 1) && (a > 65537 ==> r == 65537)
  {
    if a < 1 then 1 else if a > ACCELERATION_MAX then ACCELERATION_MAX else a
  }

  lemma EmptyIsBlock()
    ensures IsBlockOf([0], [])
  {
    assert Encodes([0], Empty, [], []);
  }

  lemma EmptyIsGreedy(j: Job, tbl: seq<nat>, block: seq<byte>, result: nat)
    requires |tbl| == TableSize(j.t) && j.acceleration >= 1 && j.src == []
    requires result == 0 ==> j.directive != NotLimited && j.olimit == 0
    requires result > 0 ==> block == [0] && (j.directive == NotLimited || j.olimit > 0)
    ensures IsGreedy(j, tbl, block, result, 0)
  {
  }

  lemma EmptyTooLong(src: seq<byte>)
    requires src == []
    ensures TooLong(src, 0)
  {
    assert TooLongAfter(Empty, src, 0);
  }

  /** Rejects inputs that are too large, answers the empty input, and compresses the rest. */
  method CompressGeneric(ctx: Stream, hash: seq<byte> -> nat, src: seq<byte>, dst: array<byte>, directive: Directive,
                         t: TableType, small: bool, acceleration: nat) returns (result: nat, consumed: nat)
    requires ctx.Valid() && 1 <= acceleration && t != ClearedTable
    requires directive == NotLimited ==> CompressBound(|src|) <= dst.Length
    requires Prepared(ctx.Entries(t), t, ctx.currentOffset)
    requires directive == FillOutput ==> ctx.currentOffset == 0
    requires |src| <= MAX_INPUT_SIZE && t == ByU16 ==>
      ctx.currentOffset + |src| <= 65546 && (ctx.currentOffset == 0 || small)
    requires |src| <= MAX_INPUT_SIZE && t == ByU32 ==>
      ctx.currentOffset == 0 || (ctx.currentOffset <= GB + 64 * KB && |src| < 4 * KB)
    modifies ctx, ctx.hashTable, dst
    ensures result <= dst.Length && consumed <= |src|
    ensures result > 0 ==> IsBlockOf(dst[..result], src[..consumed])
    ensures directive != FillOutput ==> consumed == |src| && ctx.Valid()
    ensures |src| <= MAX_INPUT_SIZE ==> (result == 0 ==> directive == LimitedOutput || dst.Length == 0)
    ensures |src| > MAX_INPUT_SIZE ==> result == 0
    ensures directive == FillOutput && result > 0 ==>
      consumed == |src| || Filled(dst[..result], src[..consumed], dst.Length)
    ensures result == 0 && directive == LimitedOutput && |src| <= MAX_INPUT_SIZE ==> TooLong(src, dst.Length)
    ensures directive == NotLimited ==> SameFrom(dst[..], old(dst[..]), CompressBound(|src|))
    ensures |src| <= MAX_INPUT_SIZE ==>
      var j := Job(src, hash, t, old(ctx.currentOffset), small, directive, dst.Length, acceleration);
      result <= dst.Length && IsGreedy(j, old(ctx.Entries(t)), dst[..result], result, consumed)
  {
    hide Filled, TooLong, IsGreedy;
    consumed := |src|;
    ghost var tbl := ctx.Entries(t);
    if |src| > MAX_INPUT_SIZE {
      return 0, consumed;
    }
    if |src| == 0 {
      if directive != NotLimited && dst.Length <= 0 {
        EmptyTooLong(src);
        EmptyIsGreedy(Job(src, hash, t, ctx.currentOffset, small, directive, 0, acceleration), tbl, dst[..0], 0);
        return 0, consumed;
      }
      dst[0] := 0;
      EmptyIsBlock();
      assert dst[..1] == [0] && src[..0] == [];
      EmptyIsGreedy(Job(src, hash, t, ctx.currentOffset, small, directive, dst.Length, acceleration), tbl, dst[..1], 1);
      return 1, 0;
    }
    var j := Job(src, hash, t, ctx.currentOffset, small, directive, dst.Length, acceleration);
    result, consumed := CompressValidated(ctx, j, dst);
  }

  function TypeFor(src: seq<byte>): TableType {
    if |src| < 65547 then ByU16 else ByU32
  }

  /** What is compressed, and how, when a context is reused. */
  ghost function ReusedJob(ctx: Stream, hash: seq<byte> -> nat, src: seq<byte>, room: nat, acceleration: int): Job
    reads ctx
  {
    var start := ctx.StartFor(|src|, TypeFor(src));
    Job(src, hash, TypeFor(src), start, TypeFor(src) == ByU16 && start != 0,
        if room >= CompressBound(|src|) then NotLimited else LimitedOutput, room, ClampAcceleration(acceleration))
  }

  /** And with a context that is as new. */
  ghost function FreshJob(hash: seq<byte> -> nat, src: seq<byte>, room: nat, acceleration: int): Job {
    Job(src, hash, TypeFor(src), 0, false,
        if room >= CompressBound(|src|) then NotLimited else LimitedOutput, room, ClampAcceleration(acceleration))
  }

  /** And so that as much as possible fits. */
  ghost function FilledJob(hash: seq<byte> -> nat, src: seq<byte>, room: nat, acceleration: int): Job {
    Job(src, hash, TypeFor(src), 0, false,
        if room >= CompressBound(|src|) then NotLimited else FillOutput, room, ClampAcceleration(acceleration))
  }

  /** Compression that reuses the context as the previous call left it. */
  method CompressFastReset(ctx: Stream, hash: seq<byte> -> nat, src: seq<byte>, dst: array<byte>, acceleration: int)
      returns (result: nat)
    requires ctx.Valid()
    modifies ctx, ctx.hashTable, dst
    ensures ctx.Valid()
    ensures result <= dst.Length
    ensures result > 0 ==> IsBlockOf(dst[..result], src)
    ensures |src| > MAX_INPUT_SIZE ==> result == 0
    ensures |src| <= MAX_INPUT_SIZE && |src| + |src| / 255 + 16 <= dst.Length ==> result > 0
    ensures result == 0 && |src| <= MAX_INPUT_SIZE ==> TooLong(src, dst.Length)
    ensures SameFrom(dst[..], old(dst[..]), CompressBound(|src|))
    ensures |src| <= MAX_INPUT_SIZE ==>
      IsGreedy(old(ReusedJob(ctx, hash, src, dst.Length, acceleration)), old(ctx.EntriesFor(|src|, TypeFor(src))),
               dst[..result], result, |src|)
    ensures |src| <= MAX_INPUT_SIZE && |src| >= 13 && AllEqual(src) && EqualSize(|src|) <= dst.Length ==>
      0 < result <= EqualSize(|src|)
  {
    hide TooLong, IsGreedy, AllEqual;
    ghost var j, tbl := ReusedJob(ctx, hash, src, dst.Length, acceleration), ctx.EntriesFor(|src|, TypeFor(src));
    var a := ClampAcceleration(acceleration);
    var directive := if dst.Length >= CompressBound(|src|) then NotLimited else LimitedOutput;
    var t := if |src| < LIMIT_64K then ByU16 else ByU32;
    ctx.PrepareTable(|src|, t);
    var small := t == ByU16 && ctx.currentOffset != 0;
    var consumed;
    result, consumed := CompressGeneric(ctx, hash, src, dst, directive, t, small, a);
    assert src[..|src|] == src;
    if |src| <= MAX_INPUT_SIZE && |src| >= 13 && AllEqual(src) {
      EqualBytesFit(j, tbl, dst[..result], result, |src|);
    }
  }

  /** A context as it is after initialisation. */
  method InitStream(ctx: Stream)
    requires ctx.hashTable.Length == WORDS
    modifies ctx, ctx.hashTable
    ensures ctx.Valid() && ctx.tableType == ClearedTable && ctx.currentOffset == 0
    ensures forall w :: 0 <= w < WORDS ==> ctx.hashTable[w] == 0
  {
    ctx.Zero();
    ctx.currentOffset, ctx.tableType, ctx.dictSize := 0, ClearedTable, 0;
  }

  lemma NewEntries(ctx: Stream, t: TableType)
    requires ctx.hashTable.Length == WORDS && forall w :: 0 <= w < WORDS ==> ctx.hashTable[w] == 0
    ensures ctx.Entries(t) == Zeros(t)
  {
  }

  /** Compression into a freshly initialised context. */
  method CompressFastExtState(ctx: Stream, hash: seq<byte> -> nat, src: seq<byte>, dst: array<byte>, acceleration: int)
      returns (result: nat)
    requires ctx.hashTable.Length == WORDS
    modifies ctx, ctx.hashTable, dst
    ensures ctx.Valid()
    ensures result <= dst.Length
    ensures result > 0 ==> IsBlockOf(dst[..result], src)
    ensures |src| <= MAX_INPUT_SIZE && |src| + |src| / 255 + 16 <= dst.Length ==> result > 0
    ensures |src| > MAX_INPUT_SIZE ==> result == 0
    ensures result == 0 && |src| <= MAX_INPUT_SIZE ==> TooLong(src, dst.Length)
    ensures SameFrom(dst[..], old(dst[..]), CompressBound(|src|))
    ensures |src| <= MAX_INPUT_SIZE ==>
      IsGreedy(FreshJob(hash, src, dst.Length, acceleration), Zeros(TypeFor(src)), dst[..result], result, |src|)
    ensures |src| <= MAX_INPUT_SIZE && |src| >= 13 && AllEqual(src) && EqualSize(|src|) <= dst.Length ==>
      0 < result <= EqualSize(|src|)
  {
    hide TooLong, IsGreedy, AllEqual;
    InitStream(ctx);
    var a := ClampAcceleration(acceleration);
    var directive := if dst.Length >= CompressBound(|src|) then NotLimited else LimitedOutput;
    var t := if |src| < LIMIT_64K then ByU16 else ByU32;
    var consumed;
    NewEntries(ctx, t);
    result, consumed := CompressGeneric(ctx, hash, src, dst, directive, t, false, a);
    assert src[..|src|] == src;
    if |src| <= MAX_INPUT_SIZE && |src| >= 13 && AllEqual(src) {
      EqualBytesFit(FreshJob(hash, src, dst.Length, acceleration), Zeros(t), dst[..result], result, |src|);
    }
  }

  /** Compresses as much of the input as fits the output: a block of exactly the bytes consumed, which is the whole
      input unless the output is full, up to one byte where the room for the last literals is 15 modulo 256. The context
      is initialised again on exit. */
  method CompressDestSize(ctx: Stream, hash: seq<byte> -> nat, src: seq<byte>, dst: array<byte>, acceleration: int)
      returns (result: nat, consumed: nat)
    requires ctx.hashTable.Length == WORDS
    modifies ctx, ctx.hashTable, dst
    ensures ctx.Valid() && ctx.currentOffset == 0
    ensures result <= dst.Length && consumed <= |src|
    ensures result > 0 ==> IsBlockOf(dst[..result], src[..consumed])
    ensures result > 0 <==> 0 < dst.Length && |src| <= MAX_INPUT_SIZE
    ensures result > 0 ==> consumed == |src| || Filled(dst[..result], src[..consumed], dst.Length)
    ensures result > 0 ==> consumed == |src| || result == dst.Length || result + 1 == dst.Length
    ensures SameFrom(dst[..], old(dst[..]), CompressBound(|src|))
    ensures |src| <= MAX_INPUT_SIZE ==>
      IsGreedy(FilledJob(hash, src, dst.Length, acceleration), Zeros(TypeFor(src)), dst[..result], result, consumed)
    ensures |src| <= MAX_INPUT_SIZE && |src| >= 13 && AllEqual(src) && EqualSize(|src|) <= dst.Length ==>
      consumed == |src| && 0 < result <= EqualSize(|src|)
  {
    hide IsBlockOf, IsGreedy, AllEqual;
    InitStream(ctx);
    NewEntries(ctx, TypeFor(src));
    ghost var j := FilledJob(hash, src, dst.Length, acceleration);
    if dst.Length >= CompressBound(|src|) {
      result := CompressFastExtState(ctx, hash, src, dst, acceleration);
      consumed := |src|;
      assert src[..|src|] == src;
    } else {
      var t := if |src| < LIMIT_64K then ByU16 else ByU32;
      result, consumed := CompressGeneric(ctx, hash, src, dst, FillOutput, t, false, ClampAcceleration(acceleration));
    }
    if |src| <= MAX_INPUT_SIZE && |src| >= 13 && AllEqual(src) && EqualSize(|src|) <= dst.Length {
      EqualBytesFit(j, Zeros(TypeFor(src)), dst[..result], result, consumed);
    }
    InitStream(ctx);
  }
}

module Lz4Driver {
  import opened ByteType
  import opened Lz4Format
  import opened Lz4Context
  import opened Lz4Compressor
  import opened Lz4Matcher
  import opened Lz4Greedy
  import opened Lz4EqualBytes
  import opened Lz4Api
  import opened Lz4DecoderSpec
  import opened Lz4Decoder
  import opened Lz4RoundTrip

  const INT_MAX := 0x7FFF_FFFF

  /** The driver's error codes, or the number of bytes written. */
  datatype Response = Written(length: nat) | TooBig | Invalid

  /** One transform: a context that is initialised once and then used by every compression. */
  class Transform {
    const stream: Stream

    ghost predicate Valid()
      reads this, stream, stream.hashTable
    {
      stream.Valid()
    }

    constructor ()
      ensures Valid() && fresh(stream) && fresh(stream.hashTable)
    {
      stream := new Stream();
    }

    method Compress(hash: seq<byte> -> nat, src: seq<byte>, dst: array<byte>) returns (r: Response)
      requires Valid()
      modifies stream, stream.hashTable, dst
      ensures Valid()
      ensures r.Written? ==> 0 < r.length <= dst.Length && IsBlockOf(dst[..r.length], src)
      ensures |src| > INT_MAX || dst.Length > INT_MAX <==> r == TooBig
      ensures |src| <= MAX_INPUT_SIZE && CompressBound(|src|) <= dst.Length <= INT_MAX ==> r.Written?
      ensures r == Invalid ==> |src| > MAX_INPUT_SIZE || TooLong(src, dst.Length)
      ensures r != TooBig && |src| <= MAX_INPUT_SIZE ==>
        var size := if r.Written? then r.length else 0;
        IsGreedy(old(ReusedJob(stream, hash, src, dst.Length, 1)), old(stream.EntriesFor(|src|, TypeFor(src))),
                 dst[..size], size, |src|)
      ensures 13 <= |src| <= MAX_INPUT_SIZE && AllEqual(src) && EqualSize(|src|) <= dst.Length <= INT_MAX ==>
        r.Written? && r.length <= EqualSize(|src|)
      ensures SameFrom(dst[..], old(dst[..]), CompressBound(|src|))
    {
      hide IsGreedy, AllEqual, TooLong, IsBlockOf;
      if |src| > INT_MAX || dst.Length > INT_MAX {
        return TooBig;
      }
      var out := CompressFastReset(stream, hash, src, dst, 1);
      if out <= 0 {
        return Invalid;
      }
      return Written(out);
    }

    method Decompress(block: seq<byte>, dst: array<byte>) returns (r: Response)
      modifies dst
      ensures |block| > INT_MAX || dst.Length > INT_MAX <==> r == TooBig
      ensures r.Written? ==> r.length <= dst.Length && SafeDecode(block, dst.Length, false) == Decoded(dst[..r.length])
      ensures r == Invalid ==> SafeDecode(block, dst.Length, false).Malformed?
    {
      if |block| > INT_MAX || dst.Length > INT_MAX {
        return TooBig;
      }
      var out := DecompressSafe(block, dst, dst.Length);
      if out < 0 {
        return Invalid;
      }
      return Written(out);
    }
  }

  /** A compression request: the data, and the room the caller offers for the block. */
  datatype Request = Request(data: seq<byte>, room: nat)

  /** What a request got: nothing, or a block. */
  datatype Reply = Refused | Block(bytes: seq<byte>)

  /** A reply is right for a request: a block decodes to the data of its own request, into any buffer that can hold
      it, and a request with enough room is not refused, nor one for which a block of the matches found would fit. */
  ghost predicate Answers(q: Request, a: Reply) {
    && (a.Block? ==>
          && 0 < |a.bytes| <= q.room && IsBlockOf(a.bytes, q.data)
          && forall cap: nat :: |q.data| <= cap ==> SafeDecode(a.bytes, cap, false) == Decoded(q.data))
    && (|q.data| <= MAX_INPUT_SIZE && CompressBound(|q.data|) <= q.room <= INT_MAX ==> a.Block?)
    && (a.Refused? ==> |q.data| > MAX_INPUT_SIZE || q.room > INT_MAX || TooLong(q.data, q.room))
  }

  /** Any run of compressions over one transform, refused ones included: every block it hands out is right. */
  method Run(hash: seq<byte> -> nat, requests: seq<Request>) returns (replies: seq<Reply>)
    ensures |replies| == |requests|
    ensures forall i :: 0 <= i < |requests| ==> Answers(requests[i], replies[i])
  {
    var tfm := new Transform();
    replies := [];
    for i := 0 to |requests|
      invariant tfm.Valid() && |replies| == i
      invariant forall k :: 0 <= k < i ==> Answers(requests[k], replies[k])
    {
      var q := requests[i];
      var dst := new byte[q.room](_ => 0);
      var r := tfm.Compress(hash, q.data, dst);
      var a := if r.Written? then Block(dst[..r.length]) else Refused;
      assert Answers(q, a) by {
        if a.Block? {
          forall cap: nat | |q.data| <= cap ensures SafeDecode(a.bytes, cap, false) == Decoded(q.data) {
            DecodeInvertsEncode(a.bytes, q.data, cap);
          }
        }
      }
      replies := replies + [a];
    }
  }
}
