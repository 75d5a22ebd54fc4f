/** The greedy compressor: every block it returns is a conforming block of the input it consumed, under all three
    output disciplines. */
module Lz4Compressor {
  import opened ByteType
  import opened Lz4Format
  import opened Lz4Context
  import opened Lz4Matcher
  import opened Lz4Greedy
  import opened Lz4Emitter

  function CompressBound(n: nat): nat {
    if n > MAX_INPUT_SIZE then 0 else n + n / 255 + 16
  }

  // ----- What has been written -----

  /** The room kept for the end of the block after the sequences `seqs`, of which the last match ends at `anchor`. */
  ghost predicate Ends(j: Job, op: nat, seqs: Sequences, anchor: nat) {
    && 255 * op <= 256 * anchor
    && (j.directive == FillOutput ==> op < j.olimit)
    && (seqs.Then? ==>
          var ml := seqs.s.MatchLength();
          && anchor + LASTLITERALS <= |j.src| && anchor + MFLIMIT <= |j.src| + ml
          && (j.directive != NotLimited ==> op + 1 + LASTLITERALS <= j.olimit)
          && (j.directive == FillOutput && ml < 19 ==> op + 1 + MFLIMIT - MINMATCH <= j.olimit))
  }

  /** `out` encodes the first `anchor` bytes of the input. */
  ghost predicate Coded(j: Job, out: seq<byte>, seqs: Sequences, anchor: nat) {
    && anchor <= |j.src| && WellFormed(seqs)
    && out == EncodeSequences(seqs) && Expand(seqs) == j.src[..anchor]
    && Ends(j, |out|, seqs, anchor)
  }

  /** A sequence has been begun at `token`: its literals up to `ip` are written, its match is not. */
  ghost predicate Pending(j: Job, out: seq<byte>, anchor: nat, ip: nat, token: nat) {
    && token < |out| && anchor <= ip <= |j.src|
    && out == out[..token] + EncodeRun(j.src[anchor..ip], 0)
  }

  /** The sequence made of the pending literals and a match of length code `code` from `m`. */
  ghost function Made(j: Job, anchor: nat, ip: nat, m: nat, code: nat): Sequence
    requires anchor <= ip <= |j.src| && m <= ip
  {
    Sequence(j.src[anchor..ip], ip - m, code)
  }

  /** A match in the input is a copy of what precedes it. */
  lemma MatchCopies(src: seq<byte>, ip: nat, m: nat, n: nat)
    requires IsMatch(src, ip, m, n)
    ensures CopyMatch(src[..ip], ip - m, n) == src[..ip + n]
  {
    var t := src[..ip + n];
    assert t[..ip] == src[..ip];
    CopyMatchUnique(t, src[..ip], ip - m, n);
  }

  lemma ThenExpands(seqs: Sequences, s: Sequence, before: seq<byte>, after: seq<byte>)
    requires WellFormed(seqs) && Expand(seqs) + s.literals == before
    requires 1 <= s.offset <= DISTANCE_MAX && s.offset <= |before|
    requires CopyMatch(before, s.offset, s.MatchLength()) == after
    ensures WellFormed(Then(seqs, s)) && Expand(Then(seqs, s)) == after
  {
  }

  lemma ExtendedExpands(j: Job, seqs: Sequences, anchor: nat, ip: nat, m: nat, code: nat)
    requires WellFormed(seqs) && anchor <= ip <= |j.src| && Expand(seqs) == j.src[..anchor]
    requires IsMatch(j.src, ip, m, code + MINMATCH)
    ensures WellFormed(Then(seqs, Made(j, anchor, ip, m, code)))
    ensures Expand(Then(seqs, Made(j, anchor, ip, m, code))) == j.src[..ip + MINMATCH + code]
  {
    hide Expand, CopyMatch;
    var s := Made(j, anchor, ip, m, code);
    MatchCopies(j.src, ip, m, s.MatchLength());
    PrefixExtended(j.src, anchor, ip);
    ThenExpands(seqs, s, j.src[..ip], j.src[..ip + s.MatchLength()]);
  }

  lemma PrefixExtended(src: seq<byte>, anchor: nat, ip: nat)
    requires anchor <= ip <= |src|
    ensures src[..anchor] + src[anchor..ip] == src[..ip]
  {
  }

  /** The bytes of a pending sequence, once completed. */
  lemma PartsComplete(run: seq<byte>, lits: seq<byte>, offset: nat, code: nat)
    requires run == EncodeRun(lits, 0) && offset <= DISTANCE_MAX
    ensures run[0] + Nibble(code) < 256
    ensures run[0 := run[0] + Nibble(code)] + [offset % 256, offset / 256] + ExtraBytes(code) ==
      EncodeParts(lits, offset, code)
  {
    assert run[0 := run[0] + Nibble(code)] == EncodeRun(lits, Nibble(code));
  }

  lemma LengthOfExtra(code: nat)
    ensures |ExtraBytes(code)| == ExtraLength(code)
  {
    if code >= 15 {
      LengthBytesForm(code - 15);
    }
  }

  /** The size invariant behind the compression bound. */
  lemma CostBound(token: nat, anchor: nat, lits: nat, code: nat)
    requires 255 * token <= 256 * anchor
    ensures 255 * (token + 1 + ExtraLength(lits) + lits + 2 + ExtraLength(code)) <=
      256 * (anchor + lits + MINMATCH + code)
  {
  }

  lemma CompletedBytes(was: seq<byte>, now: seq<byte>, token: nat, lits: seq<byte>, offset: nat, code: nat)
    requires token < |was| && was == was[..token] + EncodeRun(lits, 0) && offset <= DISTANCE_MAX
    requires was[token] + Nibble(code) < 256
    requires now == was[token := was[token] + Nibble(code)] + [offset % 256, offset / 256] + ExtraBytes(code)
    ensures now == was[..token] + EncodeParts(lits, offset, code)
  {
    hide EncodeRun, Nibble;
    var run := EncodeRun(lits, 0);
    PartsComplete(run, lits, offset, code);
    assert was[token] == run[0];
    assert was[token := was[token] + Nibble(code)] == was[..token] + run[0 := run[0] + Nibble(code)];
  }

  lemma LengthOfParts(lits: seq<byte>, offset: nat, code: nat)
    requires offset <= DISTANCE_MAX
    ensures |EncodeParts(lits, offset, code)| == 1 + ExtraLength(|lits|) + |lits| + 2 + ExtraLength(code)
  {
    LengthOfExtra(|lits|);
    LengthOfExtra(code);
  }

  lemma EndsExtended(j: Job, op: nat, size: nat, seqs: Sequences, anchor: nat, ip: nat, m: nat, code: nat)
    requires anchor <= ip <= |j.src| && m <= ip && ip - m <= DISTANCE_MAX && 255 * op <= 256 * anchor
    requires ip + MFLIMIT <= |j.src| && ip + MINMATCH + code + LASTLITERALS <= |j.src|
    requires size == op + |EncodeParts(j.src[anchor..ip], ip - m, code)|
    requires j.directive != NotLimited ==> size + 1 + LASTLITERALS <= j.olimit
    requires j.directive == FillOutput && code < 15 ==> size + 1 + MFLIMIT - MINMATCH <= j.olimit
    ensures Ends(j, size, Then(seqs, Made(j, anchor, ip, m, code)), ip + MINMATCH + code)
  {
    LengthOfParts(j.src[anchor..ip], ip - m, code);
    CostBound(op, anchor, ip - anchor, code);
  }

  /** Completing a pending sequence keeps the invariant. */
  lemma CodedExtended(j: Job, was: seq<byte>, now: seq<byte>, seqs: Sequences, anchor: nat, ip: nat, token: nat, m: nat,
                      code: nat)
    requires token <= |was| && Coded(j, was[..token], seqs, anchor) && anchor <= ip
    requires IsMatch(j.src, ip, m, code + MINMATCH)
    requires ip + MFLIMIT <= |j.src| && ip + MINMATCH + code + LASTLITERALS <= |j.src|
    requires now == was[..token] + EncodeParts(j.src[anchor..ip], ip - m, code)
    requires j.directive != NotLimited ==> |now| + 1 + LASTLITERALS <= j.olimit
    requires j.directive == FillOutput && code < 15 ==> |now| + 1 + MFLIMIT - MINMATCH <= j.olimit
    ensures Coded(j, now, Then(seqs, Made(j, anchor, ip, m, code)), ip + MINMATCH + code)
  {
    hide Nibble, Expand, EncodeRun;
    ExtendedExpands(j, seqs, anchor, ip, m, code);
    EndsExtended(j, |was[..token]|, |now|, seqs, anchor, ip, m, code);
  }

  // ----- The match of a sequence -----

  /** Adds the match length to the token and writes the bytes that do not fit it. */
  method WriteCode(dst: array<byte>, token: nat, op0: nat, code: nat) returns (op: nat)
    requires token < op0 <= dst.Length && dst[token] + Nibble(code) < 256
    requires code >= 15 ==> op0 + ExtraLength(code) + 3 <= dst.Length
    modifies dst
    ensures op0 <= op <= dst.Length && op == op0 + ExtraLength(code)
    ensures dst[..op] == old(dst[..op0])[token := old(dst[token]) + Nibble(code)] + ExtraBytes(code)
    ensures SameFrom(dst[..], old(dst[..]), if code >= 15 then op0 + ExtraLength(code) + 3 else op0)
  {
    ghost var was := dst[..op0];
    dst[token] := dst[token] + Nibble(code);
    op := op0;
    assert dst[..op0] == was[token := was[token] + Nibble(code)];
    if code >= ML_MASK {
      op := WriteMatchLength(dst, op0, code - ML_MASK);
    }
  }

  /** Removes from the table the positions from `ip` to `filledIp`, which a shortened match does not cover. */
  method ClearFilled(ctx: Stream, j: Job, ip: nat, filledIp: nat)
    requires j.Valid() && ctx.hashTable.Length == WORDS && j.start == 0
    requires 0 < ip <= filledIp && filledIp + MFLIMIT <= |j.src| && j.Table(ctx.Entries(j.t), filledIp + 1)
    modifies ctx.hashTable
    ensures j.Table(ctx.Entries(j.t), ip)
    ensures ctx.Entries(j.t) == Cleared(j, old(ctx.Entries(j.t)), ip, filledIp)
  {
    var ptr := ip;
    while ptr <= filledIp
      invariant ip <= ptr <= filledIp + 1
      invariant Cleared(j, ctx.Entries(j.t), ptr, filledIp) == Cleared(j, old(ctx.Entries(j.t)), ip, filledIp)
      invariant j.Table(ctx.Entries(j.t), filledIp + 1)
      invariant forall h :: 0 <= h < TableSize(j.t) ==> ctx.Entries(j.t)[h] < ip || ptr <= ctx.Entries(j.t)[h]
    {
      ghost var was := ctx.Entries(j.t);
      var h := j.HashAt(ptr);
      ctx.ClearHash(h, j.t);
      forall k | 0 <= k < TableSize(j.t)
        ensures j.Usable(ctx.Entries(j.t)[k], k, filledIp + 1)
        ensures ctx.Entries(j.t)[k] < ip || ptr + 1 <= ctx.Entries(j.t)[k]
      {
        assert j.Usable(was[k], k, filledIp + 1);
      }
      ptr := ptr + 1;
    }
    forall k | 0 <= k < TableSize(j.t) ensures j.Usable(ctx.Entries(j.t)[k], k, ip) {
      assert j.Usable(ctx.Entries(j.t)[k], k, filledIp + 1);
    }
  }

  /** The length code that fits the output: refused when output is limited and it does not fit, and reduced, never to
      less than 15, when the output is to be filled. */
  method FitMatch(ctx: Stream, j: Job, op: nat, ip0: nat, filledIp: nat, code0: nat) returns (ok: bool, code: nat)
    requires j.Valid() && ctx.hashTable.Length == WORDS
    requires j.directive == FillOutput ==> op + 1 + MFLIMIT - MINMATCH <= j.olimit
    requires filledIp + MFLIMIT <= |j.src| && filledIp < ip0 + MINMATCH + code0
    requires j.Table(ctx.Entries(j.t), if filledIp < ip0 then ip0 + 1 else filledIp + 1)
    modifies ctx.hashTable
    ensures code <= code0 && (code < code0 ==> j.directive == FillOutput && 15 <= code)
    ensures ok && j.directive != NotLimited ==> op + 1 + LASTLITERALS + ExtraLength(code) <= j.olimit
    ensures ok ==> j.Table(ctx.Entries(j.t), ip0 + MINMATCH + code)
    ensures code < code0 ==> op + 1 + LASTLITERALS + ExtraLength(code) == j.olimit
    ensures ok <==> j.directive != LimitedOutput || op + 1 + LASTLITERALS + ExtraLength(code0) <= j.olimit
    ensures !ok ==> j.Table(ctx.Entries(j.t), if filledIp < ip0 then ip0 + 1 else filledIp + 1)
    ensures code < code0 ==> code % 255 == 14
    ensures ctx.Entries(j.t) == Cleared(j, old(ctx.Entries(j.t)), ip0 + MINMATCH + code, filledIp)
  {
    code := code0;
    ghost var pos := if filledIp < ip0 then ip0 + 1 else filledIp + 1;
    assert (code0 + 240) / 255 == ExtraLength(code0);
    if j.directive != NotLimited && op + (1 + LASTLITERALS) + (code + 240) / 255 > j.olimit {
      if j.directive == FillOutput {
        var newMatchCode := 15 - 1 + (j.olimit - op - 1 - LASTLITERALS) * 255;
        assert newMatchCode < code;
        code := newMatchCode;
        assert ExtraLength(code) == j.olimit - op - 1 - LASTLITERALS;
        var ip := ip0 + MINMATCH + code;
        if ip <= filledIp {
          ClearFilled(ctx, j, ip, filledIp);
        } else {
          TableLater(j, ctx.Entries(j.t), pos, ip);
        }
        return true, code;
      } else {
        return false, code;
      }
    }
    TableLater(j, ctx.Entries(j.t), pos, ip0 + MINMATCH + code);
    return true, code;
  }

  /** How much of the output is used: as much as may be needed at most, if it is not limited. */
  function Room(j: Job): nat {
    if j.directive == NotLimited then CompressBound(|j.src|) else j.olimit
  }

  /** The output buffer has the room that the directive presumes. */
  ghost predicate Buffer(j: Job, capacity: nat) {
    Room(j) <= capacity
  }

  /** Room for the offset, after the literals of a pending sequence. */
  ghost predicate RoomForMatch(j: Job, op: nat, token: nat, anchor: nat, ip: nat) {
    && anchor <= ip && op == token + 1 + ExtraLength(ip - anchor) + (ip - anchor)
    && 255 * token <= 256 * anchor
    && (j.directive == LimitedOutput ==> op + 2 <= j.olimit)
  }

  /** Under the compression bound there is always room for a match and its scratch bytes. */
  lemma BoundHasRoom(n: nat, token: nat, anchor: nat, ip: nat, code: nat, capacity: nat)
    requires 255 * token <= 256 * anchor && anchor <= ip && ip + MINMATCH + code + LASTLITERALS <= n <= MAX_INPUT_SIZE
    requires CompressBound(n) <= capacity
    ensures token + 1 + ExtraLength(ip - anchor) + (ip - anchor) + 2 + 1 + LASTLITERALS + ExtraLength(code) <= capacity
  {
  }

  /** The number of bytes the match covers, beyond the first four; it reaches past every position already recorded. */
  method MeasureMatch(j: Job, ip0: nat, m: nat, filledIp: nat) returns (code: nat)
    requires IsMatch(j.src, ip0, m, MINMATCH) && ip0 + MFLIMIT <= |j.src|
    requires ip0 < filledIp ==> filledIp + MFLIMIT <= |j.src| && IsMatch(j.src, ip0, m, filledIp - ip0 + MINMATCH)
    ensures ip0 + MINMATCH + code + LASTLITERALS <= |j.src|
    ensures IsMatch(j.src, ip0, m, code + MINMATCH) && filledIp < ip0 + MINMATCH + code
    ensures code == CodeAt(j, ip0, m)
  {
    code := Count(j.src, ip0 + MINMATCH, m + MINMATCH, |j.src| - LASTLITERALS);
  }

  /** The bytes of a pending sequence after its offset and its match length are written. */
  lemma FinishedBytes(j: Job, was: seq<byte>, mid: seq<byte>, now: seq<byte>,
                      anchor: nat, ip: nat, token: nat, offset: nat, code: nat)
    requires Pending(j, was, anchor, ip, token) && offset <= DISTANCE_MAX
    requires mid == was + [offset % 256, offset / 256]
    requires mid[token] + Nibble(code) < 256
    requires now == mid[token := mid[token] + Nibble(code)] + ExtraBytes(code)
    ensures now == was[..token] + EncodeParts(j.src[anchor..ip], offset, code)
  {
    TokenHasRoom(j, was, anchor, ip, token, code);
    var low := was[token] + Nibble(code);
    assert mid[token := low] == was[token := low] + [offset % 256, offset / 256];
    CompletedBytes(was, now, token, j.src[anchor..ip], offset, code);
  }

  lemma TokenHasRoom(j: Job, was: seq<byte>, anchor: nat, ip: nat, token: nat, code: nat)
    requires Pending(j, was, anchor, ip, token)
    ensures was[token] + Nibble(code) < 256
  {
    assert was[token] == EncodeRun(j.src[anchor..ip], 0)[0];
  }

  /** Where the match of a pending sequence may stand, and which positions the table may hold. */
  ghost predicate MatchAt(ctx: Stream, j: Job, ip: nat, m: nat, filledIp: nat)
    reads ctx.hashTable
  {
    && j.Valid() && ctx.hashTable.Length == WORDS
    && IsMatch(j.src, ip, m, MINMATCH) && ip + MFLIMIT <= |j.src| && filledIp + MFLIMIT <= |j.src|
    && (ip < filledIp ==> IsMatch(j.src, ip, m, filledIp - ip + MINMATCH))
    && j.Table(ctx.Entries(j.t), if filledIp < ip then ip + 1 else filledIp + 1)
  }

  /** A shortened match leaves room for the last literals and nothing else. */
  ghost predicate Full(j: Job, op: nat) {
    j.directive == FillOutput && op + 1 + LASTLITERALS == j.olimit
  }

  /** A match that is shortened to fill the output: its length bytes are all 255 but the last, which is 254, and the
      last literals have just the room they need. */
  ghost predicate Shortened(j: Job, op: nat, code: nat, whole: nat) {
    j.directive == FillOutput && code < whole && code % 255 == 14 && Full(j, op + ExtraLength(code))
  }

  /** So a match is shortened, and so much, exactly if its length bytes leave no room for the last literals. */
  lemma FittedIs(j: Job, op: nat, whole: nat, code: nat)
    requires !NoMatchFits(j, op) && (code == whole || Shortened(j, op + 2, code, whole))
    requires code == whole && j.directive == FillOutput ==> op + 2 + 1 + LASTLITERALS + ExtraLength(code) <= j.olimit
    ensures code == Fitted(j, op, whole)
  {
    if code < whole {
      var q := code / 255;
      assert code == 255 * q + 14;
      assert ExtraLength(code) == q;
      assert ExtraLength(whole) > q;
    }
  }

  lemma WholeMatch(j: Job, op: nat, whole: nat)
    requires j.directive != FillOutput
    ensures Fitted(j, op, whole) == whole
  {
  }

  /** Writes the offset of a match, and finds how much of its length fits. */
  method PlaceMatch(ctx: Stream, j: Job, dst: array<byte>, op0: nat, ip: nat, m: nat, filledIp: nat)
      returns (ok: bool, code: nat)
    requires MatchAt(ctx, j, ip, m, filledIp) && op0 + 2 <= dst.Length
    requires j.directive == FillOutput ==> op0 + 2 + 1 + MFLIMIT - MINMATCH <= j.olimit
    modifies dst, ctx.hashTable
    ensures dst[..op0 + 2] == old(dst[..op0]) + [(ip - m) % 256, (ip - m) / 256]
    ensures ip + MINMATCH + code + LASTLITERALS <= |j.src| && IsMatch(j.src, ip, m, code + MINMATCH)
    ensures ok && j.directive != NotLimited ==> op0 + 2 + 1 + LASTLITERALS + ExtraLength(code) <= j.olimit
    ensures ok ==> j.Table(ctx.Entries(j.t), ip + MINMATCH + code)
    ensures ok ==> filledIp < ip + MINMATCH + code || Full(j, op0 + 2 + ExtraLength(code))
    ensures !ok ==> j.directive == LimitedOutput && j.Table(ctx.Entries(j.t), |j.src|)
    ensures !ok ==> op0 + 2 + ExtraLength(code) + 1 + LASTLITERALS > j.olimit
    ensures SameFrom(dst[..], old(dst[..]), op0 + 2)
    ensures code == CodeAt(j, ip, m) || Shortened(j, op0 + 2, code, CodeAt(j, ip, m))
    ensures ctx.Entries(j.t) == Cleared(j, old(ctx.Entries(j.t)), ip + MINMATCH + code, filledIp)
  {
    WriteLE16(dst, op0, ip - m);
    var matchCode := MeasureMatch(j, ip, m, filledIp);
    ok, code := FitMatch(ctx, j, op0 + 2, ip, filledIp, matchCode);
    if !ok {
      TableLater(j, ctx.Entries(j.t), if filledIp < ip then ip + 1 else filledIp + 1, |j.src|);
    }
  }

  /** Writes the match length of the pending sequence `was`, once its offset is written. */
  method FinishMatch(j: Job, dst: array<byte>, token: nat, op0: nat, anchor: nat, ip: nat, offset: nat, code: nat,
                     ghost was: seq<byte>)
      returns (op: nat)
    requires offset <= DISTANCE_MAX && Pending(j, was, anchor, ip, token)
    requires op0 <= dst.Length && dst[..op0] == was + [offset % 256, offset / 256]
    requires op0 + 1 + LASTLITERALS + ExtraLength(code) <= dst.Length
    modifies dst
    ensures op == op0 + ExtraLength(code) <= dst.Length
    ensures dst[..op] == was[..token] + EncodeParts(j.src[anchor..ip], offset, code)
    ensures SameFrom(dst[..], old(dst[..]), op0 + 1 + LASTLITERALS + ExtraLength(code))
  {
    ghost var mid := dst[..op0];
    assert dst[token] == mid[token] == was[token];
    assert was[token] + Nibble(code) < 256 by {
      TokenHasRoom(j, was, anchor, ip, token, code);
    }
    op := WriteCode(dst, token, op0, code);
    FinishedBytes(j, was, mid, dst[..op], anchor, ip, token, offset, code);
  }

  /** A match whose length bytes do not fit makes a sequence that leaves no room for the last literals. */
  lemma RefusedIsTooLong(j: Job, op: nat, token: nat, anchor: nat, ip: nat, offset: nat, code: nat)
    requires RoomForMatch(j, op, token, anchor, ip) && ip <= |j.src| && offset <= DISTANCE_MAX
    requires op + 2 + ExtraLength(code) + 1 + LASTLITERALS > j.olimit
    ensures token + |EncodeParts(j.src[anchor..ip], offset, code)| + 1 + LASTLITERALS > j.olimit
  {
    hide ExtraLength;
    LengthOfParts(j.src[anchor..ip], offset, code);
  }

  /** Writes the match of the pending sequence `was`: offset, then as much of the match length as fits. Output that is
      limited is refused only if the whole sequence, a token and the last literals exceed it. */
  method EncodeMatch(ctx: Stream, j: Job, dst: array<byte>, token: nat, op0: nat, anchor: nat, ip0: nat, m: nat,
                     filledIp: nat, ghost was: seq<byte>) returns (ok: bool, op: nat, code: nat)
    requires MatchAt(ctx, j, ip0, m, filledIp) && Buffer(j, dst.Length)
    requires op0 <= dst.Length && was == dst[..op0] && Pending(j, was, anchor, ip0, token)
    requires RoomForMatch(j, op0, token, anchor, ip0)
    requires j.directive == FillOutput ==> op0 + 2 + 1 + MFLIMIT - MINMATCH <= j.olimit
    modifies dst, ctx.hashTable
    ensures op <= dst.Length && ip0 + MINMATCH + code + LASTLITERALS <= |j.src|
      && IsMatch(j.src, ip0, m, code + MINMATCH)
    ensures ok ==> dst[..op] == was[..token] + EncodeParts(j.src[anchor..ip0], ip0 - m, code)
    ensures ok ==> op == op0 + 2 + ExtraLength(code)
    ensures ok && j.directive != NotLimited ==> op + 1 + LASTLITERALS <= j.olimit
    ensures ok && j.directive == FillOutput && code < 15 ==> op + 1 + MFLIMIT - MINMATCH <= j.olimit
    ensures ok ==> j.Table(ctx.Entries(j.t), ip0 + MINMATCH + code)
    ensures ok ==> filledIp < ip0 + MINMATCH + code || Full(j, op)
    ensures !ok ==> j.directive == LimitedOutput && j.Table(ctx.Entries(j.t), |j.src|)
    ensures !ok ==>
      token + |EncodeParts(j.src[anchor..ip0], ip0 - m, code)| + 1 + LASTLITERALS > j.olimit
    ensures SameFrom(dst[..], old(dst[..]), Room(j))
    ensures code == CodeAt(j, ip0, m) || Shortened(j, op0 + 2, code, CodeAt(j, ip0, m))
    ensures ctx.Entries(j.t) == Cleared(j, old(ctx.Entries(j.t)), ip0 + MINMATCH + code, filledIp)
  {
    hide Pending, CompressBound, EncodeParts, SameFrom;
    if j.directive == NotLimited {
      BoundHasRoom(|j.src|, token, anchor, ip0, 0, Room(j));
    }
    ghost var before := dst[..];
    ok, code := PlaceMatch(ctx, j, dst, op0, ip0, m, filledIp);
    op := op0 + 2;
    SameWithin(dst[..], before, op, Room(j));
    if ok {
      if j.directive == NotLimited {
        BoundHasRoom(|j.src|, token, anchor, ip0, code, Room(j));
      }
      ghost var middle := dst[..];
      op := FinishMatch(j, dst, token, op, anchor, ip0, ip0 - m, code, was);
      SameWithin(dst[..], middle, op0 + 2 + 1 + LASTLITERALS + ExtraLength(code), Room(j));
      SameThrough(before, middle, dst[..], Room(j), Room(j));
    } else {
      RefusedIsTooLong(j, op0, token, anchor, ip0, ip0 - m, code);
    }
  }

  lemma SameWithin(now: seq<byte>, was: seq<byte>, n: nat, end: nat)
    requires SameFrom(now, was, n) && n <= end
    ensures SameFrom(now, was, end)
  {
  }

  // ----- The main loop -----

  /** How a stretch of work ends: the output is too small, the last literals are next, or the search goes on. */
  datatype Status = Failed | LastRun | Search

  /** There is room for literals, the shortest match, and the least that must come after it: a token and the last
      literals. */
  ghost predicate CouldFit(j: Job, token: nat, lits: nat) {
    token + 1 + ExtraLength(lits) + lits + 2 + 1 + LASTLITERALS <= j.olimit
  }

  /** The estimate of the length bytes is exact. */
  ghost predicate Unextended(lits: nat) {
    lits / 255 == ExtraLength(lits)
  }

  /** No sequence with these literals can be written after the first `used` bytes, and the block still be ended: not
      with any match. */
  ghost predicate NoneFits(lits: seq<byte>, used: nat, olimit: nat) {
    forall offset: nat, code: nat :: offset <= DISTANCE_MAX ==>
      used + |EncodeParts(lits, offset, code)| + 1 + LASTLITERALS > olimit
  }

  lemma SequencesDoNotFit(j: Job, token: nat, lits: seq<byte>)
    requires !CouldFit(j, token, |lits|)
    ensures NoneFits(lits, token, j.olimit)
  {
    forall offset: nat, code: nat | offset <= DISTANCE_MAX
      ensures token + |EncodeParts(lits, offset, code)| + 1 + LASTLITERALS > j.olimit
    {
      LengthOfParts(lits, offset, code);
    }
  }

  /** Why limited output is refused: after some sequences found in the input, the literals and any match after them, or
      the last of these sequences, or the last literals do not leave room for what must come after. */
  ghost predicate TooLongAfter(seqs: Sequences, src: seq<byte>, olimit: nat) {
    && WellFormed(seqs) && Expand(seqs) <= src
    && var used, at := |EncodeSequences(seqs)|, |Expand(seqs)|;
      || (exists ip :: at <= ip <= |src| && NoneFits(src[at..ip], used, olimit))
      || (seqs.Then? && used + 1 + LASTLITERALS > olimit)
      || used + |EncodeRun(src[at..], 0)| > olimit
  }

  ghost predicate TooLong(src: seq<byte>, olimit: nat) {
    exists seqs :: TooLongAfter(seqs, src, olimit)
  }

  /** Token and literals of a sequence, if they fit. Output that is limited is refused only if no match could follow
      them and the block still be ended; and if the estimate of the length bytes is exact, then exactly if so. */
  method BeginSequence(j: Job, dst: array<byte>, token: nat, anchor: nat, ip: nat) returns (status: Status, op: nat)
    requires Buffer(j, dst.Length) && |j.src| <= MAX_INPUT_SIZE
    requires token <= dst.Length && 255 * token <= 256 * anchor && anchor <= ip && ip + MFLIMIT <= |j.src|
    modifies dst
    ensures status == Failed ==> j.directive == LimitedOutput && NoneFits(j.src[anchor..ip], token, j.olimit)
    ensures status == Search && j.directive == LimitedOutput && Unextended(ip - anchor) ==>
      CouldFit(j, token, ip - anchor)
    ensures status == LastRun <==> NoMatchFits(j, token + 1 + ExtraLength(ip - anchor) + (ip - anchor))
    ensures op <= dst.Length && token <= op && dst[..token] == old(dst[..token])
    ensures status == Search ==> RoomForMatch(j, op, token, anchor, ip) && Pending(j, dst[..op], anchor, ip, token)
    ensures SameFrom(dst[..], old(dst[..]), Room(j))
  {
    hide EncodeParts, EncodeRun, SameFrom;
    var litLength := ip - anchor;
    op := token;
    ghost var was := dst[..];
    SameStill(was, Room(j));
    if j.directive == LimitedOutput && token + 1 + litLength + (2 + 1 + LASTLITERALS) + litLength / 255 > j.olimit {
      SequencesDoNotFit(j, token, j.src[anchor..ip]);
      return Failed, op;
    }
    if j.directive == FillOutput
       && token + 1 + (litLength + 240) / 255 + litLength + 2 + 1 + MFLIMIT - MINMATCH > j.olimit {
      return LastRun, op;
    }
    ghost var before := dst[..token];
    op := WriteLiterals(dst, token, j.src, anchor, ip);
    assert dst[..op][..token] == before;
    SameWithin(dst[..], was, token + 1 + litLength + 8 + litLength / 255, Room(j));
    return Search, op;
  }

  /** What is recorded after a match that ends at `ip`, and whether the next match starts there. */
  ghost predicate Next(j: Job, was: seq<nat>, ip: nat, now: seq<nat>, again: bool, m: nat)
    requires |was| == TableSize(j.t) && 2 <= ip < j.MatchLimit()
  {
    var tbl := Recorded(j, was, ip - 2);
    var e := tbl[j.HashAt(ip)];
    && now == Recorded(j, tbl, ip)
    && (again <==> Accepted(j, e, ip))
    && (again ==> m == e - j.start)
  }

  /** After a match: records two more positions and looks for a match that starts right here. */
  method TestNext(ctx: Stream, j: Job, ip: nat) returns (again: bool, m: nat)
    requires j.Valid() && ctx.hashTable.Length == WORDS
    requires 2 <= ip < j.MatchLimit() && j.Table(ctx.Entries(j.t), ip)
    modifies ctx.hashTable
    ensures j.Table(ctx.Entries(j.t), ip + 1)
    ensures again ==> IsMatch(j.src, ip, m, MINMATCH)
    ensures Next(j, old(ctx.Entries(j.t)), ip, ctx.Entries(j.t), again, m)
  {
    hide Accepted;
    Put(ctx, j, ip - 2, j.HashAt(ip - 2), ip);
    var h := j.HashAt(ip);
    var matchIndex := ctx.GetIndex(h, j.t);
    assert j.Usable(matchIndex, h, ip);
    TableLater(j, ctx.Entries(j.t), ip, ip + 1);
    Put(ctx, j, ip, h, ip + 1);
    again := Candidate(j, matchIndex, ip);
    m := if again then matchIndex - j.start else 0;
  }

  lemma MatchTooLong(j: Job, out: seq<byte>, seqs: Sequences, anchor: nat, ip: nat, m: nat, code: nat)
    requires Coded(j, out, seqs, anchor) && anchor <= ip <= |j.src| && IsMatch(j.src, ip, m, code + MINMATCH)
    requires |out| + |EncodeParts(j.src[anchor..ip], ip - m, code)| + 1 + LASTLITERALS > j.olimit
    ensures TooLongAfter(Then(seqs, Made(j, anchor, ip, m, code)), j.src, j.olimit)
  {
    hide EncodeParts, Expand;
    ExtendedExpands(j, seqs, anchor, ip, m, code);
  }

  lemma LiteralsTooLong(j: Job, out: seq<byte>, seqs: Sequences, anchor: nat, ip: nat)
    requires Coded(j, out, seqs, anchor) && anchor <= ip <= |j.src|
    requires NoneFits(j.src[anchor..ip], |out|, j.olimit)
    ensures TooLongAfter(seqs, j.src, j.olimit)
  {
    hide EncodeParts, Expand, NoneFits;
  }

  lemma LastTooLong(j: Job, out: seq<byte>, seqs: Sequences, anchor: nat)
    requires Coded(j, out, seqs, anchor) && |out| + |EncodeRun(j.src[anchor..], 0)| > j.olimit
    ensures TooLongAfter(seqs, j.src, j.olimit)
  {
    hide EncodeRun, Expand, NoneFits;
  }

  // ----- Where the parse leads -----

  /** The size of the block for a parse. */
  ghost function BlockSize(j: Job, g: Parse): nat {
    SizeOfAll(g.seqs) + if g.anchor <= |j.src| then 1 + ExtraLength(|j.src| - g.anchor) + (|j.src| - g.anchor) else 0
  }

  lemma {:induction false} SizesAre(seqs: Sequences)
    requires WellFormed(seqs)
    ensures |EncodeSequences(seqs)| == SizeOfAll(seqs)
  {
    hide EncodeParts, Expand;
    match seqs
    case Empty =>
    case Then(front, s) =>
      SizesAre(front);
      LengthOfParts(s.literals, s.offset, s.code);
  }

  /** However the parse goes on, what is found already is written, and after it a token and the last literals. */
  lemma {:induction false} FromGrows(j: Job, tbl: seq<nat>, seqs: Sequences, anchor: nat, ip: nat)
    requires |tbl| == TableSize(j.t) && j.acceleration >= 1 && anchor <= ip <= |j.src|
    requires anchor + LASTLITERALS <= |j.src| && j.directive != FillOutput
    ensures BlockSize(j, GreedyFrom(j, tbl, seqs, anchor, ip)) >= SizeOfAll(seqs) + 1 + LASTLITERALS
    decreases |j.src| - anchor, 1
  {
    hide FirstMatch, Back, SizeOf, GreedyMatch;
    var found := FirstMatch(j, tbl, ip, 1, 64 * j.acceleration);
    if found.At? {
      var k := Back(j.src, anchor, found.ip, found.m);
      MatchGrows(j, found.tbl, seqs, anchor, found.ip - k, found.m - k, found.ip);
    }
  }

  lemma {:induction false} MatchGrows(j: Job, tbl: seq<nat>, seqs: Sequences, anchor: nat, ip: nat, m: nat, filled: nat)
    requires |tbl| == TableSize(j.t) && j.acceleration >= 1 && anchor <= ip && m < ip < j.MatchLimit()
    requires filled < j.MatchLimit() && j.directive != FillOutput
    ensures BlockSize(j, GreedyMatch(j, tbl, seqs, anchor, ip, m, filled)) >=
      SizeOfAll(seqs) + SizeOf(Sequence(j.src[anchor..ip], ip - m, CodeAt(j, ip, m))) + 1 + LASTLITERALS
    decreases |j.src| - anchor, 0
  {
    hide CodeAt, SizeOf, GreedyFrom, Accepted, Recorded, Cleared, ExtraLength;
    var code := CodeAt(j, ip, m);
    var all, next := Then(seqs, Sequence(j.src[anchor..ip], ip - m, code)), ip + MINMATCH + code;
    if next < j.MatchLimit() {
      var tbl1 := Recorded(j, Cleared(j, tbl, next, filled), next - 2);
      var e := tbl1[j.HashAt(next)];
      if Accepted(j, e, next) {
        AcceptedIsBefore(j, e, next);
        MatchGrows(j, Recorded(j, tbl1, next), all, next, next, e - j.start, filled);
      } else {
        FromGrows(j, Recorded(j, tbl1, next), all, next, next + 1);
      }
    }
  }

  lemma AcceptedIsBefore(j: Job, e: nat, p: nat)
    requires Accepted(j, e, p)
    ensures j.start <= e < j.start + p
  {
  }

  /** The compressor is on the way to a parse: it is refused only if the block for it does not fit, and otherwise it has
      found all of it or will find the rest. */
  ghost predicate Aims(j: Job, tbl: seq<nat>, status: Status, seqs: Sequences, anchor: nat, goal: Parse) {
    && |tbl| == TableSize(j.t)
    && match status
       case Failed => BlockSize(j, goal) > j.olimit
       case LastRun => goal == Parse(seqs, anchor)
       case Search =>
         && j.acceleration >= 1 && anchor < j.MatchLimit()
         && goal == GreedyFrom(j, tbl, seqs, anchor, anchor + 1)
  }

  ghost predicate AimsAtMatch(j: Job, tbl: seq<nat>, seqs: Sequences, anchor: nat, ip: nat, m: nat, filled: nat,
                              goal: Parse) {
    && |tbl| == TableSize(j.t) && j.acceleration >= 1 && filled < j.MatchLimit()
    && anchor <= ip && m < ip < j.MatchLimit() && goal == GreedyMatch(j, tbl, seqs, anchor, ip, m, filled)
  }

  /** From one match to what comes next. */
  lemma AimsNext(j: Job, tbl: seq<nat>, seqs: Sequences, anchor: nat, ip: nat, m: nat, filled: nat, goal: Parse,
                 ip1: nat, cleared: seq<nat>, now: seq<nat>, all: Sequences, status: Status, again: bool, m1: nat)
    requires AimsAtMatch(j, tbl, seqs, anchor, ip, m, filled, goal) && !NoMatchFits(j, UpToMatch(seqs, ip - anchor))
    requires ip1 == ip + MINMATCH + Fitted(j, UpToMatch(seqs, ip - anchor), CodeAt(j, ip, m)) && ip <= |j.src|
    requires all == Then(seqs, Made(j, anchor, ip, m, ip1 - ip - MINMATCH)) && filled + 8 <= |j.src|
    requires cleared == Cleared(j, tbl, ip1, filled)
    requires ip1 >= j.MatchLimit() ==> status == LastRun && !again && |now| == TableSize(j.t)
    requires ip1 < j.MatchLimit() ==> Next(j, cleared, ip1, now, again, m1) && (!again ==> status == Search)
    ensures again ==> AimsAtMatch(j, now, all, ip1, ip1, m1, filled, goal)
    ensures !again ==> Aims(j, now, status, all, ip1, goal)
  {
    hide CodeAt, GreedyFrom, Accepted, Recorded, Cleared, Fitted, UpToMatch, NoMatchFits;
    if ip1 < j.MatchLimit() {
      var e := Recorded(j, cleared, ip1 - 2)[j.HashAt(ip1)];
      if again {
        AcceptedIsBefore(j, e, ip1);
      }
    }
  }

  /** The output is full: what is found already is all. */
  lemma AimsFull(j: Job, tbl: seq<nat>, out: seq<byte>, seqs: Sequences, anchor: nat, ip: nat, m: nat, filled: nat,
                 goal: Parse)
    requires AimsAtMatch(j, tbl, seqs, anchor, ip, m, filled, goal) && Coded(j, out, seqs, anchor)
    requires NoMatchFits(j, |out| + 1 + ExtraLength(ip - anchor) + (ip - anchor))
    ensures Aims(j, tbl, LastRun, seqs, anchor, goal)
  {
    hide CodeAt, GreedyFrom, Accepted, Recorded, Cleared, Fitted, Expand, ExtraLength, EncodeParts;
    SizesAre(seqs);
  }

  lemma UsedIs(j: Job, out: seq<byte>, seqs: Sequences, anchor: nat, op: nat, ip: nat)
    requires Coded(j, out, seqs, anchor) && RoomForMatch(j, op, |out|, anchor, ip)
    ensures op == UpToMatch(seqs, ip - anchor)
  {
    hide Expand, ExtraLength, EncodeParts;
    SizesAre(seqs);
  }

  lemma FailedAims(j: Job, tbl: seq<nat>, now: seq<nat>, seqs: Sequences, anchor: nat, all: Sequences, ip: nat,
                   goal: Parse)
    requires Aims(j, tbl, Failed, seqs, anchor, goal) && |now| == |tbl|
    ensures Aims(j, now, Failed, all, ip, goal)
  {
    hide GreedyFrom, BlockSize;
  }

  lemma AimsRefused(j: Job, tbl: seq<nat>, out: seq<byte>, seqs: Sequences, anchor: nat, ip: nat, m: nat, filled: nat,
                    goal: Parse)
    requires j.directive != FillOutput && AimsAtMatch(j, tbl, seqs, anchor, ip, m, filled, goal)
    requires Coded(j, out, seqs, anchor) && ip <= |j.src| && ip - m <= DISTANCE_MAX
    requires |out| + |EncodeParts(j.src[anchor..ip], ip - m, CodeAt(j, ip, m))| + 1 + LASTLITERALS > j.olimit
    ensures Aims(j, tbl, Failed, seqs, anchor, goal)
  {
    hide CodeAt, GreedyMatch, EncodeParts, Expand;
    SizesAre(seqs);
    MatchGrows(j, tbl, seqs, anchor, ip, m, filled);
    LengthOfParts(j.src[anchor..ip], ip - m, CodeAt(j, ip, m));
  }

  /** One match, after which the sequence is complete. It is refused only if the block with this sequence and the
      least that must come after it does not fit. */
  method CompleteSequence(ctx: Stream, j: Job, dst: array<byte>, token: nat, op0: nat, anchor: nat, ip0: nat, m: nat,
                          filledIp: nat, ghost was: seq<byte>, ghost seqs: Sequences)
      returns (ok: bool, op: nat, ip: nat, ghost now: seq<byte>, ghost all: Sequences)
    requires MatchAt(ctx, j, ip0, m, filledIp) && Buffer(j, dst.Length)
    requires op0 <= dst.Length && was == dst[..op0] && Pending(j, was, anchor, ip0, token)
    requires Coded(j, was[..token], seqs, anchor) && RoomForMatch(j, op0, token, anchor, ip0)
    requires j.directive == FillOutput ==> op0 + 2 + 1 + MFLIMIT - MINMATCH <= j.olimit
    modifies dst, ctx.hashTable
    ensures op <= dst.Length && now == dst[..op] && ip0 < ip <= |j.src| && 2 <= ip
    ensures ok ==> Coded(j, now, all, ip)
    ensures ok && j.directive == LimitedOutput ==> op + 3 <= j.olimit
    ensures ok ==> filledIp < ip || Full(j, op)
    ensures ok ==> j.Table(ctx.Entries(j.t), ip)
    ensures !ok ==> j.directive == LimitedOutput && j.Table(ctx.Entries(j.t), |j.src|)
    ensures m < ip0 <= |j.src| && anchor <= ip0 && ip0 + MINMATCH <= ip
    ensures all == Then(seqs, Made(j, anchor, ip0, m, ip - ip0 - MINMATCH)) && all.s.offset <= DISTANCE_MAX
    ensures !ok ==> TooLongAfter(all, j.src, j.olimit)
    ensures !ok ==> token + |EncodeSequence(all.s)| + 1 + LASTLITERALS > j.olimit
    ensures ip == ip0 + MINMATCH + Fitted(j, op0, CodeAt(j, ip0, m))
    ensures SameFrom(dst[..], old(dst[..]), Room(j))
    ensures ctx.Entries(j.t) == Cleared(j, old(ctx.Entries(j.t)), ip, filledIp)
  {
    hide CodeAt, Expand, EncodeParts, Buffer, ExtraLength, SameFrom, TooLongAfter, Shortened, Cleared, Fitted;
    var code;
    ok, op, code := EncodeMatch(ctx, j, dst, token, op0, anchor, ip0, m, filledIp, was);
    FittedIs(j, op0, CodeAt(j, ip0, m), code);
    ip := ip0 + MINMATCH + code;
    now := dst[..op];
    all := Then(seqs, Made(j, anchor, ip0, m, code));
    if ok {
      CodedExtended(j, was, now, seqs, anchor, ip0, token, m, code);
    } else {
      MatchTooLong(j, was[..token], seqs, anchor, ip0, m, code);
    }
  }

  lemma RoomForToken(j: Job, op: nat, anchor: nat, capacity: nat)
    requires Buffer(j, capacity) && anchor <= |j.src| <= MAX_INPUT_SIZE && 255 * op <= 256 * anchor
    requires j.directive == LimitedOutput ==> op + 3 <= j.olimit
    requires j.directive == FillOutput ==> op < j.olimit
    ensures op < capacity && RoomForMatch(j, op + 1, op, anchor, anchor)
  {
  }

  /** Begins a sequence without literals. */
  method EmptyToken(j: Job, dst: array<byte>, op: nat, anchor: nat, ghost done: seq<byte>)
    requires op < dst.Length && done == dst[..op] && anchor <= |j.src|
    modifies dst
    ensures dst[..op + 1][..op] == done && Pending(j, dst[..op + 1], anchor, anchor, op)
    ensures SameFrom(dst[..], old(dst[..]), op + 1)
  {
    dst[op] := 0;
    assert dst[..op + 1][..op] == dst[..op] == done;
    assert EncodeRun(j.src[anchor..anchor], 0) == [0];
  }

  /** After a complete sequence: the end of the block is near, or the search goes on, or a match starts right here
      and a sequence without literals is begun. */
  method AfterMatch(ctx: Stream, j: Job, dst: array<byte>, op0: nat, ip: nat, ghost done: seq<byte>)
      returns (status: Status, again: bool, m: nat, op: nat)
    requires j.Valid() && ctx.hashTable.Length == WORDS && Buffer(j, dst.Length)
    requires op0 <= dst.Length && done == dst[..op0] && 2 <= ip <= |j.src| && j.Table(ctx.Entries(j.t), ip)
    requires 255 * op0 <= 256 * ip
    requires j.directive == LimitedOutput ==> op0 + 3 <= j.olimit
    requires j.directive == FillOutput ==> op0 < j.olimit
    modifies dst, ctx.hashTable
    ensures op0 <= op <= dst.Length && done == dst[..op][..op0] && status != Failed
    ensures !again ==> op == op0 && j.Table(ctx.Entries(j.t), |j.src|)
    ensures !again && status == Search ==> ip < j.MatchLimit() && j.Table(ctx.Entries(j.t), ip + 1)
    ensures again ==> ip < j.MatchLimit() && IsMatch(j.src, ip, m, MINMATCH) && j.Table(ctx.Entries(j.t), ip + 1)
    ensures again ==> op == op0 + 1 && Pending(j, dst[..op], ip, ip, op0) && RoomForMatch(j, op, op0, ip, ip)
    ensures SameFrom(dst[..], old(dst[..]), Room(j))
    ensures ip >= j.MatchLimit() ==> status == LastRun && !again
    ensures ip < j.MatchLimit() ==> Next(j, old(ctx.Entries(j.t)), ip, ctx.Entries(j.t), again, m)
    ensures ip < j.MatchLimit() && !again ==> status == Search
  {
    hide SameFrom;
    status, again, m, op := LastRun, false, 0, op0;
    ghost var was := dst[..];
    SameStill(was, Room(j));
    if ip >= j.MatchLimit() {
      TableLater(j, ctx.Entries(j.t), ip, |j.src|);
      return;
    }
    again, m := TestNext(ctx, j, ip);
    status := Search;
    if again {
      RoomForToken(j, op, ip, Room(j));
      EmptyToken(j, dst, op, ip, done);
      SameWithin(dst[..], was, op + 1, Room(j));
      op := op + 1;
    } else {
      TableLater(j, ctx.Entries(j.t), ip + 1, |j.src|);
    }
  }

  /** A match for the pending sequence; or, after a shortened match, at least no room for one. */
  ghost predicate Continues(ctx: Stream, j: Job, op: nat, ip: nat, m: nat, filledIp: nat)
    reads ctx.hashTable
  {
    || MatchAt(ctx, j, ip, m, filledIp)
    || (j.Valid() && ctx.hashTable.Length == WORDS && op > 0 && Full(j, op - 1) && ip < |j.src|
        && j.Table(ctx.Entries(j.t), ip + 1))
  }

  /** One match of a run of matches: afterwards another one may be pending at `token`. */
  method NextMatch(ctx: Stream, j: Job, dst: array<byte>, token0: nat, op0: nat, anchor0: nat, ip0: nat, m0: nat,
                   filledIp: nat, ghost was: seq<byte>, ghost seqs0: Sequences, ghost goal: Parse)
      returns (status: Status, again: bool, token: nat, op: nat, ip: nat, m: nat, ghost done: seq<byte>,
               ghost seqs: Sequences)
    requires MatchAt(ctx, j, ip0, m0, filledIp) && Buffer(j, dst.Length)
    requires op0 <= dst.Length && was == dst[..op0] && Pending(j, was, anchor0, ip0, token0)
    requires Coded(j, was[..token0], seqs0, anchor0) && RoomForMatch(j, op0, token0, anchor0, ip0)
    requires j.directive == FillOutput ==> op0 + 2 + 1 + MFLIMIT - MINMATCH <= j.olimit
    requires AimsAtMatch(j, ctx.Entries(j.t), seqs0, anchor0, ip0, m0, filledIp, goal)
    modifies dst, ctx.hashTable
    ensures again ==> AimsAtMatch(j, ctx.Entries(j.t), seqs, ip, ip, m, filledIp, goal)
    ensures !again ==> Aims(j, ctx.Entries(j.t), status, seqs, ip, goal)
    ensures token <= op <= dst.Length && ip0 < ip <= |j.src| && done == dst[..op][..token]
    ensures status == Failed ==> j.directive == LimitedOutput && TooLong(j.src, j.olimit) && !again
    ensures status != Failed ==> Coded(j, done, seqs, ip)
    ensures SameFrom(dst[..], old(dst[..]), Room(j))
    ensures again ==> Continues(ctx, j, op, ip, m, filledIp)
    ensures again ==> Pending(j, dst[..op], ip, ip, token) && RoomForMatch(j, op, token, ip, ip)
    ensures !again ==> token == op && j.Table(ctx.Entries(j.t), |j.src|)
    ensures !again && status == Search ==> ip < j.MatchLimit() && j.Table(ctx.Entries(j.t), ip + 1)
  {
    hide EncodeParts, Expand, SameFrom, TooLongAfter, Aims, AimsAtMatch, Next, CodeAt, Cleared, Fitted, UpToMatch;
    var ok;
    ghost var before, tbl := dst[..], ctx.Entries(j.t);
    ok, op, ip, done, seqs := CompleteSequence(ctx, j, dst, token0, op0, anchor0, ip0, m0, filledIp, was, seqs0);
    token := op;
    UsedIs(j, was[..token0], seqs0, anchor0, op0, ip0);
    if ok {
      ghost var middle, cleared := dst[..], ctx.Entries(j.t);
      status, again, m, op := AfterMatch(ctx, j, dst, op, ip, done);
      SameThrough(before, middle, dst[..], Room(j), Room(j));
      AimsNext(j, tbl, seqs0, anchor0, ip0, m0, filledIp, goal, ip, cleared, ctx.Entries(j.t), seqs, status, again, m);
    } else {
      status, again, m := Failed, false, 0;
      assert Fitted(j, op0, CodeAt(j, ip0, m0)) == CodeAt(j, ip0, m0) by {
        WholeMatch(j, op0, CodeAt(j, ip0, m0));
      }
      AimsRefused(j, tbl, was[..token0], seqs0, anchor0, ip0, m0, filledIp, goal);
      FailedAims(j, tbl, ctx.Entries(j.t), seqs0, anchor0, seqs, ip, goal);
    }
  }

  /** A run of matches with no literals between them, from a pending sequence on. */
  method EncodeMatches(ctx: Stream, j: Job, dst: array<byte>, token0: nat, op0: nat, anchor0: nat, ip0: nat, m0: nat,
                       filledIp: nat, ghost done0: seq<byte>, ghost seqs0: Sequences, ghost goal: Parse)
      returns (status: Status, op: nat, anchor: nat, ghost done: seq<byte>, ghost seqs: Sequences)
    requires MatchAt(ctx, j, ip0, m0, filledIp) && Buffer(j, dst.Length) && token0 <= op0 <= dst.Length
    requires AimsAtMatch(j, ctx.Entries(j.t), seqs0, anchor0, ip0, m0, filledIp, goal)
    requires done0 == dst[..op0][..token0] && Coded(j, done0, seqs0, anchor0)
    requires Pending(j, dst[..op0], anchor0, ip0, token0) && RoomForMatch(j, op0, token0, anchor0, ip0)
    modifies dst, ctx.hashTable
    ensures Aims(j, ctx.Entries(j.t), status, seqs, anchor, goal)
    ensures op <= dst.Length && anchor <= |j.src| && done == dst[..op]
    ensures status == Failed ==> j.directive == LimitedOutput && TooLong(j.src, j.olimit)
    ensures status != Failed ==> Coded(j, done, seqs, anchor)
    ensures SameFrom(dst[..], old(dst[..]), Room(j))
    ensures j.Table(ctx.Entries(j.t), |j.src|)
    ensures status == Search ==> ip0 < anchor < j.MatchLimit() && j.Table(ctx.Entries(j.t), anchor + 1)
  {
    hide Pending, EncodeParts, Coded, SameFrom, TooLong, Aims, AimsAtMatch;
    SameStill(dst[..], Room(j));
    var token: nat, ip: nat, m: nat := token0, ip0, m0;
    op, anchor, done, seqs := op0, anchor0, done0, seqs0;
    status := LastRun;
    var again := true;
    while again && (j.directive == FillOutput ==> op + 2 + 1 + MFLIMIT - MINMATCH <= j.olimit)
      invariant token <= op <= dst.Length && ip0 <= ip && (again || ip0 < anchor <= |j.src|)
      invariant done == dst[..op][..token]
      invariant status == Failed ==> j.directive == LimitedOutput && TooLong(j.src, j.olimit) && !again
      invariant SameFrom(dst[..], old(dst[..]), Room(j))
      invariant again ==> AimsAtMatch(j, ctx.Entries(j.t), seqs, anchor, ip, m, filledIp, goal)
      invariant !again ==> Aims(j, ctx.Entries(j.t), status, seqs, anchor, goal)
      invariant status != Failed ==> Coded(j, done, seqs, anchor)
      invariant again ==> Continues(ctx, j, op, ip, m, filledIp)
      invariant again ==> Pending(j, dst[..op], anchor, ip, token) && RoomForMatch(j, op, token, anchor, ip)
      invariant !again ==> token == op && anchor == ip && j.Table(ctx.Entries(j.t), |j.src|)
      invariant !again && status == Search ==> anchor < j.MatchLimit() && j.Table(ctx.Entries(j.t), anchor + 1)
      decreases again, |j.src| - ip
    {
      ghost var before := dst[..];
      status, again, token, op, ip, m, done, seqs :=
        NextMatch(ctx, j, dst, token, op, anchor, ip, m, filledIp, dst[..op], seqs, goal);
      SameThrough(old(dst[..]), before, dst[..], Room(j), Room(j));
      anchor := ip;
    }
    if again {
      TableLater(j, ctx.Entries(j.t), if filledIp < ip then ip + 1 else filledIp + 1, |j.src|);
      op, status := token, LastRun;
      AimsFull(j, ctx.Entries(j.t), done, seqs, anchor, ip, m, filledIp, goal);
    }
  }

  // ----- The last literals -----

  /** How many literals fit when the output is to be filled and `room` bytes are left after the token: one more would
      not. */
  function FilledRun(room: nat): (r: nat)
    ensures r + ExtraLength(r) <= room <= r + ExtraLength(r) + 1
    ensures r >= if room < 14 then room else 14
    ensures forall n :: r < n ==> n + ExtraLength(n) > room
    ensures r + ExtraLength(r) == room <==> room % 256 != 15
  {
    room - (room + 256 - RUN_MASK) / 256
  }

  /** Room for 15 bytes takes 14 literals, as 15 need a length byte. */
  lemma FifteenNotFilled()
    ensures FilledRun(15) == 14 && 14 + ExtraLength(14) == 14 && 15 + ExtraLength(15) == 16
  {
  }

  /** How much of the output is filled when the last run follows so many bytes. */
  function FilledSize(used: nat, olimit: nat): nat
    requires used < olimit
  {
    if (olimit - used - 1) % 256 != 15 then olimit else olimit - 1
  }

  /** The block ends with a run of literals that fills the output, unless the room for it after the token is 15 modulo
      256; then one byte is left. */
  ghost predicate FilledAfter(seqs: Sequences, last: seq<byte>, block: seq<byte>, data: seq<byte>, olimit: nat) {
    && Encodes(block, seqs, last, data)
    && |EncodeSequences(seqs)| < olimit
    && |block| == FilledSize(|EncodeSequences(seqs)|, olimit)
  }

  ghost predicate Filled(block: seq<byte>, data: seq<byte>, olimit: nat) {
    exists seqs, last :: FilledAfter(seqs, last, block, data, olimit)
  }

  /** No longer run of literals fits after the token at `op`. */
  ghost predicate Crowded(j: Job, op: nat, run: nat) {
    forall n: nat :: run < n ==> op + 1 + n + ExtraLength(n) > j.olimit
  }

  lemma FilledRunIsShorter(room: nat, lastRun: nat)
    requires room < lastRun + ExtraLength(lastRun)
    ensures FilledRun(room) < lastRun
  {
  }

  lemma BoundHasLastRun(n: nat, op: nat, anchor: nat)
    requires 255 * op <= 256 * anchor && anchor <= n <= MAX_INPUT_SIZE
    ensures op + 1 + ExtraLength(n - anchor) + (n - anchor) <= CompressBound(n)
  {
  }

  lemma Closed(j: Job, out: seq<byte>, block: seq<byte>, seqs: Sequences, anchor: nat, lastRun: nat)
    requires Coded(j, out, seqs, anchor) && anchor + lastRun <= |j.src|
    requires block == out + EncodeRun(j.src[anchor..anchor + lastRun], 0)
    requires seqs.Then? ==> LASTLITERALS <= lastRun && MFLIMIT <= seqs.s.MatchLength() + lastRun
    ensures IsBlockOf(block, j.src[..anchor + lastRun])
    ensures |out| < j.olimit && |block| == FilledSize(|out|, j.olimit) ==>
      Filled(block, j.src[..anchor + lastRun], j.olimit)
  {
    var last, data := j.src[anchor..anchor + lastRun], j.src[..anchor + lastRun];
    assert j.src[..anchor] + last == data;
    assert |out| == |EncodeSequences(seqs)|;
    hide Expand, EncodeSequences, EncodeRun, FilledSize;
    assert Encodes(block, seqs, last, data);
    if |out| < j.olimit && |block| == FilledSize(|out|, j.olimit) {
      assert FilledAfter(seqs, last, block, data, j.olimit);
    }
  }

  lemma LengthOfRun(lits: seq<byte>)
    ensures |EncodeRun(lits, 0)| == 1 + ExtraLength(|lits|) + |lits|
  {
    LengthOfExtra(|lits|);
  }

  /** The length of the last run: all that is left, or, when the output is to be filled, as much of it as fits. */
  method FitLastRun(j: Job, op0: nat, anchor: nat) returns (ok: bool, lastRun: nat)
    requires anchor <= |j.src| && (j.directive == FillOutput ==> op0 < j.olimit)
    ensures ok <==> j.directive != LimitedOutput
                    || op0 + 1 + ExtraLength(|j.src| - anchor) + (|j.src| - anchor) <= j.olimit
    ensures lastRun <= |j.src| - anchor && (j.directive != FillOutput ==> lastRun == |j.src| - anchor)
    ensures ok && j.directive != NotLimited ==> op0 + 1 + ExtraLength(lastRun) + lastRun <= j.olimit
    ensures lastRun < |j.src| - anchor ==>
      && Crowded(j, op0, lastRun)
      && op0 < j.olimit && op0 + 1 + ExtraLength(lastRun) + lastRun == FilledSize(op0, j.olimit)
      && lastRun >= if j.olimit - op0 < 15 then j.olimit - op0 - 1 else 14
  {
    lastRun := |j.src| - anchor;
    assert (lastRun + 255 - RUN_MASK) / 255 == ExtraLength(lastRun);
    if j.directive != NotLimited && op0 + lastRun + 1 + (lastRun + 255 - RUN_MASK) / 255 > j.olimit {
      if j.directive == FillOutput {
        var room := j.olimit - op0 - 1;
        FilledRunIsShorter(room, lastRun);
        lastRun := FilledRun(room);
      } else {
        return false, lastRun;
      }
    }
    return true, lastRun;
  }

  /** Ends the block with the literals from `anchor` on: all of them, or, when the output is to be filled, as many
      as fit. */
  method LastLiterals(j: Job, dst: array<byte>, op0: nat, anchor: nat, ghost done: seq<byte>, ghost seqs: Sequences)
      returns (result: nat, consumed: nat)
    requires Buffer(j, dst.Length) && |j.src| <= MAX_INPUT_SIZE
    requires op0 <= dst.Length && done == dst[..op0] && Coded(j, done, seqs, anchor)
    modifies dst
    ensures result <= dst.Length && consumed <= |j.src|
    ensures result > 0 ==> IsBlockOf(dst[..result], j.src[..consumed])
    ensures result == 0 ==> j.directive == LimitedOutput
    ensures j.directive != FillOutput ==> consumed == |j.src|
    ensures j.directive != NotLimited ==> result <= j.olimit
    ensures j.directive == FillOutput ==> consumed == |j.src| || Filled(dst[..result], j.src[..consumed], j.olimit)
    ensures j.directive == FillOutput ==> anchor <= consumed
    ensures j.directive == FillOutput ==> consumed == |j.src| || Crowded(j, op0, consumed - anchor)
    ensures result == 0 <==> j.directive == LimitedOutput && op0 + |EncodeRun(j.src[anchor..], 0)| > j.olimit
    ensures result > 0 ==>
      anchor <= consumed && dst[..result] == done + EncodeRun(j.src[anchor..consumed], 0)
    ensures result == 0 ==> TooLong(j.src, j.olimit)
    ensures SameFrom(dst[..], old(dst[..]), Room(j))
  {
    hide EncodeSequences, EncodeRun, Crowded, SameFrom, Filled, IsBlockOf, TooLongAfter, FilledSize;
    LengthOfRun(j.src[anchor..]);
    var ok, lastRun := FitLastRun(j, op0, anchor);
    ghost var was := dst[..];
    SameStill(was, Room(j));
    if !ok {
      LastTooLong(j, done, seqs, anchor);
      return 0, |j.src|;
    }
    if j.directive == NotLimited {
      BoundHasLastRun(|j.src|, op0, anchor);
    }
    result := WriteLastRun(dst, op0, j.src, anchor, lastRun);
    SameWithin(dst[..], was, result, Room(j));
    consumed := anchor + lastRun;
    assert lastRun == |j.src| - anchor ==> j.src[anchor..anchor + lastRun] == j.src[anchor..];
    Closed(j, done, dst[..result], seqs, anchor, lastRun);
  }

  // ----- One block -----

  lemma AimsFound(j: Job, tbl: seq<nat>, seqs: Sequences, anchor: nat, goal: Parse, now: seq<nat>, found: bool,
                  ip: nat, m: nat)
    requires Aims(j, tbl, Search, seqs, anchor, goal) && |now| == TableSize(j.t) && j.acceleration >= 1
    requires FirstMatch(j, tbl, anchor + 1, 1, 64 * j.acceleration) == if found then At(ip, m, now) else Nothing
    ensures !found ==> Aims(j, now, LastRun, seqs, anchor, goal)
    ensures found && anchor <= ip && m < ip <= |j.src| ==>
      var k := Back(j.src, anchor, ip, m);
      AimsAtMatch(j, now, seqs, anchor, ip - k, m - k, ip, goal)
  {
    hide FirstMatch, Back, GreedyMatch;
  }

  lemma NoneFitsWith(lits: seq<byte>, used: nat, olimit: nat, offset: nat, code: nat)
    requires NoneFits(lits, used, olimit) && offset <= DISTANCE_MAX
    ensures used + |EncodeParts(lits, offset, code)| + 1 + LASTLITERALS > olimit
  {
  }

  lemma LiteralsRefused(j: Job, tbl: seq<nat>, out: seq<byte>, seqs: Sequences, anchor: nat, ip: nat, m: nat,
                        filled: nat, goal: Parse)
    requires j.directive != FillOutput && AimsAtMatch(j, tbl, seqs, anchor, ip, m, filled, goal)
    requires Coded(j, out, seqs, anchor) && IsMatch(j.src, ip, m, MINMATCH)
    requires NoneFits(j.src[anchor..ip], |out|, j.olimit)
    ensures Aims(j, tbl, Failed, seqs, anchor, goal) && TooLong(j.src, j.olimit)
  {
    hide EncodeParts, Expand, NoneFits, TooLongAfter, CodeAt, GreedyMatch, Aims;
    LiteralsTooLong(j, out, seqs, anchor, ip);
    NoneFitsWith(j.src[anchor..ip], |out|, j.olimit, ip - m, CodeAt(j, ip, m));
    AimsRefused(j, tbl, out, seqs, anchor, ip, m, filled, goal);
  }

  /** One turn of the main loop: the next match, its literals, and the matches right after it. */
  method SearchAndEncode(ctx: Stream, j: Job, dst: array<byte>, op0: nat, anchor0: nat, ip0: nat,
                         ghost done0: seq<byte>, ghost seqs0: Sequences, ghost goal: Parse)
      returns (status: Status, op: nat, anchor: nat, ghost done: seq<byte>, ghost seqs: Sequences)
    requires j.Valid() && ctx.hashTable.Length == WORDS && Buffer(j, dst.Length)
    requires 0 < ip0 <= j.MatchLimit() && anchor0 <= ip0 && j.Table(ctx.Entries(j.t), ip0)
    requires op0 <= dst.Length && done0 == dst[..op0] && Coded(j, done0, seqs0, anchor0)
    requires ip0 == anchor0 + 1 && Aims(j, ctx.Entries(j.t), Search, seqs0, anchor0, goal)
    modifies dst, ctx.hashTable
    ensures Aims(j, ctx.Entries(j.t), status, seqs, anchor, goal)
    ensures op <= dst.Length && done == dst[..op]
    ensures status == Failed ==> j.directive == LimitedOutput && TooLong(j.src, j.olimit)
    ensures status != Failed ==> Coded(j, done, seqs, anchor)
    ensures SameFrom(dst[..], old(dst[..]), Room(j))
    ensures status == Search ==> anchor0 < anchor < j.MatchLimit() && j.Table(ctx.Entries(j.t), anchor + 1)
    ensures j.Table(ctx.Entries(j.t), |j.src|)
  {
    hide Expand, ExtraLength, EncodeRun, EncodeParts, Pending, SameFrom, TooLong, NoneFits, Aims, AimsAtMatch,
         FirstMatch, Back;
    op, anchor, done, seqs := op0, anchor0, done0, seqs0;
    ghost var was, tbl := dst[..], ctx.Entries(j.t);
    SameStill(was, Room(j));
    var found, filledIp, m0 := FindMatch(ctx, j, ip0);
    TableLater(j, ctx.Entries(j.t), filledIp + 1, |j.src|);
    AimsFound(j, tbl, seqs, anchor, goal, ctx.Entries(j.t), found, filledIp, m0);
    if !found {
      return LastRun, op, anchor, done, seqs;
    }
    var ip, m := CatchUp(j.src, anchor, filledIp, m0);
    var op1;
    status, op1 := BeginSequence(j, dst, op, anchor, ip);
    if status == Search {
      assert dst[..op1][..op] == done;
      ghost var middle := dst[..];
      status, op, anchor, done, seqs := EncodeMatches(ctx, j, dst, op, op1, anchor, ip, m, filledIp, done, seqs, goal);
      SameThrough(was, middle, dst[..], Room(j), Room(j));
    } else if status == Failed {
      LiteralsRefused(j, ctx.Entries(j.t), done, seqs, anchor, ip, m, filledIp, goal);
    } else {
      AimsFull(j, ctx.Entries(j.t), done, seqs, anchor, ip, m, filledIp, goal);
    }
  }

  /** Every index in the table is below `bound`. */
  ghost predicate Below(tbl: seq<nat>, bound: nat) {
    forall h :: 0 <= h < |tbl| ==> tbl[h] < bound
  }

  lemma TableBelow(j: Job, tbl: seq<nat>, pos: nat)
    requires j.Table(tbl, pos)
    ensures Below(tbl, j.start + pos)
  {
    forall h | 0 <= h < |tbl| ensures tbl[h] < j.start + pos {
      assert j.Usable(tbl[h], h, pos);
    }
  }

  lemma AimsFirst(j: Job, tbl: seq<nat>)
    requires |tbl| == TableSize(j.t) && j.acceleration >= 1
    ensures |j.src| < MFLIMIT + 1 ==> Aims(j, tbl, LastRun, Empty, 0, Greedy(j, tbl))
    ensures |j.src| >= MFLIMIT + 1 ==> Aims(j, Recorded(j, tbl, 0), Search, Empty, 0, Greedy(j, tbl))
  {
    hide GreedyFrom, Recorded;
  }

  /** The main loop, up to the last literals. */
  method EncodeBlock(ctx: Stream, j: Job, dst: array<byte>)
      returns (status: Status, op: nat, anchor: nat, ghost done: seq<byte>, ghost seqs: Sequences)
    requires j.Valid() && ctx.hashTable.Length == WORDS && Buffer(j, dst.Length)
    requires j.Table(ctx.Entries(j.t), 1) && (j.directive == FillOutput ==> 0 < j.olimit)
    modifies dst, ctx.hashTable
    ensures Aims(j, ctx.Entries(j.t), status, seqs, anchor, Greedy(j, old(ctx.Entries(j.t))))
    ensures op <= dst.Length && done == dst[..op] && status != Search
    ensures status == Failed ==> j.directive == LimitedOutput && TooLong(j.src, j.olimit)
    ensures status != Failed ==> Coded(j, done, seqs, anchor)
    ensures SameFrom(dst[..], old(dst[..]), Room(j))
    ensures j.Table(ctx.Entries(j.t), |j.src|)
  {
    hide SameFrom, TooLong, Aims;
    ghost var goal := Greedy(j, ctx.Entries(j.t));
    SameStill(dst[..], Room(j));
    status, op, anchor, done, seqs := LastRun, 0, 0, [], Empty;
    TableLater(j, ctx.Entries(j.t), 1, |j.src|);
    AimsFirst(j, ctx.Entries(j.t));
    if |j.src| < MFLIMIT + 1 {
      return;
    }
    Put(ctx, j, 0, j.HashAt(0), 1);
    TableLater(j, ctx.Entries(j.t), 1, |j.src|);
    var ip: nat := 1;
    status := Search;
    while status == Search
      invariant op <= dst.Length && done == dst[..op]
      invariant status == Failed ==> j.directive == LimitedOutput && TooLong(j.src, j.olimit)
      invariant status != Failed ==> Coded(j, done, seqs, anchor)
      invariant SameFrom(dst[..], old(dst[..]), Room(j))
      invariant Aims(j, ctx.Entries(j.t), status, seqs, anchor, goal)
      invariant status == Search ==> anchor + 1 == ip <= j.MatchLimit() && j.Table(ctx.Entries(j.t), ip)
      invariant j.Table(ctx.Entries(j.t), |j.src|)
      decreases status == Search, |j.src| - anchor
    {
      ghost var before := dst[..];
      status, op, anchor, done, seqs := SearchAndEncode(ctx, j, dst, op, anchor, ip, done, seqs, goal);
      SameThrough(old(dst[..]), before, dst[..], Room(j), Room(j));
      ip := anchor + 1;
    }
  }

  /** So many literals fit after the sequences, and no more do, unless these are all. */
  ghost predicate MostLiterals(j: Job, used: nat, rest: nat, run: nat) {
    && used + 1 + ExtraLength(run) + run <= j.olimit
    && forall n :: run < n <= rest ==> used + 1 + n + ExtraLength(n) > j.olimit
  }

  /** The block is that of the greedy parse, with all literals that are left or, if the output is to be filled, as
      many as fit; and 0 stands for one that does not fit. */
  ghost predicate IsGreedy(j: Job, tbl: seq<nat>, block: seq<byte>, result: nat, consumed: nat)
    requires |tbl| == TableSize(j.t) && j.acceleration >= 1
  {
    var g := Greedy(j, tbl);
    && (result == 0 <==>
          (j.directive == LimitedOutput && BlockSize(j, g) > j.olimit) || (j.directive == FillOutput && j.olimit == 0))
    && (result > 0 ==>
          && WellFormed(g.seqs) && g.anchor <= consumed <= |j.src|
          && block == EncodeSequences(g.seqs) + EncodeRun(j.src[g.anchor..consumed], 0)
          && |block| == SizeOfAll(g.seqs) + 1 + ExtraLength(consumed - g.anchor) + (consumed - g.anchor)
          && if j.directive == FillOutput
             then MostLiterals(j, SizeOfAll(g.seqs), |j.src| - g.anchor, consumed - g.anchor)
             else consumed == |j.src|)
  }

  lemma GreedyRefused(j: Job, tbl: seq<nat>, now: seq<nat>, seqs: Sequences, anchor: nat, block: seq<byte>,
                      consumed: nat)
    requires |tbl| == TableSize(j.t) && j.acceleration >= 1 && j.directive == LimitedOutput
    requires Aims(j, now, Failed, seqs, anchor, Greedy(j, tbl))
    ensures IsGreedy(j, tbl, block, 0, consumed)
  {
  }

  lemma NoRoomAtAll(j: Job, tbl: seq<nat>, block: seq<byte>)
    requires |tbl| == TableSize(j.t) && j.acceleration >= 1 && j.directive == FillOutput && j.olimit == 0
    ensures IsGreedy(j, tbl, block, 0, 0)
  {
  }

  lemma GreedyDone(j: Job, tbl: seq<nat>, now: seq<nat>, out: seq<byte>, seqs: Sequences, anchor: nat,
                   block: seq<byte>, result: nat, consumed: nat)
    requires |tbl| == TableSize(j.t) && j.acceleration >= 1 && (j.directive == FillOutput ==> j.olimit > 0)
    requires Aims(j, now, LastRun, seqs, anchor, Greedy(j, tbl)) && Coded(j, out, seqs, anchor)
    requires result == 0 <==> j.directive == LimitedOutput && |out| + |EncodeRun(j.src[anchor..], 0)| > j.olimit
    requires result > 0 ==>
      anchor <= consumed <= |j.src| && block == out + EncodeRun(j.src[anchor..consumed], 0) && |block| == result
    requires j.directive != FillOutput ==> consumed == |j.src|
    requires j.directive == FillOutput ==>
      result <= j.olimit && (consumed == |j.src| || Crowded(j, |out|, consumed - anchor))
    ensures IsGreedy(j, tbl, block, result, consumed)
  {
    hide EncodeRun, Expand, EncodeSequences, Greedy, ExtraLength;
    SizesAre(seqs);
    LengthOfRun(j.src[anchor..]);
    if result > 0 {
      LengthOfRun(j.src[anchor..consumed]);
    }
  }

  /** Compresses one block: what it returns is a conforming block of the input it consumed, and the table it leaves
      holds only indices below the offset at which the next block will start. */
  method CompressValidated(ctx: Stream, j: Job, dst: array<byte>)
      returns (result: nat, consumed: nat)
    requires j.Valid() && ctx.hashTable.Length == WORDS && Buffer(j, dst.Length)
    requires j.start == ctx.currentOffset && Prepared(ctx.Entries(j.t), j.t, j.start)
    modifies ctx, ctx.hashTable, dst
    ensures result <= dst.Length && consumed <= |j.src|
    ensures result > 0 ==> IsBlockOf(dst[..result], j.src[..consumed])
    ensures result == 0 ==> j.directive == LimitedOutput || (j.directive == FillOutput && j.olimit < 1)
    ensures j.directive != FillOutput ==> consumed == |j.src|
    ensures j.directive != NotLimited ==> result <= j.olimit
    ensures j.directive == FillOutput && result > 0 ==>
      consumed == |j.src| || Filled(dst[..result], j.src[..consumed], j.olimit)
    ensures result == 0 && j.directive == LimitedOutput ==> TooLong(j.src, j.olimit)
    ensures SameFrom(dst[..], old(dst[..]), Room(j))
    ensures IsGreedy(j, old(ctx.Entries(j.t)), dst[..result], result, consumed)
    ensures j.directive != FillOutput ==>
      && ctx.tableType == j.t && ctx.currentOffset == old(ctx.currentOffset) + |j.src|
      && Below(ctx.Entries(j.t), ctx.currentOffset)
  {
    hide SameFrom, TooLong, Filled, IsBlockOf, Coded, Aims, IsGreedy;
    ghost var tbl := ctx.Entries(j.t);
    SameStill(dst[..], Room(j));
    if j.directive == FillOutput && j.olimit < 1 {
      NoRoomAtAll(j, tbl, dst[..0]);
      return 0, 0;
    }
    PreparedTable(j, ctx.Entries(j.t));
    ctx.dictSize := ctx.dictSize + |j.src|;
    ctx.currentOffset := ctx.currentOffset + |j.src|;
    ctx.tableType := j.t;
    var status, op, anchor;
    ghost var done, seqs;
    status, op, anchor, done, seqs := EncodeBlock(ctx, j, dst);
    TableBelow(j, ctx.Entries(j.t), |j.src|);
    ghost var goal := Greedy(j, tbl);
    if status == Failed {
      GreedyRefused(j, tbl, ctx.Entries(j.t), seqs, anchor, dst[..0], |j.src|);
      return 0, |j.src|;
    }
    ghost var before := dst[..];
    result, consumed := LastLiterals(j, dst, op, anchor, done, seqs);
    SameThrough(old(dst[..]), before, dst[..], Room(j), Room(j));
    GreedyDone(j, tbl, ctx.Entries(j.t), done, seqs, anchor, dst[..result], result, consumed);
  }
}
