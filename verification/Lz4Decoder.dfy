/** The bounds-checked LZ4 block decoder, with its two-stage shortcut, word-wide over-copies and overlap
    tables, proved equal to byte-by-byte decoding on every input. */
module Lz4Decoder {
  import opened ByteType
  import opened Lz4Format
  import opened Lz4DecoderSpec
  import opened Lz4Memory

  const INC32: seq<int> := [0, 1, 2, 1, 0, 4, 4, 4]
  const DEC64: seq<int> := [0, 0, 0, -1, -4, 1, 2, 3]

  method ReadVariableLength(b: seq<byte>, start: nat, limit: int, initialCheck: bool) returns (r: Length)
    requires start < |b| || (initialCheck && start >= limit)
    requires limit < |b|
    ensures r == if initialCheck && start >= limit then LengthError(start) else ReadVariable(b, start, limit)
  {
    if initialCheck && start >= limit {
      return LengthError(start);
    }
    var ip := start;
    var s := b[ip];
    ip := ip + 1;
    var length: nat := s;
    if ip > limit {
      return LengthError(ip);
    }
    if s != 255 {
      return Length(length, ip);
    }
    ghost var whole := ReadVariable(b, start, limit);
    while true
      invariant start < ip <= limit
      invariant whole == match ReadVariable(b, ip, limit)
                         case Length(v, p) => Length(length + v, p)
                         case LengthError(p) => LengthError(p)
      decreases |b| - ip
    {
      s := b[ip];
      ip := ip + 1;
      length := length + s;
      if ip > limit {
        return LengthError(ip);
      }
      if s != 255 {
        return Length(length, ip);
      }
    }
  }

  /** What a copy must have done once it is finished: `old[..op]` kept, then bytes repeating at `offset`. */
  lemma Copied(was: seq<byte>, now: seq<byte>, op: nat, offset: nat, n: nat)
    requires offset <= op <= |was| && op + n <= |now|
    requires now[..op] == was[..op]
    requires forall i :: op <= i < op + n ==> now[i] == if offset == 0 then 0 else now[i - offset]
    ensures now[..op + n] == CopyMatch(was[..op], offset, n)
  {
    var t := now[..op + n];
    assert t[..op] == was[..op];
    CopyMatchUnique(t, was[..op], offset, n);
  }

  /** Bytes that repeat at `offset` for the first `width` positions, and at a multiple of it afterwards, repeat
      at `offset` throughout. */
  lemma {:induction false} RepeatUpTo(s: seq<byte>, op: nat, width: nat, offset: nat, dist: nat, m: nat)
    requires 0 < offset <= op && op + m <= |s|
    requires offset <= width && dist <= offset + width && dist <= op + width
    requires dist == offset * (dist / offset) && offset <= dist
    requires forall i :: op <= i < op + width && i < op + m ==> s[i] == s[i - offset]
    requires forall i :: op + width <= i < op + m ==> s[i] == s[i - dist]
    ensures forall i :: op <= i < op + m ==> s[i] == s[i - offset]
    decreases m
  {
    if m > 0 {
      RepeatUpTo(s, op, width, offset, dist, m - 1);
      var i := op + m - 1;
      if i >= op + width {
        RepeatChain(s, op, offset, i - offset, dist / offset - 1);
        assert offset * (dist / offset - 1) == dist - offset;
      }
    }
  }

  lemma {:induction false} RepeatChain(s: seq<byte>, op: nat, offset: nat, i: nat, k: nat)
    requires 0 < offset <= op && i < |s|
    requires op <= i + offset && op <= i - offset * k + offset
    requires forall j :: op <= j <= i ==> s[j] == s[j - offset]
    ensures 0 <= i - offset * k && s[i] == s[i - offset * k]
    decreases k
  {
    if k > 0 {
      assert offset * k == offset * (k - 1) + offset;
      RepeatChain(s, op, offset, i - offset, k - 1);
    }
  }

  /** The distance between output and match pointers after the first eight bytes: a multiple of the offset,
      and at least eight, so that whole words can be copied from then on. */
  function Distance(offset: nat): nat {
    if offset < 8 then [8, 8, 8, 9, 8, 10, 12, 14][offset] else offset
  }

  /** Four bytes at the offset, then four bytes from the widened pointer, are eight bytes at the offset. */
  lemma FirstEight(s: seq<byte>, op: nat, offset: nat)
    requires offset < 8 && offset <= op && op + 8 <= |s|
    requires forall i :: op <= i < op + 4 ==> s[i] == if offset == 0 then 0 else s[i - offset]
    requires var back := 4 + offset - INC32[offset];
             forall i :: op + 4 <= i < op + 8 ==> s[i] == s[i - back]
    ensures forall i :: op <= i < op + 8 ==> s[i] == if offset == 0 then 0 else s[i - offset]
  {
    if offset == 0 {
      ZeroFill(s, op, 4, 8);
    } else if offset <= 4 {
      RepeatUpTo(s, op, 4, offset, 4 + offset - INC32[offset], 8);
    }
  }

  /** The first four bytes, one by one, over zeros. */
  method CopyFour(dst: array<byte>, op: nat, offset: nat)
    requires offset <= op && op + 4 <= dst.Length
    modifies dst
    ensures forall i :: 0 <= i < op || op + 4 <= i < dst.Length ==> dst[i] == old(dst[i])
    ensures forall i :: op <= i < op + 4 ==> dst[i] == if offset == 0 then 0 else dst[i - offset]
  {
    var match_ := op - offset;
    dst[op], dst[op + 1], dst[op + 2], dst[op + 3] := 0, 0, 0, 0;
    dst[op] := dst[match_];
    dst[op + 1] := dst[match_ + 1];
    dst[op + 2] := dst[match_ + 2];
    dst[op + 3] := dst[match_ + 3];
  }

  /** What the two tables add up to. */
  lemma Tables(offset: nat)
    requires offset < 8
    ensures 0 <= INC32[offset] <= 4 && 4 + offset - INC32[offset] >= 4
    ensures INC32[offset] - DEC64[offset] + Distance(offset) == 8 + offset
    ensures DEC64[offset] <= 4 + INC32[offset]
  {
  }

  /** Writes the first eight bytes of a match; the returned pointer continues at `Distance(offset)`. */
  method CopyFirstEight(dst: array<byte>, op: nat, offset: nat) returns (from: nat)
    requires offset <= op && op + 8 <= dst.Length
    modifies dst
    ensures from == op + 8 - Distance(offset)
    ensures forall i :: 0 <= i < op || op + 8 <= i < dst.Length ==> dst[i] == old(dst[i])
    ensures forall i :: op <= i < op + 8 ==> dst[i] == if offset == 0 then 0 else dst[i - offset]
  {
    var match_ := op - offset;
    if offset < 8 {
      Tables(offset);
      CopyFour(dst, op, offset);
      var widened := match_ + INC32[offset];
      CopyWithin(dst, op + 4, widened, 4);
      FirstEight(dst[..], op, offset);
      from := widened - DEC64[offset];
    } else {
      CopyWithin(dst, op, match_, 8);
      from := match_ + 8;
    }
  }

  /** The last bytes of a match, one by one. */
  method CopyTail(dst: array<byte>, start: nat, cpy: nat, from: nat)
    requires from < start && cpy <= dst.Length
    modifies dst
    ensures forall i :: 0 <= i < dst.Length && !(start <= i < cpy) ==> dst[i] == old(dst[i])
    ensures forall i :: start <= i < cpy ==> dst[i] == dst[i - (start - from)]
  {
    var op, match_ := start, from;
    while op < cpy
      invariant start <= op && op - match_ == start - from && (op <= cpy || op == start)
      invariant forall i :: 0 <= i < dst.Length && !(start <= i < op) ==> dst[i] == old(dst[i])
      invariant forall i :: start <= i < op ==> dst[i] == dst[i - (start - from)]
    {
      dst[op] := dst[match_];
      op, match_ := op + 1, match_ + 1;
    }
  }

  /** What follows the first eight bytes of a match, close to the end of the output: words as far as they fit, and then
      bytes. */
  method CopyNearEnd(dst: array<byte>, op: nat, from: nat, cpy: nat, oend: nat)
    requires from + 8 <= op && oend <= dst.Length && op + 4 <= oend && cpy <= oend - LASTLITERALS
    modifies dst
    ensures forall i :: op <= i < cpy ==> dst[i] == dst[i - (op - from)]
    ensures forall i :: 0 <= i < op || oend <= i < dst.Length ==> dst[i] == old(dst[i])
  {
    var oCopyLimit := oend - 7;
    if op < oCopyLimit {
      WildCopy8Within(dst, op, from, oCopyLimit);
      CopyTail(dst, oCopyLimit, cpy, from + (oCopyLimit - op));
    } else {
      CopyTail(dst, op, cpy, from);
    }
  }

  /** Copies a match of `length` bytes, `offset` back from `op0`; refuses one that ends less than
      LASTLITERALS bytes before `oend`. Writes stay below `oend` either way. */
  method CopyWholeMatch(dst: array<byte>, op0: nat, offset: nat, length: nat, oend: nat) returns (ok: bool)
    requires oend <= dst.Length && offset <= op0 && MINMATCH <= length && op0 + MFLIMIT <= oend
    modifies dst
    ensures ok <==> op0 + length <= oend - LASTLITERALS
    ensures ok ==> dst[..op0 + length] == CopyMatch(old(dst[..])[..op0], offset, length)
    ensures forall i :: oend <= i < dst.Length ==> dst[i] == old(dst[i])
  {
    hide CopyMatch;
    ghost var was := dst[..];
    var cpy := op0 + length;
    var match_ := CopyFirstEight(dst, op0, offset);
    var op := op0 + 8;
    if cpy > oend - 12 {
      if cpy > oend - LASTLITERALS {
        return false;
      }
      CopyNearEnd(dst, op, match_, cpy, oend);
    } else {
      CopyWithin(dst, op, match_, 8);
      if length > 16 {
        WildCopy8Within(dst, op + 8, match_ + 8, cpy);
      }
    }
    assert dst[..op0] == was[..op0];
    CopiedAtDistance(was, dst[..], op0, offset, length);
    return true;
  }

  lemma CopiedAtDistance(was: seq<byte>, now: seq<byte>, op: nat, offset: nat, n: nat)
    requires offset <= op <= |was| && op + n <= |now|
    requires now[..op] == was[..op]
    requires forall i :: op <= i < op + 8 && i < op + n ==> now[i] == if offset == 0 then 0 else now[i - offset]
    requires forall i :: op + 8 <= i < op + n ==> now[i] == now[i - Distance(offset)]
    ensures now[..op + n] == CopyMatch(was[..op], offset, n)
  {
    if offset == 0 {
      ZeroFill(now, op, 8, n);
    } else if offset < 8 {
      RepeatUpTo(now, op, 8, offset, Distance(offset), n);
    }
    Copied(was, now, op, offset, n);
  }

  lemma {:induction false} ZeroFill(s: seq<byte>, op: nat, width: nat, m: nat)
    requires op + m <= |s| && 0 < width
    requires forall i :: op <= i < op + width && i < op + m ==> s[i] == 0
    requires forall i :: op + width <= i < op + m ==> s[i] == s[i - width]
    ensures forall i :: op <= i < op + m ==> s[i] == 0
    decreases m
  {
    if m > 0 {
      ZeroFill(s, op, width, m - 1);
      var i := op + m - 1;
      assert i >= op + width ==> s[i] == s[i - width];
    }
  }

  /** The shortcut's match copy: eighteen bytes whatever the length, for offsets of at least eight. */
  method CopyEighteen(dst: array<byte>, op: nat, offset: nat, length: nat, ghost out: seq<byte>)
    requires 8 <= offset <= op && op + 18 <= dst.Length && length <= 18 && out == dst[..op]
    modifies dst
    ensures dst[..op + length] == CopyMatch(out, offset, length)
    ensures forall i :: op + 18 <= i < dst.Length ==> dst[i] == old(dst[i])
  {
    var match_ := op - offset;
    CopyWithin(dst, op, match_, 8);
    CopyWithin(dst, op + 8, match_ + 8, 8);
    CopyWithin(dst, op + 16, match_ + 16, 2);
    assert dst[..op] == out;
    Copied(out, dst[..], op, offset, length);
  }

  /** The last match of a partial decode: exactly `n` bytes, overlapping or not. */
  method CopyPartialMatch(dst: array<byte>, op0: nat, offset: nat, n: nat)
    requires offset <= op0 && op0 + n <= dst.Length
    modifies dst
    ensures offset > 0 || n == 0 ==> dst[..op0 + n] == CopyMatch(old(dst[..])[..op0], offset, n)
    ensures forall i :: op0 + n <= i < dst.Length ==> dst[i] == old(dst[i])
  {
    ghost var was := dst[..];
    var op, match_ := op0, op0 - offset;
    if match_ + n > op {
      while op < op0 + n
        invariant op0 <= op <= op0 + n && op - match_ == offset
        invariant dst[..op0] == was[..op0]
        invariant offset > 0 ==> forall i :: op0 <= i < op ==> dst[i] == dst[i - offset]
        invariant forall i :: op0 + n <= i < dst.Length ==> dst[i] == old(dst[i])
      {
        dst[op] := dst[match_];
        op, match_ := op + 1, match_ + 1;
      }
    } else {
      CopyWithin(dst, op, match_, n);
      assert dst[..op0] == was[..op0];
    }
    if offset > 0 || n == 0 {
      Copied(was, dst[..], op0, offset, n);
    }
  }

  /** The result code and the first bytes of the buffer are those of the byte-by-byte outcome. */
  ghost predicate Returns(o: Outcome, r: int, buffer: seq<byte>) {
    match o
    case Decoded(out) => r == |out| && r <= |buffer| && buffer[..r] == out
    case Malformed(pos) => r == -1 - pos
    case Unspecified => true
  }

  /** Literals away from the shortcut: either they end the decode, or an offset follows at `ip`. */
  method DecodeLiterals(b: seq<byte>, ip0: nat, dst: array<byte>, op0: nat, length0: nat, cap: nat, partial: bool,
                        ghost out: seq<byte>)
      returns (finished: bool, code: int, ip: nat, op: nat)
    requires ip0 <= |b| && op0 <= cap <= dst.Length && out == dst[..op0]
    modifies dst
    ensures forall i :: cap <= i < dst.Length ==> dst[i] == old(dst[i])
    ensures LiteralsDone(SafeLiterals(b, ip0, out, length0, cap, partial), finished, code, ip, dst[..], op, cap)
  {
    var iend, oend := |b|, cap;
    var length := length0;
    var cpy := op0 + length;
    finished, code, ip, op := false, 0, ip0, op0;
    if cpy > oend - MFLIMIT || ip + length > iend - (2 + 1 + LASTLITERALS) {
      if partial {
        if ip + length > iend {
          length := iend - ip;
          cpy := op + length;
        }
        if cpy > oend {
          cpy := oend;
          length := oend - op;
        }
      } else if ip + length != iend || cpy > oend {
        return true, -1 - ip, ip, op;
      }
      CopyFrom(dst, op, b, ip, length);
      assert dst[..op + length] == out + b[ip..ip + length];
      ip, op := ip + length, op + length;
      if !partial || cpy == oend || ip >= iend - 2 {
        return true, op, ip, op;
      }
    } else {
      WildCopy8From(dst, op, b, ip, cpy);
      assert dst[..cpy] == out + b[ip..ip + length];
      ip, op := ip + length, cpy;
    }
  }

  /** The state after the literals: a result code if the decode is over, else where the offset stands. */
  ghost predicate LiteralsDone(s: LiteralStep, finished: bool, code: int, ip: nat, buffer: seq<byte>, op: nat,
                               cap: nat) {
    if finished then s.Stop? && Returns(s.outcome, code, buffer) && code <= cap
    else op <= |buffer| && s == Literals(ip, buffer[..op])
  }

  /** The state after one step: a result code if the decode is over, else the next token and the bytes so far.
      An unspecified step may go on or not. */
  ghost predicate StepDone(s: Step, finished: bool, code: int, ip: nat, buffer: seq<byte>, op: nat, cap: nat) {
    if finished then s.Done? && Returns(s.outcome, code, buffer) && code <= cap
    else op <= cap && op <= |buffer| && (s == Next(ip, buffer[..op]) || s == Done(Unspecified))
  }

  /** Copies a match, in one of the two ways of the slow path. */
  method DecodeCopy(b: seq<byte>, ip: nat, dst: array<byte>, op0: nat, offset: nat, length: nat, cap: nat,
                    partial: bool, ghost out: seq<byte>)
      returns (finished: bool, code: int, op: nat)
    requires ip < |b| && op0 <= cap <= dst.Length && out == dst[..op0] && (!partial ==> op0 + MFLIMIT <= cap)
    requires MINMATCH <= length
    modifies dst
    ensures forall i :: cap <= i < dst.Length ==> dst[i] == old(dst[i])
    ensures StepDone(SafeCopy(b, ip, out, offset, length, cap, partial), finished, code, ip, dst[..], op, cap)
  {
    finished, code, op := false, 0, op0;
    if offset > op {
      return true, -1 - ip, op;
    }
    var oend := cap;
    var cpy := op + length;
    if partial && cpy > oend - 12 {
      var mlen := if length <= oend - op then length else oend - op;
      CopyPartialMatch(dst, op, offset, mlen);
      op := op + mlen;
      if op == oend {
        return true, op, op;
      }
    } else {
      var ok := CopyWholeMatch(dst, op, offset, length, oend);
      if !ok {
        return true, -1 - ip, op;
      }
      op := cpy;
    }
  }

  /** A match away from the shortcut: either it ends the decode, or the next token is at `ip`. */
  method DecodeMatch(b: seq<byte>, t: nat, p: nat, dst: array<byte>, op0: nat, cap: nat, partial: bool,
                     ghost out: seq<byte>)
      returns (finished: bool, code: int, ip: nat, op: nat)
    requires t < p && p + 2 < |b| && op0 <= cap <= dst.Length && out == dst[..op0]
      && (!partial ==> op0 + MFLIMIT <= cap)
    modifies dst
    ensures forall i :: cap <= i < dst.Length ==> dst[i] == old(dst[i])
    ensures StepDone(SafeMatch(b, t, p, out, cap, partial), finished, code, ip, dst[..], op, cap)
    ensures !finished ==> p < ip < |b|
  {
    var offset := ReadLE16(b, p);
    var length: nat := b[t] % 16;
    finished, code, ip, op := false, 0, p + 2, op0;
    if length == ML_MASK {
      var addl := ReadVariableLength(b, ip, |b| - LASTLITERALS + 1, false);
      if addl.LengthError? {
        return true, -1 - addl.pos, ip, op;
      }
      length, ip := length + addl.value, addl.pos;
    }
    length := length + MINMATCH;
    assert SafeMatchLength(b, t, p + 2) == Length(length, ip);
    finished, code, op := DecodeCopy(b, ip, dst, op, offset, length, cap, partial, out);
  }

  /** The shortcut's literal copy: sixteen bytes whatever the length. */
  method CopySixteen(dst: array<byte>, op: nat, b: seq<byte>, ip: nat, length: nat)
    requires length <= 16 && ip + 16 <= |b| && op + 16 <= dst.Length
    modifies dst
    ensures dst[..op + length] == old(dst[..op]) + b[ip..ip + length]
    ensures forall i :: op + 16 <= i < dst.Length ==> dst[i] == old(dst[i])
  {
    ghost var out := dst[..op];
    CopyFrom(dst, op, b, ip, 16);
    assert dst[..op + length] == out + b[ip..ip + length];
  }

  /** The shortcut: literals, and the match if it is short and does not overlap. */
  method DecodeShortcut(b: seq<byte>, ip0: nat, dst: array<byte>, op0: nat, cap: nat, partial: bool,
                        ghost out: seq<byte>)
      returns (finished: bool, code: int, ip: nat, op: nat)
    requires ip0 < |b| && op0 <= cap <= dst.Length && out == dst[..op0] && InShortcut(b, ip0, op0, cap)
    modifies dst
    ensures forall i :: cap <= i < dst.Length ==> dst[i] == old(dst[i])
    ensures StepDone(SafeShortcut(b, ip0, out, cap, partial), finished, code, ip, dst[..], op, cap)
    ensures !finished ==> ip0 < ip < |b|
  {
    var length: nat := b[ip0] / 16;
    ip, op := ip0 + 1, op0;
    CopySixteen(dst, op, b, ip, length);
    op, ip := op + length, ip + length;
    ghost var out1 := dst[..op];
    ShortcutIs(b, ip0, out, cap, partial, ip, out1);
    var offset := ReadLE16(b, ip);
    if b[ip0] % 16 != ML_MASK && offset >= 8 && offset <= op {
      length := b[ip0] % 16 + MINMATCH;
      CopyEighteen(dst, op, offset, length, out1);
      finished, code, ip, op := false, 0, ip + 2, op + length;
    } else {
      finished, code, ip, op := DecodeMatch(b, ip0, ip, dst, op, cap, partial, out1);
    }
  }

  /** The literals of one sequence away from the shortcut, from its token on. */
  method DecodeSlow(b: seq<byte>, ip0: nat, dst: array<byte>, op0: nat, cap: nat, partial: bool, ghost out: seq<byte>)
      returns (finished: bool, code: int, ip: nat, op: nat)
    requires ip0 < |b| && op0 <= cap <= dst.Length && out == dst[..op0]
    modifies dst
    ensures forall i :: cap <= i < dst.Length ==> dst[i] == old(dst[i])
    ensures LiteralsDone(SafeSlow(b, ip0, out, cap, partial), finished, code, ip, dst[..], op, cap)
  {
    finished, code, ip, op := false, 0, ip0 + 1, op0;
    var length: nat := b[ip0] / 16;
    if length == RUN_MASK {
      var addl := ReadVariableLength(b, ip, |b| - RUN_MASK, true);
      if addl.LengthError? {
        return true, -1 - addl.pos, ip, op;
      }
      length, ip := length + addl.value, addl.pos;
    }
    assert SafeLiteralLength(b, ip0) == Length(length, ip);
    finished, code, ip, op := DecodeLiterals(b, ip, dst, op, length, cap, partial, out);
  }

  /** One sequence; `ip` and `op` then stand at the next token, unless the decode is over. */
  method DecodeSequence(b: seq<byte>, ip0: nat, dst: array<byte>, op0: nat, cap: nat, partial: bool,
                        ghost out: seq<byte>)
      returns (finished: bool, code: int, ip: nat, op: nat)
    requires ip0 < |b| && op0 <= cap <= dst.Length && out == dst[..op0]
    modifies dst
    ensures forall i :: cap <= i < dst.Length ==> dst[i] == old(dst[i])
    ensures StepDone(SafeStep(b, ip0, out, cap, partial), finished, code, ip, dst[..], op, cap)
    ensures !finished ==> ip0 < ip < |b|
  {
    if b[ip0] / 16 != RUN_MASK && ip0 + 1 < |b| - 16 && op0 <= cap - 32 {
      finished, code, ip, op := DecodeShortcut(b, ip0, dst, op0, cap, partial, out);
    } else {
      finished, code, ip, op := DecodeSlow(b, ip0, dst, op0, cap, partial, out);
      if !finished {
        finished, code, ip, op := DecodeMatch(b, ip0, ip, dst, op, cap, partial, dst[..op]);
      }
    }
  }

  /** The decoder: on every input it stays inside `b` and below `cap`, and returns what byte-by-byte decoding
      returns. */
  method DecompressGeneric(b: seq<byte>, dst: array<byte>, cap: nat, partial: bool) returns (r: int)
    requires cap <= dst.Length
    modifies dst
    ensures Returns(SafeDecode(b, cap, partial), r, dst[..])
    ensures r <= cap
    ensures forall i :: cap <= i < dst.Length ==> dst[i] == old(dst[i])
  {
    if cap == 0 {
      if partial { return 0; }
      return if |b| == 1 && b[0] == 0 then 0 else -1;
    }
    if |b| == 0 { return -1; }
    var ip: nat, op: nat := 0, 0;
    ghost var goal := SafeDecode(b, cap, partial);
    while true
      invariant ip < |b| && op <= cap
      invariant goal == SafeSequence(b, ip, dst[..op], cap, partial) || goal.Unspecified?
      invariant forall i :: cap <= i < dst.Length ==> dst[i] == old(dst[i])
      decreases |b| - ip
    {
      var finished;
      finished, r, ip, op := DecodeSequence(b, ip, dst, op, cap, partial, dst[..op]);
      if finished {
        return;
      }
    }
  }

  method DecompressSafe(b: seq<byte>, dst: array<byte>, cap: nat) returns (r: int)
    requires cap <= dst.Length
    modifies dst
    ensures Returns(SafeDecode(b, cap, false), r, dst[..])
    ensures r <= cap
    ensures forall i :: cap <= i < dst.Length ==> dst[i] == old(dst[i])
  {
    r := DecompressGeneric(b, dst, cap, false);
  }

  method DecompressSafePartial(b: seq<byte>, dst: array<byte>, target: nat, cap: nat) returns (r: int)
    requires cap <= dst.Length
    modifies dst
    ensures Returns(SafeDecode(b, if target < cap then target else cap, true), r, dst[..])
    ensures r <= target && r <= cap
    ensures forall i :: (target <= i || cap <= i) && i < dst.Length ==> dst[i] == old(dst[i])
  {
    r := DecompressGeneric(b, dst, if target < cap then target else cap, true);
  }
}
