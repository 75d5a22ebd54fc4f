/** The simple LZ4 decoder: it knows how much output to produce, presumes well-formed input, and copies byte by
    byte. */
module Lz4SimpleDecoder {
  import opened ByteType
  import opened Lz4Format
  import opened Lz4DecoderSpec
  import opened Lz4DecoderProofs
  import opened Lz4Memory

  /** Adds up length bytes with no check for the end of the input. */
  method ReadLongLength(b: seq<byte>, start: nat) returns (length: nat, ip: nat)
    requires ReadLong(b, start).Length?
    ensures ReadLong(b, start) == Length(length, ip)
  {
    length, ip := 0, start;
    var more := true;
    while more
      invariant start <= ip <= |b|
      invariant more ==> ReadLong(b, ip).Length? && ReadLong(b, start) == AddLength(length, ReadLong(b, ip))
      invariant !more ==> ReadLong(b, start) == Length(length, ip)
      decreases more, |b| - ip
    {
      var s := b[ip];
      ip, length := ip + 1, length + s;
      more := s == 255;
    }
  }

  method CopyBytes(dst: array<byte>, op: nat, offset: nat, n: nat, ghost out: seq<byte>)
    requires 1 <= offset <= op && op + n <= dst.Length && out == dst[..op]
    modifies dst
    ensures dst[..op + n] == CopyMatch(out, offset, n)
  {
    var match_ := op - offset;
    for u := 0 to n
      invariant dst[..op] == out
      invariant forall i :: op <= i < op + u ==> dst[i] == dst[i - offset]
    {
      dst[op + u] := dst[match_ + u];
    }
    var t := dst[..op + n];
    assert t[..op] == out;
    CopyMatchUnique(t, out, offset, n);
  }

  /** What one step must return. */
  ghost predicate StepReturns(s: TrustStep, finished: bool, code: int, ip: nat, op: nat, buffer: seq<byte>, size: nat) {
    && op <= size <= |buffer|
    && match s
       case Over(Accepted(consumed, o)) => finished && code == consumed && buffer[..size] == o
       case Over(_) => finished && code == -1
       case Onward(next, out2) => !finished && ip == next && buffer[..op] == out2
  }

  method SimpleMatch(b: seq<byte>, t: nat, p: nat, dst: array<byte>, op0: nat, size: nat, ghost out: seq<byte>)
      returns (finished: bool, ip: nat, op: nat)
    requires t < p <= |b| && op0 <= size <= dst.Length && out == dst[..op0]
    requires TrustingMatch(b, t, p, out, size) != Over(OutOfContract)
    modifies dst
    ensures StepReturns(TrustingMatch(b, t, p, out, size), finished, -1, ip, op, dst[..], size)
  {
    finished, ip, op := true, p + 2, op0;
    var ml: nat := b[t] % 16;
    var offset := ReadLE16(b, p);
    if ml == 15 {
      var more;
      more, ip := ReadLongLength(b, ip);
      ml := ml + more;
    }
    ml := ml + MINMATCH;
    assert MatchLength(b, t, p + 2) == Length(ml, ip);
    if size - op < ml || offset > op {
      return;
    }
    CopyBytes(dst, op, offset, ml, out);
    op := op + ml;
    if size - op < LASTLITERALS {
      return;
    }
    finished := false;
  }

  /** One sequence; the decode is over, or `ip` stands at the next token. */
  method SimpleSequence(b: seq<byte>, ip0: nat, dst: array<byte>, op0: nat, size: nat, ghost out: seq<byte>)
      returns (finished: bool, code: int, ip: nat, op: nat)
    requires op0 <= size <= dst.Length && out == dst[..op0]
    requires TrustingStep(b, ip0, out, size) != Over(OutOfContract)
    modifies dst
    ensures StepReturns(TrustingStep(b, ip0, out, size), finished, code, ip, op, dst[..], size)
  {
    hide TrustingMatch;
    finished, code, ip, op := true, -1, ip0 + 1, op0;
    var ll: nat := b[ip0] / 16;
    if ll == 15 {
      var more;
      more, ip := ReadLongLength(b, ip);
      ll := ll + more;
    }
    assert LiteralLength(b, ip0) == Length(ll, ip);
    if size - op < ll {
      return;
    }
    CopyFrom(dst, op, b, ip, ll);
    assert dst[..op + ll] == out + b[ip..ip + ll];
    TrustingStepIs(b, ip0, out, size, ip, ip + ll, dst[..op + ll]);
    op, ip := op + ll, ip + ll;
    if size - op < MFLIMIT {
      if op == size {
        code := ip;
      }
      return;
    }
    finished, ip, op := SimpleMatch(b, ip0, ip, dst, op, size, dst[..op]);
  }

  /** The simple decoder. Its caller promises a block it does not run out of, without zero offsets. */
  method DecompressUnsafe(b: seq<byte>, dst: array<byte>, size: nat) returns (r: int)
    requires size <= dst.Length
    requires TrustingSequence(b, 0, [], size) != OutOfContract
    modifies dst
    ensures match TrustingSequence(b, 0, [], size)
            case Accepted(consumed, out) => r == consumed && dst[..size] == out
            case _ => r == -1
  {
    var ip: nat, op: nat := 0, 0;
    ghost var goal := TrustingSequence(b, 0, [], size);
    while true
      invariant op <= size && goal == TrustingSequence(b, ip, dst[..op], size)
      decreases |b| - ip
    {
      var finished;
      finished, r, ip, op := SimpleSequence(b, ip, dst, op, size, dst[..op]);
      if finished {
        return;
      }
    }
  }

  /** On a block that the simple decoder accepts at its exact size, both decoders produce the same bytes. */
  lemma DecodersAgree(b: seq<byte>, size: nat, out: seq<byte>)
    requires TrustingSequence(b, 0, [], size) == Accepted(|b|, out) && size > 0
    ensures SafeDecode(b, size, false) == Decoded(out)
  {
    TrustedDecode(b, size, out, size, false);
  }
}
