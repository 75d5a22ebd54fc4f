/** A conforming block decodes to its data. */
module Lz4RoundTrip {
  import opened ByteType
  import opened Lz4Format
  import opened Lz4DecoderSpec
  import opened Lz4DecoderProofs

  /** `s` stands in `b` at `ip`. */
  ghost predicate At(b: seq<byte>, ip: nat, s: seq<byte>)
    decreases |s|
  {
    if s == [] then ip <= |b| else ip < |b| && b[ip] == s[0] && At(b, ip + 1, s[1..])
  }

  lemma {:induction false} AtSlice(b: seq<byte>, ip: nat, s: seq<byte>)
    ensures At(b, ip, s) <==> ip + |s| <= |b| && b[ip..ip + |s|] == s
    decreases |s|
  {
    if s != [] {
      AtSlice(b, ip + 1, s[1..]);
      if ip + |s| <= |b| {
        assert b[ip..ip + |s|] == [b[ip]] + b[ip + 1..ip + 1 + |s[1..]|];
        assert s == [s[0]] + s[1..];
      }
    }
  }

  lemma AtSplit(b: seq<byte>, ip: nat, x: seq<byte>, y: seq<byte>)
    requires At(b, ip, x + y)
    ensures At(b, ip, x) && At(b, ip + |x|, y)
  {
    AtSlice(b, ip, x + y);
    AtSlice(b, ip, x);
    AtSlice(b, ip + |x|, y);
    assert x == (x + y)[..|x|] == b[ip..ip + |x + y|][..|x|];
    assert y == (x + y)[|x|..] == b[ip..ip + |x + y|][|x|..];
  }

  lemma {:induction false} LengthBytesRead(b: seq<byte>, ip: nat, n: nat)
    requires At(b, ip, LengthBytes(n))
    ensures ReadLong(b, ip) == Length(n, ip + |LengthBytes(n)|)
    decreases n
  {
    if n >= 255 {
      AtSplit(b, ip, [255], LengthBytes(n - 255));
      LengthBytesRead(b, ip + 1, n - 255);
    }
  }

  lemma LiteralLengthOf(b: seq<byte>, ip: nat, n: nat)
    requires ip < |b| && b[ip] / 16 == Nibble(n) && At(b, ip + 1, ExtraBytes(n))
    ensures LiteralLength(b, ip) == Length(n, ip + 1 + |ExtraBytes(n)|)
  {
    if n >= 15 {
      LengthBytesRead(b, ip + 1, n - 15);
    }
  }

  /** A run of literals is read back from its token on. */
  lemma RunRead(b: seq<byte>, ip: nat, lits: seq<byte>, low: nat)
    requires low < 16 && At(b, ip, EncodeRun(lits, low))
    ensures b[ip] == 16 * Nibble(|lits|) + low
    ensures LiteralLength(b, ip) == Length(|lits|, ip + 1 + |ExtraBytes(|lits|)|)
    ensures At(b, ip + 1 + |ExtraBytes(|lits|)|, lits)
  {
    var token: seq<byte> := [16 * Nibble(|lits|) + low];
    var extra := ExtraBytes(|lits|);
    AtSplit(b, ip, token + extra, lits);
    AtSplit(b, ip, token, extra);
    LiteralLengthOf(b, ip, |lits|);
  }

  /** Where the parts of an encoded sequence stand: literals at `q`, offset at `p`, further length bytes after. */
  lemma SequenceParts(b: seq<byte>, ip: nat, lits: seq<byte>, offset: seq<byte>, ml: nat) returns (q: nat, p: nat)
    requires |offset| == 2 && At(b, ip, EncodeRun(lits, Nibble(ml)) + offset + ExtraBytes(ml))
    ensures ip < q && p == q + |lits| && p == ip + |EncodeRun(lits, Nibble(ml))|
    ensures b[ip] % 16 == Nibble(ml)
    ensures At(b, q, lits) && LiteralLength(b, ip) == Length(|lits|, q)
    ensures At(b, p, offset) && At(b, p + 2, ExtraBytes(ml))
  {
    var run := EncodeRun(lits, Nibble(ml));
    AtSplit(b, ip, run + offset, ExtraBytes(ml));
    AtSplit(b, ip, run, offset);
    RunRead(b, ip, lits, Nibble(ml));
    q := ip + 1 + |ExtraBytes(|lits|)|;
    p := ip + |run|;
  }

  lemma OffsetRead(b: seq<byte>, p: nat, offset: nat)
    requires offset <= DISTANCE_MAX && At(b, p, [offset % 256, offset / 256])
    ensures p + 2 <= |b| && ReadLE16(b, p) == offset
  {
    AtSlice(b, p, [offset % 256, offset / 256]);
    assert b[p] == b[p..p + 2][0] && b[p + 1] == b[p..p + 2][1];
  }

  lemma MatchLengthRead(b: seq<byte>, ip: nat, ml: nat, p: nat)
    requires ip < p && At(b, p, ExtraBytes(ml)) && b[ip] % 16 == Nibble(ml)
    ensures MatchLength(b, ip, p) == Length(ml + MINMATCH, p + |ExtraBytes(ml)|)
  {
    if ml >= 15 {
      LengthBytesRead(b, p, ml - 15);
    }
  }

  lemma PartsRead(b: seq<byte>, ip: nat, lits: seq<byte>, offset: nat, code: nat) returns (q: nat, p: nat)
    requires offset <= DISTANCE_MAX && At(b, ip, EncodeParts(lits, offset, code))
    ensures ip < q && p == q + |lits| && p + 2 <= |b| && At(b, q, lits)
    ensures LiteralLength(b, ip) == Length(|lits|, q) && ReadLE16(b, p) == offset
    ensures MatchLength(b, ip, p + 2) == Length(code + MINMATCH, ip + |EncodeParts(lits, offset, code)|)
  {
    q, p := SequenceParts(b, ip, lits, [offset % 256, offset / 256], code);
    assert p + 2 <= |b| && ReadLE16(b, p) == offset by {
      OffsetRead(b, p, offset);
    }
    assert MatchLength(b, ip, p + 2) == Length(code + MINMATCH, p + 2 + |ExtraBytes(code)|) by {
      MatchLengthRead(b, ip, code, p + 2);
    }
  }

  /** An encoded sequence is read back as itself. */
  lemma SequenceRead(b: seq<byte>, ip: nat, s: Sequence) returns (q: nat, p: nat)
    requires s.offset <= DISTANCE_MAX && At(b, ip, EncodeSequence(s))
    ensures ip < q && p == q + |s.literals| && p + 2 <= |b| && At(b, q, s.literals)
    ensures LiteralLength(b, ip) == Length(|s.literals|, q) && ReadLE16(b, p) == s.offset
    ensures MatchLength(b, ip, p + 2) == Length(s.MatchLength(), ip + |EncodeSequence(s)|)
  {
    q, p := PartsRead(b, ip, s.literals, s.offset, s.code);
  }

  lemma StepOf(b: seq<byte>, ip: nat, out: seq<byte>, size: nat,
               q: nat, p: nat, lits: seq<byte>, offset: nat, ml: nat, next: nat)
    requires ip < q && p == q + |lits| && p + 2 <= |b| && b[q..p] == lits
    requires LiteralLength(b, ip) == Length(|lits|, q) && MatchLength(b, ip, p + 2) == Length(ml, next)
    requires ReadLE16(b, p) == offset && 1 <= offset <= |out| + |lits|
    requires |out| + |lits| + MFLIMIT <= size && |out| + |lits| + ml + LASTLITERALS <= size
    ensures TrustingStep(b, ip, out, size) == Onward(next, CopyMatch(out + lits, offset, ml))
  {
    TrustingStepIs(b, ip, out, size, q, p, out + lits);
  }

  /** One encoded sequence is one step of the simple decoder. */
  lemma SequenceTrusted(b: seq<byte>, ip: nat, s: Sequence, out: seq<byte>, size: nat, next: nat, out2: seq<byte>)
    requires 1 <= s.offset <= DISTANCE_MAX && At(b, ip, EncodeSequence(s))
    requires s.offset <= |out| + |s.literals| && next == ip + |EncodeSequence(s)|
    requires out2 == CopyMatch(out + s.literals, s.offset, s.MatchLength())
    requires |out| + |s.literals| + MFLIMIT <= size && |out2| + LASTLITERALS <= size
    ensures TrustingSequence(b, ip, out, size) == TrustingSequence(b, next, out2, size)
  {
    var q, p := SequenceRead(b, ip, s);
    AtSlice(b, q, s.literals);
    StepOf(b, ip, out, size, q, p, s.literals, s.offset, s.MatchLength(), next);
  }

  lemma LastStep(b: seq<byte>, ip: nat, q: nat, out: seq<byte>, last: seq<byte>, data: seq<byte>)
    requires ip < q && q + |last| == |b| && b[q..] == last && data == out + last
    requires LiteralLength(b, ip) == Length(|last|, q)
    ensures TrustingSequence(b, ip, out, |data|) == Accepted(|b|, data)
  {
    assert b[q..q + |last|] == b[q..];
  }

  lemma LastTrusted(b: seq<byte>, ip: nat, last: seq<byte>, out: seq<byte>, data: seq<byte>)
    requires At(b, ip, EncodeRun(last, 0)) && ip + |EncodeRun(last, 0)| == |b| && data == out + last
    ensures TrustingSequence(b, ip, out, |data|) == Accepted(|b|, data)
  {
    var q := ip + 1 + |ExtraBytes(|last|)|;
    RunRead(b, ip, last, 0);
    AtSlice(b, q, last);
    assert q + |last| == |b|;
    assert b[q..q + |last|] == b[q..];
    LastStep(b, ip, q, out, last, data);
  }

  /** The simple decoder gets past a list of sequences that leaves room for what the end of a block needs. */
  lemma {:induction false} SequencesTrusted(b: seq<byte>, seqs: Sequences, size: nat)
    requires WellFormed(seqs) && At(b, 0, EncodeSequences(seqs))
    requires |Expand(seqs)| <= size
    requires seqs.Then? ==>
      |Expand(seqs)| + LASTLITERALS <= size && |Expand(seqs)| + MFLIMIT <= size + seqs.s.MatchLength()
    ensures TrustingSequence(b, 0, [], size) == TrustingSequence(b, |EncodeSequences(seqs)|, Expand(seqs), size)
    decreases seqs
  {
    if seqs.Then? {
      var front, s := seqs.front, seqs.s;
      AtSplit(b, 0, EncodeSequences(front), EncodeSequence(s));
      SequencesTrusted(b, front, size);
      SequenceTrusted(b, |EncodeSequences(front)|, s, Expand(front), size, |EncodeSequences(seqs)|, Expand(seqs));
    }
  }

  lemma BlockAt(b: seq<byte>, head: seq<byte>, run: seq<byte>)
    requires b == head + run
    ensures At(b, 0, head) && At(b, |head|, run)
  {
    AtSlice(b, 0, b);
    AtSplit(b, 0, head, run);
  }

  lemma EncodedIsTrusted(b: seq<byte>, seqs: Sequences, last: seq<byte>, out: seq<byte>, head: seq<byte>,
                         data: seq<byte>)
    requires WellFormed(seqs) && EndOfBlock(seqs, last)
    requires head == EncodeSequences(seqs) && b == head + EncodeRun(last, 0)
    requires out == Expand(seqs) && data == out + last
    ensures TrustingSequence(b, 0, [], |data|) == Accepted(|b|, data)
  {
    BlockAt(b, head, EncodeRun(last, 0));
    assert TrustingSequence(b, |head|, out, |data|) == Accepted(|b|, data) by {
      LastTrusted(b, |head|, last, out, data);
    }
    SequencesTrusted(b, seqs, |data|);
  }

  /** Every conforming block is accepted by the simple decoder at its exact size. */
  lemma ConformingIsTrusted(b: seq<byte>, data: seq<byte>)
    requires IsBlockOf(b, data)
    ensures TrustingSequence(b, 0, [], |data|) == Accepted(|b|, data)
  {
    var seqs, last :| Encodes(b, seqs, last, data);
    EncodedIsTrusted(b, seqs, last, Expand(seqs), EncodeSequences(seqs), data);
  }

  /** A block for empty data is the single byte 0. */
  lemma EmptyBlock(b: seq<byte>)
    requires IsBlockOf(b, [])
    ensures b == [0]
  {
    var seqs, last :| Encodes(b, seqs, last, []);
  }

  /** A conforming block decodes, into any buffer large enough, to exactly its data. */
  lemma DecodeInvertsEncode(b: seq<byte>, data: seq<byte>, cap: nat)
    requires IsBlockOf(b, data) && |data| <= cap
    ensures SafeDecode(b, cap, false) == Decoded(data)
  {
    ConformingIsTrusted(b, data);
    TrustedDecode(b, |data|, data, cap, false);
    if cap == 0 {
      EmptyBlock(b);
    }
  }

  /** A buffer that is too small never receives a wrong result: the decoder reports an error. */
  lemma DecodeTooSmall(b: seq<byte>, data: seq<byte>, cap: nat)
    requires IsBlockOf(b, data) && cap < |data|
    ensures SafeDecode(b, cap, false).Malformed?
  {
    var o := SafeDecode(b, cap, false);
    if o.Decoded? {
      SafeDecodeSound(b, cap);
      DecodeInvertsEncode(b, data, |data|);
      SafeDecodeSound(b, |data|);
    }
  }

  /** A partial decode of a conforming block returns exactly the first bytes of its data, for any target. */
  lemma PartialDecodesPrefix(b: seq<byte>, data: seq<byte>, target: nat)
    requires IsBlockOf(b, data)
    ensures SafeDecode(b, target, true) == Decoded(if target < |data| then data[..target] else data)
  {
    ConformingIsTrusted(b, data);
    TrustedDecode(b, |data|, data, target, true);
  }
}
