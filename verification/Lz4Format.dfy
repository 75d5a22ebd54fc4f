/** The LZ4 block format: what a block means, independently of how it is produced or consumed.
    A block is a list of sequences (a literal run followed by a match) and a final literal run. */
module Lz4Format {

  import opened ByteType

  const MINMATCH := 4
  const LASTLITERALS := 5
  const MFLIMIT := 12
  const RUN_MASK := 15
  const ML_MASK := 15
  const DISTANCE_MAX := 65535

  /** The bytes that follow a saturated 4-bit length field: as many 255 as fit, then the rest. */
  function LengthBytes(n: nat): seq<byte> {
    if n >= 255 then [255] + LengthBytes(n - 255) else [n]
  }

  /** The 4-bit field of the token for a length code. */
  function Nibble(code: nat): nat {
    if code >= 15 then 15 else code
  }

  /** The bytes that complete the 4-bit field. */
  function ExtraBytes(code: nat): seq<byte> {
    if code >= 15 then LengthBytes(code - 15) else []
  }

  /** A literal run and a match of `code + MINMATCH` bytes, `offset` back. */
  datatype Sequence = Sequence(literals: seq<byte>, offset: nat, code: nat)
  {
    function MatchLength(): nat {
      code + MINMATCH
    }
  }

  /** The output after copying `len` bytes from `offset` back, one byte at a time.
      An offset of zero is not part of the format; a full decode then produces zero bytes. */
  function CopyMatch(out: seq<byte>, offset: nat, len: nat): (r: seq<byte>)
    requires offset <= |out|
    ensures |r| == |out| + len
    decreases len
  {
    if len == 0 then out
    else CopyMatch(out + [if offset == 0 then 0 else out[|out| - offset]], offset, len - 1)
  }

  /** The bytes described by a match repeat the bytes `offset` back, starting from `from`. */
  ghost predicate Repeats(s: seq<byte>, from: nat, offset: nat) {
    forall i :: from <= i < |s| ==> s[i] == if offset == 0 || i < offset then 0 else s[i - offset]
  }

  lemma {:induction false} CopyMatchRepeats(out: seq<byte>, offset: nat, len: nat)
    requires offset <= |out|
    ensures CopyMatch(out, offset, len)[..|out|] == out
    ensures Repeats(CopyMatch(out, offset, len), |out|, offset)
    decreases len
  {
    if len > 0 {
      var next := out + [if offset == 0 then 0 else out[|out| - offset]];
      CopyMatchRepeats(next, offset, len - 1);
      var r := CopyMatch(next, offset, len - 1);
      assert r[..|out|] == r[..|next|][..|out|] == out;
      assert r[|out|] == r[..|next|][|out|] == next[|out|];
      if offset > 0 {
        assert r[|out| - offset] == r[..|out|][|out| - offset] == out[|out| - offset];
      }
    }
  }

  /** `CopyMatch` is the only extension of `out` whose bytes repeat at distance `offset`. */
  lemma {:induction false} CopyMatchUnique(t: seq<byte>, out: seq<byte>, offset: nat, len: nat)
    requires offset <= |out|
    requires |t| == |out| + len
    requires t[..|out|] == out
    requires Repeats(t, |out|, offset)
    ensures t == CopyMatch(out, offset, len)
    decreases len
  {
    if len > 0 {
      var next := out + [if offset == 0 then 0 else out[|out| - offset]];
      assert t[|out|] == next[|out|] by {
        if offset > 0 {
          assert t[|out| - offset] == t[..|out|][|out| - offset];
        }
      }
      assert t[..|next|] == next;
      CopyMatchUnique(t, next, offset, len - 1);
    } else {
      assert t == t[..|out|];
    }
  }

  /** Copying in two steps is copying once. */
  lemma {:induction false} CopyMatchSplit(out: seq<byte>, offset: nat, a: nat, b: nat)
    requires offset <= |out|
    ensures CopyMatch(out, offset, a + b) == CopyMatch(CopyMatch(out, offset, a), offset, b)
    decreases a
  {
    if a > 0 {
      CopyMatchSplit(out + [if offset == 0 then 0 else out[|out| - offset]], offset, a - 1, b);
    }
  }

  /** Copying fewer bytes yields a prefix. */
  lemma CopyMatchPrefix(out: seq<byte>, offset: nat, k: nat, n: nat)
    requires offset <= |out| && k <= n
    ensures CopyMatch(out, offset, k) == CopyMatch(out, offset, n)[..|out| + k]
    ensures out <= CopyMatch(out, offset, n)
  {
    CopyMatchSplit(out, offset, k, n - k);
    CopyMatchRepeats(CopyMatch(out, offset, k), offset, n - k);
    CopyMatchRepeats(out, offset, n);
  }

  /** A list of sequences, in the order in which they stand in a block. */
  datatype Sequences = Empty | Then(front: Sequences, s: Sequence)

  /** Every match copies from inside the output produced so far. */
  ghost predicate WellFormed(seqs: Sequences)
    decreases seqs, 0
  {
    match seqs
    case Empty => true
    case Then(front, s) =>
      && WellFormed(front)
      && 1 <= s.offset <= DISTANCE_MAX
      && s.offset <= |Expand(front)| + |s.literals|
  }

  /** The bytes described by a list of sequences. */
  ghost function Expand(seqs: Sequences): seq<byte>
    requires WellFormed(seqs)
    decreases seqs, 1
  {
    match seqs
    case Empty => []
    case Then(front, s) => CopyMatch(Expand(front) + s.literals, s.offset, s.MatchLength())
  }

  function EncodeRun(lits: seq<byte>, low: nat): seq<byte>
    requires low < 16
  {
    [16 * Nibble(|lits|) + low] + ExtraBytes(|lits|) + lits
  }

  /** Token, literal length, literals, little-endian offset, match length code. */
  function EncodeParts(lits: seq<byte>, offset: nat, code: nat): seq<byte>
    requires offset <= DISTANCE_MAX
  {
    EncodeRun(lits, Nibble(code)) + [offset % 256, offset / 256] + ExtraBytes(code)
  }

  function EncodeSequence(s: Sequence): seq<byte>
    requires s.offset <= DISTANCE_MAX
  {
    EncodeParts(s.literals, s.offset, s.code)
  }

  ghost function EncodeSequences(seqs: Sequences): seq<byte>
    requires WellFormed(seqs)
  {
    match seqs
    case Empty => []
    case Then(front, s) => EncodeSequences(front) + EncodeSequence(s)
  }

  /** The parsing restrictions of the format: the last match starts at least MFLIMIT bytes, and ends at
      least LASTLITERALS bytes, before the end of the decoded block. */
  ghost predicate EndOfBlock(seqs: Sequences, last: seq<byte>) {
    seqs.Then? ==> LASTLITERALS <= |last| && MFLIMIT <= seqs.s.MatchLength() + |last|
  }

  ghost predicate Encodes(block: seq<byte>, seqs: Sequences, last: seq<byte>, data: seq<byte>) {
    && WellFormed(seqs)
    && EndOfBlock(seqs, last)
    && block == EncodeSequences(seqs) + EncodeRun(last, 0)
    && data == Expand(seqs) + last
  }

  /** `block` is a conforming LZ4 block for `data`. */
  ghost predicate IsBlockOf(block: seq<byte>, data: seq<byte>) {
    exists seqs, last :: Encodes(block, seqs, last, data)
  }
}
