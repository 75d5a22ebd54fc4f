/** Writing the parts of a sequence. Every write stays inside the buffer; bytes past `op` may be scratch. */
module Lz4Emitter {
  import opened ByteType
  import opened Lz4Format
  import opened Lz4Memory

  /** Length bytes are as many 255 as fit, and the remainder. */
  lemma {:induction false} LengthBytesForm(n: nat)
    ensures |LengthBytes(n)| == n / 255 + 1
    ensures forall i :: 0 <= i < n / 255 ==> LengthBytes(n)[i] == 255
    ensures LengthBytes(n)[n / 255] == n % 255
  {
    if n >= 255 {
      LengthBytesForm(n - 255);
      assert n / 255 == (n - 255) / 255 + 1 && n % 255 == (n - 255) % 255;
      forall i | 0 <= i < n / 255 ensures LengthBytes(n)[i] == 255 {
        assert i > 0 ==> LengthBytes(n)[i] == LengthBytes(n - 255)[i - 1];
      }
      assert LengthBytes(n)[n / 255] == LengthBytes(n - 255)[(n - 255) / 255];
    }
  }

  lemma LengthBytesAre(s: seq<byte>, n: nat)
    requires |s| == n / 255 + 1 && s[n / 255] == n % 255
    requires forall i :: 0 <= i < n / 255 ==> s[i] == 255
    ensures s == LengthBytes(n)
  {
    LengthBytesForm(n);
  }

  /** The length bytes of a literal run, one at a time. */
  method WriteLiteralLength(dst: array<byte>, op0: nat, n: nat) returns (op: nat)
    requires op0 + n / 255 + 1 <= dst.Length
    modifies dst
    ensures op == op0 + n / 255 + 1
    ensures dst[..op] == old(dst[..op0]) + LengthBytes(n)
    ensures SameFrom(dst[..], old(dst[..]), op)
  {
    op := op0;
    var len := n;
    while len >= 255
      invariant op0 <= op && op + len / 255 == op0 + n / 255 && len % 255 == n % 255
      invariant dst[..op0] == old(dst[..op0])
      invariant forall i :: op0 <= i < op ==> dst[i] == 255
      invariant forall i :: op <= i < dst.Length ==> dst[i] == old(dst[i])
    {
      dst[op] := 255;
      op, len := op + 1, len - 255;
    }
    assert len == n % 255 && op - op0 == n / 255;
    dst[op] := len;
    op := op + 1;
    LengthBytesAre(dst[op0..op], n);
    assert dst[..op] == dst[..op0] + dst[op0..op];
  }

  /** Four bytes of 255. */
  method WriteOnes(dst: array<byte>, op: nat)
    requires op + 4 <= dst.Length
    modifies dst
    ensures forall i :: op <= i < op + 4 ==> dst[i] == 255
    ensures forall i :: 0 <= i < op || op + 4 <= i < dst.Length ==> dst[i] == old(dst[i])
  {
    dst[op], dst[op + 1], dst[op + 2], dst[op + 3] := 255, 255, 255, 255;
  }

  /** The length bytes of a match, four at a time, with up to three scratch bytes after them. */
  method WriteMatchLength(dst: array<byte>, op0: nat, n: nat) returns (op: nat)
    requires op0 + n / 255 + 4 <= dst.Length
    modifies dst
    ensures op == op0 + n / 255 + 1
    ensures dst[..op] == old(dst[..op0]) + LengthBytes(n)
    ensures SameFrom(dst[..], old(dst[..]), op0 + n / 255 + 4)
  {
    op := op0;
    var code := n;
    WriteOnes(dst, op);
    while code >= 4 * 255
      invariant op0 <= op && op + code / 255 == op0 + n / 255 && code % 255 == n % 255
      invariant dst[..op0] == old(dst[..op0])
      invariant op + 4 <= dst.Length
      invariant forall i :: op0 <= i < op + 4 ==> dst[i] == 255
      invariant forall i :: op + 4 <= i < dst.Length ==> dst[i] == old(dst[i])
    {
      op := op + 4;
      WriteOnes(dst, op);
      code := code - 4 * 255;
    }
    op := op + code / 255;
    assert op - op0 == n / 255 && code % 255 == n % 255;
    dst[op] := code % 255;
    op := op + 1;
    LengthBytesAre(dst[op0..op], n);
    assert dst[..op] == dst[..op0] + dst[op0..op];
  }

  /** Token and length of a run of `n` literals. */
  method WriteRunHead(dst: array<byte>, token: nat, n: nat) returns (op: nat)
    requires token + 1 + (if n >= 15 then (n - 15) / 255 + 1 else 0) <= dst.Length
    modifies dst
    ensures op == token + 1 + (if n >= 15 then (n - 15) / 255 + 1 else 0) <= dst.Length
    ensures dst[..op] == old(dst[..token]) + [16 * Nibble(n)] + ExtraBytes(n)
    ensures SameFrom(dst[..], old(dst[..]), op)
  {
    ghost var before := dst[..token];
    op := token + 1;
    if n >= RUN_MASK {
      dst[token] := 240;
      assert dst[..op] == before + [240];
      op := WriteLiteralLength(dst, op, n - RUN_MASK);
    } else {
      dst[token] := n * 16;
      assert dst[..op] == before + [n * 16] + [];
    }
  }

  /** Token and literals of a sequence, with the match length still to be added to the token. */
  method WriteLiterals(dst: array<byte>, token: nat, src: seq<byte>, anchor: nat, ip: nat) returns (op: nat)
    requires anchor <= ip && ip + 8 <= |src|
    requires token + 1 + (ip - anchor) + 8 + (ip - anchor) / 255 <= dst.Length
    modifies dst
    ensures op == token + 1 + (if ip - anchor >= 15 then (ip - anchor - 15) / 255 + 1 else 0) + (ip - anchor)
    ensures op <= dst.Length
    ensures dst[..op] == old(dst[..token]) + EncodeRun(src[anchor..ip], 0)
    ensures SameFrom(dst[..], old(dst[..]), token + 1 + (ip - anchor) + 8 + (ip - anchor) / 255)
  {
    hide SameFrom, LengthBytes;
    var litLength := ip - anchor;
    ghost var lits := src[anchor..ip];
    ghost var before, was := dst[..token], dst[..];
    op := WriteRunHead(dst, token, litLength);
    ghost var middle, at := dst[..], op;
    ghost var head := dst[..op];
    CopyLiterals(dst, op, src, anchor, ip, litLength / 255 + token + 1 + litLength + 8);
    assert head + lits == before + ([16 * Nibble(litLength)] + ExtraBytes(litLength) + lits);
    op := op + litLength;
    SameThrough(was, middle, dst[..], at, litLength / 255 + token + 1 + litLength + 8);
  }

  /** The literals themselves, and a few bytes more. */
  method CopyLiterals(dst: array<byte>, op: nat, src: seq<byte>, anchor: nat, ip: nat, ghost end: nat)
    requires anchor <= ip && ip + 8 <= |src| && op + (ip - anchor) + 7 <= end <= dst.Length && op + 8 <= end
    modifies dst
    ensures dst[..op + (ip - anchor)] == old(dst[..op]) + src[anchor..ip]
    ensures SameFrom(dst[..], old(dst[..]), end)
  {
    WildCopy8From(dst, op, src, anchor, op + (ip - anchor));
  }

  method WriteLE16(dst: array<byte>, op: nat, value: nat)
    requires op + 2 <= dst.Length && value <= DISTANCE_MAX
    modifies dst
    ensures dst[..op + 2] == old(dst[..op]) + [value % 256, value / 256]
    ensures SameFrom(dst[..], old(dst[..]), op + 2)
  {
    dst[op], dst[op + 1] := value % 256, value / 256;
  }

  /** The final run: token, length and exactly `n` literals. */
  method WriteLastRun(dst: array<byte>, token: nat, src: seq<byte>, anchor: nat, n: nat) returns (op: nat)
    requires anchor + n <= |src|
    requires token + 1 + (if n >= 15 then (n - 15) / 255 + 1 else 0) + n <= dst.Length
    modifies dst
    ensures op == token + 1 + (if n >= 15 then (n - 15) / 255 + 1 else 0) + n <= dst.Length
    ensures dst[..op] == old(dst[..token]) + EncodeRun(src[anchor..anchor + n], 0)
    ensures SameFrom(dst[..], old(dst[..]), op)
  {
    hide LengthBytes, ExtraBytes;
    ghost var lits := src[anchor..anchor + n];
    ghost var before := dst[..token];
    op := WriteRunHead(dst, token, n);
    ghost var head := dst[..op];
    CopyFrom(dst, op, src, anchor, n);
    assert dst[..op + n] == head + lits;
    assert head + lits == before + ([16 * Nibble(n)] + ExtraBytes(n) + lits);
    op := op + n;
  }
}
