/** Bit streams: fields are appended at the end of a growing number and read back from its end, last in first out. */
module BitStream {
  import opened ByteType
  import opened Bytes
  import opened Pow2Lemmas
  import opened BitArithmetic

  // ----- A stack of bit fields -----

  datatype Bits = Nothing | Push(below: Bits, value: nat, width: nat)

  ghost function Width(b: Bits): nat {
    match b
    case Nothing => 0
    case Push(below, _, width) => Width(below) + width
  }

  /** The stack as a number: later fields are higher. */
  ghost function Number(b: Bits): nat {
    match b
    case Nothing => 0
    case Push(below, value, _) => Join(Number(below), Width(below), value)
  }

  ghost predicate Clean(b: Bits) {
    b.Push? ==> b.value < Pow2(b.width) && Clean(b.below)
  }

  lemma {:induction false} NumberBound(b: Bits)
    requires Clean(b)
    ensures Number(b) < Pow2(Width(b))
  {
    if b.Push? {
      NumberBound(b.below);
      JoinBound(Number(b.below), Width(b.below), b.value, b.width);
    }
  }

  /** The low bits of the number `t`, as many as the stack has, are the stack. */
  ghost predicate Holds(t: nat, b: Bits) {
    t % Pow2(Width(b)) == Number(b)
  }

  /** Reading just below the top of the stack gives back the field pushed last, and leaves the rest. */
  lemma Pop(t: nat, b: Bits)
    requires b.Push? && Clean(b) && Holds(t, b)
    ensures Field(t, Width(b.below), b.width) == b.value
    ensures Holds(t, b.below)
  {
    var n, w := Width(b.below), b.width;
    NumberBound(b.below);
    JoinParts(Number(b.below), n, b.value);
    Shifts(t, n, w);
  }

  /** With the end mark on top. */
  lemma EndMark(t: nat, b: Bits)
    requires Clean(b) && t == Join(Number(b), Width(b), 1)
    ensures t > 0 && HighBit(t) == Width(b)
    ensures Holds(t, b)
  {
    NumberBound(b);
    HighBitShift(Number(b), Width(b), 1);
    JoinParts(Number(b), Width(b), 1);
  }

  // ----- Words in memory -----

  lemma NextByte(s: seq<byte>, rest: nat, value: nat)
    requires Join(LittleEndian(s), 8 * |s|, rest) == value
    ensures rest / 256 >= 0 && Join(LittleEndian(s + [rest % 256]), 8 * (|s| + 1), rest / 256) == value
  {
    var q, m := rest / 256, rest % 256;
    LittleEndianAppend(s, [m]);
    assert LittleEndian([m]) == m;
    OneByte(m, q);
    JoinJoin(LittleEndian(s), 8 * |s|, m, 8, q);
    assert 8 * |s| + 8 == 8 * (|s| + 1);
  }

  lemma LessOneByte(rest: nat, n: nat)
    requires rest < Pow2(8 * (n + 1))
    ensures rest / 256 < Pow2(8 * n)
  {
    EightMore(n);
  }

  /** The bytes `low` and the number `rest` make up `value`. */
  ghost predicate Written(low: seq<byte>, rest: nat, value: nat, size: nat) {
    && |low| <= size
    && rest < Pow2(8 * (size - |low|))
    && Join(LittleEndian(low), 8 * |low|, rest) == value
  }

  lemma WordStep(low: seq<byte>, rest: nat, value: nat, size: nat)
    requires Written(low, rest, value, size) && |low| < size
    ensures rest / 256 >= 0
    ensures Written(low + [rest % 256], rest / 256, value, size)
  {
    NextByte(low, rest, value);
    LessOneByte(rest, size - |low| - 1);
  }

  lemma WordDone(low: seq<byte>, rest: nat, value: nat, size: nat)
    requires Written(low, rest, value, size) && |low| == size
    ensures LittleEndian(low) == value
  {
    assert Pow2(0) == 1;
    JoinZero(LittleEndian(low), 8 * |low|);
  }

  /** Write `value` as `size` bytes. */
  method WriteWord(dst: array<byte>, at: nat, value: nat, size: nat)
    requires at + size <= dst.Length && value < Pow2(8 * size)
    modifies dst
    ensures LittleEndian(dst[at..at + size]) == value
    ensures forall i :: 0 <= i < dst.Length && !(at <= i < at + size) ==> dst[i] == old(dst[i])
  {
    var rest := value;
    ghost var low: seq<byte> := [];
    assert Written(low, rest, value, size) by {
      JoinNothing(0, value);
    }
    for i := 0 to size
      invariant |low| == i && low == dst[at..at + i] && rest >= 0
      invariant Written(low, rest, value, size)
      invariant forall i :: 0 <= i < dst.Length && !(at <= i < at + size) ==> dst[i] == old(dst[i])
    {
      WordStep(low, rest, value, size);
      dst[at + i] := rest % 256;
      low := low + [rest % 256];
      rest := rest / 256;
    }
    WordDone(low, rest, value, size);
  }

  // ----- Writing -----

  /** The bytes `front` and the `bitPos` bits of the container are the stack. */
  ghost predicate Stored(front: seq<byte>, container: nat, bitPos: nat, b: Bits) {
    && container < Pow2(bitPos)
    && Width(b) == 8 * |front| + bitPos
    && Number(b) == Join(LittleEndian(front), 8 * |front|, container)
  }

  lemma StoredWidth(front: seq<byte>, container: nat, bitPos: nat, b: Bits)
    requires Stored(front, container, bitPos, b)
    ensures Width(b) == 8 * |front| + bitPos
  {
  }

  lemma AddStored(front: seq<byte>, container: nat, bitPos: nat, b: Bits, v: nat, w: nat)
    requires Stored(front, container, bitPos, b) && v < Pow2(w)
    ensures Stored(front, Join(container, bitPos, v), bitPos + w, Push(b, v, w))
  {
    JoinBound(container, bitPos, v, w);
    JoinJoin(LittleEndian(front), 8 * |front|, container, bitPos, v);
  }

  lemma HighPart(c: nat, k: nat, r: nat)
    requires c < Pow2(k + r)
    ensures ShiftRight(c, k) < Pow2(r)
  {
    Pow2Add(r, k);
    var q, p := ShiftRight(c, k), Pow2(k);
    assert c == q * p + c % p;
    if q >= Pow2(r) {
      Product(Pow2(r), q, p);
    }
  }

  lemma Regroup(f: nat, n: nat, low: nat, m: nat, high: nat, word: nat, more: nat, at: nat)
    requires word == Join(low, m, high) && more == Join(f, n, low) && at == n + m
    ensures Join(f, n, word) == Join(more, at, high)
  {
    JoinJoin(f, n, low, m, high);
  }

  lemma FlushNumber(front: seq<byte>, word: seq<byte>, k: nat)
    requires k <= |word|
    ensures Join(LittleEndian(front), 8 * |front|, LittleEndian(word))
         == Join(LittleEndian(front + word[..k]), 8 * (|front| + k), LittleEndian(word[k..]))
  {
    var low, high := word[..k], word[k..];
    assert word == low + high;
    LittleEndianAppend(low, high);
    LittleEndianAppend(front, low);
    Regroup(LittleEndian(front), 8 * |front|, LittleEndian(low), 8 * k, LittleEndian(high), LittleEndian(word),
            LittleEndian(front + low), 8 * (|front| + k));
  }

  lemma RestIsByte(word: seq<byte>, k: nat, w: nat)
    requires k < |word| && LittleEndian(word) < Pow2(8 * k + w) && w < 8
    ensures ShiftRight(LittleEndian(word), 8 * k) < Pow2(w)
    ensures word[k] == LittleEndian(word[k..]) == ShiftRight(LittleEndian(word), 8 * k)
  {
    LittleEndianSplit(word, k);
    HighPart(LittleEndian(word), 8 * k, w);
    SmallByte(LittleEndian(word[k..]), w);
    assert word[k..][0] == word[k];
  }

  /** Whole bytes of the container move to memory. The byte that follows them is what stays in the container. */
  lemma FlushStored(front: seq<byte>, word: seq<byte>, bitPos: nat, b: Bits, k: nat)
    requires Stored(front, LittleEndian(word), bitPos, b) && k == bitPos / 8 < |word|
    ensures Stored(front + word[..k], ShiftRight(LittleEndian(word), 8 * k), bitPos % 8, b)
    ensures word[k] == ShiftRight(LittleEndian(word), 8 * k)
  {
    assert 8 * k + bitPos % 8 == bitPos;
    RestIsByte(word, k, bitPos % 8);
    FlushNumber(front, word, k);
  }

  /** Write the register at `ptr`. Its whole bytes are `nbBytes`; what stays in it is `rest`. */
  method StoreRegister(dst: array<byte>, ptr: nat, container: nat, bitPos: nat, ghost b: Bits, ghost lost: bool)
    returns (nbBytes: nat, rest: nat)
    requires ptr + 8 <= dst.Length && bitPos < 64 && container < Pow2(bitPos)
    requires !lost ==> Stored(dst[..ptr], container, bitPos, b)
    modifies dst
    ensures nbBytes == bitPos / 8 < 8 && rest == ShiftRight(container, 8 * nbBytes) < Pow2(bitPos % 8)
    ensures !lost ==> Stored(dst[..ptr + nbBytes], rest, bitPos % 8, b)
    ensures !lost ==> dst[ptr + nbBytes] == rest
    ensures forall i :: ptr + 8 <= i < dst.Length ==> dst[i] == old(dst[i])
  {
    hide LittleEndian, Pow2, Width;
    ghost var front := dst[..ptr];
    nbBytes := bitPos / 8;
    Pow2Monotone(bitPos, 8 * 8);
    WriteWord(dst, ptr, container, 8);
    ghost var word := dst[ptr..ptr + 8];
    assert 8 * nbBytes + bitPos % 8 == bitPos;
    HighPart(container, 8 * nbBytes, bitPos % 8);
    rest := ShiftRight(container, 8 * nbBytes);
    if !lost {
      FlushStored(front, word, bitPos, b, nbBytes);
      assert front + word[..nbBytes] == dst[..ptr + nbBytes];
    }
  }

  /** The later of two positions. */
  ghost function Later(a: nat, b: nat): nat {
    if a < b then b else a
  }

  lemma OneBit()
    ensures 1 % Pow2(1) == 1
  {
  }

  lemma StoredSmall(front: seq<byte>, container: nat, bitPos: nat, b: Bits)
    requires Stored(front, container, bitPos, b) && bitPos < 8
    ensures container < 256 && (bitPos == 0 ==> container == 0)
  {
    SmallByte(container, bitPos);
  }

  /** A buffer that bit fields are written to, through a 64-bit register. The array is the memory from the start of the
      buffer on; the buffer is its first `endPtr + 8` bytes. */
  class CStream {
    const dst: array<byte>
    const endPtr: nat
    var bitContainer: nat
    var bitPos: nat
    var ptr: nat
    // The fields written so far, whether the write position was ever held back at the end of the buffer, and the end of
    // the furthest word stored.
    ghost var bits: Bits
    ghost var lost: bool
    ghost var reach: nat

    ghost predicate Valid()
      reads this, dst
    {
      && endPtr + 8 <= dst.Length && ptr <= dst.Length
      && bitPos < 64 && bitContainer < Pow2(bitPos) && Clean(bits)
      && (lost ==> ptr == endPtr && Width(bits) >= 8 * endPtr)
      && (!lost ==> Stored(dst[..ptr], bitContainer, bitPos, bits))
    }

    constructor (dst: array<byte>, capacity: nat)
      requires 8 < capacity <= dst.Length
      ensures Valid() && this.dst == dst && endPtr == capacity - 8
      ensures bits == Nothing && !lost && bitPos == 0 && ptr == 0 && reach == 0
    {
      this.dst := dst;
      endPtr := capacity - 8;
      bitContainer, bitPos, ptr := 0, 0, 0;
      bits, lost, reach := Nothing, false, 0;
      new;
      assert dst[..0] == [];
    }

    /** Append the low bits of `value`. */
    method AddBits(value: nat, nbBits: nat)
      requires Valid() && nbBits < 32 && nbBits + bitPos < 64
      modifies this
      ensures Valid() && bits == Push(old(bits), value % Pow2(nbBits), nbBits)
      ensures bitPos == old(bitPos) + nbBits && ptr == old(ptr) && lost == old(lost) && reach == old(reach)
    {
      hide Pow2, Join, LittleEndian;
      var v := value % Pow2(nbBits);
      JoinIs(bitContainer, bitPos, v);
      JoinBound(bitContainer, bitPos, v, nbBits);
      if !lost {
        AddStored(dst[..ptr], bitContainer, bitPos, bits, v, nbBits);
      }
      bitContainer := bitContainer + Pow2(bitPos) * v;
      bitPos := bitPos + nbBits;
      bits := Push(bits, v, nbBits);
    }

    /** Move whole bytes to memory, and hold the write position back at the end of the buffer, afterwards. */
    method FlushBits()
      requires Valid() && ptr + 8 <= dst.Length
      modifies this, dst
      ensures Valid() && ptr <= endPtr && bits == old(bits) && bitPos == old(bitPos) % 8
      ensures lost == (old(lost) || old(ptr) + old(bitPos) / 8 > endPtr)
      ensures !lost ==> ptr == old(ptr) + old(bitPos) / 8 && dst[ptr] == bitContainer
      ensures reach == Later(old(reach), old(ptr) + 8)
      ensures SameFrom(dst[..], old(dst[..]), reach)
    {
      hide LittleEndian, Pow2, Stored;
      if !lost {
        StoredWidth(dst[..ptr], bitContainer, bitPos, bits);
      }
      var nbBytes, rest := StoreRegister(dst, ptr, bitContainer, bitPos, bits, lost);
      reach := Later(reach, ptr + 8);
      bitContainer, bitPos := rest, bitPos % 8;
      ptr := ptr + nbBytes;
      if ptr > endPtr {
        ptr := endPtr;
        lost := true;
      }
    }

    /** The same without holding the position back. */
    method FlushBitsFast()
      requires Valid() && ptr + 8 <= dst.Length && !lost
      modifies this, dst
      ensures Valid() && bits == old(bits) && bitPos == old(bitPos) % 8 && !lost
      ensures ptr == old(ptr) + old(bitPos) / 8 && reach == Later(old(reach), old(ptr) + 8)
      ensures SameFrom(dst[..], old(dst[..]), reach)
    {
      hide LittleEndian, Pow2, Stored;
      var nbBytes, rest := StoreRegister(dst, ptr, bitContainer, bitPos, bits, lost);
      reach := Later(reach, ptr + 8);
      bitContainer, bitPos := rest, bitPos % 8;
      ptr := ptr + nbBytes;
    }

    /** The end mark is a single bit. */
    method PutMark()
      requires Valid() && bitPos + 1 < 64 && ptr <= endPtr
      modifies this, dst
      ensures Valid() && bits == Push(old(bits), 1, 1) && Clean(old(bits)) && bitPos < 8 && ptr <= endPtr
      ensures ptr == endPtr <==> (Width(old(bits)) + 1) / 8 >= endPtr
      ensures !lost ==> dst[ptr] == bitContainer
      ensures lost ==> ptr == endPtr
      ensures reach == Later(old(reach), old(ptr) + 8)
      ensures SameFrom(dst[..], old(dst[..]), reach)
    {
      hide Pow2, LittleEndian, Stored, Clean, Valid, SameFrom;
      ghost var before := dst[..];
      OneBit();
      Placed();
      AddBits(1, 1);
      assert dst[..] == before;
      FlushBits();
      Placed();
      if !lost {
        DivideIs(Width(bits), 8, ptr, bitPos);
      }
    }

    /** Where the fields are, or that they are past the end. */
    lemma Placed()
      requires Valid()
      ensures Clean(bits) && ptr <= dst.Length && endPtr + 8 <= dst.Length
      ensures !lost ==> Width(bits) == 8 * ptr + bitPos
      ensures lost ==> ptr == endPtr && Width(bits) >= 8 * endPtr
    {
    }

    /** Add the end mark. The size is 0 exactly if the fields may not have fit; otherwise the bytes written are the
        fields with the end mark on top. */
    method Close() returns (size: nat)
      requires Valid() && bitPos + 1 < 64 && ptr <= endPtr
      modifies this, dst
      ensures size == 0 <==> (Width(old(bits)) + 1) / 8 >= endPtr
      ensures size > 0 ==> size <= endPtr + 8 <= dst.Length && IsStream(dst[..size], old(bits))
      ensures reach == Later(old(reach), old(ptr) + 8)
      ensures SameFrom(dst[..], old(dst[..]), reach)
    {
      hide Pow2, LittleEndian, Stored, Clean, IsStream, Width, SameFrom;
      ghost var fields := bits;
      PutMark();
      if ptr >= endPtr {
        return 0;
      }
      size := ptr + if bitPos > 0 then 1 else 0;
      StoredSmall(dst[..ptr], bitContainer, bitPos, bits);
      Closed(dst[..ptr], bitContainer, bitPos, fields);
      assert dst[..ptr] + [dst[ptr]] == dst[..ptr + 1];
    }
  }

  /** The bytes are the fields of `b` with an end mark on top. */
  ghost predicate IsStream(s: seq<byte>, b: Bits) {
    && |s| > 0 && s[|s| - 1] != 0 && Clean(b)
    && LittleEndian(s) == Join(Number(b), Width(b), 1)
    && |s| == Width(b) / 8 + 1
  }

  lemma SmallByte(c: nat, bitPos: nat)
    requires c < Pow2(bitPos) && bitPos < 8
    ensures c < 256
  {
    OneByte(0, 0);
    Pow2Monotone(bitPos, 8);
  }

  lemma Mark(front: seq<byte>, c: byte)
    ensures LittleEndian(front + [c]) == Join(LittleEndian(front), 8 * |front|, c)
    ensures c == 0 ==> LittleEndian(front) == Join(LittleEndian(front), 8 * |front|, c)
  {
    LittleEndianAppend(front, [c]);
    assert LittleEndian([c]) == c;
    JoinZero(LittleEndian(front), 8 * |front|);
  }

  lemma Closed(front: seq<byte>, c: byte, bitPos: nat, fields: Bits)
    requires Stored(front, c, bitPos, Push(fields, 1, 1)) && Clean(fields) && bitPos < 8
    ensures IsStream(if bitPos > 0 then front + [c] else front, fields)
  {
    var s := if bitPos > 0 then front + [c] else front;
    Mark(front, c);
    assert bitPos == 0 ==> c == 0;
    JoinAtLeast(Number(fields), Width(fields), 1, 0);
    LastNonZero(s, Width(fields));
  }

  // ----- Reading -----

  datatype Status = Unfinished | EndOfBuffer | Completed | Overflow

  // The read position once a stream has overflowed: a word of zeros outside the buffer.
  const ELSEWHERE := -1

  /** The register is the 64-bit window of the stream at `ptr`. A short stream is a single window. */
  ghost predicate Window(src: seq<byte>, ptr: int, container: nat) {
    && 0 <= ptr && (if |src| >= 8 then ptr + 8 <= |src| else ptr == 0)
    && container == Field(LittleEndian(src), 8 * ptr, 64)
  }

  lemma ShortWindow(src: seq<byte>, container: nat)
    requires |src| < 8 && container == LittleEndian(src)
    ensures Window(src, 0, container)
  {
    LittleEndianBound(src);
    Pow2Monotone(8 * |src|, 64);
    Whole(container, 64);
  }

  lemma Whole(x: nat, w: nat)
    requires x < Pow2(w)
    ensures Field(x, 0, w) == x
  {
    JoinNothing(0, x);
    JoinParts(0, 0, x);
    DivideIs(x, Pow2(w), 0, x);
  }

  lemma WordWindow(src: seq<byte>, ptr: nat)
    requires ptr + 8 <= |src|
    ensures Window(src, ptr, LittleEndian(src[ptr..ptr + 8]))
  {
    LittleEndianWindow(src, ptr, 8);
  }

  /** The value of a short buffer, its bytes added from the last to the second. */
  method ReadShort(src: seq<byte>) returns (container: nat)
    requires 1 <= |src|
    ensures container == LittleEndian(src)
  {
    container := src[0];
    var i := |src| - 1;
    assert src[|src|..] == [];
    JoinZero(src[0], 8 * |src|);
    while i > 0
      invariant 0 <= i < |src|
      invariant container == Join(src[0], 8 * (i + 1), LittleEndian(src[i + 1..]))
    {
      AddByte(src, i, container);
      container := container + src[i] * Pow2(8 * i);
      i := i - 1;
    }
    OneByte(src[0], LittleEndian(src[1..]));
  }

  lemma AddByte(src: seq<byte>, i: nat, container: nat)
    requires 0 < i < |src|
    requires container == Join(src[0], 8 * (i + 1), LittleEndian(src[i + 1..]))
    ensures container + src[i] * Pow2(8 * i) == Join(src[0], 8 * i, LittleEndian(src[i..]))
  {
    var rest := LittleEndian(src[i + 1..]);
    assert src[i..][1..] == src[i + 1..];
    JoinIs(src[0], 8 * (i + 1), rest);
    JoinIs(src[0], 8 * i, LittleEndian(src[i..]));
    EightMore(i);
    AddScaled(src[i], rest, Pow2(8 * i));
  }

  lemma AddScaled(b: nat, rest: nat, p: nat)
    ensures (256 * p) * rest + b * p == p * (b + 256 * rest)
  {
  }

  /** The register at the end of the buffer. */
  method FirstWindow(buffer: seq<byte>) returns (ptr: nat, container: nat)
    requires |buffer| > 0
    ensures Window(buffer, ptr, container) && container < Pow2(64)
    ensures ptr == if |buffer| >= 8 then |buffer| - 8 else 0
  {
    if |buffer| >= 8 {
      ptr := |buffer| - 8;
      WordWindow(buffer, ptr);
      container := LittleEndian(buffer[ptr..ptr + 8]);
    } else {
      ptr := 0;
      container := ReadShort(buffer);
      ShortWindow(buffer, container);
    }
  }

  lemma ByteHighBit(b: byte)
    requires b > 0
    ensures HighBit(b) < 8
  {
    if HighBit(b) >= 8 {
      OneByte(0, 0);
      Pow2Monotone(8, HighBit(b));
    }
  }

  /** A stream read backwards from its end mark, through a 64-bit register. */
  class DStream {
    var src: seq<byte>
    var bitContainer: nat
    var bitsConsumed: nat
    var ptr: int

    ghost predicate Valid()
      reads this
    {
      bitContainer < Pow2(64) && |src| > 0
        && if ptr == ELSEWHERE then bitsConsumed > 64 else Window(src, ptr, bitContainer)
    }

    /** How many bits are left to read; negative if more were asked for than the stream has. */
    ghost function Remaining(): int
      reads this
    {
      if ptr == ELSEWHERE then -1 else 8 * ptr + 64 - bitsConsumed
    }

    /** So many bits can be read from the register at once. */
    ghost predicate Filled(need: nat)
      reads this
    {
      bitsConsumed <= 64 && need <= Remaining() ==> bitsConsumed + need <= 64
    }

    constructor ()
      ensures src == []
    {
      src, bitContainer, bitsConsumed, ptr := [], 0, 0, 0;
    }

    /** Start at the end of `buffer`, just below its end mark. */
    method Init(buffer: seq<byte>) returns (ok: bool)
      modifies this
      ensures ok <==> |buffer| > 0 && buffer[|buffer| - 1] != 0
      ensures ok ==> Valid() && src == buffer && LittleEndian(buffer) > 0
      ensures ok ==> Remaining() == HighBit(LittleEndian(buffer))
      ensures ok ==> 1 <= bitsConsumed <= 64 && (bitsConsumed <= 8 || ptr == 0)
    {
      hide Pow2;
      src := buffer;
      if |buffer| < 1 {
        return false;
      }
      var last := buffer[|buffer| - 1];
      if last != 0 {
        ByteHighBit(last);
      }
      bitsConsumed := if last == 0 then 0 else 8 - HighBit(last);
      ptr, bitContainer := FirstWindow(buffer);
      if |buffer| < 8 {
        bitsConsumed := bitsConsumed + (8 - |buffer|) * 8;
      }
      if last == 0 {
        return false;
      }
      LastByte(buffer);
      ok := true;
    }

    /** Take the next bits. They are the field just below what was taken before, if there are enough in the register. */
    method ReadBits(nbBits: nat) returns (value: nat)
      requires Valid() && nbBits < 32
      modifies this`bitsConsumed
      ensures Valid() && value < Pow2(nbBits) && bitsConsumed == old(bitsConsumed) + nbBits
      ensures ptr != ELSEWHERE && bitsConsumed <= 64 ==> value == Field(LittleEndian(src), Remaining(), nbBits)
    {
      var start := (64 - bitsConsumed - nbBits) % 64;
      value := Field(bitContainer, start, nbBits);
      if ptr != ELSEWHERE && bitsConsumed + nbBits <= 64 {
        LookField(LittleEndian(src), 8 * ptr, bitContainer, bitsConsumed, nbBits);
      }
      bitsConsumed := bitsConsumed + nbBits;
    }

    /** The same by two shifts, for at least one bit. */
    method ReadBitsFast(nbBits: nat) returns (value: nat)
      requires Valid() && 1 <= nbBits < 32
      modifies this`bitsConsumed
      ensures Valid() && value < Pow2(nbBits) && bitsConsumed == old(bitsConsumed) + nbBits
      ensures ptr != ELSEWHERE && bitsConsumed <= 64 ==> value == Field(LittleEndian(src), Remaining(), nbBits)
    {
      value := ShiftRight(ShiftLeft(bitContainer, bitsConsumed % 64, 64), 64 - nbBits);
      LookFastBound(bitContainer, bitsConsumed % 64, nbBits);
      if ptr != ELSEWHERE && bitsConsumed + nbBits <= 64 {
        LookFast(LittleEndian(src), 8 * ptr, bitContainer, bitsConsumed, nbBits);
      }
      bitsConsumed := bitsConsumed + nbBits;
    }

    /** Refill the register. What is left to read does not change, and the register then has 57 bits of it, or all. */
    method Reload() returns (status: Status)
      requires Valid()
      modifies this
      ensures Valid() && src == old(src)
      ensures status == Overflow <==> old(bitsConsumed) > 64
      ensures status == Overflow ==> bitsConsumed > 64 && ptr == ELSEWHERE
      ensures status != Overflow ==> Remaining() == old(Remaining()) >= 0 && bitsConsumed <= 64
      ensures status != Overflow ==> bitsConsumed <= 7 || ptr == 0
      ensures status == Unfinished ==> bitsConsumed <= 7
      ensures status == Completed <==> old(ptr) == 0 && old(bitsConsumed) == 64
    {
      hide Pow2, LittleEndian;
      if bitsConsumed > 64 {
        ptr := ELSEWHERE;
        return Overflow;
      }
      if ptr >= 8 {
        ptr := ptr - bitsConsumed / 8;
        bitsConsumed := bitsConsumed % 8;
        WordWindow(src, ptr);
        bitContainer := LittleEndian(src[ptr..ptr + 8]);
        return Unfinished;
      }
      if ptr == 0 {
        if bitsConsumed < 64 {
          return EndOfBuffer;
        }
        return Completed;
      }
      var nbBytes := bitsConsumed / 8;
      status := Unfinished;
      if ptr - nbBytes < 0 {
        nbBytes := ptr;
        status := EndOfBuffer;
      }
      ptr := ptr - nbBytes;
      bitsConsumed := bitsConsumed - nbBytes * 8;
      WordWindow(src, ptr);
      bitContainer := LittleEndian(src[ptr..ptr + 8]);
    }
  }

  lemma LookAt(t: nat, base: nat, container: nat, consumed: nat, w: nat)
    requires container == Field(t, base, 64) && consumed + w <= 64
    ensures Field(container, 64 - consumed - w, w) == Field(t, base + 64 - consumed - w, w)
  {
    WindowField(t, base, 64, 64 - consumed - w, w);
    assert base + (64 - consumed - w) == base + 64 - consumed - w;
  }

  lemma LookField(t: nat, base: nat, container: nat, consumed: nat, w: nat)
    requires container == Field(t, base, 64) && consumed + w <= 64
    ensures Field(container, (64 - consumed - w) % 64, w) == Field(t, base + 64 - consumed - w, w)
  {
    LookAt(t, base, container, consumed, w);
    if consumed + w == 0 {
      assert Field(container, 0, w) == 0 == Field(t, base + 64 - consumed - w, w);
    } else {
      assert (64 - consumed - w) % 64 == 64 - consumed - w;
    }
  }

  lemma LookFast(t: nat, base: nat, container: nat, consumed: nat, w: nat)
    requires container == Field(t, base, 64) && 1 <= w && consumed + w <= 64
    ensures ShiftRight(ShiftLeft(container, consumed % 64, 64), 64 - w) == Field(t, base + 64 - consumed - w, w)
  {
    LookAt(t, base, container, consumed, w);
    ShiftedField(container, 64, consumed, w);
  }

  lemma LookFastBound(x: nat, c: nat, w: nat)
    requires w <= 64
    ensures ShiftRight(ShiftLeft(x, c, 64), 64 - w) < Pow2(w)
  {
    HighPart(ShiftLeft(x, c, 64), 64 - w, w);
  }
}
