/** The bit stream of the Huffman encoder: two registers, filled from the top, with noise below the valid bits. */
module HufStream {
  import opened ByteType
  import opened Pow2Lemmas
  import opened BitArithmetic
  import opened Bytes
  import opened BitStream

  const WORD_BITS := 64

  // ----- Or -----

  function Or(x: nat, y: nat): nat
    decreases x + y
  {
    if x == 0 && y == 0 then 0 else (if x % 2 == 1 || y % 2 == 1 then 1 else 0) + 2 * Or(x / 2, y / 2)
  }

  lemma {:induction false} OrCommutes(x: nat, y: nat)
    ensures Or(x, y) == Or(y, x)
    decreases x + y
  {
    if x != 0 || y != 0 {
      OrCommutes(x / 2, y / 2);
    }
  }

  lemma JoinBit(r: nat, k: nat, a: nat)
    requires k > 0
    ensures Join(r, k, a) == r % 2 + 2 * Join(r / 2, k - 1, a)
  {
    JoinJoin(r % 2, 1, r / 2, k - 1, a);
    OneBit(r % 2, r / 2);
    OneBit(r % 2, Join(r / 2, k - 1, a));
  }

  lemma OneBit(b: nat, high: nat)
    ensures Join(b, 1, high) == b + 2 * high
  {
    assert Join(b, 1, high) == Join(b, 0, 2 * high);
  }

  /** Or with a number of k bits changes only the low k bits. */
  lemma {:induction false} OrLow(r: nat, k: nat, a: nat, y: nat)
    requires r < Pow2(k) && y < Pow2(k)
    ensures Or(r, y) < Pow2(k)
    ensures Or(Join(r, k, a), y) == Join(Or(r, y), k, a)
    decreases k
  {
    if k == 0 {
      JoinNothing(r, a);
      OrZero(a);
    } else {
      OrLow(r / 2, k - 1, a, y / 2);
      JoinBit(r, k, a);
      var low := Or(r, y);
      OrStep(r, y);
      OrStep(Join(r, k, a), y);
      JoinBit(low, k, a);
    }
  }

  lemma {:induction false} OrZero(a: nat)
    ensures Or(a, 0) == a
    decreases a
  {
    if a > 0 {
      OrZero(a / 2);
    }
  }

  lemma OrStep(x: nat, y: nat)
    ensures Or(x, y) == (if x % 2 == 1 || y % 2 == 1 then 1 else 0) + 2 * Or(x / 2, y / 2)
  {
  }

  // ----- Code words -----

  const MAX_CODE_BITS := 12

  /** A code word: its number of bits in the low byte, its value in the high bits. */
  function MakeElt(value: nat, nbBits: nat): nat
    requires nbBits <= WORD_BITS
  {
    if nbBits > 0 then value * Pow2(WORD_BITS - nbBits) + nbBits else 0
  }

  function GetNbBits(elt: nat): nat {
    elt % 256
  }

  function GetValue(elt: nat): nat {
    elt - elt % 256
  }

  lemma WholeBytes(n: nat)
    requires n >= 8
    ensures Pow2(n) % 256 == 0 && Pow2(n) >= 256
  {
    OneByte(0, 0);
    Pow2Add(n - 8, 8);
    var q := Pow2(n - 8);
    assert Pow2(n) == q * 256;
    DivideIs(Pow2(n), 256, q, 0);
    Product(1, q, 256);
  }

  lemma MultipleOfByte(v: nat, p: nat, b: nat)
    requires p % 256 == 0 && b < 256
    ensures (v * p + b) % 256 == b
  {
    var q := p / 256;
    assert p == q * 256;
    Associate(v, q, 256);
    DivideIs(v * p + b, 256, v * q, b);
  }

  /** The parts of a code word. */
  lemma EltParts(value: nat, nbBits: nat)
    requires 0 < nbBits <= MAX_CODE_BITS && value < Pow2(nbBits)
    ensures GetNbBits(MakeElt(value, nbBits)) == nbBits
    ensures MakeElt(value, nbBits) == Join(nbBits, WORD_BITS - nbBits, value) < Pow2(WORD_BITS)
    ensures GetValue(MakeElt(value, nbBits)) == Join(0, WORD_BITS - nbBits, value)
  {
    var n := WORD_BITS - nbBits;
    WholeBytes(n);
    MultipleOfByte(value, Pow2(n), nbBits);
    JoinIs(nbBits, n, value);
    JoinIs(0, n, value);
    JoinBound(nbBits, n, value, nbBits);
    assert n + nbBits == WORD_BITS;
  }

  // ----- A register filled from the top -----

  /** The top `pos` bits are the number `c`; the noise below them keeps away from the low end only as far as `spare`
      allows. */
  ghost predicate Top(container: nat, pos: nat, c: nat, spare: nat) {
    && pos <= spare <= WORD_BITS && c < Pow2(pos)
    && container == Join(container % Pow2(WORD_BITS - pos), WORD_BITS - pos, c)
    && container % Pow2(WORD_BITS - pos) < Pow2(spare - pos)
  }

  lemma TopIs(container: nat, pos: nat, c: nat, spare: nat, noise: nat)
    requires pos <= spare <= WORD_BITS && c < Pow2(pos) && noise < Pow2(spare - pos)
    requires container == Join(noise, WORD_BITS - pos, c)
    ensures Top(container, pos, c, spare)
    ensures ShiftRight(container, WORD_BITS - pos) == c
    ensures container < Pow2(WORD_BITS)
  {
    Pow2Monotone(spare - pos, WORD_BITS - pos);
    JoinParts(noise, WORD_BITS - pos, c);
    JoinBound(noise, WORD_BITS - pos, c, pos);
    assert WORD_BITS - pos + pos == WORD_BITS;
  }

  lemma ShiftJoin(low: nat, k: nat, n: nat, high: nat)
    requires low < Pow2(k + n)
    ensures ShiftRight(Join(low, k + n, high), n) == Join(ShiftRight(low, n), k, high)
  {
    JoinAgain(low, n);
    assert n + k == k + n;
    JoinJoin(low % Pow2(n), n, ShiftRight(low, n), k, high);
    JoinParts(low % Pow2(n), n, Join(ShiftRight(low, n), k, high));
  }

  lemma OrParts(noise: nat, k: nat, c: nat, pos: nat, low: nat, v: nat)
    requires noise < Pow2(k) && low < Pow2(k) && c < Pow2(pos)
    ensures Or(Join(noise, k, c), Join(low, k + pos, v)) == Join(Or(noise, low), k, Join(c, pos, v))
    ensures Or(noise, low) < Pow2(k)
  {
    hide Or, Join;
    var s := Join(noise, k, c);
    JoinBound(noise, k, c, pos);
    Pow2Monotone(k, k + pos);
    OrCommutes(s, Join(low, k + pos, v));
    OrLow(low, k + pos, v, s);
    OrCommutes(low, s);
    OrLow(noise, k, c, low);
    JoinJoin(Or(noise, low), k, c, pos, v);
  }

  /** New bits come in at the top. The noise that comes with them stays below the valid bits, if it is small enough. */
  lemma AddTop(container: nat, pos: nat, c: nat, spare: nat, v: nat, nb: nat, low: nat)
    requires Top(container, pos, c, spare) && v < Pow2(nb) && pos + nb <= spare && low < Pow2(spare - pos - nb)
    ensures Top(Or(ShiftRight(container, nb), Join(low, WORD_BITS - nb, v)), pos + nb, Join(c, pos, v), spare)
  {
    hide Pow2;
    hide Or, Join;
    var k := WORD_BITS - pos - nb;
    var noise := container % Pow2(WORD_BITS - pos);
    assert k + nb == WORD_BITS - pos && k + pos == WORD_BITS - nb;
    ShiftJoin(noise, k, nb, c);
    assert (spare - pos - nb) + nb == spare - pos && nb + (spare - pos - nb) == spare - pos;
    HighPart(noise, nb, spare - pos - nb);
    Pow2Monotone(spare - pos - nb, k);
    OrParts(ShiftRight(noise, nb), k, c, pos, low, v);
    OrLow(ShiftRight(noise, nb), spare - pos - nb, 0, low);
    JoinBound(c, pos, v, nb);
    TopIs(Join(Or(ShiftRight(noise, nb), low), k, Join(c, pos, v)), pos + nb, Join(c, pos, v), spare,
          Or(ShiftRight(noise, nb), low));
  }

  // ----- The stream -----

  /** One stack on another. */
  ghost function Append(b: Bits, more: Bits): Bits {
    match more
    case Nothing => b
    case Push(below, value, width) => Push(Append(b, below), value, width)
  }

  lemma {:induction false} AppendIs(b: Bits, more: Bits)
    ensures Width(Append(b, more)) == Width(b) + Width(more)
    ensures Number(Append(b, more)) == Join(Number(b), Width(b), Number(more))
    ensures Clean(b) && Clean(more) ==> Clean(Append(b, more))
  {
    hide Join, Pow2;
    if more.Push? {
      AppendIs(b, more.below);
      JoinJoin(Number(b), Width(b), Number(more.below), Width(more.below), more.value);
    } else {
      JoinZero(Number(b), Width(b));
    }
  }

  lemma AppendStored(front: seq<byte>, c: nat, pos: nat, b: Bits, more: Bits)
    requires Stored(front, c, pos, b) && Clean(more)
    ensures Stored(front, Join(c, pos, Number(more)), pos + Width(more), Append(b, more))
  {
    NumberBound(more);
    AppendIs(b, more);
    JoinBound(c, pos, Number(more), Width(more));
    JoinJoin(LittleEndian(front), 8 * |front|, c, pos, Number(more));
  }

  // What the second register may hold, so that it can be merged after a flush.
  const SPARE1 := 57

  lemma PositionAdds(a: nat, b: nat)
    requires a % 256 + b % 256 < 256
    ensures (a + b) % Pow2(WORD_BITS) % 256 == a % 256 + b % 256
  {
    hide Pow2;
    WholeBytes(WORD_BITS);
    ModuloByte(a + b, Pow2(WORD_BITS));
    SmallSum(a, b);
  }

  lemma SmallSum(a: nat, b: nat)
    requires a % 256 + b % 256 < 256
    ensures (a + b) % 256 == a % 256 + b % 256
  {
  }

  lemma ModuloByte(x: nat, p: nat)
    requires p > 0 && p % 256 == 0
    ensures x % p % 256 == x % 256
  {
    var q, r := x / p, x % p;
    assert x == q * p + r;
    var m := p / 256;
    assert p == m * 256;
    Associate(q, m, 256);
    DivideIs(x, 256, q * m + r / 256, r % 256) by {
      assert r == (r / 256) * 256 + r % 256;
      Distribute(q * m, r / 256, 256);
    }
  }

  /** A register with a code word added. */
  function AddWord(container: nat, elt: nat, kFast: bool): nat {
    Or(ShiftRight(container, GetNbBits(elt)), if kFast then elt else GetValue(elt))
  }

  function Advance(bitPos: nat, more: nat): nat {
    (bitPos + more) % Pow2(WORD_BITS)
  }

  lemma WordAdded(container: nat, bitPos: nat, c: nat, spare: nat, value: nat, nb: nat, elt: nat, kFast: bool)
    requires 0 < nb <= MAX_CODE_BITS && value < Pow2(nb) && elt == MakeElt(value, nb)
    requires Top(container, bitPos % 256, c, spare) && bitPos % 256 + nb <= spare
    requires kFast ==> nb < Pow2(spare - bitPos % 256 - nb)
    ensures Advance(bitPos, elt) % 256 == bitPos % 256 + nb
    ensures Top(AddWord(container, elt, kFast), bitPos % 256 + nb, Join(c, bitPos % 256, value), spare)
  {
    hide Pow2;
    hide Top, Or;
    EltParts(value, nb);
    AddTop(container, bitPos % 256, c, spare, value, nb, if kFast then nb else 0);
    SpareFits(container, bitPos % 256, c, spare);
    PositionAdds(bitPos, elt);
  }

  lemma SpareFits(container: nat, pos: nat, c: nat, spare: nat)
    requires Top(container, pos, c, spare)
    ensures pos <= spare <= WORD_BITS
  {
  }

  /** A register with another one added, whose noise is small. */
  function Merged(container0: nat, container1: nat, pos1: nat): nat {
    Or(ShiftRight(container0, pos1), container1)
  }

  lemma RegistersMerged(container0: nat, bitPos0: nat, c0: nat, container1: nat, bitPos1: nat, c1: nat)
    requires Top(container0, bitPos0 % 256, c0, WORD_BITS) && bitPos0 % 256 <= 7
    requires Top(container1, bitPos1 % 256, c1, SPARE1)
    ensures Advance(bitPos0, bitPos1) % 256 == bitPos0 % 256 + bitPos1 % 256 <= WORD_BITS
    ensures Top(Merged(container0, container1, bitPos1 % 256), bitPos0 % 256 + bitPos1 % 256,
                Join(c0, bitPos0 % 256, c1), WORD_BITS)
  {
    hide Top, Or;
    var pos1 := bitPos1 % 256;
    SecondIs(container1, pos1, c1, bitPos0 % 256);
    AddTop(container0, bitPos0 % 256, c0, WORD_BITS, c1, pos1, container1 % Pow2(WORD_BITS - pos1));
    PositionAdds(bitPos0, bitPos1);
  }

  lemma LowBitsOf(x: nat)
    ensures x % 8 % 256 == x % 8 == x % 256 % 8
  {
  }

  lemma EmptyRegister(spare: nat)
    requires spare <= WORD_BITS
    ensures Top(0, 0, 0, spare)
    ensures Stored([], 0, 0, Nothing)
  {
    JoinZero(0, WORD_BITS);
    JoinZero(0, 0);
    TopIs(0, 0, 0, spare, 0);
  }

  lemma TopValue(container: nat, pos: nat, c: nat, spare: nat)
    requires Top(container, pos, c, spare)
    ensures ShiftRight(container, WORD_BITS - pos) == c && c < Pow2(pos)
  {
    TopIs(container, pos, c, spare, container % Pow2(WORD_BITS - pos));
  }

  /** The noise of the second register stays below the bits of the first. */
  lemma SecondIs(container: nat, pos1: nat, c1: nat, pos0: nat)
    requires Top(container, pos1, c1, SPARE1) && pos0 <= 7
    ensures container == Join(container % Pow2(WORD_BITS - pos1), WORD_BITS - pos1, c1) && c1 < Pow2(pos1)
    ensures pos0 + pos1 <= WORD_BITS
    ensures container % Pow2(WORD_BITS - pos1) < Pow2(WORD_BITS - pos0 - pos1)
  {
    Pow2Monotone(SPARE1 - pos1, WORD_BITS - pos0 - pos1);
  }

  /** The later bits are at the top already. */
  lemma KeepTop(container: nat, pos: nat, c: nat, drop: nat)
    requires Top(container, pos, c, WORD_BITS) && drop <= pos
    ensures Top(container, pos - drop, ShiftRight(c, drop), WORD_BITS)
  {
    hide Join;
    var noise := container % Pow2(WORD_BITS - pos);
    JoinAgain(c, drop);
    JoinJoin(noise, WORD_BITS - pos, c % Pow2(drop), drop, ShiftRight(c, drop));
    JoinBound(noise, WORD_BITS - pos, c % Pow2(drop), drop);
    assert drop + (pos - drop) == pos && WORD_BITS - pos + drop == WORD_BITS - (pos - drop);
    HighPart(c, drop, pos - drop);
    TopIs(container, pos - drop, ShiftRight(c, drop), WORD_BITS, Join(noise, WORD_BITS - pos, c % Pow2(drop)));
  }

  /** A buffer that code words are written to, through two registers. The upper bits of both positions are noise. */
  class HufCStream {
    const dst: array<byte>
    const endPtr: nat
    var bitContainer0: nat
    var bitContainer1: nat
    var bitPos0: nat
    var bitPos1: nat
    var ptr: nat
    // The fields in memory and in the first register, those in the second, and whether the write position was ever held
    // back at the end of the buffer.
    ghost var bits: Bits
    ghost var bits1: Bits
    ghost var c0: nat
    ghost var lost: bool

    ghost function Pos0(): nat
      reads this
    {
      bitPos0 % 256
    }

    ghost function Pos1(): nat
      reads this
    {
      bitPos1 % 256
    }

    ghost predicate Valid()
      reads this, dst
    {
      && endPtr + 8 == dst.Length && ptr <= dst.Length && Clean(bits)
      && Top(bitContainer0, Pos0(), c0, WORD_BITS)
      && (lost ==> ptr == endPtr && Width(bits) >= 8 * endPtr)
      && (!lost ==> Stored(dst[..ptr], c0, Pos0(), bits))
    }

    /** The second register holds `bits1`. */
    ghost predicate Second()
      reads this
    {
      Clean(bits1) && Width(bits1) == Pos1() && Top(bitContainer1, Pos1(), Number(bits1), SPARE1)
    }

    constructor (dst: array<byte>)
      requires dst.Length > 8
      ensures Valid() && this.dst == dst && endPtr == dst.Length - 8
      ensures bits == Nothing && !lost && Pos0() == 0 && ptr == 0
    {
      this.dst := dst;
      endPtr := dst.Length - 8;
      bitContainer0, bitContainer1, bitPos0, bitPos1, ptr := 0, 0, 0, 0, 0;
      bits, bits1, c0, lost := Nothing, Nothing, 0, false;
      new;
      assert dst[..0] == [];
      EmptyRegister(WORD_BITS);
    }

    /** A code word goes to the first register. In the fast way its low byte goes along, as noise. */
    method AddBits0(elt: nat, kFast: bool, ghost value: nat, ghost nb: nat)
      requires Valid() && 0 < nb <= MAX_CODE_BITS && value < Pow2(nb) && elt == MakeElt(value, nb)
      requires Pos0() + nb <= WORD_BITS && (kFast ==> nb < Pow2(WORD_BITS - Pos0() - nb))
      modifies this`bitContainer0, this`bitPos0, this`bits, this`c0
      ensures Valid() && bits == Push(old(bits), value, nb) && Pos0() == old(Pos0()) + nb
    {
      hide Top, Stored, AddWord, Advance, MakeElt;
      WordAdded(bitContainer0, bitPos0, c0, WORD_BITS, value, nb, elt, kFast);
      if !lost {
        AddStored(dst[..ptr], c0, Pos0(), bits, value, nb);
      }
      c0 := Join(c0, Pos0(), value);
      bitContainer0 := AddWord(bitContainer0, elt, kFast);
      bitPos0 := Advance(bitPos0, elt);
      bits := Push(bits, value, nb);
    }

    /** The same for the second register. */
    method AddBits1(elt: nat, kFast: bool, ghost value: nat, ghost nb: nat)
      requires Second() && 0 < nb <= MAX_CODE_BITS && value < Pow2(nb) && elt == MakeElt(value, nb)
      requires Pos1() + nb <= SPARE1 && (kFast ==> nb < Pow2(SPARE1 - Pos1() - nb))
      modifies this`bitContainer1, this`bitPos1, this`bits1
      ensures Second() && bits1 == Push(old(bits1), value, nb) && Pos1() == old(Pos1()) + nb
    {
      hide Top, AddWord, Advance, MakeElt;
      WordAdded(bitContainer1, bitPos1, Number(bits1), SPARE1, value, nb, elt, kFast);
      bitContainer1 := AddWord(bitContainer1, elt, kFast);
      bitPos1 := Advance(bitPos1, elt);
      bits1 := Push(bits1, value, nb);
    }

    method ZeroIndex1()
      modifies this`bitContainer1, this`bitPos1, this`bits1
      ensures Second() && bits1 == Nothing && Pos1() == 0
    {
      bitContainer1 := 0;
      bitPos1 := 0;
      bits1 := Nothing;
      EmptyRegister(SPARE1);
    }

    /** Put the bits of the second register on those of the first. */
    method MergeIndex1()
      requires Valid() && Second() && Pos0() <= 7
      modifies this`bitContainer0, this`bitPos0, this`bits, this`c0
      ensures Valid() && bits == Append(old(bits), bits1) && Pos0() == old(Pos0()) + Pos1()
    {
      hide Top, Stored, Merged, Advance, Join, Pow2, Width, Number, Append;
      RegistersMerged(bitContainer0, bitPos0, c0, bitContainer1, bitPos1, Number(bits1));
      AppendIs(bits, bits1);
      if !lost {
        AppendStored(dst[..ptr], c0, bitPos0 % 256, bits, bits1);
      }
      c0 := Join(c0, bitPos0 % 256, Number(bits1));
      bitContainer0 := Merged(bitContainer0, bitContainer1, bitPos1 % 256);
      bitPos0 := Advance(bitPos0, bitPos1);
      bits := Append(bits, bits1);
    }

    /** Move whole bytes to memory. The bits that stay are at the top already. */
    method FlushBits(kFast: bool)
      requires Valid() && ptr <= endPtr && Pos0() <= WORD_BITS && (kFast ==> !lost)
      requires Pos0() < WORD_BITS
      modifies this`bitPos0, this`ptr, this`lost, this`c0, dst
      ensures Valid() && Pos0() == old(Pos0()) % 8 && (!kFast ==> ptr <= endPtr)
      ensures lost == (old(lost) || (!kFast && old(ptr) + old(Pos0()) / 8 > endPtr))
      ensures !lost ==> ptr == old(ptr) + old(Pos0()) / 8 && dst[ptr] == c0
    {
      hide Top, Stored, Join, Pow2;
      LowBitsOf(bitPos0);
      if !lost {
        StoredWidth(dst[..ptr], c0, Pos0(), bits);
      }
      var nbBits := bitPos0 % 256;
      TopValue(bitContainer0, nbBits, c0, WORD_BITS);
      var bitContainer := ShiftRight(bitContainer0, WORD_BITS - nbBits);
      bitPos0 := bitPos0 % 8;
      var nbBytes, rest := StoreRegister(dst, ptr, bitContainer, nbBits, bits, lost);
      KeepTop(bitContainer0, nbBits, c0, 8 * nbBytes);
      c0 := ShiftRight(c0, 8 * nbBytes);
      ptr := ptr + nbBytes;
      if !kFast && ptr > endPtr {
        ptr := endPtr;
        lost := true;
      }
    }
  }
}
