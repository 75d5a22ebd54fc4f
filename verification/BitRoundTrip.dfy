/** Whole runs of a bit stream: whatever is written, with any flushes, is read back last in first out, with any
    refills. */
module BitRoundTrip {
  import opened ByteType
  import opened Pow2Lemmas
  import opened Bytes
  import opened BitStream

  // ----- Runs of the writer -----

  datatype Write = Put(value: nat, width: nat) | Flush

  /** No write asks more of the register than it has; whole bytes leave it only at a flush. */
  predicate Budget(ops: seq<Write>, bitPos: nat)
    decreases |ops|
  {
    if ops == [] then bitPos + 1 < 64
    else
      match ops[0]
      case Put(_, width) => width < 32 && width + bitPos < 64 && Budget(ops[1..], bitPos + width)
      case Flush => Budget(ops[1..], bitPos % 8)
  }

  /** The fields written. */
  ghost function Fields(ops: seq<Write>): Bits
    decreases |ops|
  {
    if ops == [] then Nothing
    else
      var below := Fields(ops[..|ops| - 1]);
      match ops[|ops| - 1]
      case Put(value, width) => Push(below, value % Pow2(width), width)
      case Flush => below
  }

  lemma FieldsSnoc(ops: seq<Write>, i: nat)
    requires i < |ops|
    ensures Fields(ops[..i + 1]) ==
      match ops[i]
      case Put(value, width) => Push(Fields(ops[..i]), value % Pow2(width), width)
      case Flush => Fields(ops[..i])
  {
    assert ops[..i + 1][..i] == ops[..i];
  }

  /** The values written, in order. */
  ghost function Values(ops: seq<Write>): seq<nat>
    decreases |ops|
  {
    if ops == [] then []
    else
      var before := Values(ops[..|ops| - 1]);
      match ops[|ops| - 1]
      case Put(value, width) => before + [value % Pow2(width)]
      case Flush => before
  }

  method WriteAll(bitC: CStream, ops: seq<Write>)
    requires bitC.Valid() && bitC.bits == Nothing && bitC.ptr <= bitC.endPtr && Budget(ops, bitC.bitPos)
    modifies bitC, bitC.dst
    ensures bitC.Valid() && bitC.bits == Fields(ops) && bitC.ptr <= bitC.endPtr && bitC.bitPos + 1 < 64
  {
    hide CStream.Valid, Pow2;
    var i := 0;
    assert ops[0..] == ops && ops[..0] == [];
    while i < |ops|
      invariant 0 <= i <= |ops| && bitC.Valid() && bitC.ptr <= bitC.endPtr
      invariant bitC.bits == Fields(ops[..i]) && Budget(ops[i..], bitC.bitPos)
    {
      FieldsSnoc(ops, i);
      bitC.Placed();
      assert ops[i..][1..] == ops[i + 1..];
      match ops[i] {
        case Put(value, width) => bitC.AddBits(value, width);
        case Flush => bitC.FlushBits();
      }
      i := i + 1;
    }
    assert ops[..i] == ops;
  }

  // ----- Runs of the reader -----

  datatype Read = Take(fast: bool) | Refill

  /** How many of so many bits the register holds when it has been filled: all of the last 64, or as many as there are
      up to a whole byte. */
  function Filled(bits: nat): nat {
    if bits <= 64 then bits else 57 + (bits - 1) % 8
  }

  /** And at the start, where the end mark takes a bit of it. */
  function FirstFilled(bits: nat): nat {
    if bits <= 63 then bits else 56 + bits % 8
  }

  /** No read asks for more bits than the register holds, nor for more fields than there are; the fast way is only for
      fields that are not empty. */
  ghost predicate CanRead(b: Bits, steps: seq<Read>, held: nat)
    decreases |steps|
  {
    steps == [] ||
    match steps[0]
    case Take(fast) =>
      && b.Push? && b.width < 32 && b.width <= held && (fast ==> b.width > 0)
      && CanRead(b.below, steps[1..], held - b.width)
    case Refill => CanRead(b, steps[1..], Filled(Width(b)))
  }

  ghost function Takes(steps: seq<Read>): nat
    decreases |steps|
  {
    if steps == [] then 0 else (if steps[0].Take? then 1 else 0) + Takes(steps[1..])
  }

  /** The n fields on top, the top one first. */
  ghost function Taken(b: Bits, n: nat): seq<nat> {
    if n == 0 || b.Nothing? then [] else [b.value] + Taken(b.below, n - 1)
  }

  /** What is under them. */
  ghost function Under(b: Bits, n: nat): Bits {
    if n == 0 || b.Nothing? then b else Under(b.below, n - 1)
  }

  /** The reader stands at the top of the stack, and the register holds so many more bits of it. */
  ghost predicate At(bitD: DStream, b: Bits, held: nat)
    reads bitD
  {
    && bitD.Valid() && bitD.ptr != ELSEWHERE && bitD.bitsConsumed + held == 64
    && Clean(b) && Holds(LittleEndian(bitD.src), b) && bitD.Remaining() == Width(b)
  }

  method TakeOne(bitD: DStream, width: nat, fast: bool, ghost b: Bits, ghost held: nat) returns (value: nat)
    requires At(bitD, b, held) && b.Push? && width == b.width < 32 && b.width <= held && (fast ==> width > 0)
    modifies bitD
    ensures value == b.value && At(bitD, b.below, held - b.width) && bitD.src == old(bitD.src)
  {
    hide Pow2, Holds, Number, LittleEndian;
    Pop(LittleEndian(bitD.src), b);
    if fast {
      value := bitD.ReadBitsFast(width);
    } else {
      value := bitD.ReadBits(width);
    }
  }

  /** Fill the register. */
  method Reload(bitD: DStream, ghost b: Bits, ghost held: nat)
    requires At(bitD, b, held)
    modifies bitD
    ensures At(bitD, b, Filled(Width(b))) && bitD.src == old(bitD.src)
  {
    hide Pow2, Holds, Number, LittleEndian;
    var status := bitD.Reload();
  }

  /** What has been read is what is missing from the stack. */
  ghost predicate Progress(values: seq<nat>, rest: Bits, todo: seq<Read>, held: nat, b: Bits, steps: seq<Read>) {
    && CanRead(rest, todo, held)
    && values + Taken(rest, Takes(todo)) == Taken(b, Takes(steps))
    && Under(rest, Takes(todo)) == Under(b, Takes(steps))
  }

  lemma ProgressTake(values: seq<nat>, rest: Bits, todo: seq<Read>, held: nat, b: Bits, steps: seq<Read>)
    requires Progress(values, rest, todo, held, b, steps) && todo != [] && todo[0].Take?
    ensures rest.Push? && rest.width < 32 && rest.width <= held && (todo[0].fast ==> rest.width > 0)
    ensures Progress(values + [rest.value], rest.below, todo[1..], held - rest.width, b, steps)
  {
    assert values + ([rest.value] + Taken(rest.below, Takes(todo[1..])))
        == values + [rest.value] + Taken(rest.below, Takes(todo[1..]));
  }

  lemma ProgressRefill(values: seq<nat>, rest: Bits, todo: seq<Read>, held: nat, b: Bits, steps: seq<Read>)
    requires Progress(values, rest, todo, held, b, steps) && todo != [] && todo[0].Refill?
    ensures Progress(values, rest, todo[1..], Filled(Width(rest)), b, steps)
  {
  }

  lemma ProgressDone(values: seq<nat>, rest: Bits, held: nat, b: Bits, steps: seq<Read>)
    requires Progress(values, rest, [], held, b, steps)
    ensures values == Taken(b, Takes(steps)) && rest == Under(b, Takes(steps))
  {
  }

  lemma NextWidth(widths: seq<nat>, n: nat, b: Bits)
    requires n <= |widths| && widths[n..] == Widths(b) && b.Push?
    ensures n < |widths| && widths[n] == b.width && widths[n + 1..] == Widths(b.below)
  {
    assert widths[n..][0] == widths[n] && widths[n..][1..] == widths[n + 1..];
  }

  method ReadAll(bitD: DStream, steps: seq<Read>, widths: seq<nat>, ghost b: Bits, ghost first: nat)
    returns (values: seq<nat>, ghost held: nat)
    requires At(bitD, b, first) && CanRead(b, steps, first) && widths == Widths(b)
    modifies bitD
    ensures bitD.src == old(bitD.src) && values == Taken(b, Takes(steps))
    ensures At(bitD, Under(b, Takes(steps)), held)
  {
    values, held := [], first;
    ghost var rest := b;
    var n := 0;
    assert steps[0..] == steps && widths[0..] == widths;
    assert Progress(values, rest, steps, held, b, steps);
    hide At, Progress, Widths, CanRead, Taken, Under, Takes;
    for i := 0 to |steps|
      invariant bitD.src == old(bitD.src) && At(bitD, rest, held) && Progress(values, rest, steps[i..], held, b, steps)
      invariant 0 <= n <= |widths| && widths[n..] == Widths(rest)
    {
      assert steps[i..][0] == steps[i] && steps[i..][1..] == steps[i + 1..];
      match steps[i] {
        case Take(fast) =>
          ProgressTake(values, rest, steps[i..], held, b, steps);
          NextWidth(widths, n, rest);
          var value := TakeOne(bitD, widths[n], fast, rest, held);
          values := values + [value];
          n := n + 1;
          held, rest := held - rest.width, rest.below;
        case Refill =>
          ProgressRefill(values, rest, steps[i..], held, b, steps);
          Reload(bitD, rest, held);
          held := Filled(Width(rest));
      }
    }
    assert steps[|steps|..] == [];
    ProgressDone(values, rest, held, b, steps);
  }

  /** The widths of the fields, which the reader has to know. */
  ghost function Widths(b: Bits): seq<nat> {
    if b.Nothing? then [] else [b.width] + Widths(b.below)
  }

  /** The last refill reports the end exactly when no bits are left. */
  method Finish(bitD: DStream, ghost b: Bits, ghost held: nat) returns (status: Status)
    requires At(bitD, b, held)
    modifies bitD
    ensures status != Overflow && (status == Completed <==> Width(b) == 0)
  {
    hide Holds, Clean, LittleEndian, Pow2;
    status := bitD.Reload();
  }

  // ----- Round trip -----

  method StartReading(bitD: DStream, s: seq<byte>, ghost b: Bits)
    requires IsStream(s, b)
    modifies bitD
    ensures At(bitD, b, FirstFilled(Width(b)))
  {
    hide DStream.Valid, Pow2, LittleEndian, Holds;
    EndMark(LittleEndian(s), b);
    var ok := bitD.Init(s);
    Starts(bitD, b);
  }

  /** Write, close and read. Unless the fields may not have fit, every read gives the last field not yet read, and the
      end is reported exactly when there are no bits left. */
  method RoundTrip(dst: array<byte>, ops: seq<Write>, steps: seq<Read>, widths: seq<nat>)
    returns (size: nat, values: seq<nat>, status: Status)
    requires dst.Length > 8 && Budget(ops, 0) && CanRead(Fields(ops), steps, FirstFilled(Width(Fields(ops))))
      && widths == Widths(Fields(ops))
    modifies dst
    ensures size == 0 <==> (Width(Fields(ops)) + 1) / 8 >= dst.Length - 8
    ensures size > 0 ==> values == Taken(Fields(ops), Takes(steps)) && status != Overflow
    ensures size > 0 ==> (status == Completed <==> Width(Under(Fields(ops), Takes(steps))) == 0)
  {
    hide CStream.Valid, DStream.Valid, At, Fields, Budget, CanRead, Pow2, IsStream, Taken, Under, Widths, Takes;
    var bitC := new CStream(dst, dst.Length);
    WriteAll(bitC, ops);
    size := bitC.Close();
    values, status := [], Overflow;
    if size > 0 {
      var bitD := new DStream();
      StartReading(bitD, dst[..size], Fields(ops));
      ghost var held;
      values, held := ReadAll(bitD, steps, widths, Fields(ops), FirstFilled(Width(Fields(ops))));
      status := Finish(bitD, Under(Fields(ops), Takes(steps)), held);
    }
  }

  lemma Starts(bitD: DStream, b: Bits)
    requires bitD.Valid() && bitD.Remaining() == Width(b) && 1 <= bitD.bitsConsumed <= 64
    requires bitD.bitsConsumed <= 8 || bitD.ptr == 0
    requires Clean(b) && Holds(LittleEndian(bitD.src), b)
    ensures At(bitD, b, FirstFilled(Width(b)))
  {
    hide Pow2, LittleEndian, Holds, Clean, Width;
    FirstHeld(bitD, Width(b));
  }

  lemma InTheSource(bitD: DStream)
    requires bitD.Valid() && bitD.bitsConsumed <= 64
    ensures bitD.ptr != ELSEWHERE && bitD.ptr >= 0
  {
  }

  lemma FirstHeld(bitD: DStream, bits: nat)
    requires bitD.Valid() && bitD.Remaining() == bits && 1 <= bitD.bitsConsumed <= 64
    requires bitD.bitsConsumed <= 8 || bitD.ptr == 0
    ensures bitD.bitsConsumed + FirstFilled(bits) == 64 && bitD.ptr != ELSEWHERE
  {
    hide Pow2, LittleEndian, Window, DStream.Valid;
    InTheSource(bitD);
    var c := bitD.bitsConsumed;
    if bitD.ptr > 0 {
      assert bits == 8 * (bitD.ptr + 7) + (8 - c);
    }
  }

  /** Reading all fields gives the values in the opposite order. */
  lemma {:induction false} LastInFirstOut(ops: seq<Write>, k: nat)
    requires k < |Values(ops)|
    ensures |Taken(Fields(ops), |Values(ops)|)| == |Values(ops)|
    ensures Taken(Fields(ops), |Values(ops)|)[k] == Values(ops)[|Values(ops)| - 1 - k]
    decreases |ops|
  {
    var front := ops[..|ops| - 1];
    if ops[|ops| - 1].Put? {
      if |Values(front)| > 0 {
        LastInFirstOut(front, if k > 0 then k - 1 else 0);
      }
    } else {
      LastInFirstOut(front, k);
    }
  }
}
