/** What the two LZ4 decoders return, as functions of the compressed block.
    `Safe*` follows the decision structure of the bounds-checked decoder with every copy done byte by byte;
    `Trusting*` is the simple decoder that knows the decoded size and presumes well-formed input;
    `Interpret` is the bare grammar, without capacity and without end-of-block rules. */
module Lz4DecoderSpec {
  import opened ByteType
  import opened Lz4Format

  function ReadLE16(b: seq<byte>, p: nat): nat
    requires p + 2 <= |b|
  {
    b[p] as int + 256 * b[p + 1] as int
  }

  // ----- Variable-length codes -----

  datatype Length = Length(value: nat, pos: nat) | LengthError(pos: nat)

  /** Reads length bytes up to and including the first one below 255; the position after every byte read
      must not exceed `limit`. */
  function ReadVariable(b: seq<byte>, ip: nat, limit: int): (r: Length)
    requires ip < |b| && limit < |b|
    ensures r.Length? ==> ip < r.pos <= limit
    ensures r.LengthError? ==> ip < r.pos <= |b|
    decreases |b| - ip
  {
    if ip + 1 > limit then LengthError(ip + 1)
    else if b[ip] != 255 then Length(b[ip], ip + 1)
    else
      match ReadVariable(b, ip + 1, limit)
      case Length(v, p) => Length(255 + v, p)
      case LengthError(p) => LengthError(p)
  }

  /** Reads length bytes with no limit but the end of the data. */
  function ReadLong(b: seq<byte>, ip: nat): (r: Length)
    ensures r.Length? ==> ip < r.pos <= |b|
    decreases |b| - ip
  {
    if ip >= |b| then LengthError(ip)
    else if b[ip] != 255 then Length(b[ip], ip + 1)
    else
      match ReadLong(b, ip + 1)
      case Length(v, p) => Length(255 + v, p)
      case LengthError(p) => LengthError(p)
  }

  lemma {:induction false} VariableIsLong(b: seq<byte>, ip: nat, limit: int)
    requires ip < |b| && limit < |b|
    ensures ReadLong(b, ip).Length? && ReadLong(b, ip).pos <= limit ==> ReadVariable(b, ip, limit) == ReadLong(b, ip)
    ensures ReadVariable(b, ip, limit).Length? ==> ReadLong(b, ip) == ReadVariable(b, ip, limit)
    decreases |b| - ip
  {
    if ip + 1 <= limit && b[ip] == 255 {
      VariableIsLong(b, ip + 1, limit);
    }
  }

  function AddLength(n: nat, l: Length): Length {
    match l
    case Length(v, p) => Length(n + v, p)
    case LengthError(p) => LengthError(p)
  }

  // ----- The bounds-checked decoder -----

  /** `Unspecified` marks a partial decode whose last match has offset zero: the bytes then stay what the
      destination held before. */
  datatype Outcome = Decoded(out: seq<byte>) | Malformed(pos: nat) | Unspecified

  /** The literals of a sequence: the decode ends, or `out` is produced so far and an offset follows at `ip`. */
  datatype LiteralStep = Stop(outcome: Outcome) | Literals(ip: nat, out: seq<byte>)

  /** A whole sequence: the decode ends, or goes on at the token at `ip` with `out` produced so far. */
  datatype Step = Done(outcome: Outcome) | Next(ip: nat, out: seq<byte>)

  predicate Bounded(o: Outcome, cap: nat, partial: bool) {
    (o.Decoded? ==> |o.out| <= cap) && (o.Unspecified? ==> partial)
  }

  /** The two-stage shortcut is tried for short literal runs far enough from both ends. */
  predicate InShortcut(b: seq<byte>, ip: nat, produced: nat, cap: nat)
    requires ip < |b|
  {
    b[ip] / 16 != RUN_MASK && ip + 1 < |b| - 16 && produced <= cap - 32
  }

  /** The literal length of the token at `ip`, when the shortcut is not taken. */
  function SafeLiteralLength(b: seq<byte>, ip: nat): (r: Length)
    requires ip < |b|
    ensures r.Length? ==> ip < r.pos <= |b|
  {
    if b[ip] / 16 != RUN_MASK then Length(b[ip] / 16, ip + 1)
    else if ip + 1 >= |b| - RUN_MASK then LengthError(ip + 1)
    else AddLength(RUN_MASK, ReadVariable(b, ip + 1, |b| - RUN_MASK))
  }

  /** The match length of the token at `t`, with any further length bytes at `ip`. */
  function SafeMatchLength(b: seq<byte>, t: nat, ip: nat): (r: Length)
    requires t < ip < |b|
    ensures r.Length? ==> ip <= r.pos < |b|
  {
    if b[t] % 16 != ML_MASK then Length(b[t] % 16 + MINMATCH, ip)
    else AddLength(ML_MASK + MINMATCH, ReadVariable(b, ip, |b| - LASTLITERALS + 1))
  }

  function SafeLiterals(b: seq<byte>, ip: nat, out: seq<byte>, length: nat, cap: nat, partial: bool): (r: LiteralStep)
    requires ip <= |b| && |out| <= cap
    ensures r.Stop? ==> Bounded(r.outcome, cap, partial)
    ensures r.Literals? ==> ip <= r.ip && r.ip + 2 < |b| && |r.out| <= cap && (!partial ==> |r.out| + MFLIMIT <= cap)
  {
    if |out| + length > cap - MFLIMIT || ip + length > |b| - (2 + 1 + LASTLITERALS) then
      if partial then
        var fromInput := if ip + length > |b| then |b| - ip else length;
        var n := if |out| + fromInput > cap then cap - |out| else fromInput;
        var out1 := out + b[ip..ip + n];
        if |out1| == cap || ip + n >= |b| - 2 then Stop(Decoded(out1)) else Literals(ip + n, out1)
      else if ip + length != |b| || |out| + length > cap then Stop(Malformed(ip))
      else Stop(Decoded(out + b[ip..]))
    else Literals(ip + length, out + b[ip..ip + length])
  }

  function SafeSlow(b: seq<byte>, ip: nat, out: seq<byte>, cap: nat, partial: bool): (r: LiteralStep)
    requires ip < |b| && |out| <= cap
    ensures r.Stop? ==> Bounded(r.outcome, cap, partial)
    ensures r.Literals? ==> ip < r.ip && r.ip + 2 < |b| && |r.out| <= cap && (!partial ==> |r.out| + MFLIMIT <= cap)
  {
    match SafeLiteralLength(b, ip)
    case LengthError(p) => Stop(Malformed(p))
    case Length(v, p) => SafeLiterals(b, p, out, v, cap, partial)
  }

  function SafeCopy(b: seq<byte>, ip: nat, out: seq<byte>, offset: nat, length: nat, cap: nat, partial: bool): (r: Step)
    requires ip < |b| && |out| <= cap
    ensures r.Done? ==> Bounded(r.outcome, cap, partial)
    ensures r.Next? ==> r.ip == ip && |r.out| <= cap
  {
    if offset > |out| then Done(Malformed(ip))
    else if partial && |out| + length > cap - 12 then
      var n := if length <= cap - |out| then length else cap - |out|;
      if offset == 0 && n > 0 then Done(Unspecified)
      else
        var out1 := CopyMatch(out, offset, n);
        if |out1| == cap then Done(Decoded(out1)) else Next(ip, out1)
    else if |out| + length > cap - LASTLITERALS then Done(Malformed(ip))
    else Next(ip, CopyMatch(out, offset, length))
  }

  /** The match of the token at `t`, whose offset stands at `p`. */
  function SafeMatch(b: seq<byte>, t: nat, p: nat, out: seq<byte>, cap: nat, partial: bool): (r: Step)
    requires t < p && p + 2 < |b| && |out| <= cap
    ensures r.Done? ==> Bounded(r.outcome, cap, partial)
    ensures r.Next? ==> p + 2 <= r.ip < |b| && |r.out| <= cap
  {
    match SafeMatchLength(b, t, p + 2)
    case LengthError(q) => Done(Malformed(q))
    case Length(v, q) => SafeCopy(b, q, out, ReadLE16(b, p), v, cap, partial)
  }

  /** The shortcut copies the literals, and a match that is short and does not overlap. */
  function SafeShortcut(b: seq<byte>, ip: nat, out: seq<byte>, cap: nat, partial: bool): (r: Step)
    requires ip < |b| && |out| <= cap && InShortcut(b, ip, |out|, cap)
    ensures r.Done? ==> Bounded(r.outcome, cap, partial)
    ensures r.Next? ==> ip < r.ip < |b| && |r.out| <= cap
  {
    var p := ip + 1 + b[ip] / 16;
    var out1 := out + b[ip + 1..p];
    if QuickMatch(b, ip, p, |out1|) then Next(p + 2, CopyMatch(out1, ReadLE16(b, p), b[ip] % 16 + MINMATCH))
    else SafeMatch(b, ip, p, out1, cap, partial)
  }

  predicate QuickMatch(b: seq<byte>, t: nat, p: nat, produced: nat)
    requires t < |b| && p + 2 <= |b|
  {
    b[t] % 16 != ML_MASK && 8 <= ReadLE16(b, p) <= produced
  }

  lemma ShortcutIs(b: seq<byte>, ip: nat, out: seq<byte>, cap: nat, partial: bool, p: nat, out1: seq<byte>)
    requires ip < |b| && |out| <= cap && InShortcut(b, ip, |out|, cap)
    requires p == ip + 1 + b[ip] / 16 && out1 == out + b[ip + 1..p]
    ensures SafeShortcut(b, ip, out, cap, partial) ==
            if QuickMatch(b, ip, p, |out1|) then Next(p + 2, CopyMatch(out1, ReadLE16(b, p), b[ip] % 16 + MINMATCH))
            else SafeMatch(b, ip, p, out1, cap, partial)
  {
  }

  function SafeStep(b: seq<byte>, ip: nat, out: seq<byte>, cap: nat, partial: bool): (r: Step)
    requires ip < |b| && |out| <= cap
    ensures r.Done? ==> Bounded(r.outcome, cap, partial)
    ensures r.Next? ==> ip < r.ip < |b| && |r.out| <= cap
  {
    if InShortcut(b, ip, |out|, cap) then SafeShortcut(b, ip, out, cap, partial)
    else
      match SafeSlow(b, ip, out, cap, partial)
      case Stop(o) => Done(o)
      case Literals(p, out1) => SafeMatch(b, ip, p, out1, cap, partial)
  }

  function SafeSequence(b: seq<byte>, ip: nat, out: seq<byte>, cap: nat, partial: bool): (r: Outcome)
    requires ip < |b| && |out| <= cap
    ensures Bounded(r, cap, partial)
    decreases |b| - ip
  {
    match SafeStep(b, ip, out, cap, partial)
    case Done(o) => o
    case Next(next, out1) => SafeSequence(b, next, out1, cap, partial)
  }

  function SafeDecode(b: seq<byte>, cap: nat, partial: bool): (r: Outcome)
    ensures Bounded(r, cap, partial)
  {
    if cap == 0 then
      if partial || b == [0] then Decoded([]) else Malformed(0)
    else if b == [] then Malformed(0)
    else SafeSequence(b, 0, [], cap, partial)
  }

  // ----- The bare grammar -----

  datatype Option<T> = None | Some(value: T)

  /** The literal length announced by the token at `ip`, and where the literals start. */
  function LiteralLength(b: seq<byte>, ip: nat): (r: Length)
    requires ip < |b|
    ensures r.Length? ==> ip < r.pos <= |b|
  {
    if b[ip] / 16 != RUN_MASK then Length(b[ip] / 16, ip + 1) else AddLength(RUN_MASK, ReadLong(b, ip + 1))
  }

  /** The match length announced by the token at `ip` and the bytes from `p` on. */
  function MatchLength(b: seq<byte>, ip: nat, p: nat): (r: Length)
    requires ip < |b| && p <= |b|
    ensures r.Length? ==> p <= r.pos <= |b|
  {
    if b[ip] % 16 != ML_MASK then Length(b[ip] % 16 + MINMATCH, p) else AddLength(ML_MASK + MINMATCH, ReadLong(b, p))
  }

  /** The first sequence of a block by the grammar alone: literals `b[q..p]`, and unless they exhaust the block,
      a match of `length` bytes, `offset` back, and the next token at `next`. */
  datatype Parsed = NoParse | Last(q: nat) | Match(q: nat, p: nat, offset: nat, length: nat, next: nat)

  function ParseSequence(b: seq<byte>, ip: nat): (r: Parsed)
    ensures r.Last? ==> ip < r.q <= |b|
    ensures r.Match? ==> ip < r.q <= r.p && r.p + 2 <= r.next <= |b| && MINMATCH <= r.length && r.offset <= DISTANCE_MAX
  {
    if ip >= |b| then NoParse else
    var lit := LiteralLength(b, ip);
    if lit.LengthError? || lit.pos + lit.value > |b| then NoParse else
    var p := lit.pos + lit.value;
    if p == |b| then Last(lit.pos)
    else if p + 2 > |b| then NoParse else
    var mat := MatchLength(b, ip, p + 2);
    if mat.LengthError? then NoParse
    else Match(lit.pos, p, ReadLE16(b, p), mat.value, mat.pos)
  }

  /** The meaning of a block by the grammar alone: the data ends with the literals that exhaust the block. */
  function Interpret(b: seq<byte>, ip: nat, out: seq<byte>): Option<seq<byte>>
    decreases |b| - ip
  {
    match ParseSequence(b, ip)
    case NoParse => None
    case Last(q) => Some(out + b[q..])
    case Match(q, p, offset, length, next) =>
      if offset > |out| + p - q then None
      else Interpret(b, next, CopyMatch(out + b[q..p], offset, length))
  }

  // ----- The simple decoder -----

  /** `OutOfContract`: the block runs out, or has a match of offset zero, which the simple decoder presumes
      not to happen. */
  datatype Trust = Accepted(consumed: nat, out: seq<byte>) | Rejected | OutOfContract

  datatype TrustStep = Over(trust: Trust) | Onward(ip: nat, out: seq<byte>)

  /** The match of the token at `t`, whose offset stands at `p`. */
  function TrustingMatch(b: seq<byte>, t: nat, p: nat, out: seq<byte>, size: nat): (r: TrustStep)
    requires t < p <= |b| && |out| <= size
    ensures r.Onward? ==> p < r.ip <= |b| && |r.out| <= size
  {
    if p + 2 > |b| then Over(OutOfContract) else
    var mat := MatchLength(b, t, p + 2);
    if mat.LengthError? then Over(OutOfContract) else
    var offset := ReadLE16(b, p);
    if size - |out| < mat.value || offset > |out| then Over(Rejected)
    else if offset == 0 then Over(OutOfContract)
    else if size - |out| - mat.value < LASTLITERALS then Over(Rejected)
    else Onward(mat.pos, CopyMatch(out, offset, mat.value))
  }

  /** One sequence of the simple decoder, which writes at most `size` bytes and stops when it has. */
  function TrustingStep(b: seq<byte>, ip: nat, out: seq<byte>, size: nat): (r: TrustStep)
    requires |out| <= size
    ensures r.Onward? ==> ip < r.ip <= |b| && |r.out| <= size
  {
    if ip >= |b| then Over(OutOfContract) else
    var lit := LiteralLength(b, ip);
    if lit.LengthError? then Over(OutOfContract)
    else if size - |out| < lit.value then Over(Rejected)
    else if lit.pos + lit.value > |b| then Over(OutOfContract) else
    var p := lit.pos + lit.value;
    var out1 := out + b[lit.pos..p];
    if |out1| == size then Over(Accepted(p, out1))
    else if size - |out1| < MFLIMIT then Over(Rejected)
    else TrustingMatch(b, ip, p, out1, size)
  }

  lemma TrustingStepIs(b: seq<byte>, ip: nat, out: seq<byte>, size: nat, q: nat, p: nat, out1: seq<byte>)
    requires |out| <= size && ip < q <= p <= |b| && LiteralLength(b, ip) == Length(p - q, q)
    requires out1 == out + b[q..p] && |out1| <= size
    ensures TrustingStep(b, ip, out, size) ==
            if |out1| == size then Over(Accepted(p, out1))
            else if size - |out1| < MFLIMIT then Over(Rejected)
            else TrustingMatch(b, ip, p, out1, size)
  {
  }

  function TrustingSequence(b: seq<byte>, ip: nat, out: seq<byte>, size: nat): Trust
    requires |out| <= size
    decreases |b| - ip
  {
    match TrustingStep(b, ip, out, size)
    case Over(t) => t
    case Onward(next, out1) => TrustingSequence(b, next, out1, size)
  }
}
