/** What the compressor finds in its input: the sequences of the greedy parse, as a function of the input, the hash
    function and what is in the table. Nothing is said here of how they are found, counted or written. */
module Lz4Greedy {
  import opened ByteType
  import opened Lz4Format
  import opened Lz4Context

  datatype Directive = NotLimited | LimitedOutput | FillOutput

  /** What stays fixed while one block is compressed. `start` is the index of the block's first byte, `small` says
      that indices below it must be ignored, `olimit` is the room for output, and `acceleration` how fast the search
      gives up. */
  datatype Job = Job(src: seq<byte>, hash: seq<byte> -> nat, t: TableType, start: nat, small: bool,
                     directive: Directive, olimit: nat, acceleration: nat)
  {
    /** Index widths: every index stored for this block fits its table, and offsets fit 16 bits. */
    ghost predicate Valid() {
      && t != ClearedTable && 1 <= acceleration
      && 0 < |src| <= MAX_INPUT_SIZE
      && (t == ByU16 ==> start + |src| <= 65546 && (start == 0 || small))
      && (directive == FillOutput ==> start == 0)
      && (t == ByU32 ==> start + |src| < 2 * GB - 1)
    }

    /** A match may start at any position before this one. */
    function MatchLimit(): int {
      |src| - MFLIMIT + 1
    }

    /** The hash of the bytes at `p`: four of them for the 16-bit table, eight for the 32-bit one. */
    function HashAt(p: nat): (h: nat)
      requires p + 8 <= |src|
      ensures h < TableSize(t)
    {
      hash(src[p..p + (if t == ByU16 then 4 else 8)]) % TableSize(t)
    }

    /** A stored index is usable: it lies before position `pos`; if it belongs to this block it is stored under the
        hash of its own position, and if it does not it cannot be taken for a match. */
    ghost predicate Usable(e: nat, h: nat, pos: nat) {
      && e < start + pos
      && (e >= start && e > 0 ==> e - start + 8 <= |src| && HashAt(e - start) == h)
      && (e < start && t == ByU32 ==> e + 64 * KB < start)
    }

    ghost predicate Table(tbl: seq<nat>, pos: nat) {
      && |tbl| == TableSize(t)
      && forall h :: 0 <= h < |tbl| ==> Usable(tbl[h], h, pos)
    }
  }

  lemma PreparedTable(j: Job, tbl: seq<nat>)
    requires |tbl| == TableSize(j.t) && Prepared(tbl, j.t, j.start)
    ensures j.Table(tbl, 1)
  {
  }

  lemma TableLater(j: Job, tbl: seq<nat>, pos: nat, later: nat)
    requires j.Table(tbl, pos) && pos <= later
    ensures j.Table(tbl, later)
  {
    forall h | 0 <= h < |tbl| ensures j.Usable(tbl[h], h, later) {
      assert j.Usable(tbl[h], h, pos);
    }
  }

  lemma TablePut(j: Job, tbl: seq<nat>, pos: nat, p: nat)
    requires j.Table(tbl, pos) && p < pos && p + 8 <= |j.src|
    ensures j.Table(tbl[j.HashAt(p) := j.start + p], pos)
  {
    var now := tbl[j.HashAt(p) := j.start + p];
    forall h | 0 <= h < |now| ensures j.Usable(now[h], h, pos) {
      assert j.Usable(tbl[h], h, pos);
    }
  }

  /** A match for the bytes at `ip`. */
  ghost predicate IsMatch(src: seq<byte>, ip: nat, m: nat, n: nat) {
    && m < ip && ip - m <= DISTANCE_MAX && ip + n <= |src|
    && forall i :: ip <= i < ip + n ==> src[i] == src[i - (ip - m)]
  }

  // ----- The parts of a step -----

  /** An index of the table is good for a match at `p`: it is one of this block, near enough, and four bytes are
      equal. */
  ghost predicate Accepted(j: Job, e: nat, p: nat) {
    && j.start <= e < j.start + p && p - (e - j.start) <= DISTANCE_MAX && p + 4 <= |j.src|
    && j.src[p] == j.src[e - j.start] && j.src[p + 1] == j.src[e - j.start + 1]
    && j.src[p + 2] == j.src[e - j.start + 2] && j.src[p + 3] == j.src[e - j.start + 3]
  }

  /** The table with a position recorded under its hash. */
  ghost function Recorded(j: Job, tbl: seq<nat>, p: nat): (r: seq<nat>)
    requires |tbl| == TableSize(j.t) && p + 8 <= |j.src|
    ensures |r| == |tbl|
  {
    tbl[j.HashAt(p) := j.start + p]
  }

  /** The table after the entries for positions `p` to `last` are cleared. */
  ghost function Cleared(j: Job, tbl: seq<nat>, p: nat, last: nat): (r: seq<nat>)
    requires |tbl| == TableSize(j.t) && last + 8 <= |j.src|
    ensures |r| == |tbl|
    decreases last + 1 - p
  {
    if p > last then tbl else Cleared(j, tbl[j.HashAt(p) := 0], p + 1, last)
  }

  datatype Found = Nothing | At(ip: nat, m: nat, tbl: seq<nat>)

  /** The search from `ip` on. The step to the next probe is one at first, and one more after every 64 probes, or sooner
      with acceleration; it ends before the last bytes. */
  ghost function FirstMatch(j: Job, tbl: seq<nat>, ip: nat, step: nat, probes: nat): (r: Found)
    requires |tbl| == TableSize(j.t) && 0 < step && probes >= 64
    ensures r.At? ==> ip <= r.ip && r.ip < j.MatchLimit() && r.m < r.ip && |r.tbl| == |tbl|
    decreases |j.src| - ip
  {
    if ip + step > j.MatchLimit() then Nothing
    else
      var e := tbl[j.HashAt(ip)];
      if Accepted(j, e, ip) then At(ip, e - j.start, Recorded(j, tbl, ip))
      else FirstMatch(j, Recorded(j, tbl, ip), ip + step, probes / 64, probes + 1)
  }

  /** By how many bytes a match can be extended backwards. */
  ghost function Back(src: seq<byte>, anchor: nat, ip: nat, m: nat): (k: nat)
    requires anchor <= ip <= |src| && m < ip
    ensures k <= ip - anchor && k <= m
    decreases ip
  {
    if ip > anchor && m > 0 && src[ip - 1] == src[m - 1] then 1 + Back(src, anchor, ip - 1, m - 1) else 0
  }

  /** How many bytes are equal from `p` and `m` on, before `limit`. */
  ghost function RunLength(src: seq<byte>, p: nat, m: nat, limit: int): (n: nat)
    requires m < p && limit <= |src|
    ensures n == 0 || p + n <= limit
    decreases limit - p
  {
    if p < limit && src[p] == src[m] then 1 + RunLength(src, p + 1, m + 1, limit) else 0
  }

  // ----- Sizes -----

  /** The number of length bytes for a length code. */
  function ExtraLength(code: nat): nat {
    if code >= 15 then (code - 15) / 255 + 1 else 0
  }

  function SizeOf(s: Sequence): nat {
    1 + ExtraLength(|s.literals|) + |s.literals| + 2 + ExtraLength(s.code)
  }

  ghost function SizeOfAll(seqs: Sequences): nat {
    match seqs
    case Empty => 0
    case Then(front, s) => SizeOfAll(front) + SizeOf(s)
  }

  /** How much output a token and its literals take, after those sequences. */
  ghost function UpToMatch(seqs: Sequences, lits: nat): nat {
    SizeOfAll(seqs) + 1 + ExtraLength(lits) + lits
  }

  /** Output that is to be filled is full: after so many bytes there is no room for an offset and what the shortest
      match must leave, a token and eight literals. */
  ghost predicate NoMatchFits(j: Job, op: nat) {
    j.directive == FillOutput && op + 2 + 1 + 8 > j.olimit
  }

  /** A match whose length bytes leave no room for the last literals is shortened to fill the output: so many length
      bytes of 255, and a last one of 254. */
  ghost function Fitted(j: Job, op: nat, whole: nat): nat
    requires !NoMatchFits(j, op)
  {
    if j.directive == FillOutput && op + 2 + ExtraLength(whole) + 1 + LASTLITERALS > j.olimit
    then 14 + (j.olimit - op - 2 - 1 - LASTLITERALS) * 255
    else whole
  }

  // ----- The parse -----

  /** The sequences of a block, and where its last literals start. */
  datatype Parse = Parse(seqs: Sequences, anchor: nat)

  /** The length code of the match at `ip`. */
  ghost function CodeAt(j: Job, ip: nat, m: nat): (code: nat)
    requires m < ip
    ensures code == 0 || ip + MINMATCH + code + LASTLITERALS <= |j.src|
  {
    RunLength(j.src, ip + MINMATCH, m + MINMATCH, |j.src| - LASTLITERALS)
  }

  /** From a search at `ip` on, with the literals from `anchor`. */
  ghost function GreedyFrom(j: Job, tbl: seq<nat>, seqs: Sequences, anchor: nat, ip: nat): Parse
    requires |tbl| == TableSize(j.t) && j.acceleration >= 1 && anchor <= ip <= |j.src|
    decreases |j.src| - anchor, 1
  {
    match FirstMatch(j, tbl, ip, 1, 64 * j.acceleration)
    case Nothing => Parse(seqs, anchor)
    case At(p, m, tbl1) =>
      var k := Back(j.src, anchor, p, m);
      GreedyMatch(j, tbl1, seqs, anchor, p - k, m - k, p)
  }

  /** From a match at `ip` on: it is as long as it can be, or as fits, if the output is to be filled; then positions
      up to `filled` that it does not cover are cleared. If no match fits, or near the end, the rest are literals;
      else the last position but one of the match and the one after it are recorded, and if that is good for a match,
      it is the next one. */
  ghost function GreedyMatch(j: Job, tbl: seq<nat>, seqs: Sequences, anchor: nat, ip: nat, m: nat, filled: nat): Parse
    requires |tbl| == TableSize(j.t) && j.acceleration >= 1 && anchor <= ip && m < ip < j.MatchLimit()
    requires filled < j.MatchLimit()
    decreases |j.src| - anchor, 0
  {
    var op := UpToMatch(seqs, ip - anchor);
    if NoMatchFits(j, op) then Parse(seqs, anchor)
    else
      var whole := CodeAt(j, ip, m);
      var code := Fitted(j, op, whole);
      var all, next := Then(seqs, Sequence(j.src[anchor..ip], ip - m, code)), ip + MINMATCH + code;
      if next >= j.MatchLimit() then Parse(all, next)
      else
        var tbl1 := Recorded(j, Cleared(j, tbl, next, filled), next - 2);
        var e := tbl1[j.HashAt(next)];
        if Accepted(j, e, next) then GreedyMatch(j, Recorded(j, tbl1, next), all, next, next, e - j.start, filled)
        else GreedyFrom(j, Recorded(j, tbl1, next), all, next, next + 1)
  }

  /** The parse of a block, with the table as it is at its start. The first position is recorded, the search starts with
      the second; short inputs are not searched. */
  ghost function Greedy(j: Job, tbl: seq<nat>): Parse
    requires |tbl| == TableSize(j.t) && j.acceleration >= 1
  {
    if |j.src| < MFLIMIT + 1 then Parse(Empty, 0) else GreedyFrom(j, Recorded(j, tbl, 0), Empty, 0, 1)
  }
}
