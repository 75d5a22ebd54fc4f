/** Finding matches through the hash table, for any hash function. */
module Lz4Matcher {
  import opened ByteType
  import opened Bytes
  import opened Lz4Words
  import opened Lz4Format
  import opened Lz4Context
  import opened Lz4Greedy

  /** Records position `p` under its hash. */
  method Put(ctx: Stream, j: Job, p: nat, h: nat, ghost pos: nat)
    requires j.Valid() && ctx.hashTable.Length == WORDS
    requires p + MFLIMIT <= |j.src| && h == j.HashAt(p) && p < pos && j.Table(ctx.Entries(j.t), pos)
    modifies ctx.hashTable
    ensures j.Table(ctx.Entries(j.t), pos) && ctx.Entries(j.t) == Recorded(j, old(ctx.Entries(j.t)), p)
  {
    hide Job.Usable, Stream.Entries;
    TablePut(j, ctx.Entries(j.t), pos, p);
    ctx.PutIndex(j.start + p, h, j.t);
  }

  predicate SameFour(src: seq<byte>, p: nat, q: nat)
    requires p + 4 <= |src| && q + 4 <= |src|
  {
    src[p..p + 4] == src[q..q + 4]
  }

  lemma FourBytes(src: seq<byte>, m: nat, p: nat)
    requires m < p && p + 4 <= |src|
    ensures SameFour(src, m, p) <==>
      src[m] == src[p] && src[m + 1] == src[p + 1] && src[m + 2] == src[p + 2] && src[m + 3] == src[p + 3]
  {
    var s, t := src[m..m + 4], src[p..p + 4];
    assert s == [s[0], s[1], s[2], s[3]] && t == [t[0], t[1], t[2], t[3]];
  }

  lemma AcceptedIsMatch(j: Job, e: nat, p: nat)
    requires Accepted(j, e, p)
    ensures IsMatch(j.src, p, e - j.start, MINMATCH)
  {
  }

  /** Is the index found for position `p` a match? Indices of other blocks, indices too far back, and positions
      whose bytes differ are not; all others are. */
  method Candidate(j: Job, matchIndex: nat, p: nat) returns (ok: bool)
    requires j.Valid() && p + MFLIMIT <= |j.src|
    requires exists h :: j.Usable(matchIndex, h, p)
    ensures ok <==> Accepted(j, matchIndex, p)
    ensures ok ==> j.start <= matchIndex < j.start + p && IsMatch(j.src, p, matchIndex - j.start, MINMATCH)
  {
    var current := j.start + p;
    if j.small && matchIndex < j.start {
      return false;
    }
    if j.t != ByU16 && matchIndex + DISTANCE_MAX < current {
      return false;
    }
    FourBytes(j.src, matchIndex - j.start, p);
    ok := SameFour(j.src, matchIndex - j.start, p);
    if ok {
      AcceptedIsMatch(j, matchIndex, p);
    }
  }

  lemma TableEntry(j: Job, tbl: seq<nat>, pos: nat, h: nat)
    requires j.Table(tbl, pos) && h < TableSize(j.t)
    ensures |tbl| == TableSize(j.t) && j.Usable(tbl[h], h, pos)
  {
  }

  lemma SearchStep(j: Job, tbl: seq<nat>, ip: nat, step: nat, probes: nat)
    requires |tbl| == TableSize(j.t) && 0 < step && probes >= 64
    ensures FirstMatch(j, tbl, ip, step, probes) ==
      if ip + step > j.MatchLimit() then Nothing
      else if Accepted(j, tbl[j.HashAt(ip)], ip) then At(ip, tbl[j.HashAt(ip)] - j.start, Recorded(j, tbl, ip))
      else FirstMatch(j, Recorded(j, tbl, ip), ip + step, probes / 64, probes + 1)
  {
    hide Recorded, Job.HashAt;
  }

  /** The search loop: advances by a growing step until four bytes match or the match limit is reached. What it finds,
      and whether, is what the search of the greedy parse does. */
  method FindMatch(ctx: Stream, j: Job, ip0: nat) returns (found: bool, ip: nat, m: nat)
    requires j.Valid() && ctx.hashTable.Length == WORDS
    requires 0 < ip0 <= j.MatchLimit() && j.Table(ctx.Entries(j.t), ip0)
    modifies ctx.hashTable
    ensures found ==> ip0 <= ip < j.MatchLimit() && IsMatch(j.src, ip, m, MINMATCH)
    ensures ip <= j.MatchLimit() && j.Table(ctx.Entries(j.t), ip + 1)
    ensures FirstMatch(j, old(ctx.Entries(j.t)), ip0, 1, 64 * j.acceleration) ==
      if found then At(ip, m, ctx.Entries(j.t)) else Nothing
  {
    hide Accepted, Recorded, FirstMatch, Job.Table, Job.Usable, Job.HashAt, Stream.Entries;
    ip := ip0;
    m := 0;
    var forwardIp := ip0;
    var forwardH := j.HashAt(ip0);
    var step := 1;
    var searchMatchNb := j.acceleration * 64;
    while true
      invariant ip0 <= forwardIp <= j.MatchLimit() && forwardH == j.HashAt(forwardIp)
      invariant 1 <= step && 64 <= searchMatchNb
      invariant j.Table(ctx.Entries(j.t), forwardIp)
      invariant FirstMatch(j, ctx.Entries(j.t), forwardIp, step, searchMatchNb) ==
        FirstMatch(j, old(ctx.Entries(j.t)), ip0, 1, 64 * j.acceleration)
      decreases j.MatchLimit() - forwardIp
    {
      var h := forwardH;
      TableEntry(j, ctx.Entries(j.t), forwardIp, h);
      SearchStep(j, ctx.Entries(j.t), forwardIp, step, searchMatchNb);
      var matchIndex := ctx.GetIndex(h, j.t);
      ip := forwardIp;
      forwardIp := forwardIp + step;
      step := searchMatchNb / 64;
      searchMatchNb := searchMatchNb + 1;
      if forwardIp > j.MatchLimit() {
        TableLater(j, ctx.Entries(j.t), ip, ip + 1);
        return false, ip, m;
      }
      forwardH := j.HashAt(forwardIp);
      TableLater(j, ctx.Entries(j.t), ip, ip + 1);
      Put(ctx, j, ip, h, ip + 1);
      var ok := Candidate(j, matchIndex, ip);
      if ok {
        return true, ip, matchIndex - j.start;
      }
      TableLater(j, ctx.Entries(j.t), ip + 1, forwardIp);
    }
  }

  /** Extends a match backwards over the pending literals. */
  method CatchUp(src: seq<byte>, anchor: nat, ip0: nat, m0: nat) returns (ip: nat, m: nat)
    requires anchor <= ip0 && IsMatch(src, ip0, m0, MINMATCH)
    ensures anchor <= ip <= ip0 && ip0 - ip == m0 - m && IsMatch(src, ip, m, ip0 - ip + MINMATCH)
    ensures ip == anchor || m == 0 || src[ip - 1] != src[m - 1]
    ensures ip0 - ip == Back(src, anchor, ip0, m0)
  {
    ip, m := ip0, m0;
    while ip > anchor && m > 0 && src[ip - 1] == src[m - 1]
      invariant anchor <= ip <= ip0 && ip0 - ip == m0 - m && IsMatch(src, ip, m, ip0 - ip + MINMATCH)
      invariant ip0 - ip + Back(src, anchor, ip, m) == Back(src, anchor, ip0, m0)
      decreases ip
    {
      ip, m := ip - 1, m - 1;
    }
  }

  /** In which bits the words at two places differ. */
  function Difference(src: seq<byte>, m: nat, p: nat): nat
    requires m < p && p + 8 <= |src|
  {
    Xor(LittleEndian(src[m..m + 8]), LittleEndian(src[p..p + 8]))
  }

  lemma SameBytes(src: seq<byte>, m: nat, p: nat, r: nat)
    requires m < p && p + 8 <= |src| && r <= 8 && src[m..m + 8][..r] == src[p..p + 8][..r]
    ensures forall i :: p <= i < p + r ==> src[i] == src[i - (p - m)]
  {
    forall i | p <= i < p + r ensures src[i] == src[i - (p - m)] {
      assert src[p..p + 8][..r][i - p] == src[m..m + 8][..r][i - p];
    }
  }

  lemma NoDifference(src: seq<byte>, m: nat, p: nat)
    requires m < p && p + 8 <= |src| && Difference(src, m, p) == 0
    ensures forall i :: p <= i < p + 8 ==> src[i] == src[i - (p - m)]
  {
    SameWords(src[m..m + 8], src[p..p + 8]);
    SameBytes(src, m, p, 8);
  }

  /** The number of equal leading bytes of two different words: the trailing zero bits of their difference, by 8. */
  method NbCommonBytes(val: nat, ghost src: seq<byte>, ghost m: nat, ghost p: nat) returns (r: nat)
    requires m < p && p + 8 <= |src| && val == Difference(src, m, p) != 0
    ensures r < 8
    ensures forall i :: p <= i < p + r ==> src[i] == src[i - (p - m)]
    ensures src[m + r] != src[p + r]
  {
    hide Xor, TrailingZeros, LittleEndian;
    SameWords(src[m..m + 8], src[p..p + 8]);
    CommonBytes(src[m..m + 8], src[p..p + 8]);
    r := TrailingZeros(val) / 8;
    SameBytes(src, m, p, r);
  }

  /** The common run when fewer than eight bytes remain: four, then two, then one. */
  method CountTail(src: seq<byte>, p0: nat, m0: nat, limit: nat) returns (n: nat)
    requires m0 < p0 <= limit <= |src| && limit < p0 + 8
    ensures p0 + n <= limit
    ensures forall i :: p0 <= i < p0 + n ==> src[i] == src[i - (p0 - m0)]
    ensures p0 + n == limit || src[m0 + n] != src[p0 + n]
  {
    hide SameFour;
    var pIn, pMatch := p0, m0;
    if pIn < limit - 3 {
      FourBytes(src, pMatch, pIn);
    }
    if pIn < limit - 3 && SameFour(src, pMatch, pIn) {
      pIn, pMatch := pIn + 4, pMatch + 4;
    }
    if pIn < limit - 1 && src[pMatch] == src[pIn] && src[pMatch + 1] == src[pIn + 1] {
      pIn, pMatch := pIn + 2, pMatch + 2;
    }
    if pIn < limit && src[pMatch] == src[pIn] {
      pIn := pIn + 1;
    }
    n := pIn - p0;
  }

  lemma {:induction false} RunLengthIs(src: seq<byte>, p: nat, m: nat, limit: nat, n: nat)
    requires m < p && p + n <= limit <= |src|
    requires forall i :: p <= i < p + n ==> src[i] == src[i - (p - m)]
    requires p + n == limit || src[m + n] != src[p + n]
    ensures RunLength(src, p, m, limit) == n
    decreases n
  {
    if n > 0 {
      assert src[p] == src[m];
      RunLengthIs(src, p + 1, m + 1, limit, n - 1);
    }
  }

  /** The length of the common run of bytes at `p0` and `m0`, up to `limit`, found eight bytes at a time. */
  method Count(src: seq<byte>, p0: nat, m0: nat, limit: nat) returns (n: nat)
    requires m0 < p0 <= limit <= |src|
    ensures p0 + n <= limit
    ensures forall i :: p0 <= i < p0 + n ==> src[i] == src[i - (p0 - m0)]
    ensures p0 + n == limit || src[m0 + n] != src[p0 + n]
    ensures n == RunLength(src, p0, m0, limit)
  {
    var pIn, pMatch := p0, m0;
    while pIn < limit - 7
      invariant p0 <= pIn <= limit && pIn - pMatch == p0 - m0
      invariant forall i :: p0 <= i < pIn ==> src[i] == src[i - (p0 - m0)]
    {
      var diff := Difference(src, pMatch, pIn);
      if diff != 0 {
        var same := NbCommonBytes(diff, src, pMatch, pIn);
        RunLengthIs(src, p0, m0, limit, pIn + same - p0);
        return pIn + same - p0;
      }
      NoDifference(src, pMatch, pIn);
      pIn, pMatch := pIn + 8, pMatch + 8;
    }
    var tail := CountTail(src, pIn, pMatch, limit);
    RunLengthIs(src, p0, m0, limit, pIn + tail - p0);
    return pIn + tail - p0;
  }
}
