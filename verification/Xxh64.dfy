/** The 64-bit xxHash, computed at once or in pieces. */
module Xxh64 {
  import opened ByteType

  const PRIME64_1: bv64 := 0x9E3779B185EBCA87
  const PRIME64_2: bv64 := 0xC2B2AE3D27D4EB4F
  const PRIME64_3: bv64 := 0x165667B19E3779F9
  const PRIME64_4: bv64 := 0x85EBCA77C2B2AE63
  const PRIME64_5: bv64 := 0x27D4EB2F165667C5

  const WORD_RANGE := 0x1_0000_0000_0000_0000
  const EINVAL := 22

  // ----- Mixing -----

  function Rotl(x: bv64, r: bv64): bv64
    requires 0 < r < 64
  {
    (x << r) | (x >> (64 - r))
  }

  function Round(acc: bv64, input: bv64): bv64 {
    Rotl(acc + input * PRIME64_2, 31) * PRIME64_1
  }

  function MergeRound(acc: bv64, val: bv64): bv64 {
    (acc ^ Round(0, val)) * PRIME64_1 + PRIME64_4
  }

  function Avalanche(hash: bv64): bv64 {
    var h1 := (hash ^ (hash >> 33)) * PRIME64_2;
    var h2 := (h1 ^ (h1 >> 29)) * PRIME64_3;
    h2 ^ (h2 >> 32)
  }

  function Bits(b: byte): bv64 {
    b as bv64
  }

  function Word(s: seq<byte>): bv64
    decreases |s|
  {
    if s == [] then 0 else Bits(s[0]) | (Word(s[1..]) << 8)
  }

  function Mix8(hash: bv64, s: seq<byte>): bv64 {
    Rotl(hash ^ Round(0, Word(s)), 27) * PRIME64_1 + PRIME64_4
  }

  function Mix4(hash: bv64, s: seq<byte>): bv64 {
    Rotl(hash ^ (Word(s) * PRIME64_1), 23) * PRIME64_2 + PRIME64_3
  }

  function Mix1(hash: bv64, b: byte): bv64 {
    Rotl(hash ^ (Bits(b) * PRIME64_5), 11) * PRIME64_1
  }

  // ----- The hash of a message -----

  datatype Lanes = Lanes(v1: bv64, v2: bv64, v3: bv64, v4: bv64)

  function Seeded(seed: bv64): Lanes {
    Lanes(seed + PRIME64_1 + PRIME64_2, seed + PRIME64_2, seed, seed - PRIME64_1)
  }

  /** 32 bytes go into the lanes, 8 into each. */
  function Absorb(l: Lanes, s: seq<byte>): Lanes
    requires |s| == 32
  {
    Lanes(Round(l.v1, Word(s[0..8])), Round(l.v2, Word(s[8..16])), Round(l.v3, Word(s[16..24])),
          Round(l.v4, Word(s[24..32])))
  }

  /** As many whole blocks of 32 bytes as there are. */
  function AbsorbAll(l: Lanes, m: seq<byte>): Lanes
    decreases |m|
  {
    if |m| < 32 then l else AbsorbAll(Absorb(l, m[..32]), m[32..])
  }

  /** The bytes after the last whole block. */
  function Rest(m: seq<byte>): (rest: seq<byte>)
    ensures |rest| == |m| % 32
  {
    m[|m| - |m| % 32..]
  }

  function Sum(l: Lanes): bv64 {
    Rotl(l.v1, 1) + Rotl(l.v2, 7) + Rotl(l.v3, 12) + Rotl(l.v4, 18)
  }

  function Merge(l: Lanes): bv64 {
    MergeRound(MergeRound(MergeRound(MergeRound(Sum(l), l.v1), l.v2), l.v3), l.v4)
  }

  function MixBytes(hash: bv64, s: seq<byte>): bv64
    decreases |s|
  {
    if s == [] then hash else MixBytes(Mix1(hash, s[0]), s[1..])
  }

  function MixFour(hash: bv64, s: seq<byte>): bv64 {
    if |s| >= 4 then MixBytes(Mix4(hash, s[..4]), s[4..]) else MixBytes(hash, s)
  }

  /** The last bytes, eight, then four, then one at a time. */
  function MixRest(hash: bv64, s: seq<byte>): bv64
    decreases |s|
  {
    if |s| >= 8 then MixRest(Mix8(hash, s[..8]), s[8..]) else MixFour(hash, s)
  }

  function AddLength(h: bv64, length: nat): bv64
    requires length < WORD_RANGE
  {
    h + length as bv64
  }

  /** The lanes are merged if there was a whole block. */
  function Combine(l: Lanes, length: nat): bv64
    requires length < WORD_RANGE
  {
    AddLength(if length >= 32 then Merge(l) else l.v3 + PRIME64_5, length)
  }

  /** The hash of the whole message. */
  function Hash(seed: bv64, m: seq<byte>): bv64 {
    Avalanche(MixRest(Combine(AbsorbAll(Seeded(seed), m), |m| % WORD_RANGE), Rest(m)))
  }

  // ----- Blocks -----

  /** A message of whole blocks can be absorbed first. */
  lemma {:induction false} AbsorbAppend(l: Lanes, a: seq<byte>, b: seq<byte>)
    requires |a| % 32 == 0
    ensures AbsorbAll(l, a + b) == AbsorbAll(AbsorbAll(l, a), b)
    decreases |a|
  {
    hide Absorb;
    if a == [] {
      assert a + b == b;
    } else {
      assert (a + b)[..32] == a[..32] && (a + b)[32..] == a[32..] + b;
      AbsorbAppend(Absorb(l, a[..32]), a[32..], b);
    }
  }

  lemma Whole(m: seq<byte>)
    ensures |m[..|m| - |m| % 32]| % 32 == 0
    ensures m == m[..|m| - |m| % 32] + Rest(m)
  {
  }

  /** Only the rest of what was absorbed so far matters for what follows. */
  lemma AbsorbRest(l: Lanes, m: seq<byte>, more: seq<byte>)
    ensures AbsorbAll(l, m + more) == AbsorbAll(AbsorbAll(l, m), Rest(m) + more)
    ensures Rest(m + more) == Rest(Rest(m) + more)
  {
    hide Absorb;
    var front := m[..|m| - |m| % 32];
    Whole(m);
    AbsorbAppend(l, front, Rest(m));
    AbsorbAppend(l, front, Rest(m) + more);
    assert m + more == front + (Rest(m) + more);
    assert AbsorbAll(AbsorbAll(l, front), Rest(m)) == AbsorbAll(l, front);
  }

  lemma AbsorbShort(l: Lanes, m: seq<byte>, more: seq<byte>)
    requires |Rest(m) + more| < 32
    ensures AbsorbAll(l, m + more) == AbsorbAll(l, m) && Rest(m + more) == Rest(m) + more
  {
    hide Absorb;
    AbsorbRest(l, m, more);
  }

  // ----- Finishing -----

  lemma Cut(mem: seq<byte>, ptr: nat, len: nat, k: nat)
    requires ptr + len <= |mem| && k <= len
    ensures mem[ptr..ptr + len][..k] == mem[ptr..ptr + k]
    ensures mem[ptr..ptr + len][k..] == mem[ptr + k..ptr + k + (len - k)]
  {
  }

  method MixEights(hash: bv64, mem: seq<byte>, length: nat) returns (h: bv64, ptr: nat, len: nat)
    requires length <= |mem|
    ensures ptr + len == length && len < 8
    ensures MixFour(h, mem[ptr..ptr + len]) == MixRest(hash, mem[..length])
  {
    hide Mix8, MixFour;
    h, ptr, len := hash, 0, length;
    assert mem[0..length] == mem[..length];
    while len >= 8
      invariant ptr + len == length
      invariant MixRest(h, mem[ptr..ptr + len]) == MixRest(hash, mem[..length])
    {
      Cut(mem, ptr, len, 8);
      h := Mix8(h, mem[ptr..ptr + 8]);
      ptr := ptr + 8;
      len := len - 8;
    }
  }

  method MixOnes(hash: bv64, mem: seq<byte>, at: nat, length: nat) returns (h: bv64)
    requires at + length <= |mem|
    ensures h == MixBytes(hash, mem[at..at + length])
  {
    hide Mix1;
    var ptr, len := at, length;
    h := hash;
    while len > 0
      invariant ptr + len == at + length
      invariant MixBytes(h, mem[ptr..ptr + len]) == MixBytes(hash, mem[at..at + length])
    {
      Cut(mem, ptr, len, 1);
      assert mem[ptr..ptr + len][0] == mem[ptr];
      h := Mix1(h, mem[ptr]);
      ptr := ptr + 1;
      len := len - 1;
    }
  }

  method Finalize(hash: bv64, mem: seq<byte>, length: nat) returns (h: bv64)
    requires length % 32 <= |mem|
    ensures h == Avalanche(MixRest(hash, mem[..length % 32]))
  {
    hide Mix4, Avalanche, MixRest, MixBytes;
    var ptr, len;
    h, ptr, len := MixEights(hash, mem, length % 32);
    if len >= 4 {
      Cut(mem, ptr, len, 4);
      h := Mix4(h, mem[ptr..ptr + 4]);
      ptr := ptr + 4;
      len := len - 4;
    }
    h := MixOnes(h, mem, ptr, len);
    h := Avalanche(h);
  }

  // ----- The hash in pieces -----

  datatype Input = Null(length: nat) | At(data: seq<byte>)

  class State {
    var totalLen: nat
    var v1: bv64
    var v2: bv64
    var v3: bv64
    var v4: bv64
    const mem: array<byte>
    var memsize: nat

    /** The state after absorbing `m`: the whole blocks are in the lanes, the rest is in the buffer. What else is in the
        buffer is left open. */
    ghost predicate Holds(seed: bv64, m: seq<byte>)
      reads this, mem
    {
      && mem.Length == 32
      && totalLen == |m| % WORD_RANGE
      && memsize == |m| % 32
      && Lanes(v1, v2, v3, v4) == AbsorbAll(Seeded(seed), m)
      && mem[..memsize] == Rest(m)
    }

    constructor ()
      ensures mem.Length == 32 && fresh(mem)
    {
      mem := new byte[32];
    }

    method Reset(seed: bv64)
      requires mem.Length == 32
      modifies this, mem
      ensures Holds(seed, [])
    {
      for i := 0 to 32 {
        mem[i] := 0;
      }
      totalLen, memsize := 0, 0;
      v1, v2, v3, v4 := seed + PRIME64_1 + PRIME64_2, seed + PRIME64_2, seed, seed - PRIME64_1;
    }

    method Copy(at: nat, data: seq<byte>)
      requires at + |data| <= mem.Length
      modifies mem
      ensures mem[..at] == old(mem[..at]) && mem[at..at + |data|] == data
    {
      for i := 0 to |data|
        invariant mem[..at] == old(mem[..at]) && mem[at..at + i] == data[..i]
      {
        mem[at + i] := data[i];
        assert data[..i + 1] == data[..i] + [data[i]];
      }
    }

    method AbsorbBlock(s: seq<byte>)
      requires |s| == 32
      modifies this`v1, this`v2, this`v3, this`v4
      ensures Lanes(v1, v2, v3, v4) == Absorb(old(Lanes(v1, v2, v3, v4)), s)
    {
      hide Round;
      v1 := Round(v1, Word(s[0..8]));
      v2 := Round(v2, Word(s[8..16]));
      v3 := Round(v3, Word(s[16..24]));
      v4 := Round(v4, Word(s[24..32]));
    }

    /** Fill the buffer and absorb it. Returned is how much of the data that took. */
    method Fill(data: seq<byte>, ghost front: seq<byte>) returns (p: nat)
      requires mem.Length == 32 && 0 < memsize < 32 && memsize + |data| >= 32
      requires front == mem[..memsize]
      modifies this`v1, this`v2, this`v3, this`v4, this`memsize, mem
      ensures p == 32 - |front| && memsize == 0
      ensures Lanes(v1, v2, v3, v4) == Absorb(old(Lanes(v1, v2, v3, v4)), front + data[..p])
    {
      hide Round;
      p := 32 - memsize;
      Copy(memsize, data[..p]);
      assert mem[..] == mem[..memsize] + mem[memsize..memsize + p];
      AbsorbBlock(mem[..]);
      memsize := 0;
    }

    /** Absorb the whole blocks of the data from `start` on. */
    method AbsorbData(data: seq<byte>, start: nat) returns (p: nat)
      requires start <= |data|
      modifies this`v1, this`v2, this`v3, this`v4
      ensures start <= p <= |data| < p + 32 && (p - start) % 32 == 0
      ensures Lanes(v1, v2, v3, v4) == AbsorbAll(old(Lanes(v1, v2, v3, v4)), data[start..])
    {
      hide Absorb;
      p := start;
      ghost var first := Lanes(v1, v2, v3, v4);
      while p + 32 <= |data|
        invariant start <= p <= |data| && (p - start) % 32 == 0
        invariant AbsorbAll(Lanes(v1, v2, v3, v4), data[p..]) == AbsorbAll(first, data[start..])
      {
        assert data[p..][..32] == data[p..p + 32] && data[p..][32..] == data[p + 32..];
        AbsorbBlock(data[p..p + 32]);
        p := p + 32;
      }
    }

    method UpdateShort(data: seq<byte>)
      requires mem.Length == 32 && memsize + |data| < 32
      modifies this`memsize, mem
      ensures memsize == old(memsize) + |data| && mem[..memsize] == old(mem[..memsize]) + data
    {
      Copy(memsize, data);
      assert mem[..memsize + |data|] == mem[..memsize] + mem[memsize..memsize + |data|];
      memsize := memsize + |data|;
    }

    method UpdateLong(data: seq<byte>, ghost front: seq<byte>)
      requires mem.Length == 32 && memsize < 32 && memsize + |data| >= 32 && front == mem[..memsize]
      modifies this`v1, this`v2, this`v3, this`v4, this`memsize, mem
      ensures Lanes(v1, v2, v3, v4) == AbsorbAll(old(Lanes(v1, v2, v3, v4)), front + data)
      ensures memsize < 32 && mem[..memsize] == Rest(front + data)
    {
      hide Absorb;
      var p := 0;
      if memsize != 0 {
        p := Fill(data, front);
        assert (front + data)[..32] == front + data[..p] && (front + data)[32..] == data[p..];
      } else {
        assert front + data == data[0..];
      }
      ghost var q := p;
      p := AbsorbData(data, p);
      RestOfBlocks(front, data, q, p);
      if p < |data| {
        Copy(0, data[p..]);
        memsize := |data| - p;
      }
    }

    /** Absorb more data. After any number of calls the state is that of everything absorbed so far, at once. */
    method Update(input: Input, ghost seed: bv64, ghost m: seq<byte>) returns (r: int)
      requires Holds(seed, m)
      modifies this, mem
      ensures input.Null? ==> r == (if input.length != 0 then -EINVAL else 0) && Holds(seed, m)
      ensures input.At? ==> r == 0 && Holds(seed, m + input.data)
    {
      hide Absorb, AbsorbAll;
      if input.Null? {
        return if input.length != 0 then -EINVAL else 0;
      }
      var data := input.data;
      LengthAdds(|m|, |data|);
      totalLen := (totalLen + |data|) % WORD_RANGE;
      AbsorbRest(Seeded(seed), m, data);
      if memsize + |data| < 32 {
        AbsorbShort(Seeded(seed), m, data);
        UpdateShort(data);
        return 0;
      }
      UpdateLong(data, mem[..memsize]);
      return 0;
    }

    method CombineLanes() returns (h: bv64)
      requires totalLen < WORD_RANGE
      ensures h == Combine(Lanes(v1, v2, v3, v4), totalLen)
    {
      hide Sum, MergeRound, AddLength;
      if totalLen >= 32 {
        h := Sum(Lanes(v1, v2, v3, v4));
        h := MergeRound(h, v1);
        h := MergeRound(h, v2);
        h := MergeRound(h, v3);
        h := MergeRound(h, v4);
      } else {
        h := v3 + PRIME64_5;
      }
      h := AddLength(h, totalLen);
    }

    /** The hash of everything absorbed, whatever else the buffer holds. */
    method Digest(ghost seed: bv64, ghost m: seq<byte>) returns (h: bv64)
      requires Holds(seed, m)
      ensures h == Hash(seed, m)
    {
      hide Combine, AbsorbAll, Avalanche, MixRest;
      h := CombineLanes();
      LengthRest(|m|);
      h := Finalize(h, mem[..], totalLen);
      assert mem[..][..memsize] == mem[..memsize];
    }
  }

  lemma LengthAdds(a: nat, b: nat)
    ensures (a % WORD_RANGE + b) % WORD_RANGE == (a + b) % WORD_RANGE
  {
  }

  lemma LengthRest(a: nat)
    ensures a % WORD_RANGE % 32 == a % 32
  {
  }

  lemma RestOfBlocks(front: seq<byte>, data: seq<byte>, q: nat, p: nat)
    requires |front| < 32 && q == (if |front| == 0 then 0 else 32 - |front|)
    requires q <= p <= |data| < p + 32 && (p - q) % 32 == 0
    ensures Rest(front + data) == data[p..]
  {
    var n := |front| + |data|;
    assert (|front| + q) % 32 == 0;
    assert n % 32 == |data| - p;
  }

  /** Hash a message given at once. */
  method HashAtOnce(input: seq<byte>, seed: bv64) returns (h: bv64)
    ensures h == Hash(seed, input)
  {
    var state := new State();
    state.Reset(seed);
    var r := state.Update(At(input), seed, []);
    assert [] + input == input;
    h := state.Digest(seed, input);
  }

  ghost function Joined(chunks: seq<seq<byte>>): seq<byte> {
    if chunks == [] then [] else Joined(chunks[..|chunks| - 1]) + chunks[|chunks| - 1]
  }

  /** Hash a message given in pieces, on a state used before: however it is cut, the hash is that of the whole. */
  method HashInPieces(state: State, chunks: seq<seq<byte>>, seed: bv64) returns (h: bv64)
    requires state.mem.Length == 32
    modifies state, state.mem
    ensures h == Hash(seed, Joined(chunks))
  {
    hide Hash, State.Holds;
    state.Reset(seed);
    for i := 0 to |chunks|
      invariant state.Holds(seed, Joined(chunks[..i]))
    {
      var r := state.Update(At(chunks[i]), seed, Joined(chunks[..i]));
      assert chunks[..i + 1][..i] == chunks[..i];
    }
    assert chunks[..|chunks|] == chunks;
    h := state.Digest(seed, Joined(chunks));
  }
}
