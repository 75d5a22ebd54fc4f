/** The published hashes of a few messages: empty, shorter than a word, of one word, and of two whole blocks, two words,
    four bytes and three more. */
module Xxh64Values {
  import opened ByteType
  import opened Xxh64

  /** The letters from a to i, over and over. */
  function Letters(n: nat): seq<byte> {
    seq(n, i requires 0 <= i => 97 + i % 9)
  }

  lemma LetterBits()
    ensures Bits(97) == 97 && Bits(98) == 98 && Bits(99) == 99 && Bits(100) == 100 && Bits(101) == 101
    ensures Bits(102) == 102 && Bits(103) == 103 && Bits(104) == 104 && Bits(105) == 105
  {
  }

  // ----- Words -----

  lemma WordStep(s: seq<byte>)
    requires s != []
    ensures Word(s) == Bits(s[0]) | (Word(s[1..]) << 8)
  {
  }

  lemma NoWord()
    ensures Word([]) == 0
  {
  }

  /** Four bytes, the first one lowest, below those that follow. */
  function Four(a: byte, b: byte, c: byte, d: byte, high: bv64): bv64 {
    Bits(a) | ((Bits(b) | ((Bits(c) | ((Bits(d) | (high << 8)) << 8)) << 8)) << 8)
  }

  lemma WordOfFour(s: seq<byte>)
    requires |s| >= 4
    ensures Word(s) == Four(s[0], s[1], s[2], s[3], Word(s[4..]))
  {
    hide Word, Bits;
    WordStep(s);
    WordStep(s[1..]);
    WordStep(s[2..]);
    WordStep(s[3..]);
    assert s[1..][1..] == s[2..] && s[2..][1..] == s[3..] && s[3..][1..] == s[4..];
  }

  lemma WordOfEight(s: seq<byte>)
    requires |s| == 8
    ensures Word(s) == Four(s[0], s[1], s[2], s[3], Four(s[4], s[5], s[6], s[7], 0))
  {
    hide Word, Four;
    WordOfFour(s);
    WordOfFour(s[4..]);
    assert s[4..][4..] == [];
    NoWord();
  }

  /** The word that starts with the letter a + k. */
  function Letter8(k: nat): bv64
    requires k < 9
  {
    if k == 0 then 0x6867666564636261
    else if k == 1 then 0x6968676665646362
    else if k == 2 then 0x6169686766656463
    else if k == 3 then 0x6261696867666564
    else if k == 4 then 0x6362616968676665
    else if k == 5 then 0x6463626169686766
    else if k == 6 then 0x6564636261696867
    else if k == 7 then 0x6665646362616968
    else 0x6766656463626169
  }

  predicate From(k: nat, s: seq<byte>) {
    forall i :: 0 <= i < |s| ==> s[i] == 97 + (k + i) % 9
  }

  lemma FirstWords(k: nat, s: seq<byte>)
    requires k < 3 && |s| == 8 && From(k, s)
    ensures Word(s) == Letter8(k)
  {
    LetterBits();
    hide Bits, Word;
    WordOfEight(s);
  }

  lemma MiddleWords(k: nat, s: seq<byte>)
    requires 3 <= k < 6 && |s| == 8 && From(k, s)
    ensures Word(s) == Letter8(k)
  {
    LetterBits();
    hide Bits, Word;
    WordOfEight(s);
  }

  lemma LastWords(k: nat, s: seq<byte>)
    requires 6 <= k < 9 && |s| == 8 && From(k, s)
    ensures Word(s) == Letter8(k)
  {
    LetterBits();
    hide Bits, Word;
    WordOfEight(s);
  }

  lemma WordIs(k: nat, s: seq<byte>)
    requires k < 9 && |s| == 8 && From(k, s)
    ensures Word(s) == Letter8(k)
  {
    hide Word, Letter8, From;
    if k < 3 {
      FirstWords(k, s);
    } else if k < 6 {
      MiddleWords(k, s);
    } else {
      LastWords(k, s);
    }
  }

  lemma FourLetters(k: nat, s: seq<byte>)
    requires (k == 0 || k == 8) && |s| == 4 && From(k, s)
    ensures Word(s) == if k == 0 then 0x64636261 else 0x63626169
  {
    LetterBits();
    hide Bits, Word;
    WordOfFour(s);
    assert s[4..] == [];
    NoWord();
  }

  lemma FromSlice(k: nat, s: seq<byte>, i: nat, j: nat)
    requires From(k, s) && i <= j <= |s|
    ensures From((k + i) % 9, s[i..j])
  {
    forall q | 0 <= q < j - i ensures s[i..j][q] == 97 + ((k + i) % 9 + q) % 9 {
      assert s[i..j][q] == s[i + q];
    }
  }

  // ----- Two blocks, two words, four bytes and three -----

  const SEED: bv64 := 0x9E3779B1

  const LANES0: Lanes := Lanes(0x60EA27EF4BF82F87, 0xC2B2AE3DC60C6500,
                                0x000000009E3779B1, 0x61C8864F184BAF2A)
  const LANES1: Lanes := Lanes(0x14010771A04B39B5, 0xCA3E03F5FDFC523C,
                                0xF512FE6DD594EF32, 0x96B026A9779A8166)
  const LANES2: Lanes := Lanes(0x9BEE1B7C913400BC, 0xE2A8F002CFA2D3A9,
                                0xA4875F3AD490D537, 0x16DEF35E575AC373)

  lemma Starts()
    ensures Seeded(SEED) == LANES0
  {
  }

  /** A block whose first word starts with the letter a + k. */
  lemma BlockWords(k: nat, s: seq<byte>, l: Lanes)
    requires k < 9 && |s| == 32 && From(k, s)
    ensures Absorb(l, s) ==
      Lanes(Round(l.v1, Letter8(k)), Round(l.v2, Letter8((k + 8) % 9)), Round(l.v3, Letter8((k + 7) % 9)),
            Round(l.v4, Letter8((k + 6) % 9)))
  {
    hide Word, Letter8, Round, From;
    FromSlice(k, s, 0, 8);
    FromSlice(k, s, 8, 16);
    FromSlice(k, s, 16, 24);
    FromSlice(k, s, 24, 32);
    WordIs(k, s[0..8]);
    WordIs((k + 8) % 9, s[8..16]);
    WordIs((k + 7) % 9, s[16..24]);
    WordIs((k + 6) % 9, s[24..32]);
  }

  lemma FirstRounds()
    ensures Round(LANES0.v1, Letter8(0)) == LANES1.v1 && Round(LANES0.v2, Letter8(8)) == LANES1.v2
    ensures Round(LANES0.v3, Letter8(7)) == LANES1.v3 && Round(LANES0.v4, Letter8(6)) == LANES1.v4
  {
  }

  lemma FirstBlock(s: seq<byte>)
    requires |s| == 32 && From(0, s)
    ensures Absorb(LANES0, s) == LANES1
  {
    hide Absorb, From, Round;
    BlockWords(0, s, LANES0);
    FirstRounds();
  }

  lemma SecondRounds()
    ensures Round(LANES1.v1, Letter8(5)) == LANES2.v1 && Round(LANES1.v2, Letter8(4)) == LANES2.v2
    ensures Round(LANES1.v3, Letter8(3)) == LANES2.v3 && Round(LANES1.v4, Letter8(2)) == LANES2.v4
  {
  }

  lemma SecondBlock(s: seq<byte>)
    requires |s| == 32 && From(5, s)
    ensures Absorb(LANES1, s) == LANES2
  {
    hide Absorb, From, Round;
    BlockWords(5, s, LANES1);
    SecondRounds();
  }

  lemma Merged()
    ensures Combine(LANES2, 87) == 0xDB6F1E7F1867587A
  {
    assert Sum(LANES2) == 0xCFC143150EF1AC2D;
    assert MergeRound(0xCFC143150EF1AC2D, LANES2.v1) == 0x19931C4FC91D2F60;
    assert MergeRound(0x19931C4FC91D2F60, LANES2.v2) == 0x8D5D973A95033D1C;
    assert MergeRound(0x8D5D973A95033D1C, LANES2.v3) == 0xB38745F1061205FE;
    assert MergeRound(0xB38745F1061205FE, LANES2.v4) == 0xDB6F1E7F18675823;
    EightySeven(0xDB6F1E7F18675823);
  }

  lemma EightySeven(h: bv64)
    ensures AddLength(h, 87) == h + 87
  {
  }

  lemma MixRestStep(h: bv64, s: seq<byte>)
    ensures |s| >= 8 ==> MixRest(h, s) == MixRest(Mix8(h, s[..8]), s[8..])
    ensures |s| < 8 ==> MixRest(h, s) == MixFour(h, s)
  {
  }

  lemma TwoWords(s: seq<byte>)
    requires |s| == 23 && From(1, s)
    ensures MixRest(0xDB6F1E7F1867587A, s) == MixFour(0xF5DE2ED6E04ED7C5, s[16..])
  {
    hide Word, Mix8, MixFour, MixRest, From;
    FromSlice(1, s, 0, 8);
    FromSlice(1, s, 8, 16);
    WordIs(1, s[..8]);
    WordIs(0, s[8..16]);
    assert s[8..][..8] == s[8..16] && s[8..][8..] == s[16..];
    FirstMix(s[..8]);
    SecondMix(s[8..16]);
    MixRestStep(0xDB6F1E7F1867587A, s);
    MixRestStep(0xF175DE6C0B064A91, s[8..]);
    MixRestStep(0xF5DE2ED6E04ED7C5, s[16..]);
  }

  lemma FirstMix(s: seq<byte>)
    requires Word(s) == Letter8(1)
    ensures Mix8(0xDB6F1E7F1867587A, s) == 0xF175DE6C0B064A91
  {
    hide Word;
  }

  lemma SecondMix(s: seq<byte>)
    requires Word(s) == Letter8(0)
    ensures Mix8(0xF175DE6C0B064A91, s) == 0xF5DE2ED6E04ED7C5
  {
    hide Word;
  }

  lemma FourAndThree(s: seq<byte>)
    requires |s| == 7 && From(8, s)
    ensures MixFour(0xF5DE2ED6E04ED7C5, s) == 0xEDD378791CBED206
  {
    hide Word, Mix1, Mix4;
    FromSlice(8, s, 0, 4);
    FourLetters(8, s[..4]);
    ThirdMix(s[..4]);
    var t := s[4..];
    assert t == [100, 101, 102] && t[1..] == [101, 102] && t[2..] == [102] && t[1..][1..] == t[2..];
    LetterMixes();
    ThreeBytes(0xC75009B058A86BE2, t, 0x945D00A76D2FDF55, 0xF79989A269A8B8B6, 0xEDD378791CBED206);
  }

  lemma ThirdMix(s: seq<byte>)
    requires Word(s) == 0x63626169
    ensures Mix4(0xF5DE2ED6E04ED7C5, s) == 0xC75009B058A86BE2
  {
    hide Word;
  }

  lemma LetterMixes()
    ensures Mix1(0xC75009B058A86BE2, 100) == 0x945D00A76D2FDF55
    ensures Mix1(0x945D00A76D2FDF55, 101) == 0xF79989A269A8B8B6
    ensures Mix1(0xF79989A269A8B8B6, 102) == 0xEDD378791CBED206
  {
    LetterBits();
    hide Bits;
  }

  lemma MixBytesStep(h: bv64, s: seq<byte>)
    ensures MixBytes(h, s) == if s == [] then h else MixBytes(Mix1(h, s[0]), s[1..])
  {
  }

  lemma ThreeBytes(h: bv64, s: seq<byte>, h1: bv64, h2: bv64, h3: bv64)
    requires |s| == 3 && Mix1(h, s[0]) == h1 && Mix1(h1, s[1]) == h2 && Mix1(h2, s[2]) == h3
    ensures MixBytes(h, s) == h3
  {
    hide Mix1, MixBytes;
    assert s[1..][1..] == s[2..] && s[2..][1..] == [];
    MixBytesStep(h, s);
    MixBytesStep(h1, s[1..]);
    MixBytesStep(h2, s[2..]);
    MixBytesStep(h3, []);
  }

  /** The length is 87, so the seed, two rounds of every lane, the merging, both words, the four bytes and the last
      three all take part. */
  lemma TwoBlocks()
    ensures Hash(SEED, Letters(87)) == 0xE9B0940726369978
  {
    hide Absorb, AbsorbAll, Combine, Avalanche, MixRest, MixFour, Letters, Seeded, From, Hash;
    var m := Letters(87);
    LettersFrom(87);
    HashSteps(SEED, m);
    NoWrap(87);
    Starts();
    BothBlocks(m);
    Merged();
    assert Rest(m) == m[64..87];
    FromSlice(0, m, 64, 87);
    TwoWords(m[64..87]);
    FromSlice(1, m[64..87], 16, 23);
    FourAndThree(m[64..87][16..23]);
    assert m[64..87][16..] == m[64..87][16..23];
    Avalanches();
  }

  lemma HashSteps(seed: bv64, m: seq<byte>)
    ensures Hash(seed, m) == Avalanche(MixRest(Combine(AbsorbAll(Seeded(seed), m), |m| % WORD_RANGE), Rest(m)))
  {
    hide Absorb, AbsorbAll, Combine, Avalanche, MixRest, Seeded, Rest;
  }

  lemma NoWrap(n: nat)
    requires n < 100
    ensures n % WORD_RANGE == n
  {
  }

  lemma BothBlocks(m: seq<byte>)
    requires |m| == 87 && From(0, m)
    ensures AbsorbAll(LANES0, m) == LANES2
  {
    hide Absorb, AbsorbAll, From;
    FromSlice(0, m, 0, 32);
    FromSlice(0, m, 32, 64);
    FirstBlock(m[0..32]);
    SecondBlock(m[32..64]);
    assert m[..32] == m[0..32] && m[32..][..32] == m[32..64] && m[32..][32..] == m[64..87];
    AbsorbStep(LANES0, m);
    AbsorbStep(LANES1, m[32..]);
    AbsorbStep(LANES2, m[64..87]);
  }

  lemma AbsorbStep(l: Lanes, m: seq<byte>)
    ensures AbsorbAll(l, m) == if |m| < 32 then l else AbsorbAll(Absorb(l, m[..32]), m[32..])
  {
  }

  lemma LettersFrom(n: nat)
    ensures |Letters(n)| == n && From(0, Letters(n))
  {
  }

  lemma Avalanches()
    ensures Avalanche(0xEDD378791CBED206) == 0xE9B0940726369978
  {
  }

  // ----- Shorter messages -----

  /** The start for a message of less than 32 bytes. */
  lemma Short(m: seq<byte>)
    requires |m| < 32
    ensures Hash(0, m) == Avalanche(MixRest(PRIME64_5 + |m| as bv64, m))
  {
    hide Avalanche, MixRest, Absorb, AbsorbAll, Hash, Bits;
    HashSteps(0, m);
    NoWrap(|m|);
    AbsorbStep(Seeded(0), m);
    assert Rest(m) == m;
  }

  lemma Lengths()
    ensures 0 as bv64 == 0 && 3 as bv64 == 3 && 7 as bv64 == 7 && 8 as bv64 == 8
  {
  }

  lemma Empty()
    ensures Hash(0, []) == 0xEF46DB3751D8E999
  {
    hide MixRest, MixFour, MixBytes, Hash;
    Lengths();
    Short([]);
    MixRestStep(PRIME64_5, []);
    NoneMixed(PRIME64_5);
  }

  lemma NoneMixed(h: bv64)
    ensures MixFour(h, []) == h
  {
  }

  lemma ThreeLetters()
    ensures Hash(0, [97, 98, 99]) == 0x44BC2CF5AD770999
  {
    hide MixRest, Avalanche, Mix1, MixBytes, Hash;
    var m := [97, 98, 99];
    Lengths();
    Short(m);
    MixRestStep(0x27D4EB2F165667C8, m);
    LettersAbc();
    ThreeBytes(0x27D4EB2F165667C8, m, 0x0E6D11BDC91F0215, 0x791983E9AB307069, 0xE87A46F8B9A4C39E);
  }

  lemma LettersAbc()
    ensures PRIME64_5 + 3 == 0x27D4EB2F165667C8
    ensures Mix1(0x27D4EB2F165667C8, 97) == 0x0E6D11BDC91F0215
    ensures Mix1(0x0E6D11BDC91F0215, 98) == 0x791983E9AB307069
    ensures Mix1(0x791983E9AB307069, 99) == 0xE87A46F8B9A4C39E
    ensures Avalanche(0xE87A46F8B9A4C39E) == 0x44BC2CF5AD770999
  {
    LetterBits();
    hide Bits;
  }

  lemma SevenLetters()
    ensures Hash(0, [97, 98, 99, 100, 101, 102, 103]) == 0x1860940E2902822D
  {
    hide MixRest, Avalanche, Mix1, Mix4, MixBytes, Hash, Word;
    var m: seq<byte> := [97, 98, 99, 100, 101, 102, 103];
    Lengths();
    Short(m);
    MixRestStep(0x27D4EB2F165667CC, m);
    assert m[..4] == [97, 98, 99, 100] && m[4..] == [101, 102, 103];
    FourLetters(0, m[..4]);
    LettersAbcd(m[..4]);
    LettersEfg();
    ThreeBytes(0xA524CAF3A33A7DCB, m[4..], 0x10EB7D3ADEE6A677, 0x3A90B1BBEC598797, 0x2F211319C94DE7A7);
  }

  lemma LettersAbcd(s: seq<byte>)
    requires Word(s) == 0x64636261
    ensures PRIME64_5 + 7 == 0x27D4EB2F165667CC
    ensures Mix4(0x27D4EB2F165667CC, s) == 0xA524CAF3A33A7DCB
  {
    hide Word;
  }

  lemma LettersEfg()
    ensures Mix1(0xA524CAF3A33A7DCB, 101) == 0x10EB7D3ADEE6A677
    ensures Mix1(0x10EB7D3ADEE6A677, 102) == 0x3A90B1BBEC598797
    ensures Mix1(0x3A90B1BBEC598797, 103) == 0x2F211319C94DE7A7
    ensures Avalanche(0x2F211319C94DE7A7) == 0x1860940E2902822D
  {
    LetterBits();
    hide Bits;
  }

  lemma EightLetters()
    ensures Hash(0, [97, 98, 99, 100, 101, 102, 103, 104]) == 0x3AD351775B4634B7
  {
    hide MixRest, MixFour, Avalanche, Mix8, Hash, Word;
    var m: seq<byte> := [97, 98, 99, 100, 101, 102, 103, 104];
    Lengths();
    Short(m);
    assert m[..8] == m && m[8..] == [];
    FirstWords(0, m);
    OneWord(m);
    MixRestStep(0x27D4EB2F165667CD, m);
    MixRestStep(0xA119981D165AD1DF, []);
    NoneMixed(0xA119981D165AD1DF);
  }

  lemma OneWord(s: seq<byte>)
    requires Word(s) == Letter8(0)
    ensures PRIME64_5 + 8 == 0x27D4EB2F165667CD
    ensures Mix8(0x27D4EB2F165667CD, s) == 0xA119981D165AD1DF
    ensures Avalanche(0xA119981D165AD1DF) == 0x3AD351775B4634B7
  {
    hide Word;
  }
}
