/** Filling the table of code words, and what a stream of them determines. */
module HufCTable {
  import opened ByteType
  import opened Pow2Lemmas
  import opened BitArithmetic
  import opened Bytes
  import opened BitStream
  import opened HufStream
  import opened HufEncoder
  import opened HufCodes
  import HufMaxHeight

  // ----- The table of given lengths -----

  function CodeOf(nb: seq<nat>, top: nat, s: nat): Code
    requires s < |nb|
  {
    Code(if nb[s] > 0 then Word(nb, top, s) else 0, nb[s])
  }

  /** The canonical code of the lengths. */
  ghost function CodesOf(nb: seq<nat>, top: nat): (codes: seq<Code>)
    ensures |codes| == |nb| && forall s :: 0 <= s < |nb| ==> codes[s] == CodeOf(nb, top, s)
  {
    seq(|nb|, s requires 0 <= s < |nb| => CodeOf(nb, top, s))
  }

  /** The first word of each length, from the longest down. */
  method RankStarts(nbPerRank: array<nat>, top: nat, ghost nb: seq<nat>) returns (valPerRank: array<nat>)
    requires nbPerRank.Length > top && forall n :: 0 < n <= top ==> nbPerRank[n] == Occurrences(nb, n)
    ensures fresh(valPerRank) && valPerRank.Length == top + 2
    ensures forall n :: 0 < n <= top ==> valPerRank[n] == First(nb, top, n)
  {
    valPerRank := new nat[top + 2];
    var min: nat := 0;
    var n: nat := top;
    while n > 0
      invariant n <= top && min == First(nb, top, n)
      invariant forall m :: n < m <= top ==> valPerRank[m] == First(nb, top, m)
    {
      valPerRank[n] := min;
      min := (min + nbPerRank[n]) / 2;
      n := n - 1;
    }
  }

  /** Each symbol gets the next word of its length, in the order of the symbols. */
  method SetValues(nb: seq<nat>, top: nat, valPerRank: array<nat>) returns (elts: array<nat>)
    requires valPerRank.Length == top + 2 && top <= MAX_CODE_BITS && forall s :: 0 <= s < |nb| ==> nb[s] <= top
    requires forall n :: 0 < n <= top ==> valPerRank[n] == First(nb, top, n)
    modifies valPerRank
    ensures elts.Length == |nb|
    ensures forall s :: 0 <= s < |nb| ==> elts[s] == MakeElt(CodeOf(nb, top, s).value, nb[s])
  {
    hide First, MakeElt;
    elts := new nat[|nb|];
    for s := 0 to |nb|
      invariant forall t :: 0 <= t < s ==> elts[t] == MakeElt(CodeOf(nb, top, t).value, nb[t])
      invariant forall n :: 0 < n <= top ==> valPerRank[n] == First(nb, top, n) + Occurrences(nb[..s], n)
    {
      forall n ensures n >= 0 ==> Occurrences(nb[..s + 1], n) == Occurrences(nb[..s], n) + if nb[s] == n then 1 else 0 {
        if n >= 0 {
          OccurrencesSnoc(nb, s, n);
        }
      }
      elts[s] := MakeElt(if nb[s] > 0 then valPerRank[nb[s]] else 0, nb[s]);
      valPerRank[nb[s]] := valPerRank[nb[s]] + 1;
    }
  }

  /** A table filled in this way is one of canonical codes. */
  lemma TableIs(nb: seq<nat>, top: nat, elts: seq<nat>)
    requires CompleteLengths(nb, top) && top <= MAX_CODE_BITS && |elts| == |nb|
    requires forall s :: 0 <= s < |nb| ==> elts[s] == MakeElt(CodeOf(nb, top, s).value, nb[s])
    ensures IsCTable(CTable(top, elts), CodesOf(nb, top))
  {
    forall s | 0 <= s < |nb| ensures IsElt(elts[s], CodeOf(nb, top, s), top) {
      if nb[s] > 0 {
        WordFits(nb, top, s);
      }
    }
  }

  // ----- What a stream of codes determines -----

  /** The stream has, from its top down, the codes of the source and nothing else. */
  ghost predicate Spells(codes: seq<Code>, t: nat, left: int, src: seq<byte>)
    decreases |src|
  {
    if src == [] then left == 0
    else
      && src[0] < |codes| && 0 < codes[src[0]].nbBits <= left
      && Field(t, left - codes[src[0]].nbBits, codes[src[0]].nbBits) == codes[src[0]].value
      && Spells(codes, t, left - codes[src[0]].nbBits, src[1..])
  }

  lemma {:induction false} StreamSpells(ct: CTable, codes: seq<Code>, src: seq<byte>, i: nat, t: nat)
    requires IsCTable(ct, codes) && Coded(codes, src) && i <= |src| && Holds(t, Codes(codes, src, i, |src|))
    ensures Spells(codes, t, Width(Codes(codes, src, i, |src|)), src[i..])
    decreases |src| - i
  {
    hide IsCTable, Holds, Field;
    if i < |src| {
      CodesWidth(ct, codes, src, i, |src|);
      Pop(t, Codes(codes, src, i, |src|));
      StreamSpells(ct, codes, src, i + 1, t);
      assert src[i..][1..] == src[i + 1..];
    }
  }

  /** The shorter of two fields that end at the same bit is the top of the longer one. */
  lemma TopOfField(t: nat, left: nat, n: nat, m: nat)
    requires m <= n <= left
    ensures ShiftRight(Field(t, left - n, n), n - m) == Field(t, left - m, m)
  {
    var d := n - m;
    assert d + m == n && left - n + d == left - m;
    ShiftTwice(t, left - n, d);
    Shifts(ShiftRight(t, left - n), d, m);
  }

  /** With a canonical code a stream spells at most one source. */
  lemma {:induction false} SpellsOne(nb: seq<nat>, top: nat, t: nat, left: nat, a: seq<byte>, b: seq<byte>)
    requires CompleteLengths(nb, top) && Spells(CodesOf(nb, top), t, left, a) && Spells(CodesOf(nb, top), t, left, b)
    ensures a == b
    decreases |a|
  {
    if a != [] && b != [] {
      var s, u := a[0], b[0];
      if s != u {
        if nb[u] <= nb[s] {
          TopOfField(t, left, nb[s], nb[u]);
          PrefixFree(nb, top, s, u);
        } else {
          TopOfField(t, left, nb[u], nb[s]);
          PrefixFree(nb, top, u, s);
        }
      }
      SpellsOne(nb, top, t, left - nb[s], a[1..], b[1..]);
      assert a == [a[0]] + a[1..] && b == [b[0]] + b[1..];
    }
  }

  /** Decoding is unique: bytes that are the stream of a source spell that source, and no other. */
  lemma StreamDetermines(nb: seq<nat>, top: nat, ct: CTable, bytes: seq<byte>, src: seq<byte>, other: seq<byte>)
    requires CompleteLengths(nb, top) && IsCTable(ct, CodesOf(nb, top)) && Coded(CodesOf(nb, top), src)
    requires IsStream(bytes, Codes(CodesOf(nb, top), src, 0, |src|))
    ensures LittleEndian(bytes) > 0
    ensures Spells(CodesOf(nb, top), LittleEndian(bytes), HighBit(LittleEndian(bytes)), other) <==> other == src
  {
    hide CompleteLengths, IsCTable, Spells;
    var codes := CodesOf(nb, top);
    EndMark(LittleEndian(bytes), Codes(codes, src, 0, |src|));
    StreamSpells(ct, codes, src, 0, LittleEndian(bytes));
    assert src[0..] == src;
    if Spells(codes, LittleEndian(bytes), HighBit(LittleEndian(bytes)), other) {
      SpellsOne(nb, top, LittleEndian(bytes), HighBit(LittleEndian(bytes)), other, src);
    }
  }

  // ----- From the tree -----

  lemma {:induction false} SpaceUpdate(nb: seq<nat>, top: nat, i: nat, v: nat)
    requires i < |nb|
    ensures Space(nb[i := v], top) == Space(nb, top) - Share(nb[i], top) + Share(v, top)
    decreases |nb|
  {
    var now, front := nb[i := v], nb[..|nb| - 1];
    if i == |nb| - 1 {
      assert now[..|nb| - 1] == front;
    } else {
      assert now[..|nb| - 1] == front[i := v];
      SpaceUpdate(front, top, i, v);
    }
  }

  lemma SpaceSnoc(nb: seq<nat>, top: nat, n: nat)
    requires n < |nb|
    ensures Space(nb[..n + 1], top) == Space(nb[..n], top) + Share(nb[n], top)
  {
    assert nb[..n + 1][..n] == nb[..n];
  }

  /** The nodes of the tree, each for a different symbol, the first `used` of them with lengths. */
  ghost predicate Nodes(bytes: seq<nat>, lengths: seq<nat>, used: nat) {
    && |bytes| == |lengths| && used <= |bytes|
    && (forall n :: 0 <= n < |bytes| ==> bytes[n] < |bytes|)
    && (forall m, n :: 0 <= m < n < |bytes| ==> bytes[m] != bytes[n])
    && (forall n :: used <= n < |bytes| ==> lengths[n] == 0)
  }

  /** The lengths by symbol, after the first n nodes. */
  ghost predicate Pushed(nb: seq<nat>, bytes: seq<nat>, lengths: seq<nat>, n: nat, top: nat)
    requires |bytes| == |lengths| && n <= |bytes|
  {
    && |nb| == |bytes|
    && (forall m :: 0 <= m < n ==> bytes[m] < |nb| && nb[bytes[m]] == lengths[m])
    && (forall s :: 0 <= s < |nb| && (forall m :: 0 <= m < n ==> bytes[m] != s) ==> nb[s] == 0)
    && (forall s :: 0 <= s < |nb| ==> nb[s] <= top)
    && Space(nb, top) == Space(lengths[..n], top)
    && (forall v :: v > 0 ==> Occurrences(nb, v) == Occurrences(lengths[..n], v))
  }

  lemma {:induction false} OccurrencesUpdate(nb: seq<nat>, i: nat, v: nat, w: nat)
    requires i < |nb|
    ensures Occurrences(nb[i := v], w) ==
      Occurrences(nb, w) - (if nb[i] == w then 1 else 0) + (if v == w then 1 else 0)
    decreases |nb|
  {
    var now, front := nb[i := v], nb[..|nb| - 1];
    if i == |nb| - 1 {
      assert now[..|nb| - 1] == front;
    } else {
      assert now[..|nb| - 1] == front[i := v];
      OccurrencesUpdate(front, i, v, w);
    }
  }

  lemma PushedStep(nb: seq<nat>, bytes: seq<nat>, lengths: seq<nat>, n: nat, top: nat, used: nat)
    requires Nodes(bytes, lengths, used) && n < |bytes| && Pushed(nb, bytes, lengths, n, top) && lengths[n] <= top
    ensures Pushed(nb[bytes[n] := lengths[n]], bytes, lengths, n + 1, top)
  {
    hide LittleEndian, Space;
    assert nb[bytes[n]] == 0 by {
      assert forall m :: 0 <= m < n ==> bytes[m] != bytes[n];
    }
    SpaceUpdate(nb, top, bytes[n], lengths[n]);
    SpaceSnoc(lengths, top, n);
    var now := nb[bytes[n] := lengths[n]];
    forall s | 0 <= s < |now| && forall m :: 0 <= m < n + 1 ==> bytes[m] != s
      ensures now[s] == 0
    {
      assert s != bytes[n];
    }
    forall v | v > 0 ensures Occurrences(now, v) == Occurrences(lengths[..n + 1], v) {
      OccurrencesUpdate(nb, bytes[n], lengths[n], v);
      OccurrencesSnoc(lengths, n, v);
    }
  }

  lemma {:induction false} NoSpace(nb: seq<nat>, top: nat, n: nat)
    requires n <= |nb| && forall i :: n <= i < |nb| ==> nb[i] == 0
    ensures Space(nb, top) == Space(nb[..n], top)
    ensures forall v :: v > 0 ==> Occurrences(nb, v) == Occurrences(nb[..n], v)
    decreases |nb|
  {
    if n < |nb| {
      NoSpace(nb[..|nb| - 1], top, n);
      assert nb[..|nb| - 1][..n] == nb[..n];
    } else {
      assert nb[..n] == nb;
    }
  }

  /** The lengths of the nodes go to their symbols. */
  method PushLengths(bytes: seq<nat>, lengths: seq<nat>, ghost used: nat, ghost top: nat) returns (nb: array<nat>)
    requires Nodes(bytes, lengths, used) && forall n :: 0 <= n < |lengths| ==> lengths[n] <= top
    ensures Pushed(nb[..], bytes, lengths, |bytes|, top)
  {
    nb := new nat[|bytes|](i => 0);
    NoSpace(nb[..], top, 0);
    assert nb[..][..0] == lengths[..0] == [];
    for n := 0 to |bytes|
      invariant Pushed(nb[..], bytes, lengths, n, top)
    {
      PushedStep(nb[..], bytes, lengths, n, top, used);
      ghost var before := nb[..];
      nb[bytes[n]] := lengths[n];
      assert nb[..] == before[bytes[n] := lengths[n]];
    }
  }

  /** How many symbols have each length. */
  method CountLengths(nb: seq<nat>, top: nat) returns (nbPerRank: array<nat>)
    requires forall s :: 0 <= s < |nb| ==> nb[s] <= top
    ensures fresh(nbPerRank) && nbPerRank.Length == top + 2
    ensures forall n :: 0 <= n <= top ==> nbPerRank[n] == Occurrences(nb, n)
  {
    nbPerRank := new nat[top + 2](i => 0);
    for s := 0 to |nb|
      invariant forall n :: 0 <= n <= top ==> nbPerRank[n] == Occurrences(nb[..s], n)
    {
      forall n ensures n >= 0 ==> Occurrences(nb[..s + 1], n) == Occurrences(nb[..s], n) + if nb[s] == n then 1 else 0 {
        if n >= 0 {
          OccurrencesSnoc(nb, s, n);
        }
      }
      nbPerRank[nb[s]] := nbPerRank[nb[s]] + 1;
    }
    assert nb[..|nb|] == nb;
  }

  /** The sum over all nodes is that of the complete code; a code of at least two words has none of no bits. */
  lemma {:induction false} KraftIsSpace(lengths: seq<nat>, top: nat)
    requires HufMaxHeight.AtMost(lengths, top)
    ensures Space(lengths, top) <= HufMaxHeight.Kraft(lengths, top)
    ensures (forall n :: 0 <= n < |lengths| ==> lengths[n] > 0) ==>
      Space(lengths, top) == HufMaxHeight.Kraft(lengths, top)
    decreases |lengths|
  {
    if lengths != [] {
      KraftIsSpace(lengths[..|lengths| - 1], top);
    }
  }

  lemma {:induction false} KraftParts(lengths: seq<nat>, top: nat, n: nat)
    requires HufMaxHeight.AtMost(lengths, top) && n < |lengths|
    ensures HufMaxHeight.Kraft(lengths, top) >= |lengths| - 1 + Pow2(top - lengths[n])
    decreases |lengths|
  {
    var front := lengths[..|lengths| - 1];
    if n < |lengths| - 1 {
      KraftParts(front, top, n);
    } else {
      HufMaxHeight.KraftCounts(front, top);
    }
  }

  lemma AllHaveBits(lengths: seq<nat>, top: nat)
    requires HufMaxHeight.CompleteCode(lengths, top) && |lengths| >= 2
    ensures forall n :: 0 <= n < |lengths| ==> lengths[n] > 0
  {
    forall n | 0 <= n < |lengths| ensures lengths[n] > 0 {
      KraftParts(lengths, top, n);
    }
  }

  /** The table of code words for a tree of limited height. */
  method BuildCTableFromTree(bytes: seq<nat>, lengths: seq<nat>, used: nat, maxNbBits: nat)
    returns (ct: CTable, ghost nb: seq<nat>)
    requires Nodes(bytes, lengths, used) && used >= 2 && maxNbBits <= MAX_CODE_BITS
    requires HufMaxHeight.CompleteCode(lengths[..used], maxNbBits)
    ensures CompleteLengths(nb, maxNbBits) && IsCTable(ct, CodesOf(nb, maxNbBits)) && ct.tableLog == maxNbBits
    ensures |nb| == |bytes| && forall n :: 0 <= n < |bytes| ==> nb[bytes[n]] == lengths[n]
  {
    AllHaveBits(lengths[..used], maxNbBits);
    KraftIsSpace(lengths[..used], maxNbBits);
    NoSpace(lengths, maxNbBits, used);
    forall n | 0 <= n < |lengths| ensures lengths[n] <= maxNbBits {
      if n < used {
        assert lengths[..used][n] == lengths[n];
      }
    }
    var byLength := CountLengths(lengths[..used], maxNbBits);
    var pushed := PushLengths(bytes, lengths, used, maxNbBits);
    assert lengths[..|bytes|] == lengths;
    nb := pushed[..];
    var starts := RankStarts(byLength, maxNbBits, nb);
    var elts := SetValues(pushed[..], maxNbBits, starts);
    TableIs(nb, maxNbBits, elts[..]);
    ct := CTable(maxNbBits, elts[..]);
  }
}
