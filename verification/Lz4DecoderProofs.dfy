/** How the decoders relate to each other, to the grammar and to the encoding of sequences. */
module Lz4DecoderProofs {
  import opened ByteType
  import opened Lz4Format
  import opened Lz4DecoderSpec

  /** A literal length that the bounds-checked decoder reads is the one the grammar reads, and it reads every one
      that leaves room for its literals. */
  lemma LiteralLengthsAgree(b: seq<byte>, t: nat)
    requires t < |b|
    ensures SafeLiteralLength(b, t).Length? ==> LiteralLength(b, t) == SafeLiteralLength(b, t)
    ensures LiteralLength(b, t).Length? && LiteralLength(b, t).pos + LiteralLength(b, t).value <= |b|
            ==> SafeLiteralLength(b, t) == LiteralLength(b, t)
  {
    if b[t] / 16 == RUN_MASK && t + 1 < |b| - RUN_MASK {
      VariableIsLong(b, t + 1, |b| - RUN_MASK);
    }
  }

  /** The same for match lengths, which must leave four bytes. */
  lemma MatchLengthsAgree(b: seq<byte>, t: nat, ip: nat)
    requires t < ip < |b|
    ensures SafeMatchLength(b, t, ip).Length? ==> MatchLength(b, t, ip) == SafeMatchLength(b, t, ip)
    ensures MatchLength(b, t, ip).Length? && MatchLength(b, t, ip).pos + 4 <= |b|
            ==> SafeMatchLength(b, t, ip) == MatchLength(b, t, ip)
  {
    if b[t] % 16 == ML_MASK {
      VariableIsLong(b, ip, |b| - LASTLITERALS + 1);
    }
  }

  // ----- Soundness: what the bounds-checked decoder accepts is what the grammar says -----

  /** A full-decode step agrees with the grammar about the sequence at `ip`. */
  ghost predicate AgreesWithGrammar(s: Step, b: seq<byte>, ip: nat, out: seq<byte>) {
    match s
    case Done(Decoded(o)) =>
      var g := ParseSequence(b, ip);
      g.Last? && o == out + b[g.q..]
    case Done(_) => true
    case Next(next, out2) =>
      var g := ParseSequence(b, ip);
      && g.Match? && g.next == next && g.offset <= |out| + g.p - g.q
      && out2 == CopyMatch(out + b[g.q..g.p], g.offset, g.length)
  }

  /** After literals `b[q..p]` that do not end the block. */
  lemma MatchAgrees(b: seq<byte>, t: nat, q: nat, p: nat, out: seq<byte>, out1: seq<byte>, cap: nat)
    requires t < q <= p && p + 2 < |b| && LiteralLength(b, t) == Length(p - q, q)
    requires out1 == out + b[q..p] && |out1| <= cap
    ensures AgreesWithGrammar(SafeMatch(b, t, p, out1, cap, false), b, t, out)
  {
    MatchLengthsAgree(b, t, p + 2);
  }

  lemma ShortcutAgrees(b: seq<byte>, ip: nat, out: seq<byte>, cap: nat)
    requires ip < |b| && |out| <= cap && InShortcut(b, ip, |out|, cap)
    ensures AgreesWithGrammar(SafeShortcut(b, ip, out, cap, false), b, ip, out)
  {
    hide CopyMatch, SafeShortcut;
    var p := ip + 1 + b[ip] / 16;
    var out1 := out + b[ip + 1..p];
    ShortcutIs(b, ip, out, cap, false, p, out1);
    if !QuickMatch(b, ip, p, |out1|) {
      MatchAgrees(b, ip, ip + 1, p, out, out1, cap);
    }
  }

  lemma LiteralsAgree(b: seq<byte>, ip: nat, out: seq<byte>, cap: nat)
    requires ip < |b| && |out| <= cap
    ensures match SafeSlow(b, ip, out, cap, false)
            case Stop(o) => AgreesWithGrammar(Done(o), b, ip, out)
            case Literals(p, out1) =>
              && LiteralLength(b, ip).Length?
              && var q := LiteralLength(b, ip).pos;
              && q <= p && LiteralLength(b, ip) == Length(p - q, q) && out1 == out + b[q..p]
  {
    LiteralLengthsAgree(b, ip);
  }

  lemma SafeStepSound(b: seq<byte>, ip: nat, out: seq<byte>, cap: nat)
    requires ip < |b| && |out| <= cap
    ensures AgreesWithGrammar(SafeStep(b, ip, out, cap, false), b, ip, out)
  {
    if InShortcut(b, ip, |out|, cap) {
      ShortcutAgrees(b, ip, out, cap);
    } else {
      LiteralsAgree(b, ip, out, cap);
      var s := SafeSlow(b, ip, out, cap, false);
      if s.Literals? {
        MatchAgrees(b, ip, LiteralLength(b, ip).pos, s.ip, out, s.out, cap);
      }
    }
  }

  lemma {:induction false} SafeSequenceSound(b: seq<byte>, ip: nat, out: seq<byte>, cap: nat)
    requires ip < |b| && |out| <= cap
    requires SafeSequence(b, ip, out, cap, false).Decoded?
    ensures Interpret(b, ip, out) == Some(SafeSequence(b, ip, out, cap, false).out)
    decreases |b| - ip
  {
    SafeStepSound(b, ip, out, cap);
    var s := SafeStep(b, ip, out, cap, false);
    if s.Next? {
      SafeSequenceSound(b, s.ip, s.out, cap);
    }
  }

  // ----- The verdict and the room -----

  /** A step that goes on, or ends with all data, is the same with more room. */
  lemma StepInMoreRoom(b: seq<byte>, ip: nat, out: seq<byte>, c: nat, d: nat)
    requires ip < |b| && |out| <= c <= d
    requires SafeStep(b, ip, out, c, false).Next? || SafeStep(b, ip, out, c, false).outcome.Decoded?
    ensures SafeStep(b, ip, out, d, false) == SafeStep(b, ip, out, c, false)
  {
    hide CopyMatch, ReadVariable;
  }

  lemma {:induction false} SequenceInMoreRoom(b: seq<byte>, ip: nat, out: seq<byte>, c: nat, d: nat)
    requires ip < |b| && |out| <= c <= d && SafeSequence(b, ip, out, c, false).Decoded?
    ensures SafeSequence(b, ip, out, d, false) == SafeSequence(b, ip, out, c, false)
    decreases |b| - ip
  {
    hide SafeStep;
    StepInMoreRoom(b, ip, out, c, d);
    var s := SafeStep(b, ip, out, c, false);
    if s.Next? {
      SequenceInMoreRoom(b, s.ip, s.out, c, d);
    }
  }

  /** The few bytes behind a match that slow decoding would refuse can only be the last literals. */
  lemma EndsHere(b: seq<byte>, ip: nat, out: seq<byte>, cap: nat)
    requires ip < |b| <= ip + 5 && |out| <= cap && SafeSequence(b, ip, out, cap, false).Decoded?
    ensures |SafeSequence(b, ip, out, cap, false).out| == |out| + |b| - ip - 1
  {
  }

  lemma {:induction false} OutputGrows(b: seq<byte>, ip: nat, out: seq<byte>, cap: nat)
    requires ip < |b| && |out| <= cap && SafeSequence(b, ip, out, cap, false).Decoded?
    ensures |SafeSequence(b, ip, out, cap, false).out| >= |out|
    decreases |b| - ip
  {
    StepGrows(b, ip, out, cap);
    var s := SafeStep(b, ip, out, cap, false);
    if s.Next? {
      OutputGrows(b, s.ip, s.out, cap);
    }
  }

  lemma StepGrows(b: seq<byte>, ip: nat, out: seq<byte>, cap: nat)
    requires ip < |b| && |out| <= cap
    ensures var s := SafeStep(b, ip, out, cap, false);
      && (s.Next? ==> |s.out| >= |out|)
      && (s.Done? && s.outcome.Decoded? ==> |s.outcome.out| >= |out|)
  {
    hide CopyMatch, ReadVariable;
  }

  /** The shortcut may accept a sequence that slow decoding would not, because too few bytes follow its literals; but
      then the block ends with the next literals. */
  lemma ShortcutNearEnd(b: seq<byte>, ip: nat, out: seq<byte>, cap: nat)
    requires ip < |b| && |out| <= cap && InShortcut(b, ip, |out|, cap)
    requires SafeSequence(b, ip, out, cap, false).Decoded? && ip + 1 + b[ip] / 16 > |b| - (2 + 1 + LASTLITERALS)
    ensures |SafeSequence(b, ip, out, cap, false).out| >= |out| + 18
  {
    var s := SafeStep(b, ip, out, cap, false);
    assert s.Next? && s.ip >= ip + 1 + b[ip] / 16 + 2 && |s.out| >= |out| + b[ip] / 16 + MINMATCH;
    EndsHere(b, s.ip, s.out, cap);
  }

  lemma MatchInLessRoom(b: seq<byte>, t: nat, p: nat, out: seq<byte>, c: nat, d: nat)
    requires t < p && p + 2 < |b| && |out| <= c <= d && SafeMatch(b, t, p, out, d, false).Next?
    requires |SafeMatch(b, t, p, out, d, false).out| + LASTLITERALS <= c
    ensures SafeMatch(b, t, p, out, c, false) == SafeMatch(b, t, p, out, d, false)
  {
    hide CopyMatch, ReadVariable;
  }

  lemma SlowInLessRoom(b: seq<byte>, ip: nat, out: seq<byte>, c: nat, d: nat)
    requires ip < |b| && |out| <= c <= d
    requires match SafeSlow(b, ip, out, d, false)
             case Stop(o) => o.Decoded? && |o.out| + MFLIMIT <= c
             case Literals(_, out1) => |out1| + MFLIMIT <= c
    ensures SafeSlow(b, ip, out, c, false) == SafeSlow(b, ip, out, d, false)
  {
    hide CopyMatch, ReadVariable;
  }

  /** Literals that leave enough bytes behind them are taken alike with the shortcut and without. */
  lemma ShortcutIsSlow(b: seq<byte>, ip: nat, out: seq<byte>, c: nat, d: nat)
    requires ip < |b| && |out| <= c <= d && InShortcut(b, ip, |out|, d) && !InShortcut(b, ip, |out|, c)
    requires SafeStep(b, ip, out, d, false).Next? && |SafeStep(b, ip, out, d, false).out| + MFLIMIT <= c
    requires ip + 1 + b[ip] / 16 <= |b| - (2 + 1 + LASTLITERALS)
    ensures SafeStep(b, ip, out, c, false) == SafeStep(b, ip, out, d, false)
  {
    hide CopyMatch, ReadVariable;
    var p := ip + 1 + b[ip] / 16;
    var out1 := out + b[ip + 1..p];
    ShortcutIs(b, ip, out, d, false, p, out1);
    assert SafeSlow(b, ip, out, c, false) == Literals(p, out1);
  }

  /** With less room a step is the same, as long as the data and 14 bytes more fit. */
  lemma StepInLessRoom(b: seq<byte>, ip: nat, out: seq<byte>, c: nat, d: nat)
    requires ip < |b| && |out| <= c <= d && SafeSequence(b, ip, out, d, false).Decoded?
    requires |SafeSequence(b, ip, out, d, false).out| + 14 <= c
    ensures SafeStep(b, ip, out, c, false) == SafeStep(b, ip, out, d, false)
  {
    hide CopyMatch, ReadVariable, SafeLiteralLength, SafeMatchLength;
    var s := SafeStep(b, ip, out, d, false);
    if s.Next? {
      OutputGrows(b, s.ip, s.out, d);
    }
    if InShortcut(b, ip, |out|, d) {
      if ip + 1 + b[ip] / 16 > |b| - (2 + 1 + LASTLITERALS) {
        ShortcutNearEnd(b, ip, out, d);
      }
      if InShortcut(b, ip, |out|, c) {
        BothShort(b, ip, out, c, d);
      } else {
        ShortcutIsSlow(b, ip, out, c, d);
      }
    } else {
      BothSlow(b, ip, out, c, d);
    }
  }

  lemma BothShort(b: seq<byte>, ip: nat, out: seq<byte>, c: nat, d: nat)
    requires ip < |b| && |out| <= c <= d && InShortcut(b, ip, |out|, d) && InShortcut(b, ip, |out|, c)
    requires SafeStep(b, ip, out, d, false).Next? && |SafeStep(b, ip, out, d, false).out| + MFLIMIT <= c
    ensures SafeStep(b, ip, out, c, false) == SafeStep(b, ip, out, d, false)
  {
    hide SafeMatch;
    var p := ip + 1 + b[ip] / 16;
    if !QuickMatch(b, ip, p, |out| + b[ip] / 16) {
      MatchInLessRoom(b, ip, p, out + b[ip + 1..p], c, d);
    }
  }

  lemma BothSlow(b: seq<byte>, ip: nat, out: seq<byte>, c: nat, d: nat)
    requires ip < |b| && |out| <= c <= d && !InShortcut(b, ip, |out|, d)
    requires match SafeStep(b, ip, out, d, false)
             case Done(o) => o.Decoded? && |o.out| + MFLIMIT <= c
             case Next(_, out2) => |out2| + MFLIMIT <= c
    ensures SafeStep(b, ip, out, c, false) == SafeStep(b, ip, out, d, false)
  {
    hide SafeSlow, SafeMatchLength, CopyMatch;
    var s := SafeSlow(b, ip, out, d, false);
    SlowInLessRoom(b, ip, out, c, d);
    if s.Literals? {
      MatchInLessRoom(b, ip, s.ip, s.out, c, d);
    }
  }

  lemma {:induction false} SequenceInLessRoom(b: seq<byte>, ip: nat, out: seq<byte>, c: nat, d: nat)
    requires ip < |b| && |out| <= c <= d && SafeSequence(b, ip, out, d, false).Decoded?
    requires |SafeSequence(b, ip, out, d, false).out| + 14 <= c
    ensures SafeSequence(b, ip, out, c, false) == SafeSequence(b, ip, out, d, false)
    decreases |b| - ip
  {
    hide SafeStep;
    StepInLessRoom(b, ip, out, c, d);
    var s := SafeStep(b, ip, out, d, false);
    if s.Next? {
      SequenceInLessRoom(b, s.ip, s.out, c, d);
    }
  }

  /** What is decoded in some room is decoded alike in any larger one, and in any that takes 14 bytes more than the
      data. */
  lemma VerdictByRoom(b: seq<byte>, c: nat, d: nat)
    requires c > 0 && SafeDecode(b, c, false).Decoded?
    requires c <= d || (0 < d && |SafeDecode(b, c, false).out| + 14 <= d)
    ensures SafeDecode(b, d, false) == SafeDecode(b, c, false)
  {
    hide SafeSequence;
    if c <= d {
      SequenceInMoreRoom(b, 0, [], c, d);
    } else {
      SequenceInLessRoom(b, 0, [], d, c);
    }
  }

  /** When the room does not matter: a block that decodes to n bytes in some room is decoded in every room for them
      exactly if it is in the room of just n bytes. */
  lemma RoomDoesNotMatter(b: seq<byte>, c: nat)
    requires SafeDecode(b, c, false).Decoded? && |SafeDecode(b, c, false).out| > 0
    ensures var n := |SafeDecode(b, c, false).out|;
      SafeDecode(b, n, false).Decoded? <==>
        forall d: nat :: n <= d ==> SafeDecode(b, d, false) == SafeDecode(b, c, false)
  {
    var n := |SafeDecode(b, c, false).out|;
    hide SafeDecode;
    if SafeDecode(b, n, false).Decoded? {
      forall d: nat | n <= d ensures SafeDecode(b, d, false) == SafeDecode(b, c, false) {
        VerdictByRoom(b, n, d);
        VerdictByRoom(b, n, c);
      }
    }
  }

  /** A match whose offset stands in the last five bytes, and no literals after it. */
  function Hasty(): seq<byte> {
    [224, 0, 0, 0, 0, 0, 0, 0, 0, 0, 0, 0, 0, 0, 0, 8, 0, 0]
  }

  lemma HastyQuick()
    ensures InShortcut(Hasty(), 0, 0, 32)
    ensures SafeShortcut(Hasty(), 0, [], 32, false) == Next(17, CopyMatch([] + Hasty()[1..15], 8, 4))
  {
  }

  lemma HastySlow()
    ensures !InShortcut(Hasty(), 0, 0, 31)
    ensures SafeSlow(Hasty(), 0, [], 31, false) == Stop(Malformed(1))
  {
  }

  /** For a block that breaks the rules for its end it does matter, because the shortcut does not check them; and the 14
      bytes are needed: its data is 18 bytes, and room for 31 is not enough. */
  lemma VerdictDependsOnRoom()
    ensures SafeDecode(Hasty(), 32, false).Decoded? && |SafeDecode(Hasty(), 32, false).out| == 18
    ensures SafeDecode(Hasty(), 31, false) == Malformed(1)
  {
    HastyQuick();
    HastySlow();
    assert SafeStep(Hasty(), 0, [], 31, false) == Done(Malformed(1));
    var out := CopyMatch([] + Hasty()[1..15], 8, 4);
    assert SafeStep(Hasty(), 0, [], 32, false) == Next(17, out);
    assert SafeStep(Hasty(), 17, out, 32, false) == Done(Decoded(out + Hasty()[18..]));
  }

  /** Whatever block the decoder accepts, its output is the meaning the grammar gives to that block. */
  lemma SafeDecodeSound(b: seq<byte>, cap: nat)
    requires SafeDecode(b, cap, false).Decoded?
    ensures Interpret(b, 0, []) == Some(SafeDecode(b, cap, false).out)
  {
    if cap > 0 {
      SafeSequenceSound(b, 0, [], cap);
    } else {
      assert ParseSequence(b, 0) == Last(1);
      assert [] + b[1..] == [];
    }
  }

  // ----- Agreement with the simple decoder -----

  /** An accepted block still has a token and the remaining data's last literals ahead, and its output only grows. */
  lemma {:induction false} TrustingAhead(b: seq<byte>, ip: nat, out: seq<byte>, size: nat, consumed: nat, o: seq<byte>)
    requires |out| <= size
    requires TrustingSequence(b, ip, out, size) == Accepted(consumed, o)
    ensures ip + 1 + (if size - |out| < LASTLITERALS then size - |out| else LASTLITERALS) <= consumed <= |b|
    ensures |o| == size && out <= o
    decreases |b| - ip
  {
    var s := TrustingStep(b, ip, out, size);
    if s.Onward? {
      TrustingAhead(b, s.ip, s.out, size, consumed, o);
      TrustingGrows(b, ip, out, size);
      PrefixOfPrefix(out, s.out, o);
    }
  }

  lemma TrustingGrows(b: seq<byte>, ip: nat, out: seq<byte>, size: nat)
    requires |out| <= size && TrustingStep(b, ip, out, size).Onward?
    ensures out <= TrustingStep(b, ip, out, size).out
  {
    var lit := LiteralLength(b, ip);
    var p := lit.pos + lit.value;
    var out1 := out + b[lit.pos..p];
    CopyMatchPrefix(out1, ReadLE16(b, p), 0, MatchLength(b, ip, p + 2).value);
    PrefixOfPrefix(out, out1, TrustingStep(b, ip, out, size).out);
  }

  lemma PrefixOfPrefix(a: seq<byte>, b: seq<byte>, c: seq<byte>)
    requires a <= b <= c
    ensures a <= c
  {
    assert c[..|a|] == c[..|b|][..|a|];
  }

  /** The next sequence of a block that the simple decoder accepts as a whole, with `o` bytes of output: literals
      `b[q..p]` with output `out1` after them and, unless they end the block, output `out2` after the match and the
      next token at `next`. */
  ghost predicate Ahead(b: seq<byte>, ip: nat, out: seq<byte>, o: seq<byte>,
                        q: nat, p: nat, out1: seq<byte>, next: nat, out2: seq<byte>) {
    && ip < q <= p <= |b| && LiteralLength(b, ip) == Length(p - q, q)
    && out1 == out + b[q..p] && out1 <= o
    && if |out1| == |o| then p == |b|
       else
         && |o| - |out1| >= MFLIMIT && p + 8 <= |b| && p + 2 <= next && next + 6 <= |b|
         && 1 <= ReadLE16(b, p) <= |out1| < |out2| && out2 <= o && |out2| + LASTLITERALS <= |o|
         && MatchLength(b, ip, p + 2) == Length(|out2| - |out1|, next)
         && out2 == CopyMatch(out1, ReadLE16(b, p), |out2| - |out1|)
  }

  lemma TrustingLookAhead(b: seq<byte>, ip: nat, out: seq<byte>, size: nat, o: seq<byte>)
      returns (q: nat, p: nat, out1: seq<byte>, next: nat, out2: seq<byte>)
    requires |out| <= size && TrustingSequence(b, ip, out, size) == Accepted(|b|, o)
    ensures Ahead(b, ip, out, o, q, p, out1, next, out2) && |o| == size
    ensures |out1| < size ==> TrustingSequence(b, next, out2, size) == Accepted(|b|, o)
  {
    hide LiteralLength, CopyMatch;
    assert |o| == size && out <= o by {
      TrustingAhead(b, ip, out, size, |b|, o);
    }
    var lit := LiteralLength(b, ip);
    q, p := lit.pos, lit.pos + lit.value;
    out1 := out + b[q..p];
    next, out2 := 0, [];
    TrustingStepIs(b, ip, out, size, q, p, out1);
    var s := TrustingStep(b, ip, out, size);
    if s.Onward? {
      next, out2 := s.ip, s.out;
      assert out2 <= o && next + 6 <= |b| by {
        TrustingAhead(b, next, out2, size, |b|, o);
      }
      assert out1 <= o by {
        CopyMatchPrefix(out1, ReadLE16(b, p), 0, |out2| - |out1|);
        PrefixOfPrefix(out1, out2, o);
      }
    }
  }

  function Take(s: seq<byte>, n: nat): (r: seq<byte>)
    ensures |r| == if n < |s| then n else |s|
  {
    if n < |s| then s[..n] else s
  }

  lemma CopyTrusted(b: seq<byte>, ip: nat, out: seq<byte>, offset: nat, cap: nat, partial: bool, o: seq<byte>,
                    out2: seq<byte>)
    requires ip < |b| && |out| <= cap && 1 <= offset <= |out| <= |out2|
    requires out2 == CopyMatch(out, offset, |out2| - |out|)
    requires out2 <= o && |out2| + LASTLITERALS <= |o| && (partial || |o| <= cap)
    ensures SafeCopy(b, ip, out, offset, |out2| - |out|, cap, partial) ==
            if |out2| >= cap then Done(Decoded(Take(o, cap))) else Next(ip, out2)
  {
    if |out2| >= cap {
      CopyMatchPrefix(out, offset, cap - |out|, |out2| - |out|);
      assert out2[..cap] == o[..|out2|][..cap] == o[..cap];
    }
  }

  /** A match of such a block. */
  lemma MatchTrusted(b: seq<byte>, t: nat, p: nat, out: seq<byte>, cap: nat, partial: bool,
                     o: seq<byte>, next: nat, out2: seq<byte>)
    requires t < p && p + 2 <= next && next + 6 <= |b| && |out| <= cap && 1 <= ReadLE16(b, p) <= |out| <= |out2|
    requires MatchLength(b, t, p + 2) == Length(|out2| - |out|, next)
    requires out2 == CopyMatch(out, ReadLE16(b, p), |out2| - |out|)
    requires out2 <= o && |out2| + LASTLITERALS <= |o| && (partial || |o| <= cap)
    ensures SafeMatch(b, t, p, out, cap, partial) ==
            if |out2| >= cap then Done(Decoded(Take(o, cap))) else Next(next, out2)
  {
    MatchLengthsAgree(b, t, p + 2);
    CopyTrusted(b, next, out, ReadLE16(b, p), cap, partial, o, out2);
  }

  /** The literals of such a block. */
  lemma LiteralsTrusted(b: seq<byte>, q: nat, p: nat, out: seq<byte>, out1: seq<byte>, cap: nat, partial: bool,
                        o: seq<byte>)
    requires q <= p <= |b| && |out| <= cap && out1 == out + b[q..p]
    requires out1 <= o && (partial || |o| <= cap)
    requires if |o| == |out1| then p == |b| else |o| - |out1| >= MFLIMIT && p + 8 <= |b|
    ensures SafeLiterals(b, q, out, p - q, cap, partial) ==
            if |o| == |out1| || cap <= |out1| then Stop(Decoded(Take(o, cap))) else Literals(p, out1)
  {
    assert o[..|o|] == o;
    if partial {
      var n := if |out1| > cap then cap - |out| else p - q;
      assert out + b[q..q + n] == out1[..|out| + n] == o[..|out| + n];
    } else if |o| == |out1| {
      assert b[q..] == b[q..p];
      assert out1 == o;
    }
  }

  lemma ShortcutTrusted(b: seq<byte>, ip: nat, out: seq<byte>, cap: nat, partial: bool, o: seq<byte>,
                        q: nat, p: nat, out1: seq<byte>, next: nat, out2: seq<byte>)
    requires ip < |b| && |out| <= cap && (partial || |o| <= cap) && InShortcut(b, ip, |out|, cap)
    requires Ahead(b, ip, out, o, q, p, out1, next, out2)
    ensures |out1| < |o|
    ensures SafeShortcut(b, ip, out, cap, partial) == Done(Decoded(Take(o, cap)))
            || SafeShortcut(b, ip, out, cap, partial) == Next(next, out2)
  {
    hide CopyMatch, ReadVariable;
    ShortcutIs(b, ip, out, cap, partial, p, out1);
    if !QuickMatch(b, ip, p, |out1|) {
      MatchTrusted(b, ip, p, out1, cap, partial, o, next, out2);
    }
  }

  /** A step on such a block either returns the whole, truncated output or copies exactly this sequence. */
  lemma TrustedStep(b: seq<byte>, ip: nat, out: seq<byte>, cap: nat, partial: bool, o: seq<byte>,
                    q: nat, p: nat, out1: seq<byte>, next: nat, out2: seq<byte>)
    requires ip < |b| && |out| <= cap && (partial || |o| <= cap)
    requires Ahead(b, ip, out, o, q, p, out1, next, out2)
    ensures SafeStep(b, ip, out, cap, partial) == Done(Decoded(Take(o, cap)))
            || (|out1| < |o| && SafeStep(b, ip, out, cap, partial) == Next(next, out2))
  {
    if InShortcut(b, ip, |out|, cap) {
      ShortcutTrusted(b, ip, out, cap, partial, o, q, p, out1, next, out2);
    } else {
      assert SafeSlow(b, ip, out, cap, partial) == SafeLiterals(b, q, out, p - q, cap, partial) by {
        LiteralLengthsAgree(b, ip);
      }
      LiteralsTrusted(b, q, p, out, out1, cap, partial, o);
      if |out1| != |o| && |out1| < cap {
        MatchTrusted(b, ip, p, out1, cap, partial, o, next, out2);
      }
    }
  }

  lemma {:induction false} TrustedSequence(b: seq<byte>, ip: nat, out: seq<byte>, size: nat, o: seq<byte>, cap: nat,
                                           partial: bool)
    requires |out| <= size && |out| <= cap && (partial || size <= cap)
    requires TrustingSequence(b, ip, out, size) == Accepted(|b|, o)
    ensures ip < |b|
    ensures SafeSequence(b, ip, out, cap, partial) == Decoded(Take(o, cap))
    decreases |b| - ip
  {
    var q, p, out1, next, out2 := TrustingLookAhead(b, ip, out, size, o);
    TrustedStep(b, ip, out, cap, partial, o, q, p, out1, next, out2);
    if SafeStep(b, ip, out, cap, partial).Next? {
      TrustedSequence(b, next, out2, size, o, cap, partial);
    }
  }

  /** A block that the simple decoder accepts, at its exact size, is decoded to the same bytes into any buffer that
      can hold them; a partial decode returns the first bytes of the same output, whatever the target. The one
      exception is a full decode of an empty block into an empty buffer, which must be the byte 0. */
  lemma TrustedDecode(b: seq<byte>, size: nat, o: seq<byte>, cap: nat, partial: bool)
    requires TrustingSequence(b, 0, [], size) == Accepted(|b|, o)
    requires partial || size <= cap
    ensures |o| == size
    ensures SafeDecode(b, cap, partial) == Decoded(Take(o, cap)) <==> partial || cap > 0 || b == [0]
  {
    TrustingAhead(b, 0, [], size, |b|, o);
    if cap > 0 {
      TrustedSequence(b, 0, [], size, o, cap, partial);
    }
  }
}
