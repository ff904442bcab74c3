/** What LZ4HC_encodeSequence writes beyond its output limit: it counts `length >> 8` for the length bytes
    of literals, too, and copies literals eight at a time. */
module HcLimit {
  import opened Bytes
  import opened BlockFormat
  import opened WildCopy
  import opened FastLimit
  import opened HcParse

  predicate RunPasses(token: nat, lits: nat, maxOut: nat) {
    token + 1 + lits / 256 + lits + (2 + 1 + LASTLITERALS) <= maxOut
  }

  /** Behind the literals that are copied. */
  function AfterCopy(token: nat, lits: nat): nat { token + 1 + |Extension(lits)| + Chunks(lits) }

  /** Both checks of a sequence. */
  predicate Passes(token: nat, s: Sequence, maxOut: nat)
    requires MINMATCH <= s.matchLen
  {
    RunPasses(token, |s.lits|, maxOut) && MatchPasses(AfterOffset(token, |s.lits|), s.matchLen - MINMATCH, maxOut)
  }

  /** The last byte that one sequence writes at the limit or behind it, and its index. The literals start
      at `anchor`; a sequence that fails a check is written up to there. */
  function SpillOne(src: seq<byte>, anchor: nat, token: nat, s: Sequence, maxOut: nat): (r: Option<Spill>)
    requires Encodable(s)
    ensures r.Some? ==> maxOut <= r.value.at
  {
    var lits, m := |s.lits|, s.matchLen - MINMATCH;
    var op := AfterOffset(token, lits);
    var copied := AfterCopy(token, lits);
    var end := if MatchPasses(op, m, maxOut) then op + |Extension(m)| else op;
    if !RunPasses(token, lits, maxOut) || (copied <= maxOut && end <= maxOut) then None
    else if copied > end then Some(Spill(copied - 1, ByteAt(src, anchor + Chunks(lits) - 1)))
    else if end > op then Some(Spill(end - 1, (m - ML_MASK) % 255))
    else Some(Spill(end - 1, s.offset / 256))
  }

  function ByteAt(src: seq<byte>, i: nat): byte { if i < |src| then src[i] else 0 }

  /** The one that is further away, the later one of two at the same place. */
  function Further(a: Option<Spill>, b: Option<Spill>): Option<Spill> {
    if b.Some? && (a.None? || a.value.at <= b.value.at) then b else a
  }

  /** The furthest byte that several sequences write at the limit or behind it. */
  function SpillAll(src: seq<byte>, seqs: seq<Sequence>, maxOut: nat): (r: Option<Spill>)
    requires AllEncodable(seqs)
    ensures r.Some? ==> maxOut <= r.value.at
  {
    if seqs == [] then None
    else
      var init, s := seqs[..|seqs| - 1], seqs[|seqs| - 1];
      Further(SpillAll(src, init, maxOut), SpillOne(src, SeqsLength(init), |SequencesBytes(init)|, s, maxOut))
  }

  /** Behind everything that is written. */
  function Reach(spill: Option<Spill>, maxOut: nat): (n: nat)
    ensures maxOut <= n
  {
    if spill.Some? then Max(maxOut, spill.value.at + 1) else maxOut
  }

  lemma SpillSnoc(src: seq<byte>, seqs: seq<Sequence>, s: Sequence, maxOut: nat)
    requires AllEncodable(seqs) && Encodable(s)
    ensures AllEncodable(seqs + [s])
    ensures SpillAll(src, seqs + [s], maxOut)
            == Further(SpillAll(src, seqs, maxOut), SpillOne(src, SeqsLength(seqs), |SequencesBytes(seqs)|, s, maxOut))
  {
    hide SpillOne;
    var t := seqs + [s];
    assert t[..|t| - 1] == seqs && t[|t| - 1] == s;
  }

  /** More sequences reach at least as far. */
  lemma {:induction false} SpillGrows(src: seq<byte>, a: seq<Sequence>, b: seq<Sequence>, maxOut: nat)
    requires AllEncodable(b) && a <= b
    ensures AllEncodable(a) && Reach(SpillAll(src, a, maxOut), maxOut) <= Reach(SpillAll(src, b, maxOut), maxOut)
    decreases |b|
  {
    hide SpillOne;
    if a != b { SpillGrows(src, a, b[..|b| - 1], maxOut); }
  }

  // ---------------------------------------------------------------- after a check has failed

  /** The last of these sequences does not pass. */
  predicate FailsLast(seqs: seq<Sequence>, maxOut: nat)
    requires AllEncodable(seqs)
  {
    seqs != [] &&
      var init, s := seqs[..|seqs| - 1], seqs[|seqs| - 1];
      Encodable(s) && !Passes(|SequencesBytes(init)|, s, maxOut)
  }

  /** Then the output is so long that no further sequence can begin. */
  lemma FailsFar(seqs: seq<Sequence>, maxOut: nat)
    requires AllEncodable(seqs) && FailsLast(seqs, maxOut)
    ensures |SequencesBytes(seqs)| + 9 > maxOut
  {
    hide SequencesBytes, Extension;
    var init, s := seqs[..|seqs| - 1], seqs[|seqs| - 1];
    assert seqs == init + [s];
    SequencesSnoc(init, s);
    SequenceSize(s);
    ExtensionSize(|s.lits|);
    ExtensionSize(s.matchLen - MINMATCH);
  }

  /** So nothing more is spilled, whatever follows. */
  lemma {:induction false} NoMoreSpill(src: seq<byte>, a: seq<Sequence>, b: seq<Sequence>, maxOut: nat)
    requires AllEncodable(b) && a <= b && AllEncodable(a) && FailsLast(a, maxOut)
    ensures SpillAll(src, b, maxOut) == SpillAll(src, a, maxOut)
    decreases |b|
  {
    hide SequencesBytes, AllEncodable, FailsLast, Extension;
    if a != b {
      var init, s := b[..|b| - 1], b[|b| - 1];
      EncodableInit(b);
      NoMoreSpill(src, a, init, maxOut);
      FailsFar(a, maxOut);
      PrefixSize(a, init);
    }
  }

  lemma EncodableInit(b: seq<Sequence>)
    requires AllEncodable(b) && b != []
    ensures AllEncodable(b[..|b| - 1]) && Encodable(b[|b| - 1])
  {
  }

  // ---------------------------------------------------------------- the run that is counted too short

  const LONG_RUN := 5625

  /** The literals of a run that passes the check, and the offset behind them, pass no limit by more than `e`. */
  ghost predicate RunWithin(lits: nat, e: nat) {
    forall token: nat, maxOut: nat :: RunPasses(token, lits, maxOut) ==>
      AfterCopy(token, lits) <= maxOut + e && AfterOffset(token, lits) <= maxOut + e
  }

  /** The same of the length bytes of a match. */
  ghost predicate MatchWithin(matchLength: nat, e: nat) {
    forall op: nat, maxOut: nat :: MatchPasses(op, matchLength, maxOut) ==> op + |Extension(matchLength)| <= maxOut + e
  }

  /** LONG_RUN is the shortest run for which the estimate does not hold. */
  lemma LongRunUndercounted(lits: nat)
    ensures lits < LONG_RUN ==> RunWithin(lits, 0)
    ensures !RunWithin(LONG_RUN, 0)
  {
    hide Extension;
    ExtensionSize(LONG_RUN);
    assert RunPasses(0, LONG_RUN, 5655) && AfterCopy(0, LONG_RUN) == 5656;
    if lits < LONG_RUN { RunExcess(lits, 0); }
  }

  /** By how much a run can pass the limit, and a match. */
  const MOST := 65

  lemma RunExcess(lits: nat, e: nat)
    requires || lits < LONG_RUN
             || (lits < 0x4_0000 && e >= 4)
             || (lits < 0x40_0000 && e >= MOST)
    ensures RunWithin(lits, e)
  {
    hide Extension;
    ExtensionSize(lits);
    RunEstimate(lits, e);
  }

  lemma RunEstimate(lits: nat, e: nat)
    requires || lits < LONG_RUN
             || (lits < 0x4_0000 && e >= 4)
             || (lits < 0x40_0000 && e >= MOST)
    ensures (lits + 240) / 255 + Chunks(lits) <= lits + lits / 256 + 8 + e
    ensures (lits + 240) / 255 <= lits / 256 + 6 + e
  {
  }

  lemma MatchExcess(matchLength: nat, e: nat)
    requires matchLength < 0x4_0000 || (matchLength < 0x40_0000 && e >= MOST)
    ensures MatchWithin(matchLength, e)
  {
    hide Extension;
    ExtensionSize(matchLength);
  }

  /** Then so do all sequences together. */
  lemma {:induction false} ReachWithin(src: seq<byte>, seqs: seq<Sequence>, maxOut: nat, e: nat)
    requires AllEncodable(seqs)
    requires forall i :: 0 <= i < |seqs| ==> RunWithin(|seqs[i].lits|, e) && MatchWithin(seqs[i].matchLen - MINMATCH, e)
    ensures Reach(SpillAll(src, seqs, maxOut), maxOut) <= maxOut + e
    decreases |seqs|
  {
    hide RunPasses, MatchPasses, AfterCopy, AfterOffset, Extension, SequencesBytes;
    if seqs != [] { ReachWithin(src, seqs[..|seqs| - 1], maxOut, e); }
  }
}
