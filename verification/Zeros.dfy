/** What both compressors make of a run of zeros, and the bytes of some lengths and of one sequence, written out. */
module Zeros {
  import opened Bytes
  import opened BlockFormat
  import opened MatchCount
  import opened FastParse
  import opened FastSound
  import opened FastCodec
  import opened HcFinder
  import opened HcParse
  import opened HcChain

  /** The three examples that the description of the format gives. */
  lemma LengthsKnown()
    ensures Nibble(48) == 15 && Extension(48) == [33]
    ensures Nibble(280) == 15 && Extension(280) == [255, 10]
    ensures Nibble(15) == 15 && Extension(15) == [0]
  {
    assert LengthBytes(265) == [255] + LengthBytes(10);
  }

  /** Five literals, and 300 bytes from 258 bytes back. */
  lemma SequenceKnown()
    ensures SequenceBytes(Sequence([65, 66, 67, 68, 69], 258, 300)) == [0x5F, 65, 66, 67, 68, 69, 2, 1, 255, 26]
  {
    assert Extension(296) == LengthBytes(281) == [255] + LengthBytes(26) == [255, 26];
    assert Extension(5) == [];
  }

  function ZerosOf(n: nat): (src: seq<byte>)
    ensures |src| == n && forall i :: 0 <= i < n ==> src[i] == 0
  {
    seq(n, i => 0)
  }

  /** One literal, one match that repeats it, and the five last literals. */
  function ZerosBlock(n: nat): Block
    requires n >= 14
  {
    Block([Sequence([0], 1, n - 6)], [0, 0, 0, 0, 0])
  }

  lemma ZerosAgree(n: nat)
    requires n >= 14
    ensures CommonLength(ZerosOf(n), 1, 0, n - LASTLITERALS) == n - 6
    ensures Word(ZerosOf(n), 0, 4) == Word(ZerosOf(n), 1, 4)
  {
    hide CommonLength;
    var src := ZerosOf(n);
    CommonStops(src, 1, 0, n - LASTLITERALS);
    if Word(src, 0, 4) != Word(src, 1, 4) { WordTells(src, 1, 0, 4, n - LASTLITERALS); }
  }

  lemma ZerosFast(n: nat)
    requires 14 <= n <= LZ4_MAX_INPUT_SIZE
    ensures CompressedBlock(ZerosOf(n)) == ZerosBlock(n)
  {
    hide CommonLength, Word, HashWord;
    var src := ZerosOf(n);
    var v, table := OneShot(src), ZeroTable(KindFor(n));
    OneShotValid(src);
    ZerosAgree(n);
    var t := AtMatch(v, table, 0);
    assert t == table;
    assert Usable(v, 0, 1);
    assert Search(v, t, 1, 1, SKIP_TRIGGER) == Hit(1, 0, Put(v, t, FastParse.Hash(v, 1), 1));
    UsableIsMatch(v, 0, 1);
    assert CatchUp(v, 1, 0, 0) == (1, 0);
    assert src[0..1] == [0] && src[n - 5..n] == [0, 0, 0, 0, 0];
    var t1 := Put(v, t, FastParse.Hash(v, 1), 1);
    assert MatchEnd(v, 1, 0) == n - 5;
    assert TakeMatch(v, t1, 1, 0, 0, []) == Greedy([] + [Sequence([0], 1, n - 6)], n - 5, t1);
    assert ParseBlock(v, table) == ParseFrom(v, t, 1, 0, []) == TakeMatch(v, t1, 1, 0, 0, []);
  }

  lemma ZerosHc(n: nat, level: int)
    requires 14 <= n <= LZ4_MAX_INPUT_SIZE
    ensures HcBlock(ZerosOf(n), level) == ZerosBlock(n)
  {
    hide CommonLength, Word, HashAt, Sound, Codes, InsertTo, Best, Good, Encodes, Linked, Candidates;
    var src, attempts := ZerosOf(n), Attempts(level);
    StartSound(src);
    ZerosAgree(n);
    NoChainsLinked(src);
    var s0 := AtStart();
    InsertToLinked(src, s0.t, 1);
    var t := InsertTo(src, s0.t, 1);
    FirstCandidate(src, attempts);
    BestLongest(src, t, 1, attempts, 0);
    BestGood(src, t, 1, attempts);
    var c := Best(src, t, 1, attempts);
    GoodBounds(src, c);
    assert c == Candidate(1, 0, n - 6);
    NextFollows(src, attempts, s0);
    var s1 := NextState(src, attempts, s0);
    NextFollows(src, attempts, s1);
    var s2 := NextState(src, attempts, s1);
    assert Run(src, attempts, s0) == Run(src, attempts, s1) == Run(src, attempts, s2) == s2;
    assert src[0..1] == [0] && src[n - 5..] == [0, 0, 0, 0, 0];
    assert s2.seqs == [] + [Sequence([0], 1, n - 6)];
  }

  lemma FirstCandidate(src: seq<byte>, attempts: nat)
    requires |src| >= 14 && Word(src, 0, 4) == Word(src, 1, 4) && attempts > 0
    ensures Candidates(src, 1, 0, 1, attempts)
  {
    hide Word, HashAt;
    assert Between(src, HashAt(src, 1), 0, 0) == 0;
  }
}
