/** From which size of the input on LZ4_compressHC2_limitedOutput can write beyond its limit. */
module HcExact {
  import opened Bytes
  import opened BlockFormat
  import opened FastSound
  import opened MatchCount
  import opened WildCopy
  import opened FastLimit
  import opened FastCodec
  import opened HcFinder
  import opened HcParse
  import opened HcLimit
  import opened HcCompress

  /** A match must follow LONG_RUN literals, and start more than MFLIMIT bytes before the end. */
  const FIRST_SPILL_HC := LONG_RUN + MFLIMIT + 1

  /** By how much an output limit is passed at most, for inputs below some sizes. */
  lemma SpillWithin(src: seq<byte>, level: int, maxOut: nat, e: nat)
    requires |src| < FIRST_SPILL_HC || (|src| <= 0x4_0000 && e >= 4) || (|src| <= 0x40_0000 && e >= MOST)
    ensures Reach(SpillOfHc(src, level, maxOut), maxOut) <= maxOut + e
  {
    hide RunWithin, MatchWithin, SpillAll, Encodes, Run, SequencesBytes;
    var seqs := HcBlock(src, level).seqs;
    forall i | 0 <= i < |seqs|
      ensures RunWithin(|seqs[i].lits|, e) && MatchWithin(seqs[i].matchLen - MINMATCH, e)
    {
      RunExcess(|seqs[i].lits|, e);
      MatchExcess(seqs[i].matchLen - MINMATCH, e);
    }
    ReachWithin(src, seqs, maxOut, e);
  }

  // ---------------------------------------------------------------- an input that spills

  const NOTES := 24000

  /** The number of markers before a position, over and over from 0. */
  function Note(k: nat): nat { k / 3 % NOTES }

  /** A marker, and two digits of the number of markers before it. */
  function NoteByte(k: nat): byte {
    if k % 3 == 0 then 255 else if k % 3 == 1 then 1 + Note(k) / 200 else 1 + Note(k) % 200
  }

  /** Literals without a repetition in reach up to the last one, and then zeros. */
  function TuneByte(k: nat, run: nat): byte { if k < run - 1 then NoteByte(k) else 0 }

  predicate Tune(src: seq<byte>, run: nat) {
    && 4 <= run && run + MFLIMIT < |src| <= LZ4_MAX_INPUT_SIZE
    && forall k :: 0 <= k < |src| ==> src[k] == TuneByte(k, run)
  }

  /** Two digits tell the number. */
  lemma DigitsTell(p: nat, q: nat)
    requires Note(p) / 200 == Note(q) / 200 && Note(p) % 200 == Note(q) % 200
    ensures Note(p) == Note(q)
  {
    hide Note;
  }

  lemma Thirds(k: nat)
    ensures k % 3 == 0 ==> (k + 1) % 3 == 1 && (k + 1) / 3 == k / 3
    ensures k % 3 == 1 ==> (k + 1) % 3 == 2 && (k + 1) / 3 == k / 3
    ensures k % 3 == 2 ==> (k + 1) % 3 == 0 && (k + 1) / 3 == k / 3 + 1
  {
  }

  lemma MarkerByte(k: nat)
    ensures NoteByte(k) == 255 <==> k % 3 == 0
  {
    assert Note(k) < NOTES;
    hide Note;
  }

  /** Four bytes of notes. */
  predicate SameNotes(p: nat, q: nat) {
    && NoteByte(p) == NoteByte(q) && NoteByte(p + 1) == NoteByte(q + 1)
    && NoteByte(p + 2) == NoteByte(q + 2) && NoteByte(p + 3) == NoteByte(q + 3)
  }

  /** The markers tell where in its group a position is. */
  lemma MarkersTell(p: nat, q: nat)
    requires SameNotes(p, q)
    ensures p % 3 == q % 3
  {
    hide NoteByte;
    MarkerByte(p);
    MarkerByte(q);
    MarkerByte(p + 1);
    MarkerByte(q + 1);
    Thirds(p);
    Thirds(q);
  }

  /** Two digits in their places tell the note. */
  lemma GroupTells(p: nat, q: nat)
    requires p % 3 == q % 3 == 1 && NoteByte(p) == NoteByte(q) && NoteByte(p + 1) == NoteByte(q + 1)
    ensures Note(p) == Note(q)
  {
    Thirds(p);
    Thirds(q);
    assert Note(p + 1) == Note(p) && Note(q + 1) == Note(q);
    hide Note;
    DigitsTell(p, q);
  }

  lemma NextNote(k: nat)
    ensures k % 3 == 2 ==> Note(k + 1) == if Note(k) == NOTES - 1 then 0 else Note(k) + 1
  {
    Thirds(k);
    NextMod(k / 3);
  }

  lemma NextMod(x: nat)
    ensures (x + 1) % NOTES == if x % NOTES == NOTES - 1 then 0 else x % NOTES + 1
  {
  }

  /** So four bytes tell where they are, but for whole rounds. */
  lemma NotesTell(p: nat, q: nat)
    requires SameNotes(p, q)
    ensures p % 3 == q % 3 && Note(p) == Note(q)
  {
    MarkersTell(p, q);
    Thirds(p);
    Thirds(q);
    hide NoteByte;
    if p % 3 == 0 {
      assert Note(p) == Note(p + 1) && Note(q) == Note(q + 1);
      GroupTells(p + 1, q + 1);
    } else if p % 3 == 1 {
      GroupTells(p, q);
    } else {
      Thirds(p + 1);
      Thirds(q + 1);
      assert Note(p + 1) == Note(p + 2) && Note(q + 1) == Note(q + 2);
      NextNote(p);
      NextNote(q);
      hide Note;
      GroupTells(p + 2, q + 2);
    }
  }

  /** A round is longer than matches reach. */
  lemma RoundsApart(p: nat, q: nat)
    requires p % 3 == q % 3 && Note(p) == Note(q) && q < p
    ensures p - q > MAX_DISTANCE
  {
    var a, b := p / 3, q / 3;
    assert a % NOTES == b % NOTES && b < a;
    SameMod(a, b);
  }

  lemma SameMod(a: nat, b: nat)
    requires a % NOTES == b % NOTES && b < a
    ensures a - b >= NOTES
  {
  }

  // ---------------------------------------------------------------- what the parser makes of it

  lemma NotZero(k: nat)
    ensures NoteByte(k) > 0
  {
    hide Note;
  }

  /** There is no match before the zeros repeat. */
  lemma TuneQuiet(src: seq<byte>, run: nat, c: Candidate)
    requires Tune(src, run) && Good(src, c)
    ensures c.start >= run
  {
    hide NoteByte, TuneByte;
    var p, q := c.start, c.ref;
    if p < run {
      assert src[p] == src[q] && src[p + 1] == src[q + 1] && src[p + 2] == src[q + 2] && src[p + 3] == src[q + 3] by {
        FourAgree(src, c);
      }
      TuneAt(src, run, p, q);
      if p + 3 < run - 1 {
        NotesTell(p, q);
        RoundsApart(p, q);
      }
    }
  }

  lemma FourAgree(src: seq<byte>, c: Candidate)
    requires Good(src, c)
    ensures c.ref < c.start && c.start - c.ref <= MAX_DISTANCE && c.start + 4 <= |src|
    ensures var p, q := c.start, c.ref;
            src[p] == src[q] && src[p + 1] == src[q + 1] && src[p + 2] == src[q + 2] && src[p + 3] == src[q + 3]
  {
    var d := c.start - c.ref;
    assert forall k :: c.start <= k < c.End() ==> src[k] == src[k - d];
    assert src[c.start + 1] == src[c.start + 1 - d] && src[c.start + 2] == src[c.start + 2 - d];
    assert src[c.start + 3] == src[c.start + 3 - d];
  }

  /** What four bytes that agree are, at two places of which one is before the zeros repeat. */
  lemma TuneAt(src: seq<byte>, run: nat, p: nat, q: nat)
    requires Tune(src, run) && q < p < run
    requires src[p] == src[q] && src[p + 1] == src[q + 1] && src[p + 2] == src[q + 2] && src[p + 3] == src[q + 3]
    ensures p + 3 < run - 1 && SameNotes(p, q)
  {
    hide NoteByte;
    NotZero(q);
    NotZero(q + 1);
    NotZero(q + 2);
    NotZero(q + 3);
  }

  ghost predicate Quiet(src: seq<byte>, s: Parser) {
    && Sound(src, s) && s.j.label_.MainLoop? && s.j.anchor == 0 && s.seqs == [] && s.j.ip >= 1
    && s.t.next == BASE + s.j.ip - 1
  }

  /** The main loop walks up to the zeros. */
  lemma {:induction false} QuietRun(src: seq<byte>, run: nat, attempts: nat, s: Parser) returns (r: Parser)
    requires Tune(src, run) && Quiet(src, s) && s.j.ip <= run
    ensures Quiet(src, r) && r.j.ip == run && Run(src, attempts, s) == Run(src, attempts, r)
    decreases run - s.j.ip
  {
    hide Sound, Tune, InsertTo, Best, Chains.Valid, Good;
    r := s;
    if s.j.ip < run {
      QuietStep(src, run, attempts, s);
      r := QuietRun(src, run, attempts, NextMain(src, attempts, s));
    }
  }

  lemma QuietStep(src: seq<byte>, run: nat, attempts: nat, s: Parser)
    requires Tune(src, run) && Quiet(src, s) && s.j.ip < run
    ensures !AtEnd(src, s.j)
    ensures var r := NextMain(src, attempts, s);
            Quiet(src, r) && r.j.ip == s.j.ip + 1 && Run(src, attempts, s) == Run(src, attempts, r)
  {
    hide Codes, AllEncodable, Short, InsertTo, Best, Chains.Valid, Good;
    NextFollows(src, attempts, s);
    Inserted(src, s.t, s.j.ip);
    var t := InsertTo(src, s.t, s.j.ip);
    BestGood(src, t, s.j.ip, attempts);
    if Best(src, t, s.j.ip, attempts).len > 0 { TuneQuiet(src, run, Best(src, t, s.j.ip, attempts)); }
  }

  lemma ZeroWord(src: seq<byte>, p: nat, n: nat)
    requires p + n <= |src| && forall k :: p <= k < p + n ==> src[k] == 0
    ensures Word(src, p, n) == 0
    decreases n
  {
  }

  lemma {:induction false} ZerosAgree(src: seq<byte>, p: nat, m: nat, limit: nat)
    requires m <= p <= limit <= |src| && forall k :: m <= k < limit ==> src[k] == 0
    ensures CommonLength(src, p, m, limit) == limit - p
    decreases limit - p
  {
    if p < limit { ZerosAgree(src, p + 1, m + 1, limit); }
  }

  lemma TuneZeros(src: seq<byte>, run: nat)
    requires Tune(src, run)
    ensures forall k :: run - 1 <= k < |src| ==> src[k] == 0
  {
    hide NoteByte;
  }

  /** There the position before is the head of the chain, and all the rest repeats it. */
  lemma ZerosFound(src: seq<byte>, run: nat, attempts: nat, s: Parser)
    requires Tune(src, run) && Quiet(src, s) && s.j.ip == run && attempts > 0
    ensures var c := Best(src, InsertTo(src, s.t, run), run, attempts);
            c.start == run && c.End() == |src| - LASTLITERALS && c.len >= MINMATCH && Good(src, c)
  {
    hide Codes, AllEncodable, Short, Tune, InsertTo, Best, HashAt, Word, CommonLength, Chains.Valid, Good;
    TuneZeros(src, run);
    assert run + MFLIMIT < |src| by { hide TuneByte; TuneSize(src, run); }
    Inserted(src, s.t, run);
    var t := InsertTo(src, s.t, run);
    LastIsHead(src, s.t, run);
    ZeroWord(src, run - 1, 4);
    ZeroWord(src, run, 4);
    SameHash(src, run - 1, run);
    HeadFound(src, t, run, attempts);
    ZerosAgree(src, run, run - 1, |src| - LASTLITERALS);
    BestGood(src, t, run, attempts);
    ReadyEnds(src, Best(src, t, run, attempts));
  }

  lemma TuneSize(src: seq<byte>, run: nat)
    requires Tune(src, run)
    ensures run + MFLIMIT < |src| <= LZ4_MAX_INPUT_SIZE && run >= 4
  {
  }

  lemma SameHash(src: seq<byte>, p: nat, q: nat)
    requires p + 4 <= |src| && q + 4 <= |src| && Word(src, p, 4) == Word(src, q, 4)
    ensures HashAt(src, p) == HashAt(src, q)
  {
    hide Word;
  }

  /** So the block is one run of literals and one match, at every level. */
  lemma TuneBlock(src: seq<byte>, run: nat, level: int) returns (s: Sequence)
    requires Tune(src, run)
    ensures HcBlock(src, level).seqs == [s] && |s.lits| == run
  {
    hide Tune, Sound, InsertTo, Best, Chains.Valid, Good, Encodes;
    TuneSize(src, run);
    StartSound(src);
    var attempts := Attempts(level);
    var r := QuietRun(src, run, attempts, AtStart());
    ZerosFound(src, run, attempts, r);
    NextFollows(src, attempts, r);
    var at := NextState(src, attempts, r);
    NextFollows(src, attempts, at);
    var end := NextState(src, attempts, at);
    ReadyEnds(src, at.j.c1);
    assert Run(src, attempts, r) == Run(src, attempts, at) == Run(src, attempts, end) == end;
    s := SequenceOf(src, 0, at.j.c1);
    assert end.seqs == [] + [s] == [s];
  }

  /** And where the run is counted too short, its copy goes past the limit. */
  lemma TuneSpills(src: seq<byte>, run: nat, level: int, maxOut: nat)
    requires Tune(src, run) && run > 8 && run % 8 == 1 && RunPasses(0, run, maxOut) && AfterCopy(0, run) > maxOut
    ensures SpillOfHc(src, level, maxOut) == Some(Spill(AfterCopy(0, run) - 1, 0))
  {
    hide Tune, HcBlock, SpillOne, RunPasses, AfterCopy, SequencesBytes;
    TuneSize(src, run);
    TuneZeros(src, run);
    var s := TuneBlock(src, run, level);
    HcBlockEncodable(src, level);
    assert [s][0] == s;
    NoSequences();
    SpillSnoc(src, [], s, maxOut);
    assert [] + [s] == [s];
    CopySpills(src, s, maxOut);
  }

  lemma NoSequences()
    ensures SequencesBytes([]) == [] && SeqsLength([]) == 0
  {
  }

  lemma CopySpills(src: seq<byte>, s: Sequence, maxOut: nat)
    requires Encodable(s) && |s.lits| % 8 == 1 && |s.lits| > 8 && |s.lits| + 7 <= |src|
    requires RunPasses(0, |s.lits|, maxOut) && AfterCopy(0, |s.lits|) > maxOut
    ensures SpillOne(src, 0, 0, s, maxOut) == Some(Spill(AfterCopy(0, |s.lits|) - 1, src[|s.lits| + 6]))
  {
    hide Extension;
  }

  /** Whatever the input, the level and the limit, nothing is written beyond the limit, if and only if the input
      is shorter than FIRST_SPILL_HC bytes. */
  lemma LimitExactlyHc(n: nat)
    requires n <= LZ4_MAX_INPUT_SIZE
    ensures n < FIRST_SPILL_HC <==>
              forall src: seq<byte>, level: int, maxOut: nat :: |src| == n ==> SpillOfHc(src, level, maxOut) == None
  {
    hide HcBlock, SpillAll;
    if n < FIRST_SPILL_HC {
      forall src: seq<byte>, level: int, maxOut: nat | |src| == n ensures SpillOfHc(src, level, maxOut) == None {
        SpillWithin(src, level, maxOut, 0);
      }
    } else {
      var src := TuneOf(n, LONG_RUN);
      TuneLong(src, 0);
    }
  }

  function TuneOf(n: nat, run: nat): (src: seq<byte>)
    requires 4 <= run && run + MFLIMIT < n <= LZ4_MAX_INPUT_SIZE
    ensures |src| == n && Tune(src, run)
  {
    seq(n, k requires 0 <= k < n => TuneByte(k, run))
  }

  /** With room for 5655 bytes, the byte of index 5655 is written. */
  lemma TuneLong(src: seq<byte>, level: int)
    requires Tune(src, LONG_RUN)
    ensures SpillOfHc(src, level, 5655) == Some(Spill(5655, 0))
  {
    hide Tune, HcBlock, SpillAll, Extension;
    ExtensionSize(LONG_RUN);
    TuneSpills(src, LONG_RUN, level, 5655);
  }
}
