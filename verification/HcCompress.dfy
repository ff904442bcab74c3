/** LZ4HC_compress_generic writes what its parser finds, within its output limit or up to where it gives up. */
module HcCompress {
  import opened Bytes
  import opened BlockFormat
  import opened BlockParser
  import opened BlockRules
  import opened WildCopy
  import opened FastParse
  import opened FastSound
  import opened FastLimit
  import opened FastCompress
  import opened FastCodec
  import opened Emit
  import opened HcFinder
  import opened HcParse
  import opened HcLimit

  // ---------------------------------------------------------------- room

  /** In a worst-case buffer there is always room for one more sequence. */
  lemma SequenceRoom(src: seq<byte>, acc: seq<Sequence>, anchor: nat, s: Sequence)
    requires OneShot(src).Valid() && AllEncodable(acc) && Encodable(s) && Codes(OneShot(src), acc, anchor)
    requires anchor + |s.lits| <= |src| - MFLIMIT && anchor + |s.lits| + s.matchLen <= |src|
    ensures AfterCopy(|SequencesBytes(acc)|, |s.lits|) <= CompressBound(|src|)
    ensures AfterOffset(|SequencesBytes(acc)|, |s.lits|) + |Extension(s.matchLen - MINMATCH)| <= CompressBound(|src|)
  {
    hide Expand, Legal, SequencesBytes, Extension, AllEncodable;
    SequencesSnoc(acc, s);
    SequenceSize(s);
    LiteralRoom(acc, |s.lits|, |src|);
    MatchRoom(acc + [s], |src|);
  }

  /** Behind everything that is written for these sequences. */
  function RoomFor(src: seq<byte>, limited: bool, maxOut: nat, goal: seq<Sequence>): nat
    requires AllEncodable(goal)
  {
    if limited then Reach(SpillAll(src, goal, maxOut), maxOut) else CompressBound(|src|)
  }

  /** A sequence that passes the checks has room. */
  ghost predicate HasRoom(token: nat, s: Sequence, limited: bool, maxOut: nat, room: nat)
    requires Encodable(s)
  {
    var op, m := AfterOffset(token, |s.lits|), s.matchLen - MINMATCH;
    !limited || RunPasses(token, |s.lits|, maxOut) ==>
      && AfterCopy(token, |s.lits|) <= room && op <= room
      && (!limited || MatchPasses(op, m, maxOut) ==> op + |Extension(m)| <= room)
  }

  lemma RoomIsEnough(src: seq<byte>, acc: seq<Sequence>, anchor: nat, s: Sequence, limited: bool, maxOut: nat,
                     goal: seq<Sequence>)
    requires OneShot(src).Valid() && AllEncodable(acc) && Encodable(s) && Codes(OneShot(src), acc, anchor)
    requires anchor + |s.lits| <= |src| - MFLIMIT && anchor + |s.lits| + s.matchLen <= |src|
    requires AllEncodable(goal) && acc + [s] <= goal
    ensures HasRoom(|SequencesBytes(acc)|, s, limited, maxOut, RoomFor(src, limited, maxOut, goal))
  {
    hide Expand, Legal, SequencesBytes, Extension, AllEncodable, AfterCopy, CompressBound;
    if limited {
      SpillSnoc(src, acc, s, maxOut);
      SpillGrows(src, acc + [s], goal, maxOut);
      OneReaches(src, anchor, |SequencesBytes(acc)|, s, maxOut);
      CodesLength(src, acc, anchor);
    } else {
      SequenceRoom(src, acc, anchor, s);
    }
  }

  lemma OneReaches(src: seq<byte>, anchor: nat, token: nat, s: Sequence, maxOut: nat)
    requires Encodable(s)
    ensures HasRoom(token, s, true, maxOut, Reach(SpillOne(src, anchor, token, s, maxOut), maxOut))
  {
    hide Extension, Chunks;
  }

  /** How the bytes of a sequence end. */
  lemma SequenceEnds(s: Sequence)
    requires Encodable(s)
    ensures var b, m := SequenceBytes(s), s.matchLen - MINMATCH;
            b[|b| - 1] == if |Extension(m)| > 0 then (m - ML_MASK) % 255 else s.offset / 256
  {
    hide HeadBytes, LengthBytes;
    var m := s.matchLen - MINMATCH;
    if m >= ML_MASK {
      LengthBytesEnd(m - ML_MASK);
      assert SequenceBytes(s) == (HeadBytes(s.lits, m) + OffsetBytes(s.offset)) + LengthBytes(m - ML_MASK);
    } else {
      assert SequenceBytes(s) == (HeadBytes(s.lits, m) + [s.offset % 256]) + [s.offset / 256];
    }
  }

  /** The bytes of one sequence, as far as the checks allow; and what spills. */
  method WriteSequence(src: seq<byte>, dst: array<byte>, limited: bool, maxOut: nat, token: nat, anchor: nat,
                       c: Candidate, ghost room: nat)
    returns (ok: bool, op: nat)
    requires Ready(src, c) && anchor <= c.start && room <= dst.Length
    requires HasRoom(token, SequenceOf(src, anchor, c), limited, maxOut, room)
    modifies dst
    ensures ok ==> Wrote(dst, token, op, SequenceBytes(SequenceOf(src, anchor, c)))
    ensures ok == (!limited || Passes(token, SequenceOf(src, anchor, c), maxOut))
    ensures OnlyWithin(dst, token, room)
    ensures limited ==>
              var one := SpillOne(src, anchor, token, SequenceOf(src, anchor, c), maxOut);
              && OnlyWithin(dst, token, Reach(one, maxOut))
              && (one.Some? ==> Spilled(dst, one, dst.Length, maxOut))
  {
    hide Repeats, Extension, HeadBytes, OffsetBytes, SequenceBytes, Chunks;
    ghost var s := SequenceOf(src, anchor, c);
    SequenceEnds(s);
    var length := c.start - anchor;
    op := token + 1;
    if limited && op + length / 256 + length + (2 + 1 + LASTLITERALS) > maxOut { return false, op; }
    op := WriteHead(src, dst, token, anchor, c);
    length := c.len - MINMATCH;
    if limited && op + length / 256 + (1 + LASTLITERALS) > maxOut { return false, op; }
    op := EmitMatchLength(dst, token, op, s.lits, s.offset, length);
    assert dst[op - 1] == dst[token..op][op - 1 - token];
    ok := true;
  }

  /** The token, the literals and the offset; the copy of the literals may reach behind the offset. */
  method WriteHead(src: seq<byte>, dst: array<byte>, token: nat, anchor: nat, c: Candidate) returns (op: nat)
    requires Ready(src, c) && anchor <= c.start
    requires AfterCopy(token, c.start - anchor) <= dst.Length && AfterOffset(token, c.start - anchor) <= dst.Length
    modifies dst
    ensures token + 1 <= op - 2 && op == AfterOffset(token, c.start - anchor)
    ensures Wrote(dst, token, op - 2, HeadBytes(src[anchor..c.start], 0))
    ensures Wrote(dst, op - 2, op, OffsetBytes(c.start - c.ref))
    ensures var copied := AfterCopy(token, c.start - anchor);
            && OnlyWithin(dst, token, Max(copied, op)) && dst[op - 1] == (c.start - c.ref) / 256
            && (copied > op ==> dst[copied - 1] == ByteAt(src, anchor + Chunks(c.start - anchor) - 1))
  {
    hide Repeats, Extension, HeadBytes, OffsetBytes, Chunks;
    op := EmitLiterals(src, anchor, c.start, dst, token);
    EmitOffset(dst, op, c.start - c.ref);
    assert dst[token..op] == HeadBytes(src[anchor..c.start], 0);
    OffsetEnds(dst, op, c.start - c.ref);
    op := op + 2;
  }

  lemma OffsetEnds(dst: array<byte>, op: nat, offset: nat)
    requires offset <= MAX_DISTANCE && Wrote(dst, op, op + 2, OffsetBytes(offset))
    ensures dst[op + 1] == offset / 256
  {
    assert dst[op + 1] == dst[op..op + 2][1];
  }

  // ---------------------------------------------------------------- one sequence

  /** The furthest byte that the sequences written so far have spilled is there. */
  ghost predicate Track(src: seq<byte>, dst: array<byte>, acc: seq<Sequence>, maxOut: nat)
    reads dst
  {
    && AllEncodable(acc)
    && (SpillAll(src, acc, maxOut).Some? ==> Spilled(dst, SpillAll(src, acc, maxOut), dst.Length, maxOut))
  }

  lemma CodesLength(src: seq<byte>, acc: seq<Sequence>, anchor: nat)
    requires OneShot(src).Valid() && Codes(OneShot(src), acc, anchor)
    ensures SeqsLength(acc) == anchor
  {
    hide Expand, Legal;
  }

  /** LZ4HC_encodeSequence: false exactly when there is a limit and the sequence does not pass. */
  method EncodeSequence(src: seq<byte>, dst: array<byte>, limited: bool, maxOut: nat, op0: nat, anchor: nat,
                        c: Candidate, ghost acc: seq<Sequence>, ghost goal: seq<Sequence>)
    returns (ok: bool, op: nat)
    requires OneShot(src).Valid() && Written(OneShot(src), dst, acc, anchor, op0)
    requires Ready(src, c) && anchor <= c.start <= |src| && c.ref <= c.start
    requires AllEncodable(goal) && Written1(src, acc, anchor, c) <= goal
    requires RoomFor(src, limited, maxOut, goal) <= dst.Length && (limited ==> Track(src, dst, acc, maxOut))
    modifies dst
    ensures AllEncodable(Written1(src, acc, anchor, c))
    ensures ok == !(limited && FailsLast(Written1(src, acc, anchor, c), maxOut))
    ensures ok ==> Written(OneShot(src), dst, Written1(src, acc, anchor, c), c.End(), op)
    ensures limited ==> Track(src, dst, Written1(src, acc, anchor, c), maxOut)
    ensures OnlyWithin(dst, 0, RoomFor(src, limited, maxOut, goal))
  {
    hide Codes, Repeats, SequencesBytes, SequenceBytes, AllEncodable, CompressBound, RunPasses, MatchPasses,
         AfterOffset;
    hide SpillOne, SpillAll, RoomFor, HasRoom;
    ghost var s := SequenceOf(src, anchor, c);
    CodesCandidate(src, acc, anchor, c);
    CodesLength(src, acc, anchor);
    RoomIsEnough(src, acc, anchor, s, limited, maxOut, goal);
    SequencesSnoc(acc, s);
    SpillSnoc(src, acc, s, maxOut);
    LastIs(acc, s, maxOut);
    ghost var before := dst[..op0];
    ok, op := WriteSequence(src, dst, limited, maxOut, op0, anchor, c, RoomFor(src, limited, maxOut, goal));
    if ok {
      assert dst[..op0] == before;
      WroteBoth(dst, 0, op0, op, before, SequenceBytes(s));
    }
  }

  lemma LastIs(acc: seq<Sequence>, s: Sequence, maxOut: nat)
    requires AllEncodable(acc) && Encodable(s)
    ensures AllEncodable(acc + [s]) && FailsLast(acc + [s], maxOut) == !Passes(|SequencesBytes(acc)|, s, maxOut)
  {
    hide SequencesBytes, Passes;
    var t := acc + [s];
    assert t[..|t| - 1] == acc && t[|t| - 1] == s;
  }

  // ---------------------------------------------------------------- the two labels

  /** From _Search2 to the next jump. */
  method Search2Step(f: Finder, dst: array<byte>, limited: bool, maxOut: nat, attempts: nat, op0: nat, j: Jump,
                     ghost acc0: seq<Sequence>, ghost goal: seq<Sequence>)
    returns (ok: bool, op: nat, to: Jump, ghost acc: seq<Sequence>)
    requires f.Valid() && dst as object !in f.Repr() && Sound(f.src, Parser(j, f.Table(), acc0))
    requires Written(OneShot(f.src), dst, acc0, j.anchor, op0) && (limited ==> Track(f.src, dst, acc0, maxOut))
    requires AllEncodable(goal) && RoomFor(f.src, limited, maxOut, goal) <= dst.Length
    requires j.label_.Search2? && Next2(f.src, attempts, Parser(j, f.Table(), acc0)).seqs <= goal
    modifies f`nextToUpdate, f.hashTable, f.chainTable, dst
    ensures f.Valid() && OnlyWithin(dst, 0, RoomFor(f.src, limited, maxOut, goal))
    ensures AllEncodable(acc) && (limited ==> Track(f.src, dst, acc, maxOut))
    ensures ok ==> Parser(to, f.Table(), acc) == old(Next2(f.src, attempts, Parser(j, f.Table(), acc0)))
    ensures ok ==> Written(OneShot(f.src), dst, acc, to.anchor, op)
    ensures !ok ==> limited && FailsLast(acc, maxOut) && acc <= goal
  {
    hide Good, Written, Track, RoomFor, Chains.Valid, Codes, AllEncodable, Short, InsertTo, Wider, FailsLast;
    ok, op, to, acc := true, op0, j, acc0;
    var c1, c0 := j.c1, j.c0;
    ReadyEnds(f.src, c1);
    if c1.End() < |f.src| - MFLIMIT {
      var c2 := f.FindWider(c1.End() - 2, c1.start + 1, |f.src| - LASTLITERALS, c1.len, attempts);
      if c2.len != c1.len {
        ReadyEnds(f.src, c0);
        var d1 := c1;
        if c0.start < c1.start && c2.start < c1.start + c0.len { d1 := c0; }
        to := if c2.start - d1.start < 3 then j.(c1 := c2) else j.(label_ := Search3, c1 := d1, c2 := c2);
        return;
      }
    }
    ok, op := EncodeSequence(f.src, dst, limited, maxOut, op, j.anchor, c1, acc, goal);
    acc := Written1(f.src, acc, j.anchor, c1);
    to := ToMain(j, c1.End());
  }

  /** No better match: two sequences, the first cut where the second starts. */
  method EncodeTwo(src: seq<byte>, dst: array<byte>, limited: bool, maxOut: nat, op0: nat, anchor: nat,
                   c1: Candidate, c2: Candidate, ghost acc0: seq<Sequence>, ghost goal: seq<Sequence>)
    returns (ok: bool, op: nat, ghost acc: seq<Sequence>)
    requires OneShot(src).Valid() && Written(OneShot(src), dst, acc0, anchor, op0)
    requires Ready(src, c1) && Ready(src, c2) && anchor <= c1.start && c1.start + MINMATCH <= c2.start <= |src|
    requires c1.ref <= c1.start && c2.ref <= c2.start
    requires AllEncodable(goal) && RoomFor(src, limited, maxOut, goal) <= dst.Length
    requires Written1(src, Written1(src, acc0, anchor, CutAt(c1, c2)), CutAt(c1, c2).End(), c2) <= goal
    requires limited ==> Track(src, dst, acc0, maxOut)
    modifies dst
    ensures AllEncodable(acc) && OnlyWithin(dst, 0, RoomFor(src, limited, maxOut, goal))
    ensures ok ==> acc == Written1(src, Written1(src, acc0, anchor, CutAt(c1, c2)), CutAt(c1, c2).End(), c2)
    ensures ok ==> Written(OneShot(src), dst, acc, c2.End(), op)
    ensures limited ==> Track(src, dst, acc, maxOut)
    ensures !ok ==> limited && FailsLast(acc, maxOut) && acc <= goal
  {
    hide Good, Written, Track, RoomFor, FailsLast, AllEncodable;
    var first := c1;
    if c2.start < c1.End() {
      first := c1.(len := c2.start - c1.start);
      TrimRightGood(src, c1, first.len);
    }
    ok, op := EncodeSequence(src, dst, limited, maxOut, op0, anchor, first, acc0, goal);
    acc := Written1(src, acc0, anchor, first);
    if ok {
      ghost var one := acc;
      ok, op := EncodeSequence(src, dst, limited, maxOut, op, first.End(), c2, one, goal);
      acc := Written1(src, one, first.End(), c2);
    }
  }

  /** A third match: the second goes, or the first is written. */
  method EncodeThree(src: seq<byte>, dst: array<byte>, limited: bool, maxOut: nat, op0: nat, j: Jump,
                     c1: Candidate, c2: Candidate, c3: Candidate, ghost acc0: seq<Sequence>, ghost goal: seq<Sequence>)
    returns (ok: bool, op: nat, to: Jump, ghost acc: seq<Sequence>)
    requires OneShot(src).Valid() && Written(OneShot(src), dst, acc0, j.anchor, op0)
    requires Ready(src, c1) && Ready(src, c2) && Good(src, c3) && c2.start <= c3.start
    requires j.anchor <= c1.start <= |src| && c1.start + MINMATCH <= c2.start
    requires c1.ref <= c1.start && MINMATCH <= c2.len
    requires AllEncodable(goal) && RoomFor(src, limited, maxOut, goal) <= dst.Length
    requires AfterThree(src, j, acc0, c1, c2, c3).1 <= goal
    requires limited ==> Track(src, dst, acc0, maxOut)
    modifies dst
    ensures AllEncodable(acc) && OnlyWithin(dst, 0, RoomFor(src, limited, maxOut, goal))
    ensures ok ==> (to, acc) == AfterThree(src, j, acc0, c1, c2, c3) && Written(OneShot(src), dst, acc, to.anchor, op)
    ensures limited ==> Track(src, dst, acc, maxOut)
    ensures !ok ==> limited && FailsLast(acc, maxOut) && acc <= goal
  {
    hide Good, Written, Track, RoomFor, FailsLast, AllEncodable, Yield, MoveOut;
    ok, op, to, acc := true, op0, j.(c2 := c3), acc0;
    if c3.start < c1.End() {
      WrittenEncodable(src, dst, acc, j.anchor, op);
      return;
    }
    if c3.start < c1.End() + 3 {
      to := j.(label_ := Search2, anchor := c1.End(), c1 := c3, c0 := MoveOut(c1, c2, c3));
      ok, op := EncodeSequence(src, dst, limited, maxOut, op, j.anchor, c1, acc, goal);
      acc := Written1(src, acc, j.anchor, c1);
      return;
    }
    YieldGood(src, c1, c2);
    var (first, rest) := Yield(c1, c2);
    ReadyEnds(src, first);
    to := j.(anchor := first.End(), c1 := rest, c2 := c3);
    ok, op := EncodeSequence(src, dst, limited, maxOut, op, j.anchor, first, acc, goal);
    acc := Written1(src, acc, j.anchor, first);
  }

  lemma WrittenEncodable(src: seq<byte>, dst: array<byte>, acc: seq<Sequence>, anchor: nat, op: nat)
    requires OneShot(src).Valid() && Written(OneShot(src), dst, acc, anchor, op)
    ensures AllEncodable(acc)
  {
  }

  /** From _Search3 to the next jump. */
  method Search3Step(f: Finder, dst: array<byte>, limited: bool, maxOut: nat, attempts: nat, op0: nat, j: Jump,
                     ghost acc0: seq<Sequence>, ghost goal: seq<Sequence>)
    returns (ok: bool, op: nat, to: Jump, ghost acc: seq<Sequence>)
    requires f.Valid() && dst as object !in f.Repr() && Sound(f.src, Parser(j, f.Table(), acc0))
    requires Written(OneShot(f.src), dst, acc0, j.anchor, op0) && (limited ==> Track(f.src, dst, acc0, maxOut))
    requires AllEncodable(goal) && RoomFor(f.src, limited, maxOut, goal) <= dst.Length
    requires j.label_.Search3? && Next3(f.src, attempts, Parser(j, f.Table(), acc0)).seqs <= goal
    modifies f`nextToUpdate, f.hashTable, f.chainTable, dst
    ensures f.Valid() && OnlyWithin(dst, 0, RoomFor(f.src, limited, maxOut, goal))
    ensures AllEncodable(acc) && (limited ==> Track(f.src, dst, acc, maxOut))
    ensures ok ==> Parser(to, f.Table(), acc) == old(Next3(f.src, attempts, Parser(j, f.Table(), acc0)))
    ensures ok ==> Written(OneShot(f.src), dst, acc, to.anchor, op)
    ensures !ok ==> limited && FailsLast(acc, maxOut) && acc <= goal
  {
    hide Good, Written, Track, RoomFor, Chains.Valid, Codes, AllEncodable, Short, InsertTo, Wider, FailsLast, Separate,
         AfterThree;
    op, acc := op0, acc0;
    SeparateGood(f.src, j.c1, j.c2);
    var c1, c2 := j.c1, Separate(j.c1, j.c2);
    ReadyEnds(f.src, c1);
    ReadyEnds(f.src, c2);
    if c2.End() < |f.src| - MFLIMIT {
      var c3 := f.FindWider(c2.End() - 3, c2.start, |f.src| - LASTLITERALS, c2.len, attempts);
      WiderGood(f.src, f.Table(), c2.End() - 3, c2.start, c2.len, attempts);
      if c3.len != c2.len {
        ok, op, to, acc := EncodeThree(f.src, dst, limited, maxOut, op, j, c1, c2, c3, acc, goal);
        return;
      }
    }
    ok, op, acc := EncodeTwo(f.src, dst, limited, maxOut, op, j.anchor, c1, c2, acc, goal);
    to := ToMain(j, c2.End());
  }

  // ---------------------------------------------------------------- the encoder

  /** One turn of the main loop up to its label. */
  method MainStep(f: Finder, attempts: nat, j: Jump, ghost acc: seq<Sequence>) returns (to: Jump)
    requires f.Valid() && Sound(f.src, Parser(j, f.Table(), acc)) && j.label_.MainLoop? && !AtEnd(f.src, j)
    modifies f`nextToUpdate, f.hashTable, f.chainTable
    ensures f.Valid() && Parser(to, f.Table(), acc) == old(NextMain(f.src, attempts, Parser(j, f.Table(), acc)))
    ensures to.anchor == j.anchor
  {
    hide Chains.Valid, Codes, AllEncodable, Short, InsertTo, Best;
    var ml, ref := f.FindBest(j.ip, |f.src| - LASTLITERALS, attempts);
    var c := Candidate(j.ip, ref, ml);
    to := if ml == 0 then j.(ip := j.ip + 1) else j.(label_ := Search2, c1 := c, c0 := c);
  }

  lemma SoundHas(src: seq<byte>, s: Parser)
    requires Sound(src, s)
    ensures OneShot(src).Valid() && AllEncodable(s.seqs)
  {
    hide Codes, AllEncodable, Short;
  }

  /** From any jump to the next one. */
  method Step(f: Finder, dst: array<byte>, limited: bool, maxOut: nat, attempts: nat, op0: nat, j: Jump,
              ghost acc0: seq<Sequence>, ghost goal: seq<Sequence>)
    returns (ok: bool, op: nat, to: Jump, ghost acc: seq<Sequence>)
    requires f.Valid() && dst as object !in f.Repr() && Sound(f.src, Parser(j, f.Table(), acc0))
    requires Written(OneShot(f.src), dst, acc0, j.anchor, op0) && (limited ==> Track(f.src, dst, acc0, maxOut))
    requires AllEncodable(goal) && RoomFor(f.src, limited, maxOut, goal) <= dst.Length
    requires !AtEnd(f.src, j) && NextState(f.src, attempts, Parser(j, f.Table(), acc0)).seqs <= goal
    modifies f`nextToUpdate, f.hashTable, f.chainTable, dst
    ensures f.Valid() && OnlyWithin(dst, 0, RoomFor(f.src, limited, maxOut, goal))
    ensures AllEncodable(acc) && (limited ==> Track(f.src, dst, acc, maxOut))
    ensures ok ==> Parser(to, f.Table(), acc) == old(NextState(f.src, attempts, Parser(j, f.Table(), acc0)))
    ensures ok ==> Written(OneShot(f.src), dst, acc, to.anchor, op)
    ensures !ok ==> limited && FailsLast(acc, maxOut) && acc <= goal
  {
    hide Sound, Written, Track, RoomFor, Chains.Valid, AllEncodable, FailsLast, NextMain, Next2, Next3;
    match j.label_
    case MainLoop =>
      ok, op, acc := true, op0, acc0;
      SoundHas(f.src, Parser(j, f.Table(), acc));
      to := MainStep(f, attempts, j, acc);
    case Search2 => ok, op, to, acc := Search2Step(f, dst, limited, maxOut, attempts, op0, j, acc0, goal);
    case Search3 => ok, op, to, acc := Search3Step(f, dst, limited, maxOut, attempts, op0, j, acc0, goal);
  }

  /** What the encoder spills, for this input, level and limit. */
  ghost function SpillOfHc(src: seq<byte>, level: int, maxOut: nat): (r: Option<Spill>)
    requires |src| <= LZ4_MAX_INPUT_SIZE
    ensures r.Some? ==> maxOut <= r.value.at
  {
    SpillAll(src, HcBlock(src, level).seqs, maxOut)
  }

  lemma TooLongWith(src: seq<byte>, b: Block, acc: seq<Sequence>, s: Sequence, maxOut: nat)
    requires Encodes(src, b) && acc + [s] <= b.seqs && AllEncodable(acc) && Encodable(s)
    requires !Passes(|SequencesBytes(acc)|, s, maxOut)
    ensures AllEncodable(b.seqs) && |BlockBytes(b)| > maxOut
  {
    hide SequencesBytes, SequenceBytes, Legal, Extension, Decode;
    LegalEncodable(b.seqs, 0, |src|);
    SequencesSnoc(acc, s);
    PrefixSize(acc + [s], b.seqs);
    LastLiterals(b, 0);
    SequenceSize(s);
    ExtensionSize(|s.lits|);
    ExtensionSize(s.matchLen - MINMATCH);
  }

  lemma StartTrack(src: seq<byte>, dst: array<byte>, maxOut: nat)
    ensures Track(src, dst, [], maxOut)
  {
  }

  lemma TrackMeans(src: seq<byte>, dst: array<byte>, acc: seq<Sequence>, maxOut: nat)
    requires Track(src, dst, acc, maxOut)
    ensures AllEncodable(acc)
    ensures SpillAll(src, acc, maxOut).Some? ==> Spilled(dst, SpillAll(src, acc, maxOut), dst.Length, maxOut)
  {
    hide SpillAll;
  }

  lemma GoalIs(src: seq<byte>, level: int, limited: bool, maxOut: nat)
    requires |src| <= LZ4_MAX_INPUT_SIZE
    ensures var goal := HcBlock(src, level).seqs;
            && AllEncodable(goal)
            && RoomFor(src, limited, maxOut, goal)
               == if limited then Reach(SpillOfHc(src, level, maxOut), maxOut) else CompressBound(|src|)
  {
    hide HcBlock, Run, SpillAll;
    HcBlockEncodable(src, level);
  }

  /** When a check fails, the whole block is too long, and nothing more would spill. */
  lemma GaveUp(src: seq<byte>, level: int, dst: array<byte>, acc: seq<Sequence>, maxOut: nat)
    requires |src| <= LZ4_MAX_INPUT_SIZE && acc <= HcBlock(src, level).seqs
    requires AllEncodable(acc) && FailsLast(acc, maxOut) && Track(src, dst, acc, maxOut)
    ensures |BlockBytes(HcBlock(src, level))| > maxOut
    ensures var spill := SpillOfHc(src, level, maxOut); spill.Some? ==> Spilled(dst, spill, dst.Length, maxOut)
  {
    hide Run, SequencesBytes, BlockBytes, Encodes, SpillAll, Passes;
    var b := HcBlock(src, level);
    var init, s := acc[..|acc| - 1], acc[|acc| - 1];
    assert acc == init + [s];
    EncodableInit(acc);
    TooLongWith(src, b, init, s, maxOut);
    NoMoreSpill(src, acc, b.seqs, maxOut);
  }

  /** The last literals, which are written exactly and only within the limit. */
  method LastRun(src: seq<byte>, dst: array<byte>, limited: bool, maxOut: nat, op: nat, anchor: nat,
                 ghost acc: seq<Sequence>)
    returns (r: nat)
    requires OneShot(src).Valid() && Written(OneShot(src), dst, acc, anchor, op) && AllEncodable(acc)
    requires RoomFor(src, limited, maxOut, acc) <= dst.Length && (limited ==> Track(src, dst, acc, maxOut))
    modifies dst
    ensures anchor <= |src| && OnlyWithin(dst, 0, RoomFor(src, limited, maxOut, acc))
    ensures var bytes := BlockBytes(Block(acc, src[anchor..]));
            if limited && |bytes| > maxOut then r == 0 else r > 0 && Wrote(dst, 0, r, bytes)
    ensures limited ==> Track(src, dst, acc, maxOut)
  {
    hide Codes, BlockBytes, SpillAll, Encodes, AllEncodable;
    WrittenCodes(src, dst, acc, anchor, op);
    assert src[anchor..|src|] == src[anchor..];
    r := EncodeLast(OneShot(src), dst, limited, maxOut, op, anchor, acc);
    LastFollows(Block(acc, src[anchor..]));
  }

  lemma WrittenCodes(src: seq<byte>, dst: array<byte>, acc: seq<Sequence>, anchor: nat, op: nat)
    requires OneShot(src).Valid() && Written(OneShot(src), dst, acc, anchor, op)
    ensures anchor <= |src| && Codes(OneShot(src), acc, anchor)
  {
  }

  /** LZ4HC_compress_generic on a block of its own: the bytes of the block that the parser finds, or 0 exactly
      when there is a limit and they exceed it. Nothing behind the furthest byte that spills is written. */
  method CompressHC(src: seq<byte>, dst: array<byte>, level: int, limited: bool, maxOut: nat) returns (r: nat)
    requires |src| <= LZ4_MAX_INPUT_SIZE
    requires (if limited then Reach(SpillOfHc(src, level, maxOut), maxOut) else CompressBound(|src|)) <= dst.Length
    modifies dst
    ensures var bytes := BlockBytes(HcBlock(src, level));
            if limited && |bytes| > maxOut then r == 0 else r > 0 && Wrote(dst, 0, r, bytes)
    ensures OnlyWithin(dst, 0, if limited then Reach(SpillOfHc(src, level, maxOut), maxOut) else CompressBound(|src|))
    ensures var spill := SpillOfHc(src, level, maxOut);
            limited && spill.Some? ==> Spilled(dst, spill, dst.Length, maxOut)
  {
    hide Sound, Written, Track, RoomFor, Chains.Valid, AllEncodable, FailsLast, NextState, BlockBytes, SpillAll,
         Encodes;
    var attempts := Attempts(level);
    var f := new Finder(src);
    var none := Candidate(0, 0, 0);
    var j, op: nat := Jump(MainLoop, 1, 0, none, none, none), 0;
    ghost var acc: seq<Sequence> := [];
    StartSound(src);
    ghost var s, last := Parser(j, f.Table(), acc), Run(src, attempts, AtStart());
    ghost var goal := last.seqs;
    StartWritten(OneShot(src), dst);
    StartTrack(src, dst, maxOut);
    GoalIs(src, level, limited, maxOut);
    while !(j.label_ == MainLoop && j.ip >= |src| - MFLIMIT)
      invariant f.Valid() && f.src == src && fresh(f) && fresh(f.hashTable) && fresh(f.chainTable)
      invariant s == Parser(j, f.Table(), acc) && Sound(src, s) && Run(src, attempts, s) == last
      invariant Written(OneShot(src), dst, acc, j.anchor, op) && (limited ==> Track(src, dst, acc, maxOut))
      invariant OnlyWithin(dst, 0, RoomFor(src, limited, maxOut, goal))
      decreases |src| - Position(s), Rank(s)
    {
      NextFollows(src, attempts, s);
      PositionBelow(src, s);
      ghost var next := NextState(src, attempts, s);
      var ok;
      ok, op, j, acc := Step(f, dst, limited, maxOut, attempts, op, j, acc, goal);
      if !ok {
        GaveUp(src, level, dst, acc, maxOut);
        return 0;
      }
      s := next;
    }
    SoundHas(src, s);
    r := LastRun(src, dst, limited, maxOut, op, j.anchor, acc);
    if limited { TrackMeans(src, dst, acc, maxOut); }
  }

  /** Compress with the high-compression encoder, decompress, and the data is back. */
  method RoundTripHC(src: seq<byte>, level: int, mem: array<byte>, dest: nat, cap: nat) returns (r: int)
    requires |src| <= LZ4_MAX_INPUT_SIZE && |src| <= cap && dest + cap <= mem.Length
    modifies mem
    ensures r == |src| && mem[dest..dest + r] == src
  {
    hide HcBlock, Run, BlockBytes, Parse, Decode;
    var packed := new byte[CompressBound(|src|)];
    var n := CompressHC(src, packed, level, false, 0);
    HcBlockSound(src, level, cap);
    r := DecompressSafe(packed[..n], mem, dest, cap);
  }
}
