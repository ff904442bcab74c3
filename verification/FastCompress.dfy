/** LZ4_compress_generic: the greedy compressor over its hash table and destination buffer. */
module FastCompress {
  import opened Bytes
  import opened BlockFormat
  import opened BlockRules
  import opened MatchCount
  import opened WildCopy
  import opened FastParse
  import opened FastSound
  import opened FastLimit
  import opened Emit

  /** The do-while search; the table is updated as candidates are tried. */
  method SearchLoop(v: View, table: array<nat>, ip0: nat) returns (hit: bool, ip: nat, match_: nat)
    requires v.Valid() && v.start < ip0 && ip0 + 4 <= |v.buf| && TableOk(v, table[..], ip0)
    modifies table
    ensures Search(v, old(table[..]), ip0, 1, SKIP_TRIGGER)
            == if hit then Hit(ip, match_, table[..]) else NoMatch(table[..])
  {
    hide HashWord, Usable, Put, TooFar, Word;
    ip, match_ := ip0, 0;
    var forwardIp := ip0;
    var step := 1;
    var searchMatchNb := SKIP_TRIGGER;
    var forwardH := Hash(v, ip0);
    while true
      invariant v.start < forwardIp && forwardIp + 4 <= |v.buf| && forwardH == Hash(v, forwardIp)
      invariant step >= 1 && searchMatchNb >= SKIP_TRIGGER && TableOk(v, table[..], forwardIp)
      invariant Search(v, table[..], forwardIp, step, searchMatchNb) == Search(v, old(table[..]), ip0, 1, SKIP_TRIGGER)
      decreases v.end - forwardIp
    {
      var h := forwardH;
      ip := forwardIp;
      forwardIp := forwardIp + step;
      step := searchMatchNb / SKIP_TRIGGER;
      searchMatchNb := searchMatchNb + 1;
      if forwardIp > v.MfLimit() { return false, ip, 0; }
      var candidate := v.base + table[h];
      forwardH := Hash(v, forwardIp);
      PutKeeps(v, table[..], h, ip, ip + 1);
      StoreAt(v, table, h, ip);
      if Usable(v, candidate, ip) {
        UsableIsMatch(v, candidate, ip);
        return true, ip, candidate;
      }
    }
  }

  method StoreAt(v: View, table: array<nat>, h: nat, p: nat)
    requires h < table.Length && v.base <= p
    modifies table
    ensures table[..] == Put(v, old(table[..]), h, p)
  {
    table[h] := (p - v.base) % Modulus(v.kind);
  }

  method CatchUpLoop(v: View, ip0: nat, match0: nat, anchor: nat) returns (ip: nat, match_: nat)
    requires v.Valid() && anchor <= ip0 && IsMatch(v, ip0, match0)
    ensures (ip, match_) == CatchUp(v, ip0, match0, anchor)
  {
    ip, match_ := ip0, match0;
    while ip > anchor && match_ > v.low && v.buf[ip - 1] == v.buf[match_ - 1]
      invariant anchor <= ip && IsMatch(v, ip, match_)
      invariant CatchUp(v, ip, match_, anchor) == CatchUp(v, ip0, match0, anchor)
    {
      ip, match_ := ip - 1, match_ - 1;
    }
  }

  // ---------------------------------------------------------------- room in the destination

  /** How far the compressor may write: up to the given limit if nothing spills, else the worst case. */
  function WriteLimit(v: View, limited: bool, maxOut: nat, spill: Option<Spill>): nat
    requires v.Valid()
  {
    if limited && spill.None? then maxOut else CompressBound(v.end - v.start)
  }

  /** The byte that spills is there. */
  ghost predicate Spilled(dst: array<byte>, spill: Option<Spill>, upto: nat, maxOut: nat)
    reads dst
  {
    spill.Some? && maxOut <= spill.value.at < upto <= dst.Length && dst[spill.value.at] == spill.value.value
  }

  lemma LiteralRoom(seqs: seq<Sequence>, run: nat, n: nat)
    requires AllEncodable(seqs) && SeqsLength(seqs) + run <= n - MFLIMIT && n <= LZ4_MAX_INPUT_SIZE
    ensures |SequencesBytes(seqs)| + 1 + |Extension(run)| + Max(8, run + 7) <= CompressBound(n)
    ensures |SequencesBytes(seqs)| + 1 + |Extension(run)| + run + 2 <= CompressBound(n)
  {
    hide SequencesBytes, SeqsLength, Extension, AllEncodable;
    SequencesSize(seqs);
    ExtensionSize(run);
  }

  lemma LiteralRoomLimited(token: nat, run: nat, maxOut: nat)
    requires token + 1 + run + (2 + 1 + LASTLITERALS) + run / 255 <= maxOut
    ensures token + 1 + |Extension(run)| + Max(8, run + 7) <= maxOut
    ensures token + 1 + |Extension(run)| + run + 2 <= maxOut
  {
    hide Extension;
    ExtensionSize(run);
  }

  lemma MatchRoom(seqs: seq<Sequence>, n: nat)
    requires AllEncodable(seqs) && SeqsLength(seqs) <= n <= LZ4_MAX_INPUT_SIZE
    ensures |SequencesBytes(seqs)| + 3 <= CompressBound(n)
  {
    hide SequencesBytes, SeqsLength, AllEncodable;
    SequencesSize(seqs);
  }

  // ---------------------------------------------------------------- writing the sequences

  /** The destination holds the sequences found so far. */
  ghost predicate Written(v: View, dst: array<byte>, acc: seq<Sequence>, anchor: nat, op: nat)
    requires v.Valid()
    reads dst
  {
    Codes(v, acc, anchor) && AllEncodable(acc) && Wrote(dst, 0, op, SequencesBytes(acc))
  }

  /** The final block continues `acc` and is longer than the limit. */
  ghost predicate TooLong(v: View, goal: Greedy, maxOut: nat)
    requires v.Valid() && Codes(v, goal.seqs, goal.anchor)
  {
    AllEncodable(goal.seqs) && |BlockBytes(Block(goal.seqs, v.buf[goal.anchor..v.end]))| > maxOut
  }

  /** Whatever follows a sequence takes at least a token and LASTLITERALS bytes. */
  lemma AtLeast(v: View, goal: Greedy, acc: seq<Sequence>, s: Sequence, maxOut: nat)
    requires v.Valid() && Codes(v, goal.seqs, goal.anchor) && acc + [s] <= goal.seqs
    requires AllEncodable(acc) && Encodable(s)
    requires |SequencesBytes(acc)| + |SequenceBytes(s)| + 1 + LASTLITERALS > maxOut
    ensures TooLong(v, goal, maxOut)
  {
    hide SequencesBytes, SequenceBytes, Legal, Extension;
    LegalEncodable(goal.seqs, v.start - v.low, v.end - v.start);
    SequencesSnoc(acc, s);
    PrefixSize(acc + [s], goal.seqs);
    LastLiterals(Block(goal.seqs, v.buf[goal.anchor..v.end]), v.start - v.low);
  }

  /** A match that passes the check has room for its length bytes, and in a worst-case buffer for three more. */
  lemma MatchFits(v: View, limited: bool, maxOut: nat, spill: Option<Spill>, acc: seq<Sequence>, s: Sequence, op: nat)
    requires v.Valid() && AllEncodable(acc) && Encodable(s) && SeqsLength(acc + [s]) <= v.end - v.start
    requires op == |SequencesBytes(acc)| + |HeadBytes(s.lits, 0)| + 2
    requires limited && spill.None? ==> op + |Extension(s.matchLen - MINMATCH)| <= maxOut
    ensures op + |Extension(s.matchLen - MINMATCH)| <= WriteLimit(v, limited, maxOut, spill)
    ensures op + |Extension(s.matchLen - MINMATCH)| + 3 <= CompressBound(v.end - v.start)
  {
    hide SequencesBytes, SeqsLength, Extension, AllEncodable;
    SequencesSnoc(acc, s);
    MatchRoom(acc + [s], v.end - v.start);
  }

  /** The last of the length bytes of a match. */
  lemma LastLengthByte(dst: array<byte>, op: nat, acc: seq<Sequence>, s: Sequence)
    requires AllEncodable(acc) && Encodable(s) && Wrote(dst, 0, op, SequencesBytes(acc + [s]))
    ensures var m := s.matchLen - MINMATCH;
            |Extension(m)| > 0 ==> op > 0 && dst[op - 1] == (m - ML_MASK) % 255
  {
    hide SequencesBytes, HeadBytes, OffsetBytes, LengthBytes;
    SequencesSnoc(acc, s);
    var m := s.matchLen - MINMATCH;
    if m >= ML_MASK {
      LengthBytesEnd(m - ML_MASK);
      var bytes := SequencesBytes(acc + [s]);
      assert bytes == SequencesBytes(acc) + (HeadBytes(s.lits, m) + OffsetBytes(s.offset)) + LengthBytes(m - ML_MASK);
      assert dst[op - 1] == dst[0..op][op - 1] == bytes[|bytes| - 1];
    }
  }

  lemma {:induction false} LengthBytesEnd(x: nat)
    ensures |LengthBytes(x)| > 0 && LengthBytes(x)[|LengthBytes(x)| - 1] == x % 255
  {
    if x >= 255 {
      LengthBytesEnd(x - 255);
      assert x % 255 == (x - 255) % 255;
    }
  }

  /** A match that fails the check belongs to a block that is too long. */
  lemma MatchOverflows(v: View, goal: Greedy, acc: seq<Sequence>, s: Sequence, op: nat, maxOut: nat)
    requires v.Valid() && Codes(v, goal.seqs, goal.anchor) && acc + [s] <= goal.seqs
    requires AllEncodable(acc) && Encodable(s)
    requires op == |SequencesBytes(acc)| + |HeadBytes(s.lits, 0)| + 2
    requires !MatchPasses(op, s.matchLen - MINMATCH, maxOut)
    ensures TooLong(v, goal, maxOut)
  {
    hide SequencesBytes, SeqsLength, Extension, AllEncodable, Codes, TooLong;
    ExtensionSize(s.matchLen - MINMATCH);
    AtLeast(v, goal, acc, s, maxOut);
  }

  datatype Next = Done | Failed | Again

  /** The match passes no check that it should not: then its length bytes stay below the limit. */
  predicate KeepsLimit(op: nat, matchLength: nat, maxOut: nat) {
    MatchPasses(op, matchLength, maxOut) ==> op + |Extension(matchLength)| <= maxOut
  }

  /** One match: offset, length, and the output-limit check between them. */
  method EncodeMatch(v: View, dst: array<byte>, limited: bool, maxOut: nat, token: nat, op0: nat, anchor: nat, ip0: nat,
                     match_: nat, ghost acc: seq<Sequence>, ghost goal: Greedy, ghost spill: Option<Spill>)
    returns (ok: bool, op: nat, ip: nat, ghost s: Sequence)
    requires v.Valid() && Written(v, dst, acc, anchor, token) && anchor <= ip0 && IsMatch(v, ip0, match_)
    requires token < op0 && op0 + 2 <= WriteLimit(v, limited, maxOut, spill) <= dst.Length
    requires limited && spill.None? ==> KeepsLimit(op0 + 2, MatchEnd(v, ip0, match_) - ip0 - MINMATCH, maxOut)
    requires Wrote(dst, token, op0, HeadBytes(v.buf[anchor..ip0], 0))
    requires Codes(v, goal.seqs, goal.anchor)
    requires acc + [Sequence(v.buf[anchor..ip0], ip0 - match_, MatchEnd(v, ip0, match_) - ip0)] <= goal.seqs
    modifies dst
    ensures s == Sequence(v.buf[anchor..ip0], ip0 - match_, MatchEnd(v, ip0, match_) - ip0)
            && ip == MatchEnd(v, ip0, match_)
    ensures ok ==> Written(v, dst, acc + [s], ip, op) && OnlyWithin(dst, token, op)
    ensures ok ==> op == op0 + 2 + |Extension(s.matchLen - MINMATCH)| <= WriteLimit(v, limited, maxOut, spill)
    ensures ok ==> op + 3 <= CompressBound(v.end - v.start)
    ensures limited ==> ok == MatchPasses(op0 + 2, s.matchLen - MINMATCH, maxOut)
    ensures !ok ==> limited && TooLong(v, goal, maxOut)
    ensures !ok ==> OnlyWithin(dst, op0, op0 + 2) && Wrote(dst, op0, op0 + 2, OffsetBytes(s.offset))
  {
    hide CommonLength, Legal, Expand, HeadBytes, SequencesBytes, SequenceBytes, Extension, SeqsLength, OffsetBytes;
    hide CompressBound;
    s := Sequence(v.buf[anchor..ip0], ip0 - match_, MatchEnd(v, ip0, match_) - ip0);
    CodesMore(v, acc, anchor, ip0, match_, s.matchLen);
    SequencesSnoc(acc, s);
    MatchEndBound(v, ip0, match_);
    ghost var before := dst[..token];
    EmitOffset(dst, op0, ip0 - match_);
    assert dst[token..op0] == HeadBytes(s.lits, 0);
    op := op0 + 2;
    CommonSplit(v.buf, ip0, match_, ip0 + MINMATCH, v.MatchLimit());
    var matchLength := Count(v.buf, ip0 + MINMATCH, match_ + MINMATCH, v.MatchLimit());
    ip := ip0 + MINMATCH + matchLength;
    assert ip == MatchEnd(v, ip0, match_);
    if limited && op + (1 + LASTLITERALS) + matchLength / 256 > maxOut {
      MatchOverflows(v, goal, acc, s, op, maxOut);
      return false, op, ip, s;
    }
    ok := true;
    MatchFits(v, limited, maxOut, spill, acc, s, op);
    op := EmitMatchLength(dst, token, op, s.lits, s.offset, matchLength);
    assert dst[..token] == before;
    WroteBoth(dst, 0, token, op, before, SequenceBytes(s));
  }

  /** "Fill table" and "Test next position", right after a match. */
  method TestNext(v: View, table: array<nat>, ip: nat) returns (hit: bool, match_: nat)
    requires v.Valid() && v.start + MINMATCH <= ip <= v.MfLimit() && TableOk(v, table[..], ip)
    modifies table
    ensures TableOk(v, table[..], ip + 1)
    ensures var t1 := AfterMatch(v, old(table[..]), ip);
            var candidate := v.base + t1[Hash(v, ip)];
            && table[..] == AtMatch(v, t1, ip)
            && (hit <==> candidate + MAX_DISTANCE >= ip && Usable(v, candidate, ip))
            && (hit ==> match_ == candidate && IsMatch(v, ip, match_))
  {
    hide Usable, TableOk, HashWord, Word;
    TableBelow(v, table[..], ip, 0);
    ghost var t1 := AfterMatch(v, table[..], ip);
    match_ := 0;
    StoreAt(v, table, Hash(v, ip - 2), ip - 2);
    assert table[..] == t1;
    var h := Hash(v, ip);
    var candidate := v.base + table[h];
    TableBelow(v, t1, ip, h);
    ghost var t2 := AtMatch(v, t1, ip);
    StoreAt(v, table, h, ip);
    assert table[..] == t2;
    hit := candidate + MAX_DISTANCE >= ip && Usable(v, candidate, ip);
    if hit {
      UsableIsMatch(v, candidate, ip);
      match_ := candidate;
    }
  }

  lemma TableBelow(v: View, table: seq<nat>, p: int, h: nat)
    requires TableOk(v, table, p)
    ensures |table| == TableSize(v.kind) && TableOk(v, table, p + 1)
    ensures h < |table| ==> v.base + table[h] < p
  {
  }

  /** What TakeMatch does after its match. */
  lemma TakeMatchStep(v: View, table: seq<nat>, ip: nat, m: nat, anchor: nat, acc: seq<Sequence>)
    requires v.Valid() && v.start <= anchor <= ip && IsMatch(v, ip, m) && TableOk(v, table, MatchEnd(v, ip, m))
    ensures var end := MatchEnd(v, ip, m);
            var acc' := acc + [Sequence(v.buf[anchor..ip], ip - m, end - ip)];
            var r := TakeMatch(v, table, ip, m, anchor, acc);
            && v.start + MINMATCH <= end
            && if end > v.MfLimit() then r == Greedy(acc', end, table)
               else
                 var t1 := AfterMatch(v, table, end);
                 var candidate := v.base + t1[Hash(v, end)];
                 var t2 := AtMatch(v, t1, end);
                 candidate < end &&
                 if candidate + MAX_DISTANCE >= end && Usable(v, candidate, end)
                 then candidate >= 0 && IsMatch(v, end, candidate) && r == TakeMatch(v, t2, end, candidate, end, acc')
                 else r == ParseFrom(v, t2, end + 1, end, acc')
  {
    hide CommonLength, AfterMatch, AtMatch, Hash, Usable, ParseFrom;
    var end := MatchEnd(v, ip, m);
    if end <= v.MfLimit() {
      var candidate := v.base + AfterMatch(v, table, end)[Hash(v, end)];
      if Usable(v, candidate, end) { UsableIsMatch(v, candidate, end); }
    }
  }

  /** Before a match is written at `token`, with its offset at `op`: what spills is still to come, has been
      written, or is the second byte of this offset. */
  ghost predicate Tracking(v: View, table: seq<nat>, dst: array<byte>, spill: Option<Spill>, ip: nat, match_: nat,
                           anchor: nat, token: nat, op: nat, maxOut: nat)
    requires v.Valid() && v.start <= anchor <= ip && IsMatch(v, ip, match_)
             && TableOk(v, table, MatchEnd(v, ip, match_))
    reads dst
  {
    || spill == SpillTake(v, table, ip, match_, anchor, token, maxOut)
    || Spilled(dst, spill, token, maxOut)
    || (op == token + 1 && token + 3 > maxOut && spill == Some(Spill(token + 2, (ip - match_) / 256)))
  }

  /** Unless the spill is known, the match keeps to the limit; and only when it is to come, it can pass. */
  lemma TrackingMeans(v: View, table: seq<nat>, dst: array<byte>, spill: Option<Spill>, ip: nat, match_: nat,
                      anchor: nat, token: nat, op: nat, maxOut: nat)
    requires v.Valid() && v.start <= anchor <= ip && IsMatch(v, ip, match_)
             && TableOk(v, table, MatchEnd(v, ip, match_))
    requires Tracking(v, table, dst, spill, ip, match_, anchor, token, op, maxOut)
    requires token < op && op + 2 == AfterOffset(token, ip - anchor)
    ensures var m := MatchEnd(v, ip, match_) - ip - MINMATCH;
            && (spill.None? ==> KeepsLimit(op + 2, m, maxOut))
            && (MatchPasses(op + 2, m, maxOut) ==> spill == SpillTake(v, table, ip, match_, anchor, token, maxOut))
            && (!MatchPasses(op + 2, m, maxOut) ==>
                  spill.None? || Spilled(dst, spill, token, maxOut)
                  || (op == token + 1 && token + 3 > maxOut && spill == Some(Spill(token + 2, (ip - match_) / 256))))
  {
    hide CommonLength, SpillTake, AfterOffset, Hash, Usable, AfterMatch, AtMatch;
    SpillTakeStep(v, table, ip, match_, anchor, token, maxOut);
  }

  /** A match that was not written has still completed what was spilling. */
  lemma SpilledByOffset(dst: array<byte>, spill: Option<Spill>, token: nat, op: nat, offset: nat, maxOut: nat)
    requires offset <= MAX_DISTANCE && Wrote(dst, op, op + 2, OffsetBytes(offset)) && op == token + 1
             && token + 3 > maxOut
    requires spill == Some(Spill(token + 2, offset / 256))
    ensures Spilled(dst, spill, dst.Length, maxOut)
  {
    assert dst[op + 1] == dst[op..op + 2][1];
  }

  lemma TableLater(v: View, table: seq<nat>, p: int, q: int)
    requires TableOk(v, table, p) && p <= q
    ensures TableOk(v, table, q)
  {
  }

  /** The _next_match loop: matches that follow each other without literals. */
  method EncodeMatches(v: View, table: array<nat>, dst: array<byte>, limited: bool, maxOut: nat, token0: nat, op0: nat,
                       anchor0: nat, ip0: nat, match0: nat, ghost acc0: seq<Sequence>, ghost goal: Greedy,
                       ghost spill: Option<Spill>)
    returns (next: Next, op: nat, anchor: nat, ghost acc: seq<Sequence>)
    requires v.Valid() && Written(v, dst, acc0, anchor0, token0) && v.start <= anchor0 <= ip0 && IsMatch(v, ip0, match0)
    requires token0 < op0 && op0 + 2 <= WriteLimit(v, limited, maxOut, spill) <= dst.Length
    requires Wrote(dst, token0, op0, HeadBytes(v.buf[anchor0..ip0], 0))
    requires TableOk(v, table[..], MatchEnd(v, ip0, match0)) && Codes(v, goal.seqs, goal.anchor)
    requires TakeMatch(v, table[..], ip0, match0, anchor0, acc0) == goal
    requires limited ==> spill == SpillTake(v, table[..], ip0, match0, anchor0, token0, maxOut)
    requires dst as object != table
    modifies table, dst
    ensures OnlyWithin(dst, token0, WriteLimit(v, limited, maxOut, spill))
    ensures next.Failed? ==> limited && TooLong(v, goal, maxOut) && TableOk(v, table[..], v.end)
    ensures next.Failed? ==> spill.None? || Spilled(dst, spill, dst.Length, maxOut)
    ensures !next.Failed? ==> Written(v, dst, acc, anchor, op) && anchor0 < anchor
    ensures next.Done? ==> goal == Greedy(acc, anchor, table[..])
    ensures next.Done? && limited ==> spill.None? || Spilled(dst, spill, op, maxOut)
    ensures next.Again? ==> anchor <= v.MfLimit() && TableOk(v, table[..], anchor + 1)
                            && goal == ParseFrom(v, table[..], anchor + 1, anchor, acc)
    ensures next.Again? && limited ==>
              spill == SpillFrom(v, table[..], anchor + 1, anchor, op, maxOut) || Spilled(dst, spill, op, maxOut)
  {
    hide Codes, AllEncodable, HeadBytes, SequencesBytes, CommonLength, Hash, Usable, AfterMatch, AtMatch, WriteLimit;
    hide TakeMatch, ParseFrom, Tracking, SpillTake, SpillFrom, MatchPasses, KeepsLimit, Wrote, AfterOffset, Extension,
         TooLong, TableOk, OffsetBytes;
    var token: nat, ip: nat, match_: nat := token0, ip0, match0;
    op, anchor, acc := op0, anchor0, acc0;
    Tracks(v, table[..], dst, limited, spill, ip, match_, anchor, token, op, maxOut);
    while true
      invariant v.start <= anchor0 <= anchor <= ip && Written(v, dst, acc, anchor, token) && IsMatch(v, ip, match_)
      invariant token0 <= token < op && op + 2 <= WriteLimit(v, limited, maxOut, spill)
      invariant Wrote(dst, token, op, HeadBytes(v.buf[anchor..ip], 0))
      invariant TableOk(v, table[..], MatchEnd(v, ip, match_))
      invariant TakeMatch(v, table[..], ip, match_, anchor, acc) == goal
      invariant limited ==> Tracking(v, table[..], dst, spill, ip, match_, anchor, token, op, maxOut)
      invariant OnlyWithin(dst, token0, WriteLimit(v, limited, maxOut, spill))
      decreases v.end - anchor
    {
      TakeMatchCodes(v, table[..], ip, match_, anchor, acc);
      TakeMatchStep(v, table[..], ip, match_, anchor, acc);
      MatchEndBound(v, ip, match_);
      HeadEnds(dst, token, op, v.buf[anchor..ip]);
      if limited {
        TrackingMeans(v, table[..], dst, spill, ip, match_, anchor, token, op, maxOut);
        SpillTakeStep(v, table[..], ip, match_, anchor, token, maxOut);
      }
      ghost var s;
      var ok, q;
      ok, q, ip, s := EncodeMatch(v, dst, limited, maxOut, token, op, anchor, ip, match_, acc, goal, spill);
      if !ok {
        if spill.Some? && op == token + 1 && token + 3 > maxOut && spill == Some(Spill(token + 2, s.offset / 256)) {
          SpilledByOffset(dst, spill, token, op, s.offset, maxOut);
        }
        TableLater(v, table[..], ip, v.end);
        return Failed, op, anchor, acc;
      }
      LastLengthByte(dst, q, acc, s);
      if limited { PassedFar(op, s.matchLen - MINMATCH, q, maxOut); }
      op, anchor, acc := q, ip, acc + [s];
      if ip > v.MfLimit() { return Done, op, anchor, acc; }
      var hit, candidate := TestNext(v, table, ip);
      if !hit { return Again, op, anchor, acc; }
      RoomAfter(v, limited, maxOut, spill, op);
      token, match_ := op, candidate;
      op := op + 1;
      EmitEmptyToken(v, dst, acc, anchor, token);
      TableThen(v, table[..], ip, match_);
      Tracks(v, table[..], dst, limited, spill, ip, match_, anchor, token, op, maxOut);
    }
  }

  /** Length bytes that pass the limit are there. */
  lemma PassedFar(op: nat, m: nat, q: nat, maxOut: nat)
    requires MatchPasses(op + 2, m, maxOut) && q == op + 2 + |Extension(m)|
    ensures q > maxOut ==> |Extension(m)| > 0
  {
    hide Extension;
  }

  lemma RoomAfter(v: View, limited: bool, maxOut: nat, spill: Option<Spill>, op: nat)
    requires v.Valid() && op + 3 <= CompressBound(v.end - v.start) && (limited && spill.None? ==> op + 3 <= maxOut)
    ensures op + 3 <= WriteLimit(v, limited, maxOut, spill)
  {
  }

  lemma Tracks(v: View, table: seq<nat>, dst: array<byte>, limited: bool, spill: Option<Spill>, ip: nat, match_: nat,
               anchor: nat, token: nat, op: nat, maxOut: nat)
    requires v.Valid() && v.start <= anchor <= ip && IsMatch(v, ip, match_)
             && TableOk(v, table, MatchEnd(v, ip, match_))
    requires limited ==>
               || spill == SpillTake(v, table, ip, match_, anchor, token, maxOut)
               || Spilled(dst, spill, token, maxOut)
               || (op == token + 1 && token + 3 > maxOut && spill == Some(Spill(token + 2, (ip - match_) / 256)))
    ensures limited ==> Tracking(v, table, dst, spill, ip, match_, anchor, token, op, maxOut)
  {
    hide SpillTake, CommonLength;
  }

  lemma HeadEnds(dst: array<byte>, token: nat, op: nat, lits: seq<byte>)
    requires Wrote(dst, token, op, HeadBytes(lits, 0))
    ensures op + 2 == AfterOffset(token, |lits|)
  {
    hide Extension;
  }

  /** The token of a sequence without literals. */
  method EmitEmptyToken(v: View, dst: array<byte>, ghost acc: seq<Sequence>, anchor: nat, token: nat)
    requires v.Valid() && Written(v, dst, acc, anchor, token) && token < dst.Length
    modifies dst
    ensures Written(v, dst, acc, anchor, token)
    ensures Wrote(dst, token, token + 1, HeadBytes(v.buf[anchor..anchor], 0))
    ensures OnlyWithin(dst, token, token + 1)
  {
    hide Legal, Expand, SequencesBytes;
    ghost var before := dst[..token];
    dst[token] := 0;
    assert dst[..token] == before;
    assert v.buf[anchor..anchor] == [];
  }

  lemma LiteralsFit(v: View, limited: bool, maxOut: nat, spill: Option<Spill>, acc: seq<Sequence>, anchor: nat, ip: nat)
    requires v.Valid() && Codes(v, acc, anchor) && AllEncodable(acc) && anchor <= ip <= v.MfLimit()
    requires limited ==> LiteralsPass(|SequencesBytes(acc)|, ip - anchor, maxOut)
    ensures var w := WriteLimit(v, limited, maxOut, spill);
            && |SequencesBytes(acc)| + 1 + |Extension(ip - anchor)| + Max(8, ip - anchor + 7) <= w
            && |SequencesBytes(acc)| + 1 + |Extension(ip - anchor)| + (ip - anchor) + 2 <= w
  {
    hide SequencesBytes, Extension, Expand, Legal;
    if limited && spill.None? {
      LiteralRoomLimited(|SequencesBytes(acc)|, ip - anchor, maxOut);
    } else {
      LiteralRoom(acc, ip - anchor, v.end - v.start);
    }
  }

  lemma LiteralsOverflow(v: View, goal: Greedy, acc: seq<Sequence>, s: Sequence, maxOut: nat)
    requires v.Valid() && Codes(v, goal.seqs, goal.anchor) && acc + [s] <= goal.seqs
    requires AllEncodable(acc) && Encodable(s)
    requires !LiteralsPass(|SequencesBytes(acc)|, |s.lits|, maxOut)
    ensures TooLong(v, goal, maxOut)
  {
    hide SequencesBytes, Extension, AllEncodable, Codes, TooLong;
    ExtensionSize(|s.lits|);
    AtLeast(v, goal, acc, s, maxOut);
  }

  /** "Encode Literal length" and "Copy Literals", with the output-limit check before them. */
  method EncodeLiterals(v: View, dst: array<byte>, limited: bool, maxOut: nat, token: nat, anchor: nat, ip: nat,
                        ghost match_: nat, ghost acc: seq<Sequence>, ghost goal: Greedy, ghost spill: Option<Spill>)
    returns (ok: bool, op: nat)
    requires v.Valid() && Written(v, dst, acc, anchor, token) && anchor <= ip && IsMatch(v, ip, match_)
    requires WriteLimit(v, limited, maxOut, spill) <= dst.Length && Codes(v, goal.seqs, goal.anchor)
    requires acc + [Sequence(v.buf[anchor..ip], ip - match_, MatchEnd(v, ip, match_) - ip)] <= goal.seqs
    modifies dst
    ensures OnlyWithin(dst, token, WriteLimit(v, limited, maxOut, spill))
    ensures ok ==> Written(v, dst, acc, anchor, token) && Wrote(dst, token, op, HeadBytes(v.buf[anchor..ip], 0))
                   && token < op && op + 2 <= WriteLimit(v, limited, maxOut, spill)
    ensures limited ==> ok == LiteralsPass(token, ip - anchor, maxOut)
    ensures !ok ==> limited && TooLong(v, goal, maxOut) && unchanged(dst)
  {
    hide CommonLength, Expand, Legal, SequencesBytes, Extension, WriteLimit, AllEncodable;
    ghost var s := Sequence(v.buf[anchor..ip], ip - match_, MatchEnd(v, ip, match_) - ip);
    var litLength := ip - anchor;
    op := token + 1;
    if limited && op + litLength + (2 + 1 + LASTLITERALS) + litLength / 255 > maxOut {
      LiteralsOverflow(v, goal, acc, s, maxOut);
      return false, op;
    }
    LiteralsFit(v, limited, maxOut, spill, acc, anchor, ip);
    ghost var before := dst[..token];
    op := EmitLiterals(v.buf, anchor, ip, dst, token);
    assert dst[..token] == before;
    ok := true;
  }

  /** "Encode Last Literals". */
  method EncodeLast(v: View, dst: array<byte>, limited: bool, maxOut: nat, op: nat, anchor: nat,
                    ghost acc: seq<Sequence>)
    returns (r: nat)
    requires v.Valid() && Written(v, dst, acc, anchor, op)
    requires (if limited then maxOut else CompressBound(v.end - v.start)) <= dst.Length
    modifies dst
    ensures AllEncodable(acc)
    ensures var bytes := BlockBytes(Block(acc, v.buf[anchor..v.end]));
            && op <= |bytes| <= CompressBound(v.end - v.start)
            && if limited && |bytes| > maxOut then r == 0 && unchanged(dst)
               else Wrote(dst, 0, r, bytes) && OnlyWithin(dst, op, r)
  {
    hide Expand, Legal, SequencesBytes, Extension, AllEncodable;
    var lastRun := v.end - anchor;
    ghost var b := Block(acc, v.buf[anchor..v.end]);
    LastRoom(v, b);
    if limited && op + lastRun + 1 + (lastRun + 255 - RUN_MASK) / 255 > maxOut { return 0; }
    ghost var before := dst[..op];
    r := EmitLast(v.buf, anchor, v.end, dst, op);
    assert dst[..op] == before;
    WroteBoth(dst, 0, op, r, before, HeadBytes(b.last, 0));
  }

  lemma LastRoom(v: View, b: Block)
    requires v.Valid() && AllEncodable(b.seqs) && BlockLength(b) == v.end - v.start
    ensures |BlockBytes(b)| == |SequencesBytes(b.seqs)| + |b.last| + 1 + (|b.last| + 255 - RUN_MASK) / 255
    ensures |BlockBytes(b)| <= CompressBound(v.end - v.start)
  {
    hide SequencesBytes, Extension, AllEncodable, BlockLength;
    BlockSize(b);
    ExtensionSize(|b.last|);
  }

  lemma FoundSpill(v: View, table: seq<nat>, ip: nat, anchor: nat, hit: bool, found: nat, candidate: nat,
                   after: seq<nat>, token: nat, maxOut: nat)
    requires v.Valid() && v.start <= anchor <= ip && v.start < ip && TableOk(v, table, ip)
    requires Search(v, table, ip, 1, SKIP_TRIGGER) == if hit then Hit(found, candidate, after) else NoMatch(after)
    ensures var spill := SpillFrom(v, table, ip, anchor, token, maxOut);
            if hit then
              var c := CatchUp(v, found, candidate, anchor);
              && anchor <= c.0 && IsMatch(v, c.0, c.1) && TableOk(v, after, MatchEnd(v, c.0, c.1))
              && spill == (if LiteralsPass(token, c.0 - anchor, maxOut)
                           then SpillTake(v, after, c.0, c.1, anchor, token, maxOut)
                           else None)
            else spill == None
  {
    hide Search, CatchUp, SpillTake, SpillFrom, LiteralsPass, CommonLength;
    SpillFromStep(v, table, ip, anchor, token, maxOut);
  }

  /** "Find a match" and "Catch up". */
  method FindMatch(v: View, table: array<nat>, ip0: nat, anchor: nat, ghost acc: seq<Sequence>, ghost token: nat,
                   ghost maxOut: nat)
    returns (hit: bool, ip: nat, match_: nat)
    requires v.Valid() && v.start <= anchor <= ip0 && v.start < ip0 <= v.MfLimit() + 1
    requires TableOk(v, table[..], ip0) && Codes(v, acc, anchor)
    modifies table
    ensures TableOk(v, table[..], v.end)
    ensures var r := ParseFrom(v, old(table[..]), ip0, anchor, acc);
            && Codes(v, r.seqs, r.anchor)
            && (!hit ==> r == Greedy(acc, anchor, table[..]))
            && (hit ==>
                  && anchor <= ip && IsMatch(v, ip, match_) && TableOk(v, table[..], MatchEnd(v, ip, match_))
                  && r == TakeMatch(v, table[..], ip, match_, anchor, acc)
                  && acc + [Sequence(v.buf[anchor..ip], ip - match_, MatchEnd(v, ip, match_) - ip)] <= r.seqs)
    ensures var spill := SpillFrom(v, old(table[..]), ip0, anchor, token, maxOut);
            if hit && LiteralsPass(token, ip - anchor, maxOut)
            then spill == SpillTake(v, table[..], ip, match_, anchor, token, maxOut)
            else spill == None
  {
    hide SpillFrom, SpillTake, LiteralsPass, Codes, Search, CatchUp, ParseFrom, TakeMatch, CommonLength, Hash;
    ParseFromCodes(v, table[..], ip0, anchor, acc);
    ParseFromStep(v, table[..], ip0, anchor, acc);
    ghost var table0 := table[..];
    var found, candidate;
    hit, found, candidate := SearchLoop(v, table, ip0);
    ip, match_ := found, candidate;
    if hit {
      ip, match_ := CatchUpLoop(v, found, candidate, anchor);
      TakeMatchCodes(v, table[..], ip, match_, anchor, acc);
    }
    FoundSpill(v, table0, ip0, anchor, hit, found, candidate, table[..], token, maxOut);
  }

  /** LZ4_compress_generic without an external dictionary. The result and the table are those of the
      greedy parse; 0 means that the block is longer than the limit. Nothing is written beyond the limit
      exactly when SpillBlock knows of nothing; otherwise the byte that it knows of is. */
  method CompressGeneric(v: View, table: array<nat>, dst: array<byte>, limited: bool, maxOut: nat) returns (r: nat)
    requires v.Valid() && TableOk(v, table[..], v.start + 1) && dst as object != table
    requires WriteLimit(v, limited, maxOut, SpillBlock(v, table[..], maxOut)) <= dst.Length
    requires limited ==> maxOut <= dst.Length
    modifies table, dst
    ensures OnlyWithin(dst, 0, WriteLimit(v, limited, maxOut, SpillBlock(v, old(table[..]), maxOut)))
    ensures var spill := SpillBlock(v, old(table[..]), maxOut);
            limited && spill.Some? ==> r == 0 && Spilled(dst, spill, dst.Length, maxOut)
    ensures AllEncodable(FastBlock(v, old(table[..])).seqs)
    ensures var bytes := BlockBytes(FastBlock(v, old(table[..])));
            if limited && |bytes| > maxOut then r == 0 else Wrote(dst, 0, r, bytes)
    ensures if v.end > v.start then TableOk(v, table[..], v.end) else table[..] == old(table[..])
    ensures r > 0 ==> table[..] == ParseBlock(v, old(table[..])).table
  {
    hide Codes, SequencesBytes, HeadBytes, AllEncodable, Wrote, IsMatch, ParseFrom, TakeMatch, Put, Hash, Usable;
    hide CommonLength, WriteLimit, BlockBytes, SpillFrom, SpillTake, LiteralsPass;
    ghost var table0 := table[..];
    ghost var goal := ParseBlock(v, table0);
    ghost var spill := SpillBlock(v, table0, maxOut);
    ParseBlockCodes(v, table0);
    FastBlockSound(v, table0);
    var ip, anchor, op := v.start, v.start, 0;
    ghost var acc: seq<Sequence> := [];
    StartWritten(v, dst);
    if v.end - v.start < MIN_LENGTH {
      r := CloseBlock(v, dst, limited, maxOut, 0, anchor, [], spill);
      return;
    }
    PutKeeps(v, table0, Hash(v, ip), ip, ip + 1);
    StoreAt(v, table, Hash(v, ip), ip);
    ip := ip + 1;
    while true
      invariant v.start <= anchor && anchor < ip && ip <= v.MfLimit() + 1
      invariant Written(v, dst, acc, anchor, op) && TableOk(v, table[..], ip)
      invariant ParseFrom(v, table[..], ip, anchor, acc) == goal
      invariant limited ==> spill == SpillFrom(v, table[..], ip, anchor, op, maxOut) || Spilled(dst, spill, op, maxOut)
      invariant OnlyWithin(dst, 0, WriteLimit(v, limited, maxOut, spill))
      decreases v.end - anchor
    {
      var hit, found, match_ := FindMatch(v, table, ip, anchor, acc, op, maxOut);
      if !hit { break; }
      ip := found;
      LateFails(op, ip - anchor, maxOut);
      var ok, lit := EncodeLiterals(v, dst, limited, maxOut, op, anchor, ip, match_, acc, goal, spill);
      if !ok { return 0; }
      var next;
      next, op, anchor, acc := EncodeMatches(v, table, dst, limited, maxOut, op, lit, anchor, ip, match_, acc, goal,
                                             spill);
      if next.Failed? { return 0; }
      if next.Done? { break; }
      ip := anchor + 1;
    }
    r := CloseBlock(v, dst, limited, maxOut, op, anchor, acc, spill);
  }

  lemma LateFails(token: nat, lits: nat, maxOut: nat)
    ensures token > maxOut ==> !LiteralsPass(token, lits, maxOut)
  {
  }

  /** The end of the block, whatever has spilled. */
  method CloseBlock(v: View, dst: array<byte>, limited: bool, maxOut: nat, op: nat, anchor: nat,
                    ghost acc: seq<Sequence>, ghost spill: Option<Spill>)
    returns (r: nat)
    requires v.Valid() && Written(v, dst, acc, anchor, op) && WriteLimit(v, limited, maxOut, spill) <= dst.Length
    requires limited ==> maxOut <= dst.Length && (spill.None? || Spilled(dst, spill, op, maxOut))
    modifies dst
    ensures OnlyWithin(dst, op, WriteLimit(v, limited, maxOut, spill)) && AllEncodable(acc)
    ensures var bytes := BlockBytes(Block(acc, v.buf[anchor..v.end]));
            if limited && |bytes| > maxOut then r == 0 else Wrote(dst, 0, r, bytes)
    ensures limited && spill.Some? ==> r == 0 && Spilled(dst, spill, dst.Length, maxOut)
  {
    hide Codes, AllEncodable, BlockBytes, SequencesBytes;
    r := EncodeLast(v, dst, limited, maxOut, op, anchor, acc);
  }

  /** What ParseFrom does with the outcome of its search. */
  lemma ParseFromStep(v: View, table: seq<nat>, ip: nat, anchor: nat, acc: seq<Sequence>)
    requires v.Valid() && v.start <= anchor <= ip <= v.end && v.start < ip && TableOk(v, table, ip)
    ensures var r := ParseFrom(v, table, ip, anchor, acc);
            var f := Search(v, table, ip, 1, SKIP_TRIGGER);
            && TableOk(v, f.table, v.end)
            && if f.NoMatch? then r == Greedy(acc, anchor, f.table)
               else
                 var c := CatchUp(v, f.ip, f.match_, anchor);
                 && IsMatch(v, c.0, c.1) && anchor <= c.0 && TableOk(v, f.table, MatchEnd(v, c.0, c.1))
                 && r == TakeMatch(v, f.table, c.0, c.1, anchor, acc)
  {
    hide CommonLength, Search, CatchUp, TakeMatch;
    SearchTable(v, table, ip, 1, SKIP_TRIGGER);
  }

  lemma StartWritten(v: View, dst: array<byte>)
    requires v.Valid()
    ensures Written(v, dst, [], v.start, 0)
  {
    assert dst[0..0] == [];
  }
}
