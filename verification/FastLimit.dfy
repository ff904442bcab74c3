/** When the output limit of the fast compressor is also a bound on what it writes. The length bytes of a
    match, and the token and offset of a match that follows at once, are written on the strength of an
    estimate, `matchLength >> 8`, that can be too small. */
module FastLimit {
  import opened Bytes
  import opened BlockFormat
  import opened MatchCount
  import opened FastParse

  /** A byte that is written at the limit or behind it, and its index. */
  datatype Spill = Spill(at: nat, value: byte)

  /** The output position after token, literals and offset of a sequence. */
  function AfterOffset(token: nat, lits: nat): nat { token + 1 + |Extension(lits)| + lits + 2 }

  /** The two checks against the limit. */
  predicate LiteralsPass(token: nat, lits: nat, maxOut: nat) {
    token + 1 + lits + (2 + 1 + LASTLITERALS) + lits / 255 <= maxOut
  }

  predicate MatchPasses(op: nat, matchLength: nat, maxOut: nat) {
    op + (1 + LASTLITERALS) + matchLength / 256 <= maxOut
  }

  /** The first byte that the compressor is sure to write at the limit or behind it, from this match on,
      whose token is at `token`; None if it writes none. It follows TakeMatch. */
  function SpillTake(v: View, table: seq<nat>, ip: nat, match_: nat, anchor: nat, token: nat,
                     maxOut: nat): Option<Spill>
    requires v.Valid() && v.start <= anchor <= ip && IsMatch(v, ip, match_)
             && TableOk(v, table, MatchEnd(v, ip, match_))
    decreases v.end - anchor, 0
  {
    var end := MatchEnd(v, ip, match_);
    var m := end - ip - MINMATCH;
    var op := AfterOffset(token, ip - anchor);
    var next := op + |Extension(m)|;
    if !MatchPasses(op, m, maxOut) then None
    else if next > maxOut then Some(Spill(next - 1, (m - ML_MASK) % 255))
    else if end > v.MfLimit() then None
    else
      var t1 := AfterMatch(v, table, end);
      var match' := v.base + t1[Hash(v, end)];
      var t2 := AtMatch(v, t1, end);
      if match' + MAX_DISTANCE >= end && Usable(v, match', end) then
        UsableIsMatch(v, match', end);
        InReach(v, match', end);
        if next + 3 > maxOut then Some(Spill(next + 2, (end - match') / 256))
        else SpillTake(v, t2, end, match', end, next, maxOut)
      else SpillFrom(v, t2, end + 1, end, next, maxOut)
  }

  /** The same from a search on; it follows ParseFrom. */
  function SpillFrom(v: View, table: seq<nat>, ip: nat, anchor: nat, token: nat, maxOut: nat): Option<Spill>
    requires v.Valid() && v.start <= anchor <= ip && v.start < ip && TableOk(v, table, ip)
    decreases v.end - anchor, 1
  {
    match Search(v, table, ip, 1, SKIP_TRIGGER)
    case NoMatch(t) => None
    case Hit(ip1, match1, t) =>
      var (ip2, match2) := CatchUp(v, ip1, match1, anchor);
      if LiteralsPass(token, ip2 - anchor, maxOut) then SpillTake(v, t, ip2, match2, anchor, token, maxOut) else None
  }

  /** And for a whole block. */
  function SpillBlock(v: View, table: seq<nat>, maxOut: nat): Option<Spill>
    requires v.Valid() && TableOk(v, table, v.start + 1)
  {
    if v.end - v.start < MIN_LENGTH then None
    else SpillFrom(v, AtMatch(v, table, v.start), v.start + 1, v.start, 0, maxOut)
  }

  // ---------------------------------------------------------------- below a certain size nothing spills

  const LONG_MATCH := 134655

  /** Below LONG_MATCH the estimate leaves room for the length bytes, and for a token and an offset. */
  lemma EstimateHolds(m: nat)
    requires m < LONG_MATCH
    ensures |Extension(m)| + 3 <= 1 + LASTLITERALS + m / 256
  {
    hide Extension;
    ExtensionSize(m);
  }

  /** Until far beyond it still leaves room for the length bytes alone. */
  lemma LengthHolds(m: nat)
    requires m < 2 * LONG_MATCH
    ensures |Extension(m)| <= 1 + LASTLITERALS + m / 256
  {
    hide Extension;
    ExtensionSize(m);
  }

  lemma MatchEndBelow(v: View, ip: nat, match_: nat)
    requires v.Valid() && IsMatch(v, ip, match_)
    ensures ip + MINMATCH <= MatchEnd(v, ip, match_) <= v.MatchLimit()
  {
  }

  /** A match must be LONG_MATCH longer than the least, and MFLIMIT bytes must follow, for a spill. */
  const SPILL_SIZE := MINMATCH + LONG_MATCH + MFLIMIT

  /** One step of SpillTake. */
  lemma SpillTakeStep(v: View, table: seq<nat>, ip: nat, match_: nat, anchor: nat, token: nat, maxOut: nat)
    requires v.Valid() && v.start <= anchor <= ip && IsMatch(v, ip, match_)
             && TableOk(v, table, MatchEnd(v, ip, match_))
    ensures var end := MatchEnd(v, ip, match_);
            var m := end - ip - MINMATCH;
            var op := AfterOffset(token, ip - anchor);
            var next := op + |Extension(m)|;
            var r := SpillTake(v, table, ip, match_, anchor, token, maxOut);
            && v.start + MINMATCH <= end && ip + MINMATCH <= end
            && (!MatchPasses(op, m, maxOut) ==> r == None)
            && (MatchPasses(op, m, maxOut) && next > maxOut ==> r == Some(Spill(next - 1, (m - ML_MASK) % 255)))
            && (MatchPasses(op, m, maxOut) && next <= maxOut && end > v.MfLimit() ==> r == None)
            && (MatchPasses(op, m, maxOut) && next <= maxOut && end <= v.MfLimit() ==>
                  var t1 := AfterMatch(v, table, end);
                  var candidate := v.base + t1[Hash(v, end)];
                  var t2 := AtMatch(v, t1, end);
                  candidate < end &&
                  if candidate + MAX_DISTANCE >= end && Usable(v, candidate, end) then
                    && candidate >= 0 && IsMatch(v, end, candidate) && end - candidate <= MAX_DISTANCE
                    && if next + 3 > maxOut then r == Some(Spill(next + 2, (end - candidate) / 256))
                       else r == SpillTake(v, t2, end, candidate, end, next, maxOut)
                  else r == SpillFrom(v, t2, end + 1, end, next, maxOut))
  {
    hide CommonLength, AfterMatch, AtMatch, Hash, Usable, SpillFrom, MatchPasses, AfterOffset, Extension;
    MatchEndBelow(v, ip, match_);
    var end := MatchEnd(v, ip, match_);
    if end <= v.MfLimit() {
      var candidate := v.base + AfterMatch(v, table, end)[Hash(v, end)];
      if Usable(v, candidate, end) {
        UsableIsMatch(v, candidate, end);
        InReach(v, candidate, end);
      }
    }
  }

  lemma SpillFromStep(v: View, table: seq<nat>, ip: nat, anchor: nat, token: nat, maxOut: nat)
    requires v.Valid() && v.start <= anchor <= ip && v.start < ip && TableOk(v, table, ip)
    ensures var r := SpillFrom(v, table, ip, anchor, token, maxOut);
            var f := Search(v, table, ip, 1, SKIP_TRIGGER);
            if f.NoMatch? then r == None
            else
              var c := CatchUp(v, f.ip, f.match_, anchor);
              && anchor <= c.0 && IsMatch(v, c.0, c.1) && TableOk(v, f.table, MatchEnd(v, c.0, c.1))
              && r == if LiteralsPass(token, c.0 - anchor, maxOut)
                      then SpillTake(v, f.table, c.0, c.1, anchor, token, maxOut)
                      else None
  {
    hide CommonLength, Search, CatchUp, SpillTake, LiteralsPass;
  }

  lemma {:induction false} ShortTake(v: View, table: seq<nat>, ip: nat, match_: nat, anchor: nat, token: nat,
                                     maxOut: nat)
    requires v.Valid() && v.start <= anchor <= ip && IsMatch(v, ip, match_)
             && TableOk(v, table, MatchEnd(v, ip, match_))
    requires v.end - ip < SPILL_SIZE
    ensures SpillTake(v, table, ip, match_, anchor, token, maxOut) == None
    decreases v.end - anchor, 0
  {
    hide CommonLength, Put, Hash, Usable, SpillFrom, SpillTake, Extension, HashWord;
    var end := MatchEnd(v, ip, match_);
    var m := end - ip - MINMATCH;
    MatchEndBelow(v, ip, match_);
    SpillTakeStep(v, table, ip, match_, anchor, token, maxOut);
    LengthHolds(m);
    if MatchPasses(AfterOffset(token, ip - anchor), m, maxOut) && end <= v.MfLimit() {
      EstimateHolds(m);
      var t1 := AfterMatch(v, table, end);
      var candidate := v.base + t1[Hash(v, end)];
      var t2 := AtMatch(v, t1, end);
      var next := AfterOffset(token, ip - anchor) + |Extension(m)|;
      if candidate + MAX_DISTANCE >= end && Usable(v, candidate, end) {
        TableThen(v, t2, end, candidate);
        ShortTake(v, t2, end, candidate, end, next, maxOut);
      } else {
        ShortFrom(v, t2, end + 1, end, next, maxOut);
      }
    }
  }

  lemma TableThen(v: View, table: seq<nat>, ip: nat, match_: nat)
    requires v.Valid() && IsMatch(v, ip, match_) && TableOk(v, table, ip + 1)
    ensures TableOk(v, table, MatchEnd(v, ip, match_))
  {
    hide CommonLength;
    MatchEndBelow(v, ip, match_);
  }

  lemma {:induction false} ShortFrom(v: View, table: seq<nat>, ip: nat, anchor: nat, token: nat, maxOut: nat)
    requires v.Valid() && v.start <= anchor <= ip && v.start < ip && TableOk(v, table, ip)
             && v.end - anchor < SPILL_SIZE
    ensures SpillFrom(v, table, ip, anchor, token, maxOut) == None
    decreases v.end - anchor, 1
  {
    hide CommonLength, Search, CatchUp, SpillTake, LiteralsPass, SpillFrom;
    SpillFromStep(v, table, ip, anchor, token, maxOut);
    var f := Search(v, table, ip, 1, SKIP_TRIGGER);
    if f.Hit? {
      var c := CatchUp(v, f.ip, f.match_, anchor);
      ShortTake(v, f.table, c.0, c.1, anchor, token, maxOut);
    }
  }

  // ---------------------------------------------------------------- nor when the limit is close to the size

  /** LZ4F_compressBlock asks for output that is shorter than the input, of 4 MiB at most. */
  predicate Roomy(v: View, maxOut: nat) {
    v.end - v.start <= maxOut + 1 && v.end - v.start <= 0x40_0000
  }

  /** What has been written is hardly longer than what has been read. */
  predicate Dense(v: View, anchor: nat, token: nat) { 255 * token <= 256 * (anchor - v.start) }

  lemma DenseNext(v: View, anchor: nat, token: nat, lits: nat, m: nat)
    requires Dense(v, anchor, token)
    ensures Dense(v, anchor + lits + MINMATCH + m, AfterOffset(token, lits) + |Extension(m)|)
  {
    hide Extension;
    ExtensionSize(lits);
    ExtensionSize(m);
  }

  lemma LongMatchRoom(v: View, anchor: nat, token: nat, lits: nat, m: nat, maxOut: nat)
    requires Dense(v, anchor, token) && Roomy(v, maxOut) && v.start <= anchor
    requires anchor + lits + MINMATCH + m <= v.MatchLimit() && m >= LONG_MATCH
    ensures AfterOffset(token, lits) + |Extension(m)| + 3 <= maxOut
  {
    hide Extension;
    ExtensionSize(lits);
    ExtensionSize(m);
  }

  lemma {:induction false} RoomyTake(v: View, table: seq<nat>, ip: nat, match_: nat, anchor: nat, token: nat,
                                     maxOut: nat)
    requires v.Valid() && v.start <= anchor <= ip && IsMatch(v, ip, match_)
             && TableOk(v, table, MatchEnd(v, ip, match_))
    requires Roomy(v, maxOut) && Dense(v, anchor, token)
    ensures SpillTake(v, table, ip, match_, anchor, token, maxOut) == None
    decreases v.end - anchor, 0
  {
    hide CommonLength, Put, Hash, Usable, SpillFrom, SpillTake, Extension, HashWord, Dense, Roomy, AfterOffset;
    var end := MatchEnd(v, ip, match_);
    var m := end - ip - MINMATCH;
    MatchEndBelow(v, ip, match_);
    SpillTakeStep(v, table, ip, match_, anchor, token, maxOut);
    DenseNext(v, anchor, token, ip - anchor, m);
    if m < LONG_MATCH { EstimateHolds(m); } else { LongMatchRoom(v, anchor, token, ip - anchor, m, maxOut); }
    if MatchPasses(AfterOffset(token, ip - anchor), m, maxOut) && end <= v.MfLimit() {
      var t1 := AfterMatch(v, table, end);
      var candidate := v.base + t1[Hash(v, end)];
      var t2 := AtMatch(v, t1, end);
      var next := AfterOffset(token, ip - anchor) + |Extension(m)|;
      if candidate + MAX_DISTANCE >= end && Usable(v, candidate, end) {
        TableThen(v, t2, end, candidate);
        RoomyTake(v, t2, end, candidate, end, next, maxOut);
      } else {
        RoomyFrom(v, t2, end + 1, end, next, maxOut);
      }
    }
  }

  lemma {:induction false} RoomyFrom(v: View, table: seq<nat>, ip: nat, anchor: nat, token: nat, maxOut: nat)
    requires v.Valid() && v.start <= anchor <= ip && v.start < ip && TableOk(v, table, ip)
    requires Roomy(v, maxOut) && Dense(v, anchor, token)
    ensures SpillFrom(v, table, ip, anchor, token, maxOut) == None
    decreases v.end - anchor, 1
  {
    hide CommonLength, Search, CatchUp, SpillTake, LiteralsPass, SpillFrom, Dense, Roomy;
    SpillFromStep(v, table, ip, anchor, token, maxOut);
    var f := Search(v, table, ip, 1, SKIP_TRIGGER);
    if f.Hit? {
      var c := CatchUp(v, f.ip, f.match_, anchor);
      RoomyTake(v, f.table, c.0, c.1, anchor, token, maxOut);
    }
  }

  /** Where the output limit is sure to bound the writes: for small blocks, and for the frame layer. */
  lemma LimitHolds(v: View, table: seq<nat>, maxOut: nat)
    requires v.Valid() && TableOk(v, table, v.start + 1) && (v.end - v.start < SPILL_SIZE || Roomy(v, maxOut))
    ensures SpillBlock(v, table, maxOut) == None
  {
    hide SpillFrom, Put, Hash;
    if v.end - v.start >= MIN_LENGTH {
      var t := AtMatch(v, table, v.start);
      if v.end - v.start < SPILL_SIZE {
        ShortFrom(v, t, v.start + 1, v.start, 0, maxOut);
      } else {
        RoomyFrom(v, t, v.start + 1, v.start, 0, maxOut);
      }
    }
  }
}
