/** From which size of the input on LZ4_compress_limitedOutput can write beyond its limit. */
module LimitExact {
  import opened Bytes
  import opened BlockFormat
  import opened MatchCount
  import opened FastParse
  import opened FastSound
  import opened FastLimit
  import opened FastCodec

  /** Three literals are the least that the first match can come after and be followed by another at once. */
  const FIRST_SPILL := 3 + SPILL_SIZE

  // ---------------------------------------------------------------- bytes and words

  lemma SameWord(buf: seq<byte>, p: nat, q: nat)
    requires p + 4 <= |buf| && q + 4 <= |buf|
    requires buf[p] == buf[q] && buf[p + 1] == buf[q + 1] && buf[p + 2] == buf[q + 2] && buf[p + 3] == buf[q + 3]
    ensures Word(buf, p, 4) == Word(buf, q, 4)
  {
    WordBytes(buf, p);
    WordBytes(buf, q);
  }

  lemma WordBytes(buf: seq<byte>, p: nat)
    requires p + 4 <= |buf|
    ensures Word(buf, p, 4) == Word4(buf[p], buf[p + 1], buf[p + 2], buf[p + 3])
  {
    assert Word(buf, p + 4, 0) == 0 && Word(buf, p + 3, 1) == buf[p + 3];
    assert Word(buf, p + 2, 2) == buf[p + 2] + 256 * Word(buf, p + 3, 1);
    assert Word(buf, p + 1, 3) == buf[p + 1] + 256 * Word(buf, p + 2, 2);
  }

  function Word4(a: int, b: int, c: int, d: int): int { a + 256 * (b + 256 * (c + 256 * d)) }

  /** A common length ends at the limit or before bytes that differ, and not before. */
  lemma {:induction false} CommonIs(buf: seq<byte>, p: nat, m: nat, limit: nat, n: nat)
    requires m <= p && p + n < limit <= |buf|
    requires (forall k :: p <= k < p + n ==> buf[k] == buf[k - (p - m)]) && buf[p + n] != buf[m + n]
    ensures CommonLength(buf, p, m, limit) == n
    decreases n
  {
    if n > 0 {
      assert buf[p] == buf[p - (p - m)];
      CommonIs(buf, p + 1, m + 1, limit, n - 1);
    }
  }

  lemma {:induction false} CommonStops(buf: seq<byte>, p: nat, m: nat, limit: nat)
    requires m <= p <= limit <= |buf|
    ensures var n := CommonLength(buf, p, m, limit); p + n < limit ==> buf[p + n] != buf[m + n]
    decreases limit - p
  {
    if p < limit && buf[p] == buf[m] { CommonStops(buf, p + 1, m + 1, limit); }
  }

  // ---------------------------------------------------------------- below it nothing is

  /** Where the input repeats itself every two bytes, the search does not go on for long: when its step has
      grown to 2 it finds what it has just passed. */
  lemma {:induction false} SoonHit(v: View, table: seq<nat>, p: nat, step: nat, nb: nat)
    requires v.Valid() && v.kind == ByU32 && !v.small && v.base == v.start == 0 && v.end >= 300
    requires TableOk(v, table, p) && 64 <= nb <= 129 && p == nb - 63 && step == (if nb == 64 then 1 else (nb - 1) / 64)
    requires forall k :: 3 <= k < 200 ==> v.buf[k] == v.buf[k - 2]
    ensures var f := Search(v, table, p, step, nb); f.Hit? && f.ip <= 68
    decreases 129 - nb
  {
    hide HashWord, Word, TooFar;
    var h := Hash(v, p);
    PutKeeps(v, table, h, p, p + 1);
    var t := Put(v, table, h, p);
    if !Usable(v, v.base + table[h], p) {
      if nb < 129 {
        SoonHit(v, t, p + 1, nb / 64, nb + 1);
      } else {
        SameWord(v.buf, p + 2, p);
        assert t[Hash(v, p + 2)] == p;
        NotTooFar(v, p, p + 2);
        assert Usable(v, p, p + 2);
      }
    }
  }

  lemma NotTooFar(v: View, m: nat, ip: nat)
    requires !v.small && m <= ip <= m + MAX_DISTANCE
    ensures !TooFar(v, m, ip)
  {
  }

  /** After a long match at position 1 or 2, no other can follow at once. */
  lemma NoEcho(v: View, table: seq<nat>, last: nat, ip: nat, m: nat)
    requires v.Valid() && v.kind == ByU32 && !v.small && v.base == v.low == v.start == 0
    requires 1 <= ip <= 2 && IsMatch(v, ip, m) && last <= 68 && TableOk(v, table, last + 1)
    requires var end := MatchEnd(v, ip, m); LONG_MATCH < end <= v.MfLimit()
    ensures var end := MatchEnd(v, ip, m);
            var t := Put(v, table, Hash(v, end - 2), end - 2);
            var c := v.base + t[Hash(v, end)];
            !(c + MAX_DISTANCE >= end && c < end && Usable(v, c, end))
  {
    hide HashWord, Word, TooFar;
    var end := MatchEnd(v, ip, m);
    CommonBytes(v.buf, ip, m, v.MatchLimit());
    CommonStops(v.buf, ip, m, v.MatchLimit());
    assert v.buf[end] != v.buf[end - (ip - m)];
    assert v.buf[end - 1] == v.buf[end - 1 - (ip - m)];
    var t := Put(v, table, Hash(v, end - 2), end - 2);
    var c := v.base + t[Hash(v, end)];
    if c + MAX_DISTANCE >= end && c < end && Usable(v, c, end) {
      assert c == end - 2;
      WordTells(v.buf, end, c, 4, v.MatchLimit());
      FirstByte(v.buf, end, c, v.MatchLimit());
    }
  }

  lemma FirstByte(buf: seq<byte>, p: nat, m: nat, limit: nat)
    requires m <= p && limit <= |buf| && CommonLength(buf, p, m, limit) > 0
    ensures p < limit && buf[p] == buf[m]
  {
  }

  /** Then nothing spills from there. */
  lemma EarlyMatch(v: View, table: seq<nat>, last: nat, ip: nat, m: nat, maxOut: nat)
    requires v.Valid() && v.kind == ByU32 && !v.small && v.base == v.low == v.start == 0 && v.end < FIRST_SPILL
    requires 1 <= ip <= 2 && IsMatch(v, ip, m) && TableOk(v, table, last + 1) && TableOk(v, table, MatchEnd(v, ip, m))
    requires MatchEnd(v, ip, m) > LONG_MATCH ==> last <= 68
    ensures SpillTake(v, table, ip, m, 0, 0, maxOut) == None
  {
    hide CommonLength, Hash, Usable, SpillFrom, SpillTake, Extension, MatchPasses, AfterOffset;
    var end := MatchEnd(v, ip, m);
    var len := end - ip - MINMATCH;
    MatchEndBelow(v, ip, m);
    SpillTakeStep(v, table, ip, m, 0, 0, maxOut);
    if MatchPasses(AfterOffset(0, ip), len, maxOut) { LengthFits(AfterOffset(0, ip), len, maxOut); }
    if MatchPasses(AfterOffset(0, ip), len, maxOut) && end <= v.MfLimit() {
      var t1 := AfterMatch(v, table, end);
      var candidate := v.base + t1[Hash(v, end)];
      var t2 := AtMatch(v, t1, end);
      var next := AfterOffset(0, ip) + |Extension(len)|;
      if candidate + MAX_DISTANCE >= end && Usable(v, candidate, end) {
        if len >= LONG_MATCH { NoEcho(v, table, last, ip, m); }
        TableThen(v, t2, end, candidate);
        ShortTake(v, t2, end, candidate, end, next, maxOut);
      } else {
        ShortFrom(v, t2, end + 1, end, next, maxOut);
      }
    }
  }

  /** The estimates that hold, as the checks use them. */
  lemma LengthFits(op: nat, m: nat, maxOut: nat)
    requires m < 2 * LONG_MATCH && MatchPasses(op, m, maxOut)
    ensures op + |Extension(m)| <= maxOut && (m < LONG_MATCH ==> op + |Extension(m)| + 3 <= maxOut)
  {
    hide Extension;
    LengthHolds(m);
    if m < LONG_MATCH { EstimateHolds(m); }
  }

  /** The search behind the first byte, when what it finds is a long match at position 1 or 2. */
  lemma EarlySearch(v: View, table: seq<nat>, ip: nat, m: nat)
    requires v.Valid() && v.kind == ByU32 && !v.small && v.base == v.low == v.start == 0
    requires TableOk(v, table, 1) && 1 <= ip <= 2 && IsMatch(v, ip, m) && MatchEnd(v, ip, m) > LONG_MATCH
    ensures Search(v, table, 1, 1, SKIP_TRIGGER).Hit? && Search(v, table, 1, 1, SKIP_TRIGGER).ip <= 68
  {
    hide CommonLength, Search;
    MatchEndBelow(v, ip, m);
    CommonBytes(v.buf, ip, m, v.MatchLimit());
    EveryTwo(v.buf, ip, MatchEnd(v, ip, m), ip - m);
    SoonHit(v, table, 1, 1, 64);
  }

  lemma EveryTwo(buf: seq<byte>, ip: nat, end: nat, offset: nat)
    requires 1 <= offset <= ip <= 2 && Repeats(buf, ip, end, offset) && end >= 200
    ensures forall k :: 3 <= k < 200 ==> buf[k] == buf[k - 2]
  {
    forall k | 3 <= k < 200 ensures buf[k] == buf[k - 2] {
      assert buf[k] == buf[k - offset] && buf[k - 1] == buf[k - 1 - offset];
    }
  }

  /** Below FIRST_SPILL bytes of input nothing is written beyond the limit, whatever it is. */
  lemma NoneBelow(src: seq<byte>, maxOut: nat)
    requires |src| < FIRST_SPILL
    ensures SpillOf(src, maxOut) == None
  {
    hide CommonLength, Search, CatchUp, SpillTake, LiteralsPass, SpillFrom, Put, Hash;
    OneShotValid(src);
    var v, zero := OneShot(src), ZeroTable(KindFor(|src|));
    if |src| < SPILL_SIZE {
      LimitHolds(v, zero, maxOut);
    } else {
      var t := AtMatch(v, zero, 0);
      SpillFromStep(v, t, 1, 0, 0, maxOut);
      var f := Search(v, t, 1, 1, SKIP_TRIGGER);
      if f.Hit? {
        var c := CatchUp(v, f.ip, f.match_, 0);
        if v.end - c.0 < SPILL_SIZE {
          ShortTake(v, f.table, c.0, c.1, 0, 0, maxOut);
        } else {
          if MatchEnd(v, c.0, c.1) > LONG_MATCH { EarlySearch(v, t, c.0, c.1); }
          EarlyMatch(v, f.table, f.ip, c.0, c.1, maxOut);
        }
      }
    }
  }

  // ---------------------------------------------------------------- from it on something is

  const ECHO := 3 + MINMATCH + LONG_MATCH

  /** "abcabc..." up to a place where it goes on with "caca". */
  function EchoByte(k: nat): byte {
    if k < ECHO then 97 + k % 3
    else if k == ECHO || k == ECHO + 2 then 99
    else if k == ECHO + 1 || k == ECHO + 3 then 97
    else 0
  }

  /** An input that starts like this. */
  predicate Echoes(src: seq<byte>) {
    FIRST_SPILL <= |src| <= LZ4_MAX_INPUT_SIZE && forall k :: 0 <= k < ECHO + 4 ==> src[k] == EchoByte(k)
  }

  lemma EchoWords(src: seq<byte>)
    requires Echoes(src)
    ensures Word(src, 0, 4) == Word(src, 3, 4) == 1633903201 && Word(src, 1, 4) == 1650549602
            && Word(src, 2, 4) == 1667391843
    ensures Word(src, ECHO - 2, 4) == Word(src, ECHO, 4)
  {
    hide Word;
    WordBytes(src, 0);
    WordBytes(src, 1);
    WordBytes(src, 2);
    WordBytes(src, 3);
    assert EchoByte(ECHO - 2) == 99 && EchoByte(ECHO - 1) == 97;
    SameWord(src, ECHO - 2, ECHO);
  }

  lemma EchoHashes()
    ensures HashWord(1633903201, ByU32) == 1280 && HashWord(1650549602, ByU32) == 3637
            && HashWord(1667391843, ByU32) == 981
  {
    hide HashWord;
    HashIs(1633903201, 1009807709, 1343086097);
    HashIs(1650549602, 1020095750, 3814525122);
    HashIs(1667391843, 1030504828, 1028792435);
  }

  lemma HashIs(w: nat, q: nat, m: nat)
    requires w * 2654435761 == q * 0x1_0000_0000 + m && m < 0x1_0000_0000
    ensures HashWord(w, ByU32) == m / 0x10_0000
  {
    ModIs(w * 2654435761, q, m);
  }

  lemma ModIs(x: nat, q: nat, m: nat)
    requires x == q * 0x1_0000_0000 + m && m < 0x1_0000_0000
    ensures x % 0x1_0000_0000 == m
  {
  }

  /** The first three bytes are literals, and the long match starts at the fourth. */
  lemma EchoSearch(src: seq<byte>)
    requires Echoes(src)
    ensures var v := OneShot(src);
            v.Valid() && TableOk(v, ZeroTable(ByU32), 1) && KindFor(|src|) == ByU32
            && var f := Search(v, AtMatch(v, ZeroTable(ByU32), 0), 1, 1, SKIP_TRIGGER);
               f.Hit? && f.ip == 3 && f.match_ == 0
  {
    hide HashWord, Word;
    OneShotValid(src);
    EchoWords(src);
    EchoHashes();
    var v, t0 := OneShot(src), AtMatch(OneShot(src), ZeroTable(ByU32), 0);
    var t1, t2 := t0[3637 := 1], t0[3637 := 1][981 := 2];
    assert Search(v, t2, 3, 1, 66) == Hit(3, 0, t2[1280 := 3]);
    assert Search(v, t1, 2, 1, 65) == Search(v, t2, 3, 1, 66);
  }

  lemma EchoMatch(src: seq<byte>)
    requires Echoes(src)
    ensures var v := OneShot(src); v.Valid() && IsMatch(v, 3, 0) && MatchEnd(v, 3, 0) == ECHO
  {
    hide CommonLength;
    OneShotValid(src);
    forall k | 3 <= k < ECHO ensures src[k] == src[k - 3] { assert EchoByte(k) == EchoByte(k - 3); }
    assert src[ECHO] == EchoByte(ECHO) != EchoByte(ECHO - 3) == src[ECHO - 3];
    CommonIs(src, 3, 0, |src| - LASTLITERALS, ECHO - 3);
  }

  /** The two bytes before the place where the pattern breaks are in the table, and they repeat. */
  lemma EchoFollows(src: seq<byte>, table: seq<nat>)
    requires Echoes(src) && OneShot(src).Valid() && TableOk(OneShot(src), table, ECHO) && KindFor(|src|) == ByU32
    ensures var v := OneShot(src);
            AfterMatch(v, table, ECHO)[Hash(v, ECHO)] == ECHO - 2 && Usable(v, ECHO - 2, ECHO)
  {
    hide HashWord, Word, TooFar;
    EchoWords(src);
    NotTooFar(OneShot(src), ECHO - 2, ECHO);
  }

  /** With room for 537 bytes, the second byte of the second offset is written behind them. */
  lemma EchoSpills(src: seq<byte>)
    requires Echoes(src)
    ensures SpillOf(src, 537) == Some(Spill(537, 0))
  {
    hide CommonLength, Search, CatchUp, SpillTake, SpillFrom, Put, Hash, Usable, AtMatch, AfterMatch, Extension;
    var v, zero := OneShot(src), ZeroTable(ByU32);
    EchoSearch(src);
    EchoMatch(src);
    var t := AtMatch(v, zero, 0);
    var f := Search(v, t, 1, 1, SKIP_TRIGGER);
    SpillFromStep(v, t, 1, 0, 0, 537);
    NoCatchUp(v);
    SpillTakeStep(v, f.table, 3, 0, 0, 0, 537);
    EchoFollows(src, f.table);
    ExtensionSize(3);
    ExtensionSize(LONG_MATCH);
  }

  lemma NoCatchUp(v: View)
    requires v.Valid() && IsMatch(v, 3, 0) && v.low == 0
    ensures CatchUp(v, 3, 0, 0) == (3, 0)
  {
  }

  /** Whatever the input and the limit, nothing is written beyond the limit, if and only if the input is
      shorter than FIRST_SPILL bytes. */
  lemma LimitExactly(n: nat)
    requires n <= LZ4_MAX_INPUT_SIZE
    ensures n < FIRST_SPILL <==> forall src: seq<byte>, maxOut: nat :: |src| == n ==> SpillOf(src, maxOut) == None
  {
    hide SpillOf;
    if n < FIRST_SPILL {
      forall src: seq<byte>, maxOut: nat | |src| == n ensures SpillOf(src, maxOut) == None { NoneBelow(src, maxOut); }
    } else {
      var src := seq(n, k requires 0 <= k < n => EchoByte(k));
      EchoSpills(src);
    }
  }
}
