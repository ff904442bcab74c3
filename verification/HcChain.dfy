/** What the chains of the match finder hold, and that its searches find the longest match there is. */
module HcChain {
  import opened Bytes
  import opened BlockFormat
  import opened MatchCount
  import opened FastSound
  import opened HcFinder
  import opened HcParse

  // ---------------------------------------------------------------- the chains

  /** The index of the last position before `n` with this hash; 0 if there is none. */
  function Before(src: seq<byte>, h: nat, n: nat): (i: nat)
    requires n == 0 || n + 3 <= |src|
    ensures i == 0 || (BASE <= i < BASE + n && HashAt(src, i - BASE) == h)
    ensures forall q: nat :: q < n && BASE + q > i ==> HashAt(src, q) != h
  {
    if n == 0 then 0 else if HashAt(src, n - 1) == h then BASE + n - 1 else Before(src, h, n - 1)
  }

  /** How many positions of src[q..n] have this hash. */
  function Between(src: seq<byte>, h: nat, q: nat, n: nat): nat
    requires n == 0 || n + 3 <= |src|
  {
    if n <= q then 0 else Between(src, h, q, n - 1) + if HashAt(src, n - 1) == h then 1 else 0
  }

  /** The step from a position to the one before it with the same hash, which may be too far to be stored. */
  function StepBack(src: seq<byte>, p: nat): nat
    requires p + 4 <= |src|
  {
    Min(BASE + p - Before(src, HashAt(src, p), p), MAX_DISTANCE)
  }

  /** Every head is the last position with its hash, and every link of the window leads to the one before. */
  ghost predicate Linked(src: seq<byte>, t: Chains) {
    && t.Valid() && (t.next == BASE || t.next - BASE + 3 <= |src|)
    && (forall h :: 0 <= h < HASH_SIZE ==> t.heads[h] == Before(src, h, t.next - BASE))
    && forall p: nat :: p < t.next - BASE <= p + CHAIN_SIZE ==> t.links[p % CHAIN_SIZE] == StepBack(src, p)
  }

  lemma NoChainsLinked(src: seq<byte>)
    ensures Linked(src, NoChains())
  {
  }

  lemma InsertLinked(src: seq<byte>, t: Chains)
    requires Linked(src, t) && t.next - BASE + 4 <= |src|
    ensures Linked(src, InsertNext(src, t))
  {
    hide HashAt;
  }

  lemma {:induction false} InsertToLinked(src: seq<byte>, t: Chains, p: nat)
    requires Linked(src, t) && t.next <= BASE + p && p + 3 <= |src|
    ensures Linked(src, InsertTo(src, t, p))
    decreases BASE + p - t.next
  {
    hide Linked, InsertNext;
    LinkedValid(src, t);
    if t.next < BASE + p {
      InsertLinked(src, t);
      InsertToLinked(src, InsertNext(src, t), p);
    }
  }

  lemma LinkedValid(src: seq<byte>, t: Chains)
    requires Linked(src, t)
    ensures t.Valid()
  {
  }

  /** Every state of the parser has such chains. */
  lemma NextLinked(src: seq<byte>, attempts: nat, s: Parser)
    requires Sound(src, s) && !AtEnd(src, s.j) && Linked(src, s.t)
    ensures Linked(src, NextState(src, attempts, s).t)
  {
    hide Linked, InsertTo, Best, Wider, Good, Codes, AllEncodable, Short, AfterThree;
    match s.j.label_
    case MainLoop => InsertToLinked(src, s.t, s.j.ip);
    case Search2 =>
      ReadyEnds(src, s.j.c1);
      if s.j.c1.End() < MfLimitOf(src) { InsertToLinked(src, s.t, s.j.c1.End() - 2); }
    case Search3 =>
      SeparateGood(src, s.j.c1, s.j.c2);
      var c2 := Separate(s.j.c1, s.j.c2);
      ReadyEnds(src, c2);
      if c2.End() < MfLimitOf(src) { InsertToLinked(src, s.t, c2.End() - 3); }
  }

  // ---------------------------------------------------------------- the best match is the longest

  /** A position that a match at `ip` may refer to, that the chain reaches within the attempts. */
  ghost predicate Candidates(src: seq<byte>, ip: nat, q: nat, n: nat, attempts: nat)
    requires ip + 4 <= |src| && n <= ip
  {
    && q < n && ip - q <= MAX_DISTANCE && Word(src, q, 4) == Word(src, ip, 4)
    && Between(src, HashAt(src, ip), q, n) <= attempts
  }

  lemma SameHash(src: seq<byte>, p: nat, q: nat)
    requires p + 4 <= |src| && q + 4 <= |src| && Word(src, p, 4) == Word(src, q, 4)
    ensures HashAt(src, p) == HashAt(src, q)
  {
    hide Word;
  }

  /** Nothing lies between a position and the one before it with the same hash. */
  lemma {:induction false} BetweenBefore(src: seq<byte>, h: nat, q: nat, n: nat)
    requires q < n && n + 3 <= |src| && HashAt(src, q) == h
    ensures var i := Before(src, h, n);
            && BASE + q <= i && Between(src, h, q, n) == 1 + Between(src, h, q, i - BASE)
  {
    hide HashAt;
    if HashAt(src, n - 1) != h { BetweenBefore(src, h, q, n - 1); }
  }

  /** The chain goes on from there, as far as matches may reach. */
  lemma ChainStep(src: seq<byte>, t: Chains, ip: nat, n: nat, q: nat, attempts: nat)
    requires Linked(src, t) && t.next == BASE + ip && ip + MFLIMIT <= |src| && n <= ip
    requires Candidates(src, ip, q, n, attempts)
    ensures var i := Before(src, HashAt(src, ip), n);
            && LowLimit(ip) <= i < BASE + n && attempts > 0 && BASE + q <= i
            && (BASE + q == i
                || (Candidates(src, ip, q, i - BASE, attempts - 1)
                    && i - t.links[i % CHAIN_SIZE] == Before(src, HashAt(src, ip), i - BASE)))
  {
    hide HashAt, Word;
    var h := HashAt(src, ip);
    SameHash(src, q, ip);
    BetweenBefore(src, h, q, n);
    var i := Before(src, h, n);
    if BASE + q < i {
      var p := i - BASE;
      BetweenBefore(src, h, q, p);
      assert i % CHAIN_SIZE == p % CHAIN_SIZE;
      assert t.links[p % CHAIN_SIZE] == StepBack(src, p);
    }
  }

  lemma BetterAtLeast(src: seq<byte>, ip: nat, m: nat, c: Candidate)
    requires m < ip && ip + MFLIMIT <= |src| && c.start == ip && c.End() <= |src| - LASTLITERALS
    requires Word(src, m, 4) == Word(src, ip, 4)
    ensures Better(src, ip, m, c).len >= CommonLength(src, ip, m, |src| - LASTLITERALS)
  {
    hide Word, CommonLength;
    var n := CommonLength(src, ip, m, |src| - LASTLITERALS);
    CommonBytes(src, ip, m, |src| - LASTLITERALS);
    if n > c.len { assert src[ip + c.len] == src[m + c.len]; }
  }

  lemma {:induction false} BestCovers(src: seq<byte>, t: Chains, ip: nat, n: nat, attempts: nat, c: Candidate, q: nat)
    requires Linked(src, t) && t.next == BASE + ip && ip + MFLIMIT <= |src| && n <= ip
    requires Candidates(src, ip, q, n, attempts)
    requires c.start == ip && c.End() <= |src| - LASTLITERALS && (c.len == 0 || c.ref >= n)
    ensures Before(src, HashAt(src, ip), n) < BASE + ip
    ensures var r := BestFrom(src, t.links, ip, Before(src, HashAt(src, ip), n), attempts, c);
            var len := CommonLength(src, ip, q, |src| - LASTLITERALS);
            len <= r.len && (len == r.len ==> q <= r.ref)
    decreases n
  {
    hide HashAt, Word, CommonLength, Candidates, Linked, Before, Better, BestFrom, Good;
    ChainStep(src, t, ip, n, q, attempts);
    LinkedValid(src, t);
    CandidateIs(src, ip, q, n, attempts);
    var i := Before(src, HashAt(src, ip), n);
    BestStep(src, t.links, ip, i, attempts, c);
    if BASE + q == i {
      BetterAtLeast(src, ip, q, c);
      CommonGood(src, ip, q);
    } else {
      BestCovers(src, t, ip, i - BASE, attempts - 1, Better(src, ip, i - BASE, c), q);
    }
  }

  lemma CandidateIs(src: seq<byte>, ip: nat, q: nat, n: nat, attempts: nat)
    requires ip + 4 <= |src| && n <= ip && Candidates(src, ip, q, n, attempts)
    ensures q < n && ip - q <= MAX_DISTANCE && Word(src, q, 4) == Word(src, ip, 4)
  {
  }

  /** The best match is at least as long as that with any position in reach that agrees in its first four bytes,
      provided not too many others with the same hash come before it; and of several longest matches it is the
      closest. */
  lemma BestLongest(src: seq<byte>, t: Chains, ip: nat, attempts: nat, q: nat)
    requires Linked(src, t) && t.next == BASE + ip && ip + MFLIMIT <= |src|
    requires Candidates(src, ip, q, ip, attempts)
    ensures t.Valid()
    ensures var r := Best(src, t, ip, attempts);
            var len := CommonLength(src, ip, q, |src| - LASTLITERALS);
            MINMATCH <= len <= r.len && (len == r.len ==> q <= r.ref)
  {
    hide Word, CommonLength, HashAt, Candidates;
    LinkedHeads(src, t, HashAt(src, ip));
    CandidateIs(src, ip, q, ip, attempts);
    CommonGood(src, ip, q);
    BestCovers(src, t, ip, ip, attempts, Candidate(ip, 0, 0), q);
  }

  /** So where the main loop passes a position by, no position in reach agrees with it. */
  lemma PassedBy(src: seq<byte>, attempts: nat, s: Parser, q: nat)
    requires Sound(src, s) && Linked(src, s.t) && s.j.label_.MainLoop? && !AtEnd(src, s.j)
    requires NextState(src, attempts, s).j.label_.MainLoop?
    ensures !Candidates(src, s.j.ip, q, s.j.ip, attempts)
  {
    hide Linked, Candidates, Best, InsertTo, Codes, AllEncodable, Short;
    InsertToLinked(src, s.t, s.j.ip);
    if Candidates(src, s.j.ip, q, s.j.ip, attempts) {
      BestLongest(src, InsertTo(src, s.t, s.j.ip), s.j.ip, attempts, q);
    }
  }

  // ---------------------------------------------------------------- and so is the wider match

  /** A match is extended backwards until its bytes differ, or it or what it refers to is at `iLow`. */
  lemma {:induction false} WidenedStops(src: seq<byte>, c: Candidate, iLow: nat)
    requires c.ref < c.start <= |src|
    ensures var d := Widened(src, c, iLow);
            && d.start - d.ref == c.start - c.ref
            && (d.start <= iLow || d.ref <= iLow || src[d.start - 1] != src[d.ref - 1])
    decreases c.start
  {
    if c.start > iLow && c.ref > iLow && src[c.start - 1] == src[c.ref - 1] {
      WidenedStops(src, Candidate(c.start - 1, c.ref - 1, c.len + 1), iLow);
    }
  }

  /** As far as it repeats, while what it refers to lies behind `iLow`. */
  lemma {:induction false} WidenedFar(src: seq<byte>, c: Candidate, iLow: nat, b: nat)
    requires c.ref < c.start <= |src| && iLow + b <= c.ref
    requires Repeats(src, c.start - b, c.start, c.start - c.ref)
    ensures Widened(src, c, iLow).start <= c.start - b
    decreases b
  {
    if b > 0 {
      assert src[c.start - 1] == src[c.start - 1 - (c.start - c.ref)];
      WidenedFar(src, Candidate(c.start - 1, c.ref - 1, c.len + 1), iLow, b - 1);
    }
  }

  /** The match around `ip` that position `m` gives. */
  function Around(src: seq<byte>, ip: nat, iLow: nat, m: nat): (w: Candidate)
    requires m < ip <= |src| && LASTLITERALS <= |src|
  {
    Widened(src, Candidate(ip, m, CommonLength(src, ip, m, |src| - LASTLITERALS)), iLow)
  }

  lemma LongerAtLeast(src: seq<byte>, ip: nat, iLow: nat, m: nat, c: Candidate)
    requires m < ip && ip - m <= MAX_DISTANCE && ip + MFLIMIT <= |src| && Word(src, m, 4) == Word(src, ip, 4)
    requires iLow <= ip <= iLow + c.len <= |src| - LASTLITERALS
    ensures var w := Around(src, ip, iLow, m);
            Longer(src, ip, iLow, m, c) == if w.len > c.len then w else c
  {
    hide Word, CommonLength, Widened;
    CommonGood(src, ip, m);
    var first := Candidate(ip, m, CommonLength(src, ip, m, |src| - LASTLITERALS));
    WidenedGood(src, first, iLow);
    WidenedStops(src, first, iLow);
    var w := Around(src, ip, iLow, m);
    if w.len > c.len { assert src[iLow + c.len] == src[iLow + c.len - (w.start - w.ref)]; }
  }

  lemma {:induction false} WiderCovers(src: seq<byte>, t: Chains, ip: nat, iLow: nat, n: nat, attempts: nat,
                                       c: Candidate, q: nat)
    requires Linked(src, t) && t.next == BASE + ip && ip + MFLIMIT <= |src| && n <= ip
    requires iLow <= ip <= iLow + c.len <= |src| - LASTLITERALS && Candidates(src, ip, q, n, attempts)
    ensures Before(src, HashAt(src, ip), n) < BASE + ip
    ensures WiderFrom(src, t.links, ip, iLow, Before(src, HashAt(src, ip), n), attempts, c).len
            >= Around(src, ip, iLow, q).len
    decreases n
  {
    hide HashAt, Word, CommonLength, Candidates, Linked, Before, Longer, Around, WiderFrom;
    ChainStep(src, t, ip, n, q, attempts);
    LinkedValid(src, t);
    CandidateIs(src, ip, q, n, attempts);
    var i := Before(src, HashAt(src, ip), n);
    WiderStep(src, t.links, ip, iLow, i, attempts, c);
    if BASE + q == i {
      LongerAtLeast(src, ip, iLow, q, c);
    } else {
      WiderCovers(src, t, ip, iLow, i - BASE, attempts - 1, Longer(src, ip, iLow, i - BASE, c), q);
    }
  }

  /** Nothing more can be had from the match: its bytes differ before it and behind it, or it has come to a limit. */
  ghost predicate Maximal(src: seq<byte>, c: Candidate, iLow: nat)
    requires Good(src, c)
  {
    && (c.start <= iLow || c.ref <= iLow || src[c.start - 1] != src[c.ref - 1])
    && (c.End() == |src| - LASTLITERALS || src[c.End()] != src[c.ref + c.len])
  }

  lemma LongerMaximal(src: seq<byte>, ip: nat, iLow: nat, m: nat, c: Candidate)
    requires m < ip && ip - m <= MAX_DISTANCE && ip + MFLIMIT <= |src|
    requires iLow <= ip <= iLow + c.len <= |src| - LASTLITERALS
    ensures var d := Longer(src, ip, iLow, m, c); d == c || (Good(src, d) && Maximal(src, d, iLow))
  {
    hide Word, CommonLength, Good, Widened;
    LongerGood(src, ip, iLow, m, c);
    if Word(src, m, 4) == Word(src, ip, 4) {
      CommonGood(src, ip, m);
      WidenedStops(src, Candidate(ip, m, CommonLength(src, ip, m, |src| - LASTLITERALS)), iLow);
      CommonStops(src, ip, m, |src| - LASTLITERALS);
    }
  }

  lemma {:induction false} MaximalFrom(src: seq<byte>, links: seq<nat>, ip: nat, iLow: nat, i: nat, attempts: nat,
                                       c: Candidate)
    requires LinksOk(links) && i < BASE + ip && ip + MFLIMIT <= |src|
    requires iLow <= ip <= iLow + c.len <= |src| - LASTLITERALS
    ensures var r := WiderFrom(src, links, ip, iLow, i, attempts, c); r == c || (Good(src, r) && Maximal(src, r, iLow))
    decreases attempts
  {
    hide Good, Longer, Maximal;
    if i >= LowLimit(ip) && attempts > 0 {
      LongerMaximal(src, ip, iLow, i - BASE, c);
      MaximalFrom(src, links, ip, iLow, i - links[i % 0x1_0000], attempts - 1, Longer(src, ip, iLow, i - BASE, c));
    }
  }

  /** The wider match is at least as long as any match around `ip` with a position in reach that agrees in its first
      four bytes, extended forwards as far as the bytes agree and backwards over `b` bytes that repeat, but not to
      where it would refer to bytes before `iLow`. */
  lemma WiderLongest(src: seq<byte>, t: Chains, ip: nat, iLow: nat, longest: nat, attempts: nat, q: nat, b: nat)
    requires Linked(src, t) && t.next == BASE + ip && ip + MFLIMIT <= |src|
    requires iLow <= ip <= iLow + longest <= |src| - LASTLITERALS
    requires Candidates(src, ip, q, ip, attempts) && b <= q && (b == 0 || iLow + b <= q)
    requires Repeats(src, ip - b, ip, ip - q)
    ensures t.Valid()
    ensures Wider(src, t, ip, iLow, longest, attempts).len >= b + CommonLength(src, ip, q, |src| - LASTLITERALS)
  {
    hide Word, CommonLength, HashAt, Candidates;
    LinkedHeads(src, t, HashAt(src, ip));
    CandidateIs(src, ip, q, ip, attempts);
    CommonGood(src, ip, q);
    WiderCovers(src, t, ip, iLow, ip, attempts, Candidate(0, 0, longest), q);
    if b > 0 { WidenedFar(src, Candidate(ip, q, CommonLength(src, ip, q, |src| - LASTLITERALS)), iLow, b); }
  }

  /** What it finds cannot be extended any further. */
  lemma WiderMaximal(src: seq<byte>, t: Chains, ip: nat, iLow: nat, longest: nat, attempts: nat)
    requires t.Valid() && t.next == BASE + ip && ip + MFLIMIT <= |src|
    requires iLow <= ip <= iLow + longest <= |src| - LASTLITERALS
    ensures var r := Wider(src, t, ip, iLow, longest, attempts);
            r.len > longest ==> Good(src, r) && Maximal(src, r, iLow)
  {
    hide Good, Maximal, HashAt;
    MaximalFrom(src, t.links, ip, iLow, t.heads[HashAt(src, ip)], attempts, Candidate(0, 0, longest));
  }

  lemma LinkedHeads(src: seq<byte>, t: Chains, h: nat)
    requires Linked(src, t) && h < HASH_SIZE
    ensures t.Valid() && t.heads[h] == Before(src, h, t.next - BASE)
  {
  }

  /** A match at `p` with position `q`, extended backwards over `b` bytes, behind `iLow`. */
  ghost predicate Extends(src: seq<byte>, p: nat, iLow: nat, q: nat, b: nat, attempts: nat)
    requires p + 4 <= |src|
  {
    && Candidates(src, p, q, p, attempts) && b <= q && (b == 0 || iLow + b <= q) && Repeats(src, p - b, p, p - q)
  }

  /** One match is written on its own only if nothing behind its start and over its end is longer. */
  lemma AloneIsLongest(src: seq<byte>, attempts: nat, s: Parser, q: nat, b: nat)
    requires Sound(src, s) && Linked(src, s.t) && s.j.label_.Search2? && s.j.c1.End() < MfLimitOf(src)
    requires NextState(src, attempts, s).j.label_.MainLoop?
    requires MINMATCH <= s.j.c1.End() && Extends(src, s.j.c1.End() - 2, s.j.c1.start + 1, q, b, attempts)
    ensures b + CommonLength(src, s.j.c1.End() - 2, q, |src| - LASTLITERALS) <= s.j.c1.len
  {
    hide Linked, Candidates, Wider, InsertTo, Codes, AllEncodable, Short, Good, CommonLength, Repeats;
    var c1 := s.j.c1;
    ReadyEnds(src, c1);
    var p := c1.End() - 2;
    InsertToLinked(src, s.t, p);
    WiderLongest(src, InsertTo(src, s.t, p), p, c1.start + 1, c1.len, attempts, q, b);
  }

  /** Two are written only if nothing from the start of the second on and over its end is longer than it. */
  lemma TwoAreLongest(src: seq<byte>, attempts: nat, s: Parser, q: nat, b: nat)
    requires Sound(src, s) && Linked(src, s.t) && s.j.label_.Search3?
    requires s.j.c1.start <= s.j.c2.start && MINMATCH <= s.j.c2.len
    requires var c2 := Separate(s.j.c1, s.j.c2);
             MINMATCH <= c2.End() < MfLimitOf(src) && Extends(src, c2.End() - 3, c2.start, q, b, attempts)
    requires NextState(src, attempts, s).j.label_.MainLoop?
    ensures var c2 := Separate(s.j.c1, s.j.c2);
            b + CommonLength(src, c2.End() - 3, q, |src| - LASTLITERALS) <= c2.len
  {
    hide Linked, Candidates, Wider, InsertTo, Codes, AllEncodable, Short, Good, CommonLength, Repeats;
    SeparateGood(src, s.j.c1, s.j.c2);
    var c2 := Separate(s.j.c1, s.j.c2);
    ReadyEnds(src, c2);
    var p := c2.End() - 3;
    InsertToLinked(src, s.t, p);
    WiderLongest(src, InsertTo(src, s.t, p), p, c2.start, c2.len, attempts, q, b);
  }
}
