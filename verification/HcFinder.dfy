/** The match finder of the high-compression encoder: hash heads, chains of distances, and the two
    searches over them. Index i stands for position i - BASE of the source. */
module HcFinder {
  import opened Bytes
  import opened BlockFormat
  import opened MatchCount
  import opened FastSound

  const BASE := 0x1_0000
  const HASH_SIZE := 0x8000
  const CHAIN_SIZE := 0x1_0000

  /** A match: `len` bytes at `start` repeat those at `ref`. */
  datatype Candidate = Candidate(start: nat, ref: nat, len: nat)
  {
    function End(): nat { start + len }
  }

  /** The bytes really are equal, within reach, and the match is long enough and ends in time. */
  ghost predicate Good(src: seq<byte>, c: Candidate) {
    && c.ref < c.start && c.start - c.ref <= MAX_DISTANCE && MINMATCH <= c.len
    && c.End() <= |src| - LASTLITERALS
    && Repeats(src, c.start, c.End(), c.start - c.ref)
  }

  function HashAt(src: seq<byte>, p: nat): (h: nat)
    requires p + 4 <= |src|
    ensures h < HASH_SIZE
  {
    ((Word(src, p, 4) * 2654435761) % 0x1_0000_0000) / 0x2_0000
  }

  // ---------------------------------------------------------------- what the tables hold

  /** hashTable, chainTable and nextToUpdate. */
  datatype Chains = Chains(heads: seq<nat>, links: seq<nat>, next: nat)
  {
    /** Heads lie below `next`, and every chain step goes back by 1 to MAX_DISTANCE. */
    predicate Valid() {
      && |heads| == HASH_SIZE && BASE <= next && LinksOk(links)
      && forall h :: 0 <= h < HASH_SIZE ==> heads[h] < next
    }
  }

  predicate LinksOk(links: seq<nat>) {
    |links| == CHAIN_SIZE && forall i :: 0 <= i < CHAIN_SIZE ==> 1 <= links[i] <= MAX_DISTANCE
  }

  /** LZ4HC_init. */
  function NoChains(): (t: Chains)
    ensures t.Valid() && t.next == BASE
  {
    Chains(seq(HASH_SIZE, i => 0), seq(CHAIN_SIZE, i => 0xFFFF), BASE)
  }

  /** One position is chained. */
  function InsertNext(src: seq<byte>, t: Chains): (r: Chains)
    requires t.Valid() && t.next - BASE + 4 <= |src|
    ensures r.Valid() && r.next == t.next + 1
  {
    var h := HashAt(src, t.next - BASE);
    Chains(t.heads[h := t.next], t.links[t.next % 0x1_0000 := Min(t.next - t.heads[h], MAX_DISTANCE)], t.next + 1)
  }

  /** Every position before `p` is. */
  function InsertTo(src: seq<byte>, t: Chains, p: nat): (r: Chains)
    requires t.Valid() && t.next <= BASE + p && p + 3 <= |src|
    ensures r.Valid() && r.next == BASE + p
    decreases BASE + p - t.next
  {
    if t.next == BASE + p then t else InsertTo(src, InsertNext(src, t), p)
  }

  lemma Inserted(src: seq<byte>, t: Chains, p: nat)
    requires t.Valid() && t.next <= BASE + p && p + 3 <= |src|
    ensures var r := InsertTo(src, t, p); r.Valid() && r.next == BASE + p
  {
    hide Chains.Valid, InsertNext;
  }

  /** The position before `p`, if it has just been inserted, is the head of its chain. */
  lemma {:induction false} LastIsHead(src: seq<byte>, t: Chains, p: nat)
    requires t.Valid() && t.next < BASE + p && p + 3 <= |src|
    ensures InsertTo(src, t, p).heads[HashAt(src, p - 1)] == BASE + p - 1
    decreases BASE + p - t.next
  {
    hide HashAt;
    if t.next + 1 < BASE + p { LastIsHead(src, InsertNext(src, t), p); }
  }

  /** The lowest index that may be referenced from `ip`. */
  function LowLimit(ip: nat): (low: nat)
    ensures BASE <= low && BASE + ip - low <= MAX_DISTANCE
  {
    if BASE + 0x1_0000 > BASE + ip then BASE else BASE + ip - 0xFFFF
  }

  // ---------------------------------------------------------------- the best match

  /** A position of the chain is taken if the match there is longer than the best one, `c`. */
  function Better(src: seq<byte>, ip: nat, m: nat, c: Candidate): (d: Candidate)
    requires m < ip && ip + MFLIMIT <= |src| && c.start == ip && c.End() <= |src| - LASTLITERALS
    ensures d == c || (c.len < d.len && d.start == ip && d.ref == m && d.End() <= |src| - LASTLITERALS)
  {
    if src[m + c.len] == src[ip + c.len] && Word(src, m, 4) == Word(src, ip, 4) then
      var n := CommonLength(src, ip, m, |src| - LASTLITERALS);
      if n > c.len then Candidate(ip, m, n) else c
    else c
  }

  /** The best match at `ip`, from index `i` of the chain on. */
  function BestFrom(src: seq<byte>, links: seq<nat>, ip: nat, i: nat, attempts: nat, c: Candidate): (r: Candidate)
    requires LinksOk(links) && i < BASE + ip && ip + MFLIMIT <= |src|
    requires c.start == ip && c.End() <= |src| - LASTLITERALS
    ensures r == c || (c.len < r.len && r.start == ip && r.End() <= |src| - LASTLITERALS)
    decreases attempts
  {
    if i < LowLimit(ip) || attempts == 0 then c
    else BestFrom(src, links, ip, i - links[i % 0x1_0000], attempts - 1, Better(src, ip, i - BASE, c))
  }

  lemma BestStep(src: seq<byte>, links: seq<nat>, ip: nat, i: nat, attempts: nat, c: Candidate)
    requires LinksOk(links) && i < BASE + ip && ip + MFLIMIT <= |src|
    requires c.start == ip && c.End() <= |src| - LASTLITERALS
    ensures BestFrom(src, links, ip, i, attempts, c)
            == if i < LowLimit(ip) || attempts == 0 then c
               else BestFrom(src, links, ip, i - links[i % 0x1_0000], attempts - 1, Better(src, ip, i - BASE, c))
  {
    hide Better;
  }

  /** The longest match at `ip` in the first links of its chain; of length 0 if there is none. */
  function Best(src: seq<byte>, t: Chains, ip: nat, attempts: nat): (r: Candidate)
    requires t.Valid() && t.next == BASE + ip && ip + MFLIMIT <= |src|
    ensures r.start == ip && r.End() <= |src| - LASTLITERALS
  {
    BestFrom(src, t.links, ip, t.heads[HashAt(src, ip)], attempts, Candidate(ip, 0, 0))
  }

  lemma BetterGood(src: seq<byte>, ip: nat, m: nat, c: Candidate)
    requires m < ip && ip - m <= MAX_DISTANCE && ip + MFLIMIT <= |src|
    requires c.start == ip && c.End() <= |src| - LASTLITERALS && (c.len > 0 ==> Good(src, c))
    ensures var d := Better(src, ip, m, c); d.len > 0 ==> Good(src, d)
  {
    hide Word, CommonLength;
    if Word(src, m, 4) == Word(src, ip, 4) { CommonGood(src, ip, m); }
  }

  /** Positions whose words agree are a match. */
  lemma CommonGood(src: seq<byte>, ip: nat, m: nat)
    requires m < ip && ip - m <= MAX_DISTANCE && ip + MFLIMIT <= |src| && Word(src, m, 4) == Word(src, ip, 4)
    ensures var n := CommonLength(src, ip, m, |src| - LASTLITERALS);
            && MINMATCH <= n && ip + n <= |src| - LASTLITERALS && Good(src, Candidate(ip, m, n))
            && n == MINMATCH + CommonLength(src, ip + MINMATCH, m + MINMATCH, |src| - LASTLITERALS)
  {
    hide Word, CommonLength;
    WordTells(src, ip, m, 4, |src| - LASTLITERALS);
    CommonBytes(src, ip, m, |src| - LASTLITERALS);
  }

  /** What is found is a true match. */
  lemma {:induction false} BestGoodFrom(src: seq<byte>, links: seq<nat>, ip: nat, i: nat, attempts: nat, c: Candidate)
    requires LinksOk(links) && i < BASE + ip && ip + MFLIMIT <= |src|
    requires c.start == ip && c.End() <= |src| - LASTLITERALS && (c.len > 0 ==> Good(src, c))
    ensures var r := BestFrom(src, links, ip, i, attempts, c); r.len > 0 ==> Good(src, r)
    decreases attempts
  {
    hide Good, Better;
    if i >= LowLimit(ip) && attempts > 0 {
      BetterGood(src, ip, i - BASE, c);
      BestGoodFrom(src, links, ip, i - links[i % 0x1_0000], attempts - 1, Better(src, ip, i - BASE, c));
    }
  }

  /** A head of the chain within reach that agrees in its first word is a match, whatever follows in the chain. */
  lemma HeadFound(src: seq<byte>, t: Chains, ip: nat, attempts: nat)
    requires t.Valid() && t.next == BASE + ip && ip + MFLIMIT <= |src| && attempts > 0
    requires var i := t.heads[HashAt(src, ip)];
             i >= LowLimit(ip) && Word(src, i - BASE, 4) == Word(src, ip, 4)
    ensures var m := t.heads[HashAt(src, ip)] - BASE;
            Best(src, t, ip, attempts).len >= CommonLength(src, ip, m, |src| - LASTLITERALS) >= MINMATCH
  {
    hide HashAt, Word, CommonLength;
    var m := t.heads[HashAt(src, ip)] - BASE;
    CommonGood(src, ip, m);
    assert src[m] == src[ip] by { assert Repeats(src, ip, ip + 1, ip - m); }
  }

  // ---------------------------------------------------------------- a wider match

  /** A match extended backwards. The source compares the match, too, with `iLow`. */
  function Widened(src: seq<byte>, c: Candidate, iLow: nat): (d: Candidate)
    requires c.ref <= c.start <= |src|
    ensures d.End() == c.End() && d.start <= c.start && d.ref <= d.start && (iLow <= c.start ==> iLow <= d.start)
    decreases c.start
  {
    if c.start > iLow && c.ref > iLow && src[c.start - 1] == src[c.ref - 1]
    then Widened(src, Candidate(c.start - 1, c.ref - 1, c.len + 1), iLow)
    else c
  }

  /** A position of the chain is taken if the match around it is longer than the best one so far. */
  function Longer(src: seq<byte>, ip: nat, iLow: nat, m: nat, c: Candidate): (d: Candidate)
    requires m < ip && ip + MFLIMIT <= |src| && iLow <= ip <= iLow + c.len <= |src| - LASTLITERALS
    ensures d == c || (c.len < d.len && iLow <= d.start <= ip && d.End() <= |src| - LASTLITERALS)
  {
    if src[iLow + c.len] == src[m - (ip - iLow) + c.len] && Word(src, m, 4) == Word(src, ip, 4) then
      var w := Widened(src, Candidate(ip, m, CommonLength(src, ip, m, |src| - LASTLITERALS)), iLow);
      if w.len > c.len then w else c
    else c
  }

  function WiderFrom(src: seq<byte>, links: seq<nat>, ip: nat, iLow: nat, i: nat, attempts: nat, c: Candidate)
    : (r: Candidate)
    requires LinksOk(links) && i < BASE + ip && ip + MFLIMIT <= |src|
    requires iLow <= ip <= iLow + c.len <= |src| - LASTLITERALS
    ensures r == c || (c.len < r.len && iLow <= r.start <= ip && r.End() <= |src| - LASTLITERALS)
    decreases attempts
  {
    if i < LowLimit(ip) || attempts == 0 then c
    else WiderFrom(src, links, ip, iLow, i - links[i % 0x1_0000], attempts - 1, Longer(src, ip, iLow, i - BASE, c))
  }

  lemma WiderStep(src: seq<byte>, links: seq<nat>, ip: nat, iLow: nat, i: nat, attempts: nat, c: Candidate)
    requires LinksOk(links) && i < BASE + ip && ip + MFLIMIT <= |src|
    requires iLow <= ip <= iLow + c.len <= |src| - LASTLITERALS
    ensures WiderFrom(src, links, ip, iLow, i, attempts, c)
            == if i < LowLimit(ip) || attempts == 0 then c
               else WiderFrom(src, links, ip, iLow, i - links[i % 0x1_0000], attempts - 1,
                              Longer(src, ip, iLow, i - BASE, c))
  {
    hide Longer;
  }

  /** The longest match around `ip`, from `iLow` on, if it is longer than `longest`. */
  function Wider(src: seq<byte>, t: Chains, ip: nat, iLow: nat, longest: nat, attempts: nat): (r: Candidate)
    requires t.Valid() && t.next == BASE + ip && ip + MFLIMIT <= |src|
    requires iLow <= ip <= iLow + longest <= |src| - LASTLITERALS
    ensures r.len > longest ==> iLow <= r.start <= ip && r.End() <= |src| - LASTLITERALS
    ensures r.len >= longest
  {
    WiderFrom(src, t.links, ip, iLow, t.heads[HashAt(src, ip)], attempts, Candidate(0, 0, longest))
  }

  lemma OneMoreGood(src: seq<byte>, c: Candidate)
    requires Good(src, c) && c.ref > 0 && src[c.start - 1] == src[c.ref - 1]
    ensures Good(src, Candidate(c.start - 1, c.ref - 1, c.len + 1))
  {
  }

  lemma GoodBounds(src: seq<byte>, c: Candidate)
    requires Good(src, c)
    ensures c.ref < c.start && c.End() <= |src| - LASTLITERALS && c.start - c.ref <= MAX_DISTANCE && MINMATCH <= c.len
  {
  }

  lemma {:induction false} WidenedGood(src: seq<byte>, c: Candidate, iLow: nat)
    requires Good(src, c)
    ensures c.ref < c.start <= |src| && Good(src, Widened(src, c, iLow))
    decreases c.start
  {
    hide Good;
    GoodBounds(src, c);
    if c.start > iLow && c.ref > iLow && src[c.start - 1] == src[c.ref - 1] {
      OneMoreGood(src, c);
      WidenedGood(src, Candidate(c.start - 1, c.ref - 1, c.len + 1), iLow);
    }
  }

  /** A longer match is a true one, which covers the word at `ip`. */
  lemma LongerGood(src: seq<byte>, ip: nat, iLow: nat, m: nat, c: Candidate)
    requires m < ip && ip - m <= MAX_DISTANCE && ip + MFLIMIT <= |src|
    requires iLow <= ip <= iLow + c.len <= |src| - LASTLITERALS
    ensures var d := Longer(src, ip, iLow, m, c); d == c || (Good(src, d) && ip + MINMATCH <= d.End())
  {
    hide Word, CommonLength, Good, Widened;
    if Word(src, m, 4) == Word(src, ip, 4) {
      CommonGood(src, ip, m);
      WidenedGood(src, Candidate(ip, m, CommonLength(src, ip, m, |src| - LASTLITERALS)), iLow);
    }
  }

  lemma {:induction false} WiderGoodFrom(src: seq<byte>, links: seq<nat>, ip: nat, iLow: nat, i: nat, attempts: nat,
                                         c: Candidate)
    requires LinksOk(links) && i < BASE + ip && ip + MFLIMIT <= |src|
    requires iLow <= ip <= iLow + c.len <= |src| - LASTLITERALS
    ensures var r := WiderFrom(src, links, ip, iLow, i, attempts, c);
            r == c || (Good(src, r) && ip + MINMATCH <= r.End())
    decreases attempts
  {
    hide Good, Longer;
    if i >= LowLimit(ip) && attempts > 0 {
      LongerGood(src, ip, iLow, i - BASE, c);
      WiderGoodFrom(src, links, ip, iLow, i - links[i % 0x1_0000], attempts - 1, Longer(src, ip, iLow, i - BASE, c));
    }
  }

  /** What the two searches find is good. */
  lemma BestGood(src: seq<byte>, t: Chains, ip: nat, attempts: nat)
    requires t.Valid() && t.next == BASE + ip && ip + MFLIMIT <= |src|
    ensures var r := Best(src, t, ip, attempts); r.start == ip && (r.len > 0 ==> Good(src, r))
  {
    hide Good, HashAt;
    BestGoodFrom(src, t.links, ip, t.heads[HashAt(src, ip)], attempts, Candidate(ip, 0, 0));
  }

  lemma WiderGood(src: seq<byte>, t: Chains, ip: nat, iLow: nat, longest: nat, attempts: nat)
    requires t.Valid() && t.next == BASE + ip && ip + MFLIMIT <= |src|
    requires iLow <= ip <= iLow + longest <= |src| - LASTLITERALS
    ensures var r := Wider(src, t, ip, iLow, longest, attempts);
            && r.len >= longest
            && (r.len > longest ==> Good(src, r) && iLow <= r.start <= ip && ip + MINMATCH <= r.End())
  {
    hide Good, HashAt;
    WiderGoodFrom(src, t.links, ip, iLow, t.heads[HashAt(src, ip)], attempts, Candidate(0, 0, longest));
  }

  // ---------------------------------------------------------------- the tables in place

  class Finder {
    const src: seq<byte>
    const hashTable: array<nat>
    const chainTable: array<nat>
    var nextToUpdate: nat

    ghost function Table(): Chains
      reads this, hashTable, chainTable
    {
      Chains(hashTable[..], chainTable[..], nextToUpdate)
    }

    ghost predicate Valid()
      reads this, hashTable, chainTable
    {
      hashTable != chainTable && Table().Valid()
    }

    ghost function Repr(): set<object>
      reads this
    {
      {this, hashTable, chainTable}
    }

    /** LZ4HC_init. */
    constructor (src: seq<byte>)
      ensures Valid() && this.src == src && Table() == NoChains()
      ensures fresh(hashTable) && fresh(chainTable)
    {
      this.src := src;
      hashTable := new nat[HASH_SIZE](i => 0);
      chainTable := new nat[CHAIN_SIZE](i => 0xFFFF);
      nextToUpdate := BASE;
    }

    /** LZ4HC_Insert: chains every position before `ip`. Positions may not go backwards. */
    method Insert(ip: nat)
      requires Valid() && nextToUpdate <= BASE + ip && ip + 3 <= |src|
      modifies this`nextToUpdate, hashTable, chainTable
      ensures Valid() && Table() == InsertTo(src, old(Table()), ip)
    {
      hide HashAt;
      var target := BASE + ip;
      var idx := nextToUpdate;
      while idx < target
        invariant old(nextToUpdate) <= idx <= target && Chains(hashTable[..], chainTable[..], idx).Valid()
        invariant InsertTo(src, Chains(hashTable[..], chainTable[..], idx), ip) == InsertTo(src, old(Table()), ip)
      {
        ghost var t := Chains(hashTable[..], chainTable[..], idx);
        var h := HashAt(src, idx - BASE);
        var delta := idx - hashTable[h];
        if delta > MAX_DISTANCE { delta := MAX_DISTANCE; }
        chainTable[idx % 0x1_0000] := delta;
        hashTable[h] := idx;
        idx := idx + 1;
        assert Chains(hashTable[..], chainTable[..], idx) == InsertNext(src, t);
      }
      nextToUpdate := target;
    }

    /** One position of the chain, weighed against the best match so far. */
    method TryMatch(ip: nat, match_: nat, iLimit: nat, ml0: nat, ref0: nat) returns (ml: nat, ref: nat)
      requires match_ < ip && ip - match_ <= MAX_DISTANCE && ip + MFLIMIT <= |src| && iLimit == |src| - LASTLITERALS
      requires ip + ml0 <= iLimit
      ensures Candidate(ip, ref, ml) == Better(src, ip, match_, Candidate(ip, ref0, ml0))
    {
      hide Word, CommonLength;
      ml, ref := ml0, ref0;
      if src[match_ + ml] == src[ip + ml] && Word(src, match_, 4) == Word(src, ip, 4) {
        var mlt := CountFrom(ip, match_, iLimit);
        if mlt > ml {
          ml, ref := mlt, match_;
        }
      }
    }

    /** LZ4HC_InsertAndFindBestMatch. */
    method FindBest(ip: nat, iLimit: nat, attempts: nat) returns (ml: nat, ref: nat)
      requires Valid() && nextToUpdate <= BASE + ip && ip + MFLIMIT <= |src| && iLimit == |src| - LASTLITERALS
      modifies this`nextToUpdate, hashTable, chainTable
      ensures Valid() && Table() == InsertTo(src, old(Table()), ip)
      ensures Candidate(ip, ref, ml) == Best(src, Table(), ip, attempts)
    {
      hide HashAt, Better, BestFrom, Chains.Valid;
      ml, ref := 0, 0;
      Insert(ip);
      LinksAreOk();
      var lowLimit := LowLimit(ip);
      var matchIndex: nat, nbAttempts: nat := hashTable[HashAt(src, ip)], attempts;
      ghost var t, best := Table(), Best(src, Table(), ip, attempts);
      while matchIndex >= lowLimit && nbAttempts > 0
        invariant Valid() && Table() == t && matchIndex < BASE + ip && ip + ml <= iLimit
        invariant BestFrom(src, t.links, ip, matchIndex, nbAttempts, Candidate(ip, ref, ml)) == best
        decreases nbAttempts
      {
        BestStep(src, t.links, ip, matchIndex, nbAttempts, Candidate(ip, ref, ml));
        nbAttempts := nbAttempts - 1;
        ml, ref := TryMatch(ip, matchIndex - BASE, iLimit, ml, ref);
        matchIndex := matchIndex - chainTable[matchIndex % 0x1_0000];
      }
      BestStep(src, t.links, ip, matchIndex, nbAttempts, Candidate(ip, ref, ml));
    }

    lemma LinksAreOk()
      requires Valid()
      ensures LinksOk(chainTable[..]) && hashTable.Length == HASH_SIZE
      ensures forall h :: 0 <= h < HASH_SIZE ==> hashTable[h] < nextToUpdate
    {
    }

    /** The length of a match whose first four bytes agree. */
    method CountFrom(ip: nat, match_: nat, limit: nat) returns (len: nat)
      requires match_ < ip && ip - match_ <= MAX_DISTANCE && ip + MFLIMIT <= |src| && limit == |src| - LASTLITERALS
      requires Word(src, match_, 4) == Word(src, ip, 4)
      ensures len == CommonLength(src, ip, match_, limit)
    {
      hide Word;
      CommonGood(src, ip, match_);
      len := Count(src, ip + MINMATCH, match_ + MINMATCH, limit);
      len := len + MINMATCH;
    }

    /** One position of the chain, weighed against the widest match so far. */
    method TryWider(ip: nat, iLow: nat, match_: nat, iHigh: nat, c0: Candidate) returns (c: Candidate)
      requires match_ < ip && ip - match_ <= MAX_DISTANCE && ip + MFLIMIT <= |src| && iHigh == |src| - LASTLITERALS
      requires iLow <= ip <= iLow + c0.len <= iHigh
      ensures c == Longer(src, ip, iLow, match_, c0)
    {
      hide Word, CommonLength, Widened;
      c := c0;
      var delta := ip - iLow;
      if src[iLow + c.len] == src[match_ - delta + c.len] && Word(src, match_, 4) == Word(src, ip, 4) {
        var len := CountFrom(ip, match_, iHigh);
        var w := Widen(ip, match_, len, iLow);
        if w.len > c.len { c := w; }
      }
    }

    /** LZ4HC_InsertAndGetWiderMatch: a longer match that covers `ip` and may start as early as `iLow`. */
    method FindWider(ip: nat, iLow: nat, iHigh: nat, longest: nat, attempts: nat) returns (c: Candidate)
      requires Valid() && nextToUpdate <= BASE + ip && ip + MFLIMIT <= |src| && iHigh == |src| - LASTLITERALS
      requires iLow <= ip <= iLow + longest <= iHigh
      modifies this`nextToUpdate, hashTable, chainTable
      ensures Valid() && Table() == InsertTo(src, old(Table()), ip)
      ensures c == Wider(src, Table(), ip, iLow, longest, attempts)
    {
      hide HashAt, Longer, WiderFrom, Chains.Valid;
      c := Candidate(0, 0, longest);
      Insert(ip);
      LinksAreOk();
      var lowLimit := LowLimit(ip);
      var matchIndex: nat, nbAttempts: nat := hashTable[HashAt(src, ip)], attempts;
      ghost var t, widest := Table(), Wider(src, Table(), ip, iLow, longest, attempts);
      while matchIndex >= lowLimit && nbAttempts > 0
        invariant Valid() && Table() == t && matchIndex < BASE + ip && ip <= iLow + c.len <= iHigh
        invariant WiderFrom(src, t.links, ip, iLow, matchIndex, nbAttempts, c) == widest
        decreases nbAttempts
      {
        WiderStep(src, t.links, ip, iLow, matchIndex, nbAttempts, c);
        nbAttempts := nbAttempts - 1;
        c := TryWider(ip, iLow, matchIndex - BASE, iHigh, c);
        matchIndex := matchIndex - chainTable[matchIndex % 0x1_0000];
      }
      WiderStep(src, t.links, ip, iLow, matchIndex, nbAttempts, c);
    }

    /** The loop that extends a match backwards. */
    method Widen(ip: nat, match_: nat, len: nat, iLow: nat) returns (c: Candidate)
      requires iLow <= ip <= |src| && match_ <= ip
      ensures c == Widened(src, Candidate(ip, match_, len), iLow)
    {
      var startt: nat, tmpMatch: nat := ip, match_;
      while startt > iLow && tmpMatch > iLow && src[startt - 1] == src[tmpMatch - 1]
        invariant iLow <= startt <= ip && tmpMatch <= startt
        invariant Widened(src, Candidate(startt, tmpMatch, ip + len - startt), iLow)
                  == Widened(src, Candidate(ip, match_, len), iLow)
      {
        startt, tmpMatch := startt - 1, tmpMatch - 1;
      }
      c := Candidate(startt, tmpMatch, ip + len - startt);
    }
  }
}
