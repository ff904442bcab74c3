/** The greedy parse of LZ4_compress_generic as a function of its input: which sequences it finds,
    and what it leaves in the hash table. One view covers a single block (no dictionary) and a block
    of a stream whose dictionary is the data directly before it. */
module FastParse {
  import opened Bytes
  import opened BlockFormat
  import opened MatchCount

  datatype Kind = ByU16 | ByU32

  const SKIP_TRIGGER := 64
  const MIN_LENGTH := 13

  function TableSize(k: Kind): nat { if k == ByU16 then 8192 else 4096 }

  function Modulus(k: Kind): nat { if k == ByU16 then 0x1_0000 else 0x1_0000_0000 }

  /** LZ4_hashSequence. */
  function HashWord(w: nat, k: Kind): (h: nat)
    ensures h < TableSize(k)
  {
    var m := (w * 2654435761) % 0x1_0000_0000;
    if k == ByU16 then m / 0x8_0000 else m / 0x10_0000
  }

  /** The block buf[start..end] and what may be referenced before it: table entries count from
      `base`, matches may start at `low`, and `small` asks for the check against `low`. */
  datatype View = View(buf: seq<byte>, start: nat, end: nat, base: int, low: nat, small: bool, kind: Kind)
  {
    ghost predicate Valid() {
      && base <= low <= start <= end <= |buf|
      && (small || base == low || start - low >= 0x1_0000)
      && end - start <= LZ4_MAX_INPUT_SIZE
      && (kind == ByU16 ==> base == low == start && end - start < LZ4_64K_LIMIT)
      && end - base < 0x1_0000_0000
    }

    function MfLimit(): int { end - MFLIMIT }

    function MatchLimit(): int { end - LASTLITERALS }

    function Hist(): seq<byte>
      requires low <= start <= |buf|
    {
      buf[low..start]
    }
  }

  /** Every entry of the table is a position already passed. */
  ghost predicate TableOk(v: View, table: seq<nat>, p: int) {
    |table| == TableSize(v.kind) && forall i :: 0 <= i < |table| ==> v.base + table[i] < p
  }

  function Hash(v: View, p: nat): (h: nat)
    requires p + 4 <= |v.buf|
    ensures h < TableSize(v.kind)
  {
    HashWord(Word(v.buf, p, 4), v.kind)
  }

  /** LZ4_putPositionOnHash, with the truncation of the stored position. */
  function Put(v: View, table: seq<nat>, h: nat, p: nat): seq<nat>
    requires h < |table| && v.base <= p
  {
    table[h := (p - v.base) % Modulus(v.kind)]
  }

  /** No position the compressor stores is truncated. */
  lemma PutKeeps(v: View, table: seq<nat>, h: nat, p: nat, q: int)
    requires v.Valid() && h < |table| && v.start <= p && p <= v.MfLimit() && p < q && TableOk(v, table, q)
    ensures v.base + Put(v, table, h, p)[h] == p
    ensures TableOk(v, Put(v, table, h, p), q)
  {
    assert 0 <= p - v.base < Modulus(v.kind);
  }

  /** The tests that come before the candidate is read. */
  predicate TooFar(v: View, match_: int, ip: nat) {
    (v.small && match_ < v.low) || (v.kind != ByU16 && match_ + MAX_DISTANCE < ip)
  }

  /** A candidate that passes them lies in the block or its dictionary. */
  lemma InReach(v: View, match_: int, ip: nat)
    requires v.Valid() && v.base <= match_ < ip && v.start <= ip && ip + MFLIMIT <= v.end && !TooFar(v, match_, ip)
    ensures v.low <= match_ && ip - match_ <= MAX_DISTANCE
  {
  }

  predicate Usable(v: View, match_: int, ip: nat)
    requires v.Valid() && v.base <= match_ < ip && v.start <= ip && ip + MFLIMIT <= v.end
  {
    !TooFar(v, match_, ip) && (InReach(v, match_, ip); Word(v.buf, match_, 4) == Word(v.buf, ip, 4))
  }

  /** A true match: `n` or more common bytes, the first of them in reach. */
  ghost predicate IsMatch(v: View, ip: nat, match_: nat) {
    && v.low <= match_ < ip && ip - match_ <= MAX_DISTANCE
    && ip <= v.MfLimit() && v.end <= |v.buf|
    && MINMATCH <= CommonLength(v.buf, ip, match_, v.MatchLimit())
  }

  lemma UsableIsMatch(v: View, match_: int, ip: nat)
    requires v.Valid() && v.base <= match_ < ip && v.start <= ip && ip + MFLIMIT <= v.end && Usable(v, match_, ip)
    ensures IsMatch(v, ip, match_)
  {
    InReach(v, match_, ip);
    WordTells(v.buf, ip, match_, 4, v.MatchLimit());
  }

  // ---------------------------------------------------------------- the search loop

  datatype Found = NoMatch(table: seq<nat>) | Hit(ip: nat, match_: nat, table: seq<nat>)

  /** The do-while that looks for a match, stepping further the longer it fails. */
  function Search(v: View, table: seq<nat>, ip: nat, step: nat, nb: nat): (f: Found)
    requires v.Valid() && v.start < ip && TableOk(v, table, ip) && step >= 1 && nb >= SKIP_TRIGGER
    ensures f.Hit? ==> ip <= f.ip && IsMatch(v, f.ip, f.match_) && TableOk(v, f.table, f.ip + 1)
    decreases v.end - ip
  {
    var next := ip + step;
    if next > v.MfLimit() then NoMatch(table)
    else
      var h := Hash(v, ip);
      var match_ := v.base + table[h];
      PutKeeps(v, table, h, ip, ip + 1);
      var t := Put(v, table, h, ip);
      if Usable(v, match_, ip) then
        UsableIsMatch(v, match_, ip);
        InReach(v, match_, ip);
        Hit(ip, match_, t)
      else Search(v, t, next, nb / SKIP_TRIGGER, nb + 1)
  }

  /** The match extended backwards, never before `anchor` nor before the dictionary. */
  function CatchUp(v: View, ip: nat, match_: nat, anchor: nat): (r: (nat, nat))
    requires v.Valid() && anchor <= ip && IsMatch(v, ip, match_)
    ensures anchor <= r.0 <= ip && r.0 - r.1 == ip - match_ && IsMatch(v, r.0, r.1)
    ensures r.0 + CommonLength(v.buf, r.0, r.1, v.MatchLimit()) == ip + CommonLength(v.buf, ip, match_, v.MatchLimit())
    decreases ip
  {
    if ip > anchor && match_ > v.low && v.buf[ip - 1] == v.buf[match_ - 1]
    then CatchUp(v, ip - 1, match_ - 1, anchor)
    else (ip, match_)
  }

  // ---------------------------------------------------------------- the main loop

  /** The sequences found, where the last literals start, and the table left behind. */
  datatype Greedy = Greedy(seqs: seq<Sequence>, anchor: nat, table: seq<nat>)

  /** The main loop with `anchor` at the first byte not yet coded and the search starting at `ip`. */
  function ParseFrom(v: View, table: seq<nat>, ip: nat, anchor: nat, acc: seq<Sequence>): Greedy
    requires v.Valid() && v.start <= anchor <= ip && v.start < ip && TableOk(v, table, ip)
    decreases v.end - anchor, 1
  {
    match Search(v, table, ip, 1, SKIP_TRIGGER)
    case NoMatch(t) => Greedy(acc, anchor, t)
    case Hit(ip1, match1, t) =>
      var (ip2, match2) := CatchUp(v, ip1, match1, anchor);
      TakeMatch(v, t, ip2, match2, anchor, acc)
  }

  function MatchEnd(v: View, ip: nat, match_: nat): nat
    requires v.Valid() && IsMatch(v, ip, match_)
  {
    ip + CommonLength(v.buf, ip, match_, v.MatchLimit())
  }

  /** The sequence that ends with this match, and what is tried right after it (_next_match). */
  function TakeMatch(v: View, table: seq<nat>, ip: nat, match_: nat, anchor: nat, acc: seq<Sequence>): Greedy
    requires v.Valid() && v.start <= anchor <= ip && IsMatch(v, ip, match_)
             && TableOk(v, table, MatchEnd(v, ip, match_))
    decreases v.end - anchor, 0
  {
    var end := MatchEnd(v, ip, match_);
    var acc' := acc + [Sequence(v.buf[anchor..ip], ip - match_, end - ip)];
    if end > v.MfLimit() then Greedy(acc', end, table)
    else
      var t1 := AfterMatch(v, table, end);
      var match' := v.base + t1[Hash(v, end)];
      var t2 := AtMatch(v, t1, end);
      if match' + MAX_DISTANCE >= end && Usable(v, match', end) then
        UsableIsMatch(v, match', end);
        InReach(v, match', end);
        TakeMatch(v, t2, end, match', end, acc')
      else ParseFrom(v, t2, end + 1, end, acc')
  }

  function AfterMatch(v: View, table: seq<nat>, ip: nat): (t: seq<nat>)
    requires v.Valid() && v.start + 4 <= ip <= v.MfLimit() && TableOk(v, table, ip)
    ensures TableOk(v, t, ip)
  {
    PutKeeps(v, table, Hash(v, ip - 2), ip - 2, ip);
    Put(v, table, Hash(v, ip - 2), ip - 2)
  }

  function AtMatch(v: View, table: seq<nat>, ip: nat): (t: seq<nat>)
    requires v.Valid() && v.start <= ip <= v.MfLimit() && TableOk(v, table, ip + 1)
    ensures TableOk(v, t, ip + 1)
  {
    PutKeeps(v, table, Hash(v, ip), ip, ip + 1);
    Put(v, table, Hash(v, ip), ip)
  }

  /** The whole parse; blocks shorter than MIN_LENGTH are all literals. */
  function ParseBlock(v: View, table: seq<nat>): Greedy
    requires v.Valid() && TableOk(v, table, v.start + 1)
  {
    if v.end - v.start < MIN_LENGTH then Greedy([], v.start, table)
    else
      var t := AtMatch(v, table, v.start);
      ParseFrom(v, t, v.start + 1, v.start, [])
  }
}
