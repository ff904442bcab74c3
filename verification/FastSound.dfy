/** The greedy parse is a legal block that decodes to its input. */
module FastSound {
  import opened Bytes
  import opened BlockFormat
  import opened BlockRules
  import opened MatchCount
  import opened FastParse

  /** `acc` codes buf[start..anchor]. */
  ghost predicate Codes(v: View, acc: seq<Sequence>, anchor: nat)
    requires v.Valid()
  {
    && v.start <= anchor <= v.end
    && anchor - v.start == SeqsLength(acc)
    && Expand(v.Hist(), acc) == Some(v.buf[v.low..anchor])
    && Legal(acc, v.start - v.low, v.end - v.start)
  }

  lemma {:induction false} CommonBytes(buf: seq<byte>, p: nat, m: nat, limit: nat)
    requires m <= p <= limit <= |buf|
    ensures Repeats(buf, p, p + CommonLength(buf, p, m, limit), p - m)
    decreases limit - p
  {
    if p < limit && buf[p] == buf[m] { CommonBytes(buf, p + 1, m + 1, limit); }
  }

  /** A repetition of earlier bytes extends the coded part. */
  lemma CodesRepeat(v: View, acc: seq<Sequence>, anchor: nat, ip: nat, m: nat, len: nat)
    requires v.Valid() && Codes(v, acc, anchor) && anchor <= ip <= v.MfLimit() && v.low <= m < ip
    requires MINMATCH <= len && ip + len <= v.MatchLimit() && ip - m <= MAX_DISTANCE
    requires Repeats(v.buf, ip, ip + len, ip - m)
    ensures Codes(v, acc + [Sequence(v.buf[anchor..ip], ip - m, len)], ip + len)
  {
    hide Expand, Legal, Repeats;
    var s := Sequence(v.buf[anchor..ip], ip - m, len);
    ExpandMatch(v.buf, v.low, v.start, anchor, ip, m, len, acc);
    LegalSnoc(acc, s, v.start - v.low, v.end - v.start);
    LengthSnoc(acc, s);
  }

  /** Any true match of this data, up to its full length, extends the coded part. */
  lemma CodesMore(v: View, acc: seq<Sequence>, anchor: nat, ip: nat, m: nat, len: nat)
    requires v.Valid() && Codes(v, acc, anchor) && anchor <= ip && IsMatch(v, ip, m)
    requires MINMATCH <= len <= CommonLength(v.buf, ip, m, v.MatchLimit())
    ensures Codes(v, acc + [Sequence(v.buf[anchor..ip], ip - m, len)], ip + len)
  {
    hide CommonLength, Codes;
    CommonBytes(v.buf, ip, m, v.MatchLimit());
    CodesRepeat(v, acc, anchor, ip, m, len);
  }

  lemma {:induction false} ParseFromCodes(v: View, table: seq<nat>, ip: nat, anchor: nat, acc: seq<Sequence>)
    requires v.Valid() && v.start <= anchor <= ip <= v.end && v.start < ip && TableOk(v, table, ip)
    requires Codes(v, acc, anchor)
    ensures var r := ParseFrom(v, table, ip, anchor, acc);
            acc <= r.seqs && Codes(v, r.seqs, r.anchor) && TableOk(v, r.table, v.end)
    decreases v.end - anchor, 1
  {
    hide Codes, Search, CatchUp;
    SearchTable(v, table, ip, 1, SKIP_TRIGGER);
    var f := Search(v, table, ip, 1, SKIP_TRIGGER);
    if f.Hit? {
      var (ip2, m2) := CatchUp(v, f.ip, f.match_, anchor);
      TakeMatchCodes(v, f.table, ip2, m2, anchor, acc);
    }
  }

  lemma {:induction false} TakeMatchCodes(v: View, table: seq<nat>, ip: nat, m: nat, anchor: nat, acc: seq<Sequence>)
    requires v.Valid() && v.start <= anchor <= ip && IsMatch(v, ip, m) && TableOk(v, table, MatchEnd(v, ip, m))
    requires Codes(v, acc, anchor)
    ensures var r := TakeMatch(v, table, ip, m, anchor, acc);
            && acc + [Sequence(v.buf[anchor..ip], ip - m, MatchEnd(v, ip, m) - ip)] <= r.seqs
            && Codes(v, r.seqs, r.anchor) && TableOk(v, r.table, v.end)
    decreases v.end - anchor, 0
  {
    hide Codes, CommonLength, Hash, Usable, Put;
    var end := MatchEnd(v, ip, m);
    CodesMore(v, acc, anchor, ip, m, end - ip);
    var acc' := acc + [Sequence(v.buf[anchor..ip], ip - m, end - ip)];
    MatchEndBound(v, ip, m);
    if end <= v.MfLimit() {
      var t1 := AfterMatch(v, table, end);
      var m' := v.base + t1[Hash(v, end)];
      var t2 := AtMatch(v, t1, end);
      if m' + MAX_DISTANCE >= end && Usable(v, m', end) {
        UsableIsMatch(v, m', end);
        TakeMatchCodes(v, t2, end, m', end, acc');
      } else {
        ParseFromCodes(v, t2, end + 1, end, acc');
      }
    }
  }

  lemma MatchEndBound(v: View, ip: nat, m: nat)
    requires v.Valid() && IsMatch(v, ip, m)
    ensures MatchEnd(v, ip, m) <= v.MatchLimit()
  {
  }

  lemma {:induction false} SearchTable(v: View, table: seq<nat>, ip: nat, step: nat, nb: nat)
    requires v.Valid() && v.start < ip && TableOk(v, table, ip) && step >= 1 && nb >= SKIP_TRIGGER && ip <= v.end
    ensures TableOk(v, Search(v, table, ip, step, nb).table, v.end)
    decreases v.end - ip
  {
    hide Hash, Usable;
    var next := ip + step;
    if next <= v.MfLimit() {
      var h := Hash(v, ip);
      var m := v.base + table[h];
      PutKeeps(v, table, h, ip, ip + 1);
      var t := Put(v, table, h, ip);
      if !Usable(v, m, ip) { SearchTable(v, t, next, nb / SKIP_TRIGGER, nb + 1); }
    }
  }

  /** The block the compressor writes. */
  ghost function FastBlock(v: View, table: seq<nat>): Block
    requires v.Valid() && TableOk(v, table, v.start + 1)
  {
    var r := ParseBlock(v, table);
    ParseBlockCodes(v, table);
    Block(r.seqs, v.buf[r.anchor..v.end])
  }

  lemma ParseBlockCodes(v: View, table: seq<nat>)
    requires v.Valid() && TableOk(v, table, v.start + 1)
    ensures var r := ParseBlock(v, table);
            Codes(v, r.seqs, r.anchor) && (v.end > v.start ==> TableOk(v, r.table, v.end))
  {
    hide ParseFrom, AtMatch;
    assert Expand(v.Hist(), []) == Some(v.buf[v.low..v.start]);
    if v.end - v.start >= MIN_LENGTH {
      ParseFromCodes(v, AtMatch(v, table, v.start), v.start + 1, v.start, []);
    }
  }

  /** The compressor's block is legal and decodes to the input after its dictionary. */
  lemma FastBlockSound(v: View, table: seq<nat>)
    requires v.Valid() && TableOk(v, table, v.start + 1)
    ensures var b := FastBlock(v, table);
            && BlockLength(b) == v.end - v.start
            && Legal(b.seqs, v.start - v.low, BlockLength(b)) && AllEncodable(b.seqs)
            && Decode(v.Hist(), b) == Some(v.buf[v.low..v.end])
  {
    hide Legal, ParseBlock;
    var r := ParseBlock(v, table);
    ParseBlockCodes(v, table);
    LegalEncodable(r.seqs, v.start - v.low, v.end - v.start);
    assert v.buf[v.low..r.anchor] + v.buf[r.anchor..v.end] == v.buf[v.low..v.end];
  }
}
