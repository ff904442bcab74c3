/** What a correct encoder must deliver, and why the decoder then gives the data back. */
module BlockRules {
  import opened Bytes
  import opened BlockFormat
  import opened BlockParser

  /** Output position at which the match of sequence `i` starts. */
  function MatchStart(seqs: seq<Sequence>, i: nat): nat
    requires i < |seqs|
  {
    SeqsLength(seqs[..i]) + |seqs[i].lits|
  }

  predicate LegalAt(seqs: seq<Sequence>, i: nat, room: nat, n: nat)
    requires i < |seqs|
  {
    && Encodable(seqs[i])
    && 1 <= seqs[i].offset <= room + MatchStart(seqs, i)
    && MatchStart(seqs, i) <= n - MFLIMIT
    && MatchStart(seqs, i) + seqs[i].matchLen <= n - LASTLITERALS
  }

  /** Every match reaches back at most into `room` bytes of history, starts MFLIMIT bytes and ends
      LASTLITERALS bytes before the end of the `n` bytes of the block. */
  predicate Legal(seqs: seq<Sequence>, room: nat, n: nat) {
    forall i :: 0 <= i < |seqs| ==> LegalAt(seqs, i, room, n)
  }

  lemma LegalSnoc(seqs: seq<Sequence>, s: Sequence, room: nat, n: nat)
    requires Legal(seqs, room, n) && Encodable(s)
    requires var at := SeqsLength(seqs) + |s.lits|;
             1 <= s.offset <= room + at && at <= n - MFLIMIT && at + s.matchLen <= n - LASTLITERALS
    ensures Legal(seqs + [s], room, n)
  {
    var t := seqs + [s];
    forall i | 0 <= i < |t| ensures LegalAt(t, i, room, n) {
      if i < |seqs| {
        assert LegalAt(seqs, i, room, n);
        assert t[..i] == seqs[..i];
      } else {
        assert t[..i] == seqs;
      }
    }
  }

  lemma LegalEncodable(seqs: seq<Sequence>, room: nat, n: nat)
    requires Legal(seqs, room, n)
    ensures AllEncodable(seqs)
  {
    forall i | 0 <= i < |seqs| ensures Encodable(seqs[i]) { assert LegalAt(seqs, i, room, n); }
  }

  lemma LengthOfPrefix(seqs: seq<Sequence>, i: nat)
    requires i < |seqs|
    ensures SeqsLength(seqs[..i + 1]) == MatchStart(seqs, i) + seqs[i].matchLen
  {
    assert seqs[..i + 1][..i] == seqs[..i];
  }

  lemma {:induction false} LegalFitsFrom(b: Block, k: nat, room: nat, l: Limits)
    requires k <= |b.seqs| && Legal(b.seqs, room, BlockLength(b)) && AllEncodable(b.seqs[k..])
    requires BlockLength(b) <= l.cap && room <= l.room
    requires b.seqs != [] ==> |b.last| >= LASTLITERALS
    ensures Fits(Block(b.seqs[k..], b.last), SeqsLength(b.seqs[..k]), l)
    decreases |b.seqs| - k
  {
    hide BlockBytes, Extension;
    var t := Block(b.seqs[k..], b.last);
    if k == |b.seqs| {
      assert b.seqs[..k] == b.seqs;
    } else {
      var s := b.seqs[k];
      assert LegalAt(b.seqs, k, room, BlockLength(b));
      assert b.seqs[k..][1..] == b.seqs[k + 1..];
      LengthOfPrefix(b.seqs, k);
      LegalFitsFrom(b, k + 1, room, l);
      assert Tail(t) == Block(b.seqs[k + 1..], b.last);
      LastFollows(Tail(t));
    }
  }

  lemma LastFollows(b: Block)
    requires AllEncodable(b.seqs)
    ensures |BlockBytes(b)| >= 1 + |b.last|
  {
  }

  lemma LastLiterals(b: Block, room: nat)
    requires Legal(b.seqs, room, BlockLength(b)) && b.seqs != []
    ensures |b.last| >= LASTLITERALS
  {
    var k := |b.seqs| - 1;
    assert LegalAt(b.seqs, k, room, BlockLength(b));
    LengthOfPrefix(b.seqs, k);
    assert b.seqs[..k + 1] == b.seqs;
  }

  /** A legal block is accepted as it was written, whatever the spare capacity. */
  lemma LegalParses(b: Block, room: nat, l: Limits)
    requires Legal(b.seqs, room, BlockLength(b)) && BlockLength(b) <= l.cap && room <= l.room && !l.partial
    ensures AllEncodable(b.seqs)
    ensures Parse(BlockBytes(b), l) == Parsed(b)
  {
    hide Fits, Legal, ParseFrom, BlockBytes, SeqsLength;
    LegalEncodable(b.seqs, room, BlockLength(b));
    if l.cap == 0 {
      EmptyBlock(b, room);
    } else {
      LegalFits(b, room, l);
      ParseBytes(b, l);
      CutWhole(b, 0, l);
    }
  }

  lemma EmptyBlock(b: Block, room: nat)
    requires Legal(b.seqs, room, BlockLength(b)) && BlockLength(b) == 0
    ensures b == Block([], []) && BlockBytes(b) == [0]
  {
    hide Legal;
    if b.seqs != [] { LastLiterals(b, room); }
  }

  lemma LegalFits(b: Block, room: nat, l: Limits)
    requires AllEncodable(b.seqs) && Legal(b.seqs, room, BlockLength(b)) && BlockLength(b) <= l.cap && room <= l.room
    ensures Fits(b, 0, l)
  {
    hide Legal;
    if b.seqs != [] { LastLiterals(b, room); }
    assert b.seqs[0..] == b.seqs && b.seqs[..0] == [];
    LegalFitsFrom(b, 0, room, l);
  }

  // ---------------------------------------------------------------- tiling the input

  /** Data that repeat what is `offset` before are what copying makes of them. */
  lemma MatchInPlace(data: seq<byte>, low: nat, ip: nat, offset: nat, len: nat)
    requires 1 <= offset <= ip - low && ip + len <= |data| && Repeats(data, ip, ip + len, offset)
    ensures CopyMatch(data[low..ip], offset, len) == data[low..ip + len]
  {
    hide CopyMatch;
    var o, r := data[low..ip], data[low..ip + len];
    forall k | |o| <= k < |r| ensures r[k] == r[k - offset] {
      assert r[k] == data[low + k] && r[k - offset] == data[low + k - offset];
    }
    SubSlice(data, low, ip + len, 0, ip - low);
    CopyMatchPeriodic(o, offset, len, r);
  }

  /** One more sequence, whose match repeats data[m..m + len] at `ip`, codes the data up to ip + len. */
  lemma ExpandMatch(data: seq<byte>, low: nat, start: nat, anchor: nat, ip: nat, m: nat, len: nat, acc: seq<Sequence>)
    requires low <= start <= anchor <= ip && low <= m < ip && ip + len <= |data|
    requires Repeats(data, ip, ip + len, ip - m)
    requires Expand(data[low..start], acc) == Some(data[low..anchor])
    ensures Expand(data[low..start], acc + [Sequence(data[anchor..ip], ip - m, len)]) == Some(data[low..ip + len])
  {
    hide CopyMatch, Expand, Repeats;
    ExpandSnoc(data[low..start], acc, Sequence(data[anchor..ip], ip - m, len));
    Joined(data, low, anchor, ip);
    MatchInPlace(data, low, ip, ip - m, len);
  }

  // ---------------------------------------------------------------- partial decoding

  /** Partial decoding stops at a prefix: at least the target, or everything. */
  lemma {:induction false} CutLength(b: Block, op: nat, l: Limits)
    requires AllEncodable(b.seqs) && Fits(b, op, l)
    ensures var c := Cut(b, op, l);
            && BlockLength(c) <= BlockLength(b)
            && (c == b || op + BlockLength(c) > l.target)
    decreases |b.seqs|
  {
    hide BlockBytes, Extension;
    if b.seqs != [] {
      var s, t := b.seqs[0], Tail(b);
      SeqsLengthConcat([s], t.seqs);
      assert b.seqs == [s] + t.seqs;
      assert SeqsLength([s]) == |s.lits| + s.matchLen by { assert [s][..0] == []; }
      if op + |s.lits| <= l.RunEnd() {
        CutLength(t, AfterFirst(b, op), l);
        var c := Cut(t, AfterFirst(b, op), l);
        SeqsLengthConcat([s], c.seqs);
      }
    }
  }

  lemma {:induction false} ExpandConcat(hist: seq<byte>, a: seq<Sequence>, b: seq<Sequence>)
    ensures Expand(hist, a + b) ==
              match Expand(hist, a)
              case None => None
              case Some(out) => Expand(out, b)
  {
    if b == [] {
      assert a + b == a;
    } else {
      var f := b[..|b| - 1];
      ExpandConcat(hist, a, f);
      assert (a + b)[..|a + b| - 1] == a + f;
      assert (a + b)[|a + b| - 1] == b[|b| - 1];
    }
  }

  lemma {:induction false} CutDecodes(b: Block, op: nat, l: Limits, hist: seq<byte>)
    requires Decode(hist, b).Some?
    ensures var d := Decode(hist, Cut(b, op, l)); d.Some? && d.value <= Decode(hist, b).value
    decreases |b.seqs|
  {
    if b.seqs != [] {
      var s, t := b.seqs[0], Tail(b);
      assert b.seqs == [s] + t.seqs;
      ExpandConcat(hist, [s], t.seqs);
      ExpandOne(hist, s);
      var out := Expand(hist, [s]).value;
      if op + |s.lits| > l.RunEnd() {
        assert hist + s.lits <= out <= Expand(out, t.seqs).value <= Decode(hist, b).value;
      } else {
        CutDecodes(t, AfterFirst(b, op), l, out);
        ExpandConcat(hist, [s], Cut(t, AfterFirst(b, op), l).seqs);
      }
    }
  }

  lemma ExpandOne(hist: seq<byte>, s: Sequence)
    ensures Expand(hist, [s]) ==
              if 1 <= s.offset <= |hist| + |s.lits| then Some(CopyMatch(hist + s.lits, s.offset, s.matchLen)) else None
  {
    assert [s][..0] == [];
  }

  // ---------------------------------------------------------------- longer histories

  lemma CopyMatchMoreHistory(more: seq<byte>, out: seq<byte>, offset: nat, len: nat)
    requires 1 <= offset <= |out|
    ensures CopyMatch(more + out, offset, len) == more + CopyMatch(out, offset, len)
  {
    var c := CopyMatch(out, offset, len);
    CopyMatchPeriodic(out, offset, len, c);
    var r := more + c;
    assert r[..|more + out|] == more + out;
    forall k | |more + out| <= k < |r| ensures r[k] == r[k - offset] {
      assert r[k] == c[k - |more|] && r[k - offset] == c[k - |more| - offset];
    }
    CopyMatchPeriodic(more + out, offset, len, r);
  }

  lemma {:induction false} ExpandMoreHistory(more: seq<byte>, hist: seq<byte>, seqs: seq<Sequence>)
    requires Expand(hist, seqs).Some?
    ensures Expand(more + hist, seqs) == Some(more + Expand(hist, seqs).value)
  {
    if seqs != [] {
      var f, s := seqs[..|seqs| - 1], seqs[|seqs| - 1];
      ExpandMoreHistory(more, hist, f);
      var o := Expand(hist, f).value + s.lits;
      assert more + Expand(hist, f).value + s.lits == more + o;
      CopyMatchMoreHistory(more, o, s.offset, s.matchLen);
    }
  }

  /** A block means the same after a longer history. */
  lemma DecodeMoreHistory(more: seq<byte>, hist: seq<byte>, b: Block)
    requires Decode(hist, b).Some?
    ensures Decode(more + hist, b) == Some(more + Decode(hist, b).value)
  {
    ExpandMoreHistory(more, hist, b.seqs);
    var o := Expand(hist, b.seqs).value;
    assert more + o + b.last == more + (o + b.last);
  }

  // ---------------------------------------------------------------- offset 0

  predicate NoZeroOffset(seqs: seq<Sequence>) { forall i :: 0 <= i < |seqs| ==> seqs[i].offset >= 1 }

  lemma {:induction false} ReachedExpands(b: Block, op: nat, l: Limits, rest: nat, hist: seq<byte>)
    requires AllEncodable(b.seqs) && Reached(b, op, l, rest) && |hist| == l.room + op
    ensures Expand(hist, b.seqs).Some? <==> NoZeroOffset(b.seqs)
    decreases |b.seqs|
  {
    hide BlockBytes, Extension, CopyMatch;
    if b.seqs != [] {
      var s := b.seqs[0];
      assert b.seqs == [s] + b.seqs[1..];
      ExpandConcat(hist, [s], b.seqs[1..]);
      ExpandOne(hist, s);
      if s.offset >= 1 { ReachedExpands(Tail(b), AfterFirst(b, op), l, rest, Expand(hist, [s]).value); }
    }
  }

  /** The decoder accepts offset 0, which the format gives no meaning. An accepted block, or the part of
      one that partial decoding accepts, stands for bytes exactly when it has no such offset. */
  lemma AcceptedMeaning(src: seq<byte>, l: Limits, hist: seq<byte>)
    requires l.cap > 0 && |hist| == l.room && Parse(src, l).Parsed?
    ensures var b := Parse(src, l).block;
            Decode(hist, b).Some? <==> NoZeroOffset(b.seqs)
  {
    hide Parse, Reached, BlockBytesWith;
    var b := Parse(src, l).block;
    AcceptsExactly(src, l, b);
    var junk: nat, rest: seq<byte> :|
      junk < 16 && src == BlockBytesWith(b, junk) + rest && Reached(b, 0, l, |rest|);
    ReachedExpands(b, 0, l, |rest|, hist);
  }

  /** A block that is accepted and means nothing: one literal, then four bytes from offset 0. */
  lemma ZeroOffsetAccepted()
    ensures var b := Block([Sequence([65], 0, 4)], [66, 67, 68, 69, 70, 71, 72, 73]);
            var src: seq<byte> := [0x10, 65, 0, 0, 0x80, 66, 67, 68, 69, 70, 71, 72, 73];
            Parse(src, Limits(13, 0, false, 0)) == Parsed(b) && Decode([], b).None?
  {
    var src: seq<byte> := [0x10, 65, 0, 0, 0x80, 66, 67, 68, 69, 70, 71, 72, 73];
    var l := Limits(13, 0, false, 0);
    assert src[1..2] == [65] && src[5..13] == [66, 67, 68, 69, 70, 71, 72, 73];
    assert ReadStep(src, 0, 0, l) == Take(Sequence([65], 0, 4), 4);
    assert ReadStep(src, 4, 5, l) == Last(src[5..13]);
    ExpandOne([], Sequence([65], 0, 4));
  }
}
