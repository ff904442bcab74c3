/** What a linked block can see: the last 64 KiB of output decide what it stands for. */
module FrameWindow {
  import opened Bytes
  import opened BlockFormat
  import opened BlockParser
  import opened BlockRules
  import opened FrameFormat

  /** How much of `n` bytes of output must be kept while `left` more bytes are on their way. */
  function Needed(n: nat, left: nat): (r: nat)
    ensures r <= n && r <= WINDOW
  {
    if left >= WINDOW then 0 else Min(WINDOW - left, n)
  }

  function LastBytes(s: seq<byte>, n: nat): seq<byte>
    requires n <= |s|
  {
    s[|s| - n..]
  }

  lemma LastBytesMore(s: seq<byte>, more: seq<byte>, n: nat)
    requires n <= |s|
    ensures LastBytes(s + more, n + |more|) == LastBytes(s, n) + more
  {
    var all := s + more;
    Joined(all, |s| - n, |s|, |all|);
    assert all[|s| - n..|s|] == s[|s| - n..] && all[|s|..] == more;
  }

  lemma NoBytes(s: seq<byte>)
    ensures LastBytes(s, 0) == []
  {
  }

  lemma LastBytesSplit(s: seq<byte>, m: nat, n: nat)
    requires n <= m <= |s|
    ensures var i := |s| - m;
            LastBytes(s, m)[..n] == s[i..i + n] && LastBytes(s, m) == s[i..i + n] + LastBytes(s, m - n)
  {
  }

  /** The dictionary ends like the output, as far back as the block after the next `left` bytes can see. */
  ghost predicate Keeps(dict: seq<byte>, out: seq<byte>, left: nat) {
    && Needed(|out|, left) <= |dict| <= |out|
    && LastBytes(dict, Needed(|out|, left)) == LastBytes(out, Needed(|out|, left))
  }

  // ---------------------------------------------------------------- a full window is as good as everything

  lemma RoomStep(src: seq<byte>, ip: nat, op: nat, l: Limits, m: Limits)
    requires ip <= |src| && m == l.(room := m.room) && l.room >= MAX_DISTANCE && m.room >= MAX_DISTANCE
    ensures ReadStep(src, ip, op, l) == ReadStep(src, ip, op, m)
  {
    hide ReadLiterals, ReadMatchLength;
    assert l.RunEnd() == m.RunEnd();
  }

  lemma {:induction false} RoomFrom(src: seq<byte>, ip: nat, op: nat, l: Limits, m: Limits, acc: seq<Sequence>)
    requires ip <= |src| && m == l.(room := m.room) && l.room >= MAX_DISTANCE && m.room >= MAX_DISTANCE
    ensures ParseFrom(src, ip, op, l, acc) == ParseFrom(src, ip, op, m, acc)
    decreases |src| - ip
  {
    hide ReadStep;
    RoomStep(src, ip, op, l, m);
    var r := ReadStep(src, ip, op, l);
    if r.Take? { RoomFrom(src, r.next, op + |r.s.lits| + r.s.matchLen, l, m, acc + [r.s]); }
  }

  /** Offsets fit 16 bits, so more than 65535 bytes of room change nothing. */
  lemma RoomEnough(src: seq<byte>, l: Limits, m: Limits)
    requires m == l.(room := m.room) && l.room >= MAX_DISTANCE && m.room >= MAX_DISTANCE
    ensures Parse(src, l) == Parse(src, m)
  {
    RoomFrom(src, 0, 0, l, m, []);
  }

  lemma {:induction false} ExpandLong(x: seq<byte>, t: seq<byte>, seqs: seq<Sequence>)
    requires |t| >= MAX_DISTANCE && AllEncodable(seqs)
    ensures Expand(x + t, seqs).Some? ==> Expand(t, seqs).Some?
  {
    if seqs != [] {
      ExpandLong(x, t, seqs[..|seqs| - 1]);
    }
  }

  /** Decoding after `x + t` and after `t` alone produces the same bytes, when `t` is long enough. */
  lemma DecodeLong(x: seq<byte>, t: seq<byte>, b: Block)
    requires |t| >= MAX_DISTANCE && AllEncodable(b.seqs)
    ensures Decode(x + t, b).Some? == Decode(t, b).Some?
    ensures Decode(t, b).Some? ==> Decode(x + t, b).value[|x| + |t|..] == Decode(t, b).value[|t|..]
  {
    hide Expand;
    ExpandLong(x, t, b.seqs);
    if Decode(t, b).Some? { DecodeMoreHistory(x, t, b); }
  }

  /** Decoding with the window is decoding with all of the output. */
  lemma UnpackWindow(bytes: seq<byte>, cap: nat, dict: seq<byte>, out: seq<byte>)
    requires Keeps(dict, out, 0) && cap > 0
    ensures Unpack(bytes, cap, dict) == Unpack(bytes, cap, out)
  {
    hide Parse, Decode, Accepted;
    if |out| < WINDOW {
      assert dict == out;
    } else {
      var l, m := Limits(cap, |dict|, false, 0), Limits(cap, |out|, false, 0);
      RoomEnough(bytes, l, m);
      if Parse(bytes, l).Parsed? {
        var b := Parse(bytes, l).block;
        ParsedEncodable(bytes, l);
        var t := LastBytes(out, WINDOW);
        assert out == out[..|out| - WINDOW] + t && dict == dict[..|dict| - WINDOW] + t;
        DecodeLong(out[..|out| - WINDOW], t, b);
        DecodeLong(dict[..|dict| - WINDOW], t, b);
      }
    }
  }

  lemma ParsedEncodable(src: seq<byte>, l: Limits)
    requires !l.partial && l.cap > 0 && Parse(src, l).Parsed?
    ensures AllEncodable(Parse(src, l).block.seqs) && BlockLength(Parse(src, l).block) <= l.cap
  {
    hide Parse;
    AcceptsWhole(src, l, Parse(src, l).block);
    FitsLength(Parse(src, l).block, 0, l);
  }

  lemma {:induction false} FitsLength(b: Block, op: nat, l: Limits)
    requires AllEncodable(b.seqs) && Fits(b, op, l)
    ensures op + BlockLength(b) <= l.cap
    decreases |b.seqs|
  {
    if b.seqs != [] {
      FitsLength(Tail(b), AfterFirst(b, op), l);
      SeqsLengthConcat([b.seqs[0]], b.seqs[1..]);
      assert [b.seqs[0]] + b.seqs[1..] == b.seqs;
    }
  }

  // ---------------------------------------------------------------- keeping the window

  /** What the output ends with, far enough back, will do. */
  lemma KeepsEnough(dict: seq<byte>, out: seq<byte>, n: nat, left: nat)
    requires n <= |dict| <= |out| && Needed(|out|, left) <= n && LastBytes(dict, n) == LastBytes(out, n)
    ensures Keeps(dict, out, left)
  {
    var m := Needed(|out|, left);
    assert LastBytes(dict, m) == LastBytes(LastBytes(dict, n), m)
           && LastBytes(out, m) == LastBytes(LastBytes(out, n), m);
  }

  lemma KeepsNothing()
    ensures Keeps([], [], 0)
  {
  }

  lemma KeepsSize(dict: seq<byte>, out: seq<byte>, left: nat)
    requires Keeps(dict, out, left)
    ensures Needed(|out|, left) <= |dict| <= |out|
  {
  }

  lemma KeepsLess(dict: seq<byte>, out: seq<byte>, left: nat, after: nat)
    requires Keeps(dict, out, left) && left <= after
    ensures Keeps(dict, out, after)
  {
    KeepsEnough(dict, out, Needed(|out|, left), after);
  }

  /** An end of the output itself. */
  lemma EndKeeps(out: seq<byte>, n: nat, left: nat)
    requires WINDOW <= n <= |out|
    ensures Keeps(LastBytes(out, n), out, left)
  {
    KeepsEnough(LastBytes(out, n), out, n, left);
  }

  /** Some of the bytes on their way arrive at both ends. */
  lemma KeepsMore(dict: seq<byte>, out: seq<byte>, a: seq<byte>, left: nat, after: nat)
    requires Keeps(dict, out, left) && left <= after + |a|
    ensures Keeps(dict + a, out + a, after)
  {
    var n := Needed(|out|, left);
    LastBytesMore(dict, a, n);
    LastBytesMore(out, a, n);
    KeepsEnough(dict + a, out + a, n + |a|, after);
  }

  /** The front may go. */
  lemma KeepsLast(dict: seq<byte>, out: seq<byte>, n: nat, left: nat, after: nat)
    requires Keeps(dict, out, left) && n <= |dict| && left <= after && Needed(|out|, after) <= n
    ensures Keeps(LastBytes(dict, n), out, after)
  {
    var m := Needed(|out|, after);
    KeepsEnough(dict, out, Needed(|out|, left), after);
    assert LastBytes(LastBytes(dict, n), m) == LastBytes(dict, m);
  }

  /** As much of the old dictionary as the next block needs, then the new bytes. */
  lemma KeepsJoin(dict: seq<byte>, out: seq<byte>, a: seq<byte>, n: nat)
    requires Keeps(dict, out, 0) && |a| < WINDOW && n <= |dict| && (n == WINDOW - |a| || n == |dict|)
    ensures Keeps(LastBytes(dict, n) + a, out + a, 0)
  {
    KeepsLast(dict, out, n, 0, |a|);
    KeepsMore(LastBytes(dict, n), out, a, |a|, 0);
  }

  /** How much of the dictionary is copied in front of a block of `size` bytes that is being passed on. */
  function CopySize(size: nat, space: nat): (n: nat)
    ensures n <= space
  {
    if size > WINDOW then 0 else Min(WINDOW - size, space)
  }

  /** What CopySize leaves in place is enough, and the dictionary has that much. */
  lemma CopyEnough(dict: seq<byte>, out: seq<byte>, size: nat, space: nat, done: nat)
    requires done <= size && done <= |out| && Keeps(dict, out, size - done)
    requires Min(WINDOW, |out| - done) <= space <= |out| - done
    ensures CopySize(size, space) > 0 ==> Needed(|out|, size - done) == CopySize(size, space) + done <= |dict|
    ensures Needed(|out|, size - done) <= CopySize(size, space) + done
  {
  }

  /** A block of `size` bytes has been decoded behind some space, and `done` of them have been passed
      on; the end of the space is then filled with the end of the dictionary. */
  lemma KeepsFilled(dict: seq<byte>, out: seq<byte>, filled: seq<byte>, first: seq<byte>, size: nat)
    requires |first| <= size && |first| <= |out| && Keeps(dict, out, size - |first|)
    requires Min(WINDOW, |out| - |first|) <= |filled| <= |out| - |first| && LastBytes(out, |first|) == first
    requires var n := CopySize(size, |filled|);
             n > 0 ==> n + |first| <= |dict| && LastBytes(filled, n) == dict[|dict| - |first| - n..|dict| - |first|]
    ensures Keeps(filled + first, out, size - |first|)
  {
    hide LastBytes;
    var n, d := CopySize(size, |filled|), |first|;
    CopyEnough(dict, out, size, |filled|, d);
    if n > 0 {
      LastBytesSplit(dict, n + d, n);
      LastBytesSplit(out, n + d, n);
      LastBytesMore(filled, first, n);
      KeepsEnough(filled + first, out, n + d, size - d);
    } else {
      LastBytesMore(filled, first, 0);
      NoBytes(filled);
      KeepsEnough(filled + first, out, d, size - d);
    }
  }

  // ---------------------------------------------------------------- what an independent block cannot see

  lemma {:induction false} FitsMore(b: Block, op: nat, l: Limits, room: nat)
    requires AllEncodable(b.seqs) && Fits(b, op, l) && l.room <= room
    ensures Fits(b, op, l.(room := room))
    decreases |b.seqs|
  {
    if b.seqs != [] { FitsMore(Tail(b), AfterFirst(b, op), l, room); }
  }

  /** What is accepted after some history is accepted after more, and seen as the same block. */
  lemma MoreRoom(bytes: seq<byte>, cap: nat, room: nat, b: Block)
    requires cap > 0 && Parse(bytes, Limits(cap, room, false, 0)).Parsed?
    requires Parse(bytes, Limits(cap, 0, false, 0)) == Parsed(b)
    ensures Parse(bytes, Limits(cap, room, false, 0)) == Parsed(b)
  {
    hide Parse, Fits, BlockBytesWith;
    AcceptsWhole(bytes, Limits(cap, 0, false, 0), b);
    FitsMore(b, 0, Limits(cap, 0, false, 0), room);
    AcceptsWhole(bytes, Limits(cap, room, false, 0), b);
  }

  /** Four bytes from before the block, and then literals. */
  function BackBlock(last: seq<byte>): Block { Block([Sequence([], 4, 4)], last) }

  lemma BackBlockParses(last: seq<byte>, cap: nat, room: nat)
    requires MFLIMIT <= |last| && 4 + |last| <= cap
    ensures AllEncodable(BackBlock(last).seqs)
    ensures room >= 4 ==> Parse(BlockBytes(BackBlock(last)), Limits(cap, room, false, 0)) == Parsed(BackBlock(last))
    ensures !Parse(BlockBytes(BackBlock(last)), Limits(cap, 0, false, 0)).Parsed?
  {
    hide Parse, BlockBytes, Fits;
    var b := BackBlock(last);
    assert b.seqs[..0] == [];
    LegalParses(b, 4, Limits(cap, 4, false, 0));
    if room >= 4 { LegalParses(b, 4, Limits(cap, room, false, 0)); }
    var o := Parse(BlockBytes(b), Limits(cap, 0, false, 0));
    if o.Parsed? {
      MoreRoom(BlockBytes(b), cap, 4, o.block);
      AcceptsWhole(BlockBytes(b), Limits(cap, 0, false, 0), b);
      NotBack(last, cap);
    }
  }

  lemma NotBack(last: seq<byte>, cap: nat)
    ensures AllEncodable(BackBlock(last).seqs) && !Fits(BackBlock(last), 0, Limits(cap, 0, false, 0))
  {
  }

  /** A linked block sees the output before it, and an independent one does not. */
  lemma LinkedSees(info: Info, out: seq<byte>, last: seq<byte>)
    requires info.Valid() && |out| >= 4 && MFLIMIT <= |last| <= 60 * 1024 && AllEncodable(BackBlock(last).seqs)
    ensures AfterPacked(info.(linked := false), BlockBytes(BackBlock(last)), out) == Bad
    ensures AfterPacked(info.(linked := true), BlockBytes(BackBlock(last)), out)
            == Collect(Size(info.(linked := true), out + (out[|out| - 4..] + last)), [])
  {
    hide Parse, BlockBytes;
    BackBlockParses(last, info.MaxBlock(), |out|);
    BackBlockParses(last, info.MaxBlock(), 0);
    BackMeans(out, last);
  }

  lemma BackMeans(out: seq<byte>, last: seq<byte>)
    requires |out| >= 4
    ensures Decode(out, BackBlock(last)) == Some(out + (out[|out| - 4..] + last))
  {
    hide CopyMatch;
    var r := out + out[|out| - 4..];
    CopyMatchPeriodic(out, 4, 4, r);
    assert out + [] == out && [Sequence([], 4, 4)][..0] == [];
    assert Expand(out, []) == Some(out);
    Assoc(out, out[|out| - 4..], last);
  }
}
