/** What frames are for: the data comes back, however input and output are cut into pieces. */
module FrameCodec {
  import opened Bytes
  import opened FrameFormat
  import opened FrameDecoder
  import opened FrameBlocks
  import opened FrameEncoder
  import opened FrameLimit
  import opened FastLimit
  import opened HcLimit
  import XxHash32
  import XxTells32

  // ---------------------------------------------------------------- what decoding a byte string gives

  datatype Verdict = Complete | Broken | Truncated

  /** The state of the byte-by-byte reader after the first bytes of the input. */
  function After(input: seq<byte>, n: nat): State
    requires n <= |input|
  {
    Absorb(Start, input[..n])
  }

  /** A whole frame, perhaps with bytes behind it; a broken one; or the beginning of one. */
  function VerdictOf(input: seq<byte>): Verdict {
    match After(input, |input|)
    case Done(_, _) => Complete
    case Past => Complete
    case Bad => Broken
    case _ => Truncated
  }

  /** Where the reader stands in the middle decides some ends. */
  lemma Onwards(input: seq<byte>, n: nat)
    requires n <= |input|
    ensures Fails(After(input, n)) || After(input, n).Past? ==> After(input, |input|) == After(input, n)
    ensures After(input, n).Done? && n < |input| ==> After(input, |input|) == Past
  {
    hide Absorb;
    assert input[..n] + input[n..] == input[..|input|];
    AbsorbConcat(Start, input[..n], input[n..]);
    if input[n..] != [] { AbsorbEnded(After(input, n), input[n..]); } else { AbsorbNothing(After(input, n)); }
  }

  /** A frame that is complete ends in one place. */
  lemma EndsOnce(input: seq<byte>, m: nat, n: nat)
    requires m <= |input| && n <= |input| && After(input, m).Done? && After(input, n).Done?
    ensures m == n
  {
    OneVerdict(input, m, n);
  }

  // ---------------------------------------------------------------- decoding in pieces

  /** How far decoding has come after some calls. */
  ghost predicate Progress(d: Decoder, input: seq<byte>, at: nat, out: seq<byte>)
    reads d, d.tmpIn, d.header, d.tmpOutBuffer, d.DictRead(), d.xxh, d.xxh.mem
  {
    && at <= |input| && d.Valid() && (d.srcExpect.Some? ==> d.srcExpect.value == at)
    && d.Before() == After(input, at) && out == d.SentBefore()
    && out <= Produced(After(input, at)) && !Fails(After(input, at)) && !After(input, at).Past?
    && !After(input, at).Done?
  }

  /** The decoder depends on nothing that is in the caller's buffer. */
  ghost predicate Alone(d: Decoder, dst: array<byte>)
    reads d
  {
    dst !in {d.tmpIn, d.header, d.tmpOutBuffer, d.xxh.mem} && (d.Blocks() ==> d.dictBuf == d.tmpOutBuffer)
  }

  /** Between calls anything may be written into the caller's buffer. */
  method Scribble(dst: array<byte>)
    modifies dst
  {
    for i := 0 to dst.Length { dst[i] := *; }
  }

  /** Reading on. */
  lemma ReadsOn(input: seq<byte>, at: nat, n: nat)
    requires at + n <= |input|
    ensures Absorb(After(input, at), input[at..][..n]) == After(input, at + n)
  {
    hide Absorb;
    assert input[..at] + input[at..][..n] == input[..at + n];
    AbsorbConcat(Start, input[..at], input[at..][..n]);
  }

  /** One call with `n` bytes of input and the room dst[d0..hi]. It fails only if the input is broken;
      otherwise it passes on the output that is next, and it gets stuck only when there is no more input
      and all output has been passed on. */
  method DecodePiece(d: Decoder, input: seq<byte>, at: nat, ghost out: seq<byte>, n: nat, dst: array<byte>, d0: nat,
                     hi: nat)
    returns (failed: bool, finished: bool, more: seq<byte>, next: nat)
    requires Progress(d, input, at, out) && Alone(d, dst) && !After(input, |input|).Garbled?
    requires at + n <= |input| && d0 < hi <= dst.Length <= 0x7FFF_FFFF
    modifies d, d.tmpIn, d.header, d.tmpOutBuffer, d.xxh, d.xxh.mem, dst
    ensures (fresh(d.tmpIn) || d.tmpIn == old(d.tmpIn))
            && (fresh(d.tmpOutBuffer) || d.tmpOutBuffer == old(d.tmpOutBuffer))
    ensures if failed then VerdictOf(input) == Broken
            else if finished then
              next <= |input| && After(input, next).Done? && out + more == Produced(After(input, next))
            else
              && Progress(d, input, next, out + more) && Alone(d, dst) && at <= next
              && (more != [] || (next == at + n && out == Produced(After(input, next))) || at < next)
  {
    hide Decoder.Good, Absorb, Produced, Decoder.Separate, Decoder.Allocated, Fails;
    var src := input[at..][..n];
    ghost var k0 := d.Before();
    var hint, consumed, produced;
    failed, hint, consumed, produced := d.Decompress(src, at, dst, d0, hi, false);
    finished, more, next := hint == 0, dst[d0..d0 + produced], at + consumed;
    if failed {
      ghost var m :| 0 <= m <= |src| && Fails(Absorb(k0, src[..m]));
      assert src[..m] == input[at..][..m];
      ReadsOn(input, at, m);
      Onwards(input, at + m);
      FailsIs(After(input, at + m));
      return;
    }
    assert src[..consumed] == input[at..][..consumed];
    ReadsOn(input, at, consumed);
    Onwards(input, next);
    FailsIs(After(input, next));
    GrowsOn(input, at, consumed);
  }

  lemma FailsIs(s: State)
    ensures Fails(s) <==> s.Bad? || s.Garbled?
  {
  }

  lemma GrowsOn(input: seq<byte>, at: nat, n: nat)
    requires at + n <= |input| && !Fails(After(input, at + n)) && !After(input, at + n).Past?
    ensures Produced(After(input, at)) <= Produced(After(input, at + n))
  {
    ReadsOn(input, at, n);
    ProducedGrows(After(input, at), input[at..][..n]);
  }

  /** Decoding any input, in pieces of any sizes, into pieces of any sizes of one buffer that is overwritten
      in between. The verdict and the output are those of reading the input byte by byte, however it is
      cut; only of what a broken frame produces before it breaks, an end may be missing. The input may
      have no block that copies from offset 0, which has no meaning. */
  method DecodeFrame(input: seq<byte>, dst: array<byte>) returns (v: Verdict, out: seq<byte>, at: nat)
    requires 0 < dst.Length <= 0x7FFF_FFFF && !After(input, |input|).Garbled?
    modifies dst
    ensures v == VerdictOf(input) && at <= |input|
    ensures match v
            case Complete => After(input, at).Done? && out == Produced(After(input, at))
            case Truncated => at == |input| && out == Produced(After(input, at))
            case Broken => !Fails(After(input, at)) && out <= Produced(After(input, at))
  {
    hide Decoder.Valid, Absorb, Fails, Produced;
    var d := new Decoder();
    out, at := [], 0;
    Begins(input);
    while true
      invariant fresh(d) && fresh(d.tmpIn) && fresh(d.header) && fresh(d.tmpOutBuffer) && fresh(d.xxh)
                && fresh(d.xxh.mem)
      invariant Progress(d, input, at, out) && Alone(d, dst)
      decreases |input| - at, |Produced(After(input, at))| - |out|
    {
      assert dst !in d.DictRead();
      Scribble(dst);
      var n: nat :| n <= |input| - at && (at < |input| ==> n > 0);
      var d0: nat, hi: nat :| d0 < hi <= dst.Length;
      var failed, finished, more, next := DecodePiece(d, input, at, out, n, dst, d0, hi);
      if failed { return Broken, out, at; }
      if finished {
        Onwards(input, next);
        return Complete, out + more, next;
      }
      if more == [] && next == at {
        FailsIs(After(input, at));
        return Truncated, out, at;
      }
      out, at := out + more, next;
    }
  }

  lemma Begins(input: seq<byte>)
    ensures After(input, 0) == Start && Produced(Start) == [] && !Fails(Start)
  {
    assert input[..0] == [];
  }

  // ---------------------------------------------------------------- encoding in pieces

  /** Whether the encoder is told to flush after a piece. */
  predicate FlushAfter(flush: seq<bool>, i: nat) { i < |flush| && flush[i] }

  /** What the checksum sees of the pieces: the length of each is cast to 32 bits. */
  function Hashed(pieces: seq<seq<byte>>): seq<byte> {
    if pieces == [] then [] else Hashed(pieces[..|pieces| - 1]) + Narrow(pieces[|pieces| - 1])
  }

  /** Of pieces shorter than 2^32 bytes it sees all. */
  lemma {:induction false} HashedAll(pieces: seq<seq<byte>>)
    requires forall i :: 0 <= i < |pieces| ==> |pieces[i]| < 0x1_0000_0000
    ensures Hashed(pieces) == Flatten(pieces)
  {
    if pieces != [] {
      var last := pieces[|pieces| - 1];
      HashedAll(pieces[..|pieces| - 1]);
      assert Narrow(last) == last;
    }
  }

  /** Of one piece of 2^32 + 1 bytes it sees the first byte. So whatever the other bytes are, with at least
      one of two values of the last one the frame is rejected. */
  lemma LongPieceRejected(start: seq<byte>, sizeId: nat)
    requires |start| == 0x1_0000_0000
    ensures var info, p, q := Info(false, true, sizeId), start + [0], start + [1];
            || EndState(info, Flatten([p]), Hashed([p])) == Bad
            || EndState(info, Flatten([q]), Hashed([q])) == Bad
  {
    hide Hash, XxHash32.Hash;
    HashTells(start);
    OnePiece(start, 0);
    OnePiece(start, 1);
  }

  lemma HashTells(start: seq<byte>)
    requires |start| == 0x1_0000_0000
    ensures Hash(start + [0]) != Hash(start + [1])
  {
    hide XxHash32.Hash, Hash;
    XxTells32.LastByteTells(start, 0);
    HashesTell(start + [0], start + [1]);
  }

  lemma HashesTell(data: seq<byte>, other: seq<byte>)
    requires XxHash32.Hash(data, 0) != XxHash32.Hash(other, 0)
    ensures Hash(data) != Hash(other)
  {
    hide XxHash32.Hash;
    NumbersTell(XxHash32.Hash(data, 0));
    NumbersTell(XxHash32.Hash(other, 0));
  }

  /** A frame with a content checksum is rejected if one byte of its content, wherever it is, is not what it was. */
  lemma ChangeRejected(info: Info, data: seq<byte>, k: nat, b: byte)
    requires info.checksum && k < |data| && data[k] != b
    ensures Absorb(Collect(Size(info, data[k := b]), []), FrameEnd(info, data)) == Bad
  {
    hide Hash, XxHash32.Hash, Absorb, FrameEnd;
    AbsorbEnd(info, data[k := b], data);
    XxTells32.OneByteTells(data, k, b, 0);
    HashesTell(data, data[k := b]);
  }

  lemma NumbersTell(x: bv32)
    ensures (x as nat) as bv32 == x
  {
  }

  lemma OnePiece(start: seq<byte>, b: byte)
    requires |start| == 0x1_0000_0000
    ensures Flatten([start + [b]]) == start + [b] && Hashed([start + [b]]) == [start[0]]
  {
    var p := start + [b];
    assert Narrow(p) == [start[0]];
    var one := [p];
    assert one[..|one| - 1] == one[..0] && Flatten(one[..0]) == [] == Hashed(one[..0]);
  }

  /** One piece, and the flush behind it if there is one. */
  method EncodePiece(c: Encoder, piece: seq<byte>, flush: bool) returns (more: seq<byte>)
    requires c.Valid() && c.started && c.info.Valid()
    modifies c, c.tmpBuff, c.xxh, c.xxh.mem
    ensures c.Valid() && c.started && c.info == old(c.info) && c.autoFlush == old(c.autoFlush)
            && c.level == old(c.level) && c.tmpBuff == old(c.tmpBuff)
    ensures c.data == old(c.data) + piece && c.hashed == old(c.hashed) + Narrow(piece) && c.frame == old(c.frame) + more
    ensures old(c.plain) && !flush ==> c.plain
  {
    hide Absorb, Encoder.Valid, FrameOf, HeaderBytes, Bound, Narrow, Laid, BlocksSpill;
    var bound := Bound(|piece|, c.info, c.autoFlush);
    var dst := new byte[bound + MOST];
    c.UpdateNearly(piece);
    var ok, n := c.Update(piece, dst, bound);
    more := dst[..n];
    if flush {
      dst := new byte[c.tmpInSize + 16 + MOST];
      c.FlushNearly();
      ok, n := c.Flush(dst, c.tmpInSize + 16);
      Assoc(old(c.frame), more, dst[..n]);
      more := more + dst[..n];
    }
  }

  /** A frame that is ended at once, in a buffer without room, is written beyond it. */
  method EndOverruns(checksum: bool, sizeId: nat, level: nat, dst: array<byte>) returns (n: nat)
    requires 4 <= sizeId <= 7 && level < 0x1_0000_0000 && dst.Length >= 8
    modifies dst
    ensures n == (if checksum then 8 else 4) && dst[..n] == FrameEnd(Info(false, checksum, sizeId), [])
  {
    hide Encoder.Valid, HeaderBytes, FrameEnd, Absorb, EndState, FrameOf;
    var c := new Encoder();
    var header := new byte[FrameFormat.HEADER_SIZE];
    var ok;
    ok, n := c.Begin(checksum, sizeId, level, true, header);
    assert c.tmpBuff[..0] == [];
    c.NoBlock();
    ok, n := c.End(dst, 0);
    assert [] + FrameEnd(c.info, []) == FrameEnd(c.info, []);
  }

  /** Encoding from pieces, each into a buffer of the size that LZ4F_compressBound asks for. The frame
      stands for the data if and only if its checksum, if any, is that of the data; and without early
      flushing it does not depend on the pieces but for the checksum. */
  method EncodeFrame(pieces: seq<seq<byte>>, flush: seq<bool>, checksum: bool, sizeId: nat, level: nat, autoFlush: bool)
    returns (frame: seq<byte>)
    requires 4 <= sizeId <= 7 && level < 0x1_0000_0000
    ensures var info := Info(false, checksum, sizeId);
            && Absorb(Start, frame) == EndState(info, Flatten(pieces), Hashed(pieces))
            && (!autoFlush && (forall i: nat :: !FlushAfter(flush, i)) ==>
                  frame == FrameOf(info, level, Flatten(pieces), Hashed(pieces)))
  {
    hide Absorb, Encoder.Valid, FrameOf, HeaderBytes, Bound, EndState, Info.MaxBlock, FrameEnd;
    var c := new Encoder();
    var dst := new byte[FrameFormat.HEADER_SIZE];
    var ok, n := c.Begin(checksum, sizeId, level, autoFlush, dst);
    frame := dst[..n];
    var i := 0;
    while i < |pieces|
      invariant i <= |pieces| && fresh(c) && fresh(c.tmpBuff) && fresh(c.xxh) && fresh(c.xxh.mem)
      invariant c.Valid() && c.started && c.info == Info(false, checksum, sizeId) && c.autoFlush == autoFlush
      invariant c.level == level
      invariant c.data == Flatten(pieces[..i]) && c.hashed == Hashed(pieces[..i]) && c.frame == frame
      invariant !autoFlush && (forall j: nat :: !FlushAfter(flush, j)) ==> c.plain
    {
      assert pieces[..i + 1][..i] == pieces[..i];
      var more := EncodePiece(c, pieces[i], FlushAfter(flush, i));
      frame, i := frame + more, i + 1;
    }
    assert pieces[..i] == pieces;
    dst := new byte[c.tmpInSize + 16 + MOST];
    c.FlushNearly();
    ok, n := c.End(dst, c.tmpInSize + 16);
    frame := frame + dst[..n];
  }

  /** Through a frame and back, in pieces of any sizes on all four sides, and with one output buffer that is
      overwritten between calls: the data comes back if and only if the checksum, if any, saw all of it. */
  method FrameRoundTrip(pieces: seq<seq<byte>>, flush: seq<bool>, checksum: bool, sizeId: nat, level: nat,
                        autoFlush: bool, dst: array<byte>)
    returns (v: Verdict, out: seq<byte>)
    requires 4 <= sizeId <= 7 && level < 0x1_0000_0000 && 0 < dst.Length <= 0x7FFF_FFFF
    modifies dst
    ensures v == if ChecksumFits(Info(false, checksum, sizeId), Flatten(pieces), Hashed(pieces))
                 then Complete else Broken
    ensures v == Complete ==> out == Flatten(pieces)
  {
    hide Absorb, ChecksumFits, Hashed;
    var frame := EncodeFrame(pieces, flush, checksum, sizeId, level, autoFlush);
    assert frame[..|frame|] == frame;
    var at;
    v, out, at := DecodeFrame(frame, dst);
    if v == Complete { EndsOnce(frame, at, |frame|); }
  }
}
