/** LZ4F_compressBegin, Update, flush and End, for independent blocks, at every compression level. */
module FrameEncoder {
  import opened Bytes
  import opened BlockFormat
  import opened WildCopy
  import opened FastLimit
  import opened HcLimit
  import opened FrameFormat
  import opened FrameBlocks
  import opened FrameLimit
  import XxHash32
  import X = XxStripes

  // ---------------------------------------------------------------- what has been written

  /** The output so far reads as the written input; and if nothing was forced out it is the one
      sequence of full blocks. */
  ghost predicate Reads(info: Info, level: nat, data: seq<byte>, frame: seq<byte>, written: seq<byte>,
                        buffered: seq<byte>, plain: bool)
    requires info.Valid()
  {
    && Absorb(Start, frame) == Collect(Size(info, written), []) && data == written + buffered
    && (plain ==> X.HasSeen(AddBlock(level), info.MaxBlock(), HeaderBytes(info), data, frame, buffered))
  }

  lemma ReadsNothing(info: Info, level: nat, plain: bool)
    requires info.Valid()
    ensures Reads(info, level, [], HeaderBytes(info), [], [], plain)
  {
    hide HeaderBytes, FrameBlock, Absorb;
    AbsorbHeader(info);
  }

  /** Input that does not fill a block is only remembered. */
  lemma ReadsBuffered(info: Info, level: nat, data: seq<byte>, frame: seq<byte>, written: seq<byte>,
                      buffered: seq<byte>, plain: bool, more: seq<byte>)
    requires info.Valid() && Reads(info, level, data, frame, written, buffered, plain)
             && |buffered| + |more| < info.MaxBlock()
    ensures Reads(info, level, data + more, frame, written, buffered + more, plain)
  {
    hide Absorb, X.HasSeen, FrameBlock;
    assert data + more == written + (buffered + more);
    if plain { X.SeeMore(AddBlock(level), info.MaxBlock(), HeaderBytes(info), data, frame, buffered, more); }
  }

  /** Input that fills a block is written. */
  lemma ReadsBlock(info: Info, level: nat, data: seq<byte>, frame: seq<byte>, written: seq<byte>, buffered: seq<byte>,
                   plain: bool, more: seq<byte>)
    requires info.Valid() && !info.linked && Reads(info, level, data, frame, written, buffered, plain)
    requires |buffered| + |more| <= info.MaxBlock() && (plain ==> |buffered| + |more| == info.MaxBlock())
    ensures Reads(info, level, data + more, frame + FrameBlock(level, buffered + more), data + more, [], plain)
  {
    hide Absorb, FrameBlock, HeaderBytes;
    var block := buffered + more;
    assert data + more == written + block && data + more == (data + more) + [];
    AbsorbConcat(Start, frame, FrameBlock(level, block));
    AbsorbBlock(info, level, written, block);
    if plain {
      X.SeeMore(AddBlock(level), info.MaxBlock(), HeaderBytes(info), data, frame, buffered, more);
      var fill := info.MaxBlock() - |buffered|;
      assert more[..fill] == more && more[fill..] == [];
    }
  }

  /** What is spilled beyond `maxOut` is there. */
  ghost predicate Flushed(dst: array<byte>, maxOut: nat, spill: Option<Spill>)
    reads dst
  {
    spill.Some? && spill.value.at >= maxOut ==>
      spill.value.at < dst.Length && dst[spill.value.at] == spill.value.value
  }

  lemma Rest(data: seq<byte>, src: seq<byte>, p: nat)
    requires p <= |src|
    ensures (data + src[..p]) + src[p..] == data + src
    ensures (data + src)[..|data + src| - (|src| - p)] == data + src[..p]
  {
    Assoc(data, src[..p], src[p..]);
    assert src[..p] + src[p..] == src;
  }

  // ---------------------------------------------------------------- the context

  /** LZ4F_cctx_internal_t. `data` is all the input of the frame, `hashed` what the checksum has seen of it,
      and `frame` all its output so far; `plain` says that nothing has been flushed before its block was full. */
  class Encoder {
    var info: Info
    var level: nat
    var autoFlush: bool
    var started: bool
    var maxBufferSize: nat
    var tmpBuff: array<byte>
    var tmpInSize: nat
    const xxh: XxHash32.State
    ghost var data: seq<byte>
    ghost var hashed: seq<byte>
    ghost var frame: seq<byte>
    ghost var plain: bool

    /** LZ4F_createCompressionContext. */
    constructor ()
      ensures Valid() && !started && fresh(tmpBuff) && fresh(xxh) && fresh(xxh.mem)
    {
      info, level, autoFlush, started, maxBufferSize, tmpInSize := Info(false, false, 4), 0, false, false, 0, 0;
      tmpBuff := new byte[0];
      xxh := new XxHash32.State();
      data, hashed, frame, plain := [], [], [], true;
    }

    ghost predicate Room()
      reads this`tmpBuff, this`maxBufferSize
    {
      tmpBuff.Length == maxBufferSize && tmpBuff != xxh.mem && xxh.mem.Length == XxHash32.STRIPE
    }

    /** The input whose blocks have been written. */
    ghost function Written(): seq<byte>
      requires tmpInSize <= |data|
      reads this`tmpInSize, this`data
    {
      data[..|data| - tmpInSize]
    }

    ghost predicate Valid()
      reads this, tmpBuff, xxh, xxh.mem
    {
      && Room() && (!started ==> tmpInSize == 0) && (info.checksum ==> xxh.Saw(hashed) && xxh.seed == 0)
      && (started ==>
            && info.Valid() && !info.linked && tmpInSize < info.MaxBlock() && tmpInSize <= |data|
            && (if autoFlush then tmpInSize == 0 && !plain else info.MaxBlock() <= tmpBuff.Length)
            && tmpInSize <= tmpBuff.Length
            && Reads(info, level, data, frame, Written(), tmpBuff[..tmpInSize], plain))
    }

    /** Room for what is held back. */
    method Enlarge(needed: nat)
      requires Room()
      modifies this`maxBufferSize, this`tmpBuff
      ensures Room() && needed <= tmpBuff.Length && (tmpBuff == old(tmpBuff) || fresh(tmpBuff))
    {
      if maxBufferSize < needed {
        maxBufferSize := needed;
        tmpBuff := new byte[needed];
      }
    }

    /** The context of a new frame. */
    method Prepare(checksum: bool, sizeId: nat, compressionLevel: nat, flush: bool)
      requires Room() && (sizeId == 0 || 4 <= sizeId <= 7)
      modifies this, xxh
      ensures Valid() && started && tmpInSize == 0 && (tmpBuff == old(tmpBuff) || fresh(tmpBuff))
      ensures data == hashed == [] && plain == !flush && autoFlush == flush && level == compressionLevel
      ensures info == Info(false, checksum, if sizeId == 0 then 4 else sizeId) && frame == HeaderBytes(info)
    {
      hide HeaderBytes, Reads, XxHash32.State.Saw, Info.MaxBlock, Valid;
      info, autoFlush := Info(false, checksum, if sizeId == 0 then 4 else sizeId), flush;
      level := compressionLevel;
      Enlarge(if flush then 0 else info.MaxBlock());
      tmpInSize := 0;
      xxh.Reset(0);
      started := true;
      data, hashed, frame, plain := [], [], HeaderBytes(info), !flush;
      OnlyHeader();
    }

    /** LZ4F_compressBegin: the header. */
    method Begin(checksum: bool, sizeId: nat, compressionLevel: nat, flush: bool, dst: array<byte>)
      returns (ok: bool, n: nat)
      requires Valid() && (sizeId == 0 || 4 <= sizeId <= 7) && compressionLevel < 0x1_0000_0000
      requires dst !in {tmpBuff, xxh.mem}
      modifies this, xxh, dst
      ensures Valid() && (tmpBuff == old(tmpBuff) || fresh(tmpBuff))
      ensures ok == (dst.Length >= HEADER_SIZE && !old(started))
      ensures ok ==>
                && started && tmpInSize == 0 && data == hashed == [] && plain == !flush && autoFlush == flush
                && info == Info(false, checksum, if sizeId == 0 then 4 else sizeId) && level == compressionLevel
                && n == HEADER_SIZE && frame == dst[..n] && frame == HeaderBytes(info)
    {
      hide HeaderBytes, Valid;
      n := 0;
      ValidRoom();
      if dst.Length < HEADER_SIZE { return false, 0; }
      if started { return false, 0; }
      Prepare(checksum, sizeId, compressionLevel, flush);
      CopyBytes(dst, 0, HeaderBytes(info));
      ok, n := true, HEADER_SIZE;
      assert dst[..n] == frame;
    }

    lemma ValidRoom()
      requires Valid()
      ensures Room()
    {
      hide Reads, XxHash32.State.Saw;
    }

    /** A frame of which only the header has been written. */
    lemma OnlyHeader()
      requires Room() && info.Valid() && !info.linked && started && plain == !autoFlush && tmpInSize == 0
      requires (if autoFlush then 0 else info.MaxBlock()) <= tmpBuff.Length && xxh.Saw([]) && xxh.seed == 0
      requires data == hashed == [] && frame == HeaderBytes(info)
      ensures Valid()
    {
      hide HeaderBytes, Reads, XxHash32.State.Saw;
      ReadsNothing(info, level, plain);
    }

    /** Everything up to src[p] has been written, as dst[..op]. */
    ghost predicate WrittenTo(src: seq<byte>, p: nat, out: seq<byte>)
      requires info.Valid() && p <= |src|
      reads this`info, this`level, this`data, this`frame, this`plain
    {
      Reads(info, level, data + src[..p], frame + out, data + src[..p], [], plain)
    }

    lemma OneBlockMore(src: seq<byte>, p: nat, out: seq<byte>, n: nat)
      requires info.Valid() && !info.linked && p + n <= |src| && n <= info.MaxBlock()
               && (plain ==> n == info.MaxBlock())
      requires WrittenTo(src, p, out)
      ensures WrittenTo(src, p + n, out + FrameBlock(level, src[p..p + n]))
    {
      hide Reads, FrameBlock;
      var more := src[p..p + n];
      ReadsBlock(info, level, data + src[..p], frame + out, data + src[..p], [], plain, more);
      assert [] + more == more && (data + src[..p]) + more == data + src[..p + n];
      assert (frame + out) + FrameBlock(level, more) == frame + (out + FrameBlock(level, more));
    }

    /** Whole blocks straight from the input. */
    method FullBlocks(src: seq<byte>, p0: nat, dst: array<byte>, op0: nat, maxOut: nat,
                      ghost done0: seq<seq<byte>>, ghost goal: seq<seq<byte>>)
      returns (p: nat, op: nat, ghost done: seq<seq<byte>>)
      requires info.Valid() && !info.linked && p0 <= |src| && op0 <= dst.Length && WrittenTo(src, p0, dst[..op0])
      requires op0 + Worst(|src| - p0, info.MaxBlock(), autoFlush) <= maxOut && Laid(level, dst, done0, op0, maxOut)
      requires BlocksOk(goal) && Reach(BlocksSpill(level, goal), maxOut) <= dst.Length
      requires goal == done0 + Cuts(src[p0..], info.MaxBlock(), autoFlush)
      modifies dst
      ensures p0 <= p <= |src| < p + info.MaxBlock()
      ensures op + Worst(|src| - p, info.MaxBlock(), autoFlush) <= op0 + Worst(|src| - p0, info.MaxBlock(), autoFlush)
      ensures op <= dst.Length && WrittenTo(src, p, dst[..op]) && Laid(level, dst, done, op, maxOut)
      ensures goal == done + Cuts(src[p..], info.MaxBlock(), autoFlush)
      ensures OnlyWithin(dst, 0, Reach(BlocksSpill(level, goal), maxOut))
    {
      hide WrittenTo, FrameBlock, Laid, BlocksSpill, BlocksOk;
      var size := info.MaxBlock();
      p, op, done := p0, op0, done0;
      while |src| - p >= size
        invariant p0 <= p <= |src|
        invariant op + Worst(|src| - p, size, autoFlush) <= op0 + Worst(|src| - p0, size, autoFlush)
        invariant op <= dst.Length && WrittenTo(src, p, dst[..op]) && Laid(level, dst, done, op, maxOut)
        invariant goal == done + Cuts(src[p..], size, autoFlush)
        invariant OnlyWithin(dst, 0, Reach(BlocksSpill(level, goal), maxOut))
      {
        ghost var block := src[p..p + size];
        OneBlockMore(src, p, dst[..op], size);
        assert src[p..][..size] == block && src[p..][size..] == src[p + size..];
        Assoc(done, [block], Cuts(src[p + size..], size, autoFlush));
        BlocksGrow(level, done + [block], goal, maxOut);
        op := LayBlock(level, src[p..p + size], dst, op, maxOut, done);
        p, done := p + size, done + [block];
      }
    }

    /** The first part of LZ4F_compressUpdate: the buffered block is completed and written, or not. */
    method CompleteTmp(src: seq<byte>, dst: array<byte>, maxOut: nat, ghost goal: seq<seq<byte>>)
      returns (p: nat, op: nat, ghost done: seq<seq<byte>>)
      requires Valid() && started && tmpInSize > 0 && dst !in {tmpBuff, xxh.mem} && info.MaxBlock() + 4 <= maxOut
      requires BlocksOk(goal) && Reach(BlocksSpill(level, goal), maxOut) <= dst.Length
      requires goal == UpdateBlocks(tmpBuff[..tmpInSize], src, info.MaxBlock(), autoFlush)
      modifies this`tmpInSize, tmpBuff, dst
      ensures p <= |src| && op <= info.MaxBlock() + 4 && tmpInSize < info.MaxBlock() && op <= dst.Length
      ensures Laid(level, dst, done, op, maxOut) && OnlyWithin(dst, 0, Reach(BlocksSpill(level, goal), maxOut))
      ensures if tmpInSize > 0 then
                && op == 0 && tmpInSize <= |data + src| && done == goal
                && Reads(info, level, data + src, frame, (data + src)[..|data + src| - tmpInSize],
                         tmpBuff[..tmpInSize], plain)
              else 0 < p && WrittenTo(src, p, dst[..op]) && goal == done + Cuts(src[p..], info.MaxBlock(), autoFlush)
    {
      hide Reads, FrameBlock, XxHash32.State.Saw, Laid, BlocksSpill, BlocksOk, Cuts;
      ghost var written, buffered := Written(), tmpBuff[..tmpInSize];
      var n := Min(info.MaxBlock() - tmpInSize, |src|);
      forall i | 0 <= i < n { tmpBuff[tmpInSize + i] := src[i]; }
      p, op, done := n, 0, [];
      NoneLaid(level, dst, maxOut);
      assert tmpBuff[..tmpInSize + n] == buffered + src[..n];
      if info.MaxBlock() - tmpInSize > |src| {
        assert src[..n] == src;
        ReadsBuffered(info, level, data, frame, written, buffered, plain, src);
        tmpInSize := tmpInSize + n;
        assert (data + src)[..|data + src| - tmpInSize] == written;
      } else {
        ReadsBlock(info, level, data, frame, written, buffered, plain, src[..n]);
        ghost var block, none := buffered + src[..n], dst[..0];
        BlocksGrow(level, [] + [block], goal, maxOut);
        op := LayBlock(level, tmpBuff[..info.MaxBlock()], dst, 0, maxOut, []);
        tmpInSize, done := 0, [block];
        assert none + FrameBlock(level, block) == FrameBlock(level, block) && [] + [block] == [block];
      }
    }

    /** What remains is buffered. */
    method BufferRest(src: seq<byte>, p: nat, ghost out: seq<byte>)
      requires Room() && info.Valid() && p <= |src| < p + info.MaxBlock() && |src| - p <= tmpBuff.Length
      requires WrittenTo(src, p, out)
      modifies this`tmpInSize, tmpBuff
      ensures tmpInSize == |src| - p && tmpInSize <= |data + src|
      ensures Reads(info, level, data + src, frame + out, (data + src)[..|data + src| - tmpInSize],
                    tmpBuff[..tmpInSize], plain)
    {
      hide Reads;
      ghost var rest := src[p..];
      ReadsBuffered(info, level, data + src[..p], frame + out, data + src[..p], [], plain, rest);
      forall i | 0 <= i < |src| - p { tmpBuff[i] := src[p + i]; }
      tmpInSize := |src| - p;
      assert [] + rest == rest == tmpBuff[..tmpInSize];
      Rest(data, src, p);
    }

    /** The input from `p0` on, when nothing is buffered: full blocks, then what remains. */
    method Straight(src: seq<byte>, p0: nat, dst: array<byte>, op0: nat, maxOut: nat,
                    ghost done0: seq<seq<byte>>, ghost goal: seq<seq<byte>>)
      returns (op: nat)
      requires Room() && info.Valid() && !info.linked && dst !in {tmpBuff, xxh.mem} && p0 <= |src|
      requires if autoFlush then !plain else info.MaxBlock() <= tmpBuff.Length
      requires op0 + Worst(|src| - p0, info.MaxBlock(), autoFlush) <= maxOut && Laid(level, dst, done0, op0, maxOut)
      requires op0 <= dst.Length && WrittenTo(src, p0, dst[..op0])
      requires BlocksOk(goal) && Reach(BlocksSpill(level, goal), maxOut) <= dst.Length
      requires goal == done0 + Cuts(src[p0..], info.MaxBlock(), autoFlush)
      modifies this`tmpInSize, tmpBuff, dst
      ensures op <= op0 + Worst(|src| - p0, info.MaxBlock(), autoFlush) && op <= dst.Length
      ensures Laid(level, dst, goal, op, maxOut) && OnlyWithin(dst, 0, Reach(BlocksSpill(level, goal), maxOut))
      ensures tmpInSize < info.MaxBlock() && tmpInSize <= |data + src| && tmpInSize <= tmpBuff.Length
      ensures autoFlush ==> tmpInSize == 0
      ensures Reads(info, level, data + src, frame + dst[..op], (data + src)[..|data + src| - tmpInSize],
                    tmpBuff[..tmpInSize], plain)
    {
      hide Reads, FrameBlock, WrittenTo, Laid, BlocksSpill, BlocksOk;
      var p;
      ghost var done;
      p, op, done := FullBlocks(src, p0, dst, op0, maxOut, done0, goal);
      if autoFlush && p < |src| {
        OneBlockMore(src, p, dst[..op], |src| - p);
        assert src[p..p + (|src| - p)] == src[p..];
        op := LayBlock(level, src[p..], dst, op, maxOut, done);
        p := |src|;
      } else {
        assert done + [] == done;
      }
      BufferRest(src, p, dst[..op]);
    }

    /** LZ4F_compressUpdate: what has been buffered and the input, in blocks; the rest is buffered. The
        checksum sees the input with its length cast to 32 bits. From level 3 on, the blocks may be written
        beyond the end of the buffer, as BlocksSpill says. */
    method Update(src: seq<byte>, dst: array<byte>, maxOut: nat) returns (ok: bool, n: nat)
      requires Valid() && dst !in {tmpBuff, xxh.mem} && maxOut <= dst.Length
      requires started && maxOut >= Bound(|src|, info, autoFlush) ==>
                 Reach(BlocksSpill(level, BlocksOf(src)), maxOut) <= dst.Length
      modifies this`tmpInSize, this`data, this`hashed, this`frame, tmpBuff, xxh, xxh.mem, dst
      ensures Valid() && ok == (started && maxOut >= Bound(|src|, info, autoFlush))
      ensures if ok then
                && data == old(data) + src && hashed == old(hashed) + Narrow(src)
                && n <= Bound(|src|, info, autoFlush) && n <= dst.Length && frame == old(frame) + dst[..n]
                && Laid(level, dst, old(BlocksOf(src)), n, maxOut)
                && OnlyWithin(dst, 0, Reach(BlocksSpill(level, old(BlocksOf(src))), maxOut))
              else data == old(data) && hashed == old(hashed) && frame == old(frame) && dst[..] == old(dst[..])
    {
      hide Reads, FrameBlock, XxHash32.State.Saw, WrittenTo, OnlyWithin, Bound, Laid, BlocksSpill, UpdateBlocks;
      if !started { return false, 0; }
      if maxOut < Bound(|src|, info, autoFlush) { return false, 0; }
      ghost var goal := BlocksOf(src);
      n := WriteBlocks(src, dst, maxOut, goal);
      if info.checksum { xxh.Update(Narrow(src), hashed); }
      data, hashed, frame := data + src, hashed + Narrow(src), frame + dst[..n];
      ok := true;
    }

    /** The blocks that an update with this input writes. */
    ghost function BlocksOf(src: seq<byte>): (blocks: seq<seq<byte>>)
      requires Valid() && started
      reads this, tmpBuff, xxh, xxh.mem
      ensures BlocksOk(blocks)
    {
      UpdateOk(tmpBuff[..tmpInSize], src, info.MaxBlock(), autoFlush);
      UpdateBlocks(tmpBuff[..tmpInSize], src, info.MaxBlock(), autoFlush)
    }

    /** An update never writes further than MOST bytes beyond what it asks for, nor does a flush. */
    lemma UpdateNearly(src: seq<byte>)
      requires Valid() && started
      ensures info.Valid() && tmpInSize < info.MaxBlock()
      ensures var bound := Bound(|src|, info, autoFlush);
              Reach(BlocksSpill(level, BlocksOf(src)), bound) <= bound + MOST
    {
      hide Reads, XxHash32.State.Saw, Bound, BlocksSpill, UpdateBlocks;
      var buffered := tmpBuff[..tmpInSize];
      UpdateWithin(level, info, autoFlush, buffered, src, MOST);
    }

    lemma FlushNearly()
      requires Valid()
      ensures Reach(FlushSpill(), tmpInSize + 16) <= tmpInSize + 16 + MOST
    {
      hide Reads, XxHash32.State.Saw, BlockSpill;
      if tmpInSize > 0 { BlockWithin(level, tmpBuff[..tmpInSize], MOST); }
    }

    lemma NothingWritten(src: seq<byte>, none: seq<byte>)
      requires Valid() && started && tmpInSize == 0 && none == []
      ensures WrittenTo(src, 0, none)
    {
      hide Reads, XxHash32.State.Saw;
      assert data + src[..0] == data && frame + none == frame && Written() == data && tmpBuff[..0] == [];
    }

    /** The blocks that LZ4F_compressUpdate writes. */
    method WriteBlocks(src: seq<byte>, dst: array<byte>, maxOut: nat, ghost goal: seq<seq<byte>>) returns (op: nat)
      requires Valid() && started && dst !in {tmpBuff, xxh.mem} && Bound(|src|, info, autoFlush) <= maxOut
      requires BlocksOk(goal) && Reach(BlocksSpill(level, goal), maxOut) <= dst.Length
      requires goal == UpdateBlocks(tmpBuff[..tmpInSize], src, info.MaxBlock(), autoFlush)
      modifies this`tmpInSize, tmpBuff, dst
      ensures op <= Bound(|src|, info, autoFlush) && op <= dst.Length
      ensures Laid(level, dst, goal, op, maxOut) && OnlyWithin(dst, 0, Reach(BlocksSpill(level, goal), maxOut))
      ensures tmpInSize < info.MaxBlock() && tmpInSize <= |data + src| && tmpInSize <= tmpBuff.Length
      ensures autoFlush ==> tmpInSize == 0
      ensures Reads(info, level, data + src, frame + dst[..op], (data + src)[..|data + src| - tmpInSize],
                    tmpBuff[..tmpInSize], plain)
    {
      hide Reads, FrameBlock, XxHash32.State.Saw, WrittenTo, Bound, Laid, BlocksSpill, BlocksOk, Cuts;
      WorstFits(|src|, info, autoFlush);
      ghost var done: seq<seq<byte>> := [];
      if tmpInSize > 0 {
        var p;
        p, op, done := CompleteTmp(src, dst, maxOut, goal);
        if tmpInSize > 0 {
          assert frame + dst[..op] == frame;
          return;
        }
        WorstGrows(|src| - p, |src|, info.MaxBlock());
        op := Straight(src, p, dst, op, maxOut, done, goal);
      } else {
        NothingWritten(src, dst[..0]);
        NoneLaid(level, dst, maxOut);
        assert tmpBuff[..0] == [] && src[0..] == src;
        op := Straight(src, 0, dst, 0, maxOut, [], goal);
      }
    }

    /** What is written behind the block that a flush makes of the buffered input. */
    ghost function FlushSpill(): (r: Option<Spill>)
      requires Valid()
      reads this, tmpBuff, xxh, xxh.mem
    {
      if tmpInSize == 0 then None else BlockSpill(level, tmpBuff[..tmpInSize])
    }

    /** LZ4F_flush: what is buffered becomes a block of its own. */
    method Flush(dst: array<byte>, maxOut: nat) returns (ok: bool, n: nat)
      requires Valid() && dst !in {tmpBuff, xxh.mem} && maxOut <= dst.Length
      requires maxOut >= tmpInSize + 16 ==> Reach(FlushSpill(), maxOut) <= dst.Length
      modifies this`tmpInSize, this`frame, this`plain, dst
      ensures Valid() && ok == old(tmpInSize == 0 || maxOut >= tmpInSize + 16)
      ensures if ok then
                && tmpInSize == 0 && n <= old(tmpInSize) + 4 && n <= maxOut && (old(tmpInSize) == 0 ==> n == 0)
                && dst[..n] == FrameBlock(level, old(tmpBuff[..tmpInSize])) && frame == old(frame) + dst[..n]
                && OnlyWithin(dst, 0, Reach(old(FlushSpill()), maxOut)) && Flushed(dst, maxOut, old(FlushSpill()))
              else n == 0 && tmpInSize == old(tmpInSize) && frame == old(frame) && plain == old(plain) && unchanged(dst)
    {
      hide Reads, FrameBlock, XxHash32.State.Saw, BlockSpill;
      if tmpInSize == 0 {
        assert tmpBuff[..0] == [] && frame + dst[..0] == frame;
        NoBlock();
        return true, 0;
      }
      if maxOut < tmpInSize + 16 { return false, 0; }
      FlushReads();
      ghost var buffered, none := tmpBuff[..tmpInSize], dst[..0];
      SpillsBehind(level, buffered);
      n := WriteBlock(level, tmpBuff[..tmpInSize], dst, 0);
      assert none + FrameBlock(level, buffered) == FrameBlock(level, buffered);
      frame, plain, tmpInSize := frame + dst[..n], false, 0;
      assert Written() == data && tmpBuff[..0] == [];
      ok := true;
    }

    lemma NoBlock()
      ensures FrameBlock(level, []) == []
    {
    }

    lemma FlushReads()
      requires Valid() && started
      ensures Reads(info, level, data, frame + FrameBlock(level, tmpBuff[..tmpInSize]), data, [], false)
    {
      hide FrameBlock, XxHash32.State.Saw, Absorb, X.HasSeen;
      var buffered := tmpBuff[..tmpInSize];
      ReadsBlock(info, level, data, frame, Written(), buffered, false, []);
      assert data + [] == data && buffered + [] == buffered;
    }

    /** LZ4F_compressEnd: the last block, the end mark and the checksum. Then the frame reads as all of
        the data if and only if the checksum fits, and if nothing was flushed early it is the one frame
        for it. The last bytes are written without a look at the size of the buffer, and whether or not a
        frame is open: they pass it exactly when nothing is buffered and it has no room for them. */
    method End(dst: array<byte>, maxOut: nat) returns (ok: bool, n: nat)
      requires Valid() && dst !in {tmpBuff, xxh.mem}
      requires maxOut <= dst.Length && dst.Length >= 4 + (if info.checksum then 4 else 0)
      requires maxOut >= tmpInSize + 16 ==> Reach(FlushSpill(), maxOut) <= dst.Length
      modifies this`tmpInSize, this`frame, this`plain, this`started, dst
      ensures Valid() && ok == old(tmpInSize == 0 || maxOut >= tmpInSize + 16)
      ensures ok ==> (n > maxOut <==> old(tmpInSize) == 0 && maxOut < 4 + (if info.checksum then 4 else 0))
      ensures ok ==> !started && n <= old(tmpInSize) + 12 && n <= dst.Length
      ensures ok && old(started) ==>
                && frame == old(frame) + dst[..n] && Absorb(Start, frame) == EndState(info, data, hashed)
                && (old(plain) ==> frame == FrameOf(info, level, data, hashed))
      ensures ok && !old(started) ==> frame == old(frame)
      ensures ok ==> dst[..n] == FrameBlock(level, old(tmpBuff[..tmpInSize])) + FrameEnd(info, hashed)
      ensures ok && old(tmpInSize) == 0 ==> n == 4 + if info.checksum then 4 else 0
      ensures ok ==> Flushed(dst, maxOut, old(FlushSpill()))
      ensures !ok ==> started == old(started) && frame == old(frame) && tmpInSize == old(tmpInSize) && unchanged(dst)
    {
      hide Reads, FrameBlock, XxHash32.State.Saw, XxHash32.Hash, Absorb, FrameOf, FrameEnd, EndState, OnlyWithin,
           BlockSpill;
      ghost var before, buffered := frame, tmpBuff[..tmpInSize];
      if started { EndReads(); }
      ok, n := Flush(dst, maxOut);
      if !ok { return; }
      ghost var block := dst[..n];
      NoBlock();
      var bytes := EndBytes();
      CopyBytes(dst, n, bytes);
      n := n + |bytes|;
      assert dst[..n] == block + bytes;
      assert before + (block + bytes) == before + block + bytes;
      if started { frame := frame + bytes; }
      started := false;
    }

    /** The end mark, and the digest if it is wanted. */
    method EndBytes() returns (bytes: seq<byte>)
      requires info.checksum ==> xxh.Saw(hashed) && xxh.seed == 0
      ensures bytes == FrameEnd(info, hashed) && |bytes| == 4 + if info.checksum then 4 else 0
    {
      hide XxHash32.State.Saw, XxHash32.Hash, ToLE32;
      bytes := ToLE32(0);
      if info.checksum {
        var h := xxh.Digest(hashed);
        bytes := bytes + ToLE32(h as nat);
      } else {
        assert bytes + [] == bytes;
      }
    }

    lemma EndReads()
      requires Valid() && started
      ensures var f := frame + FrameBlock(level, tmpBuff[..tmpInSize]) + FrameEnd(info, hashed);
              Absorb(Start, f) == EndState(info, data, hashed) && (plain ==> f == FrameOf(info, level, data, hashed))
    {
      hide FrameBlock, FrameEnd, XxHash32.State.Saw, Absorb;
      FlushReads();
      AbsorbConcat(Start, frame + FrameBlock(level, tmpBuff[..tmpInSize]), FrameEnd(info, hashed));
      AbsorbEnd(info, data, hashed);
    }
  }
}
