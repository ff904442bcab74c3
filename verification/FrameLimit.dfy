/** When LZ4F_compressBound bounds what an update writes, and the sixteen bytes what a flush writes. */
module FrameLimit {
  import opened Bytes
  import opened BlockFormat
  import opened WildCopy
  import opened FastLimit
  import opened FastCodec
  import opened HcLimit
  import opened HcCompress
  import opened HcExact
  import opened FrameFormat
  import opened FrameBlocks

  /** By how much the limit of a block is passed at most. */
  predicate Excess(level: nat, size: nat, e: nat) {
    level < MIN_HC_LEVEL || (size <= 0x4_0000 && e >= 4) || (size <= 0x40_0000 && e >= MOST)
  }

  lemma BlockWithin(level: nat, data: seq<byte>, e: nat)
    requires 0 < |data| <= 4096 * KB && Excess(level, |data|, e) && e > 0
    ensures Reach(BlockSpill(level, data), 4 + |data|) < 4 + |data| + e
  {
    hide SpillOfHc;
    if level >= MIN_HC_LEVEL { SpillWithin(data, AsInt(level), |data| - 1, e); }
  }

  /** The sizes and the data of several blocks. */
  function Total(blocks: seq<seq<byte>>): nat {
    if blocks == [] then 0 else Total(blocks[..|blocks| - 1]) + 4 + |blocks[|blocks| - 1]|
  }

  lemma {:induction false} TotalHolds(level: nat, blocks: seq<seq<byte>>)
    ensures |BlocksBytes(level, blocks)| <= Total(blocks)
    decreases |blocks|
  {
    hide FrameBlock;
    if blocks != [] {
      TotalHolds(level, blocks[..|blocks| - 1]);
    }
  }

  /** No block reaches further beyond all of them than it does beyond itself. */
  lemma {:induction false} BlocksWithin(level: nat, blocks: seq<seq<byte>>, e: nat)
    requires BlocksOk(blocks) && e > 0 && forall i :: 0 <= i < |blocks| ==> Excess(level, |blocks[i]|, e)
    ensures Reach(BlocksSpill(level, blocks), Total(blocks)) < Total(blocks) + e
    decreases |blocks|
  {
    hide FrameBlock, BlockSpill, BlocksBytes, Excess;
    if blocks != [] {
      var init, b := blocks[..|blocks| - 1], blocks[|blocks| - 1];
      BlocksWithin(level, init, e);
      BlockWithin(level, b, e);
      TotalHolds(level, init);
    }
  }

  lemma TotalFirst(b: seq<byte>, blocks: seq<seq<byte>>)
    ensures Total([b] + blocks) == 4 + |b| + Total(blocks)
    decreases |blocks|
  {
    var t := [b] + blocks;
    if blocks == [] {
      assert t[..|t| - 1] == [];
    } else {
      var n := |blocks| - 1;
      assert t[..|t| - 1] == [b] + blocks[..n] && t[|t| - 1] == blocks[n];
      TotalFirst(b, blocks[..n]);
    }
  }

  lemma {:induction false} CutsTotal(src: seq<byte>, size: nat, autoFlush: bool)
    requires size > 0
    ensures Total(Cuts(src, size, autoFlush)) <= Worst(|src|, size, autoFlush)
    ensures forall b :: b in Cuts(src, size, autoFlush) ==> |b| <= size
    decreases |src|
  {
    if |src| >= size {
      CutsTotal(src[size..], size, autoFlush);
      TotalFirst(src[..size], Cuts(src[size..], size, autoFlush));
    }
  }

  lemma CompletedTotal(buffered: seq<byte>, src: seq<byte>, size: nat)
    requires 0 < |buffered| < size <= |buffered| + |src|
    ensures var blocks := UpdateBlocks(buffered, src, size, false);
            Total(blocks) <= 4 + size + Worst(|src|, size, false) && forall b :: b in blocks ==> |b| <= size
  {
    hide Cuts, Total, Worst;
    var fill := size - |buffered|;
    CutsTotal(src[fill..], size, false);
    TotalFirst(buffered + src[..fill], Cuts(src[fill..], size, false));
    WorstGrows(|src| - fill, |src|, size);
  }

  /** The blocks of an update take no more than LZ4F_compressBound allows them. */
  lemma UpdateTotal(buffered: seq<byte>, src: seq<byte>, info: Info, autoFlush: bool)
    requires info.Valid() && |buffered| < info.MaxBlock() && (autoFlush ==> buffered == [])
    ensures var blocks := UpdateBlocks(buffered, src, info.MaxBlock(), autoFlush);
            && Total(blocks) + 4 + (if info.checksum then 4 else 0) <= Bound(|src|, info, autoFlush)
            && forall b :: b in blocks ==> |b| <= info.MaxBlock()
  {
    hide Bound, Cuts, Worst;
    var size := info.MaxBlock();
    WorstFits(|src|, info, autoFlush);
    if buffered == [] {
      CutsTotal(src, size, autoFlush);
    } else if |buffered| + |src| >= size {
      CompletedTotal(buffered, src, size);
    }
  }

  // ---------------------------------------------------------------- what bounds the writes, and when

  /** Behind everything that an update writes to a buffer of the size that LZ4F_compressBound asks for. */
  ghost function UpdateReach(level: nat, info: Info, autoFlush: bool, buffered: seq<byte>, src: seq<byte>): nat
    requires info.Valid() && |buffered| < info.MaxBlock()
  {
    UpdateOk(buffered, src, info.MaxBlock(), autoFlush);
    Reach(BlocksSpill(level, UpdateBlocks(buffered, src, info.MaxBlock(), autoFlush)), Bound(|src|, info, autoFlush))
  }

  lemma UpdateWithin(level: nat, info: Info, autoFlush: bool, buffered: seq<byte>, src: seq<byte>, e: nat)
    requires info.Valid() && |buffered| < info.MaxBlock() && (autoFlush ==> buffered == [])
    requires e >= 4 && Excess(level, info.MaxBlock(), e)
    ensures UpdateReach(level, info, autoFlush, buffered, src) <= Bound(|src|, info, autoFlush) + e - 4
  {
    hide Bound, BlocksSpill, UpdateBlocks, BlocksOk;
    UpdateOk(buffered, src, info.MaxBlock(), autoFlush);
    UpdateTotal(buffered, src, info, autoFlush);
    BlocksWithin(level, UpdateBlocks(buffered, src, info.MaxBlock(), autoFlush), e);
  }

  /** What is written behind one block: a single run of literals with zeros after it. */
  lemma TuneBlockSpills(level: nat, n: nat, run: nat)
    requires level >= MIN_HC_LEVEL && 8 < run && run % 8 == 1 && run + MFLIMIT < n <= 4096 * KB
    requires RunPasses(0, run, n - 1) && AfterCopy(0, run) > n
    ensures BlockSpill(level, TuneOf(n, run)) == Some(Spill(AfterCopy(0, run) + 3, 0))
  {
    hide Tune, SpillOfHc, AfterCopy, RunPasses;
    TuneSpills(TuneOf(n, run), run, AsInt(level), n - 1);
  }

  lemma OneBlock(level: nat, b: seq<byte>)
    requires 0 < |b| <= 4096 * KB
    ensures BlocksOk([b]) && BlocksSpill(level, [b]) == BlockSpill(level, b)
  {
    hide BlockSpill, FrameBlock;
    BlocksSnoc(level, [], b);
    assert [] + [b] == [b];
  }

  const RUN1 := 1044481
  const RUN4 := 4177969

  /** With autoFlush, a block of 1048571 bytes is written further than the bound by 10 bytes, or by 6. */
  lemma FlushedOverruns(level: nat, info: Info)
    requires info.Valid() && level >= MIN_HC_LEVEL && info.sizeId >= 6
    ensures var src := TuneOf(1048571, RUN1);
            && BlockSpill(level, src) == Some(Spill(1048588, 0))
            && UpdateReach(level, info, true, [], src) > Bound(|src|, info, true)
  {
    hide Tune, TuneOf, BlockSpill, Extension, BlocksSpill;
    var src := TuneOf(1048571, RUN1);
    ExtensionSize(RUN1);
    TuneBlockSpills(level, 1048571, RUN1);
    OneBlock(level, src);
    assert UpdateBlocks([], src, info.MaxBlock(), true) == [src];
  }

  /** Without it, a full block of which one byte was buffered is, for blocks of 1 MiB and of 4 MiB. */
  lemma BufferedOverruns(level: nat, info: Info)
    requires info.Valid() && level >= MIN_HC_LEVEL && info.sizeId >= 6
    ensures var block := TuneOf(info.MaxBlock(), if info.sizeId == 6 then RUN1 else RUN4);
            UpdateReach(level, info, false, block[..1], block[1..]) > Bound(|block| - 1, info, false)
  {
    hide Tune, TuneOf, BlockSpill, Extension, BlocksSpill;
    var n, run := info.MaxBlock(), if info.sizeId == 6 then RUN1 else RUN4;
    var block := TuneOf(n, run);
    ExtensionSize(run);
    TuneBlockSpills(level, n, run);
    OneBlock(level, block);
    assert block[..1] + block[1..][..n - 1] == block && block[1..][n - 1..] == [];
    assert UpdateBlocks(block[..1], block[1..], n, false) == [block] + [] == [block];
  }

  /** No update ever writes beyond the bound that LZ4F_compressBound gives for it, if and only if the level is
      below 3 or blocks have at most 256 KiB. */
  lemma BoundExactly(level: nat, info: Info, autoFlush: bool)
    requires info.Valid()
    ensures level < MIN_HC_LEVEL || info.sizeId <= 5 <==>
              forall buffered: seq<byte>, src: seq<byte> ::
                |buffered| < info.MaxBlock() && (autoFlush ==> buffered == []) ==>
                  UpdateReach(level, info, autoFlush, buffered, src) == Bound(|src|, info, autoFlush)
  {
    hide Bound, UpdateReach, TuneOf;
    if level < MIN_HC_LEVEL || info.sizeId <= 5 {
      forall buffered: seq<byte>, src: seq<byte> | |buffered| < info.MaxBlock() && (autoFlush ==> buffered == [])
        ensures UpdateReach(level, info, autoFlush, buffered, src) == Bound(|src|, info, autoFlush)
      {
        UpdateWithin(level, info, autoFlush, buffered, src, 4);
        ReachesBound(level, info, autoFlush, buffered, src);
      }
    } else if autoFlush {
      FlushedOverruns(level, info);
    } else {
      BufferedOverruns(level, info);
    }
  }

  lemma ReachesBound(level: nat, info: Info, autoFlush: bool, buffered: seq<byte>, src: seq<byte>)
    requires info.Valid() && |buffered| < info.MaxBlock()
    ensures UpdateReach(level, info, autoFlush, buffered, src) >= Bound(|src|, info, autoFlush)
  {
    hide Bound, BlocksSpill, UpdateBlocks;
    UpdateOk(buffered, src, info.MaxBlock(), autoFlush);
  }

  /** The same of a flush and the sixteen bytes that it asks for. */
  lemma FlushExactly(level: nat, info: Info)
    requires info.Valid()
    ensures level < MIN_HC_LEVEL || info.sizeId <= 5 <==>
              forall data: seq<byte> :: 0 < |data| < info.MaxBlock() ==>
                Reach(BlockSpill(level, data), |data| + 16) == |data| + 16
  {
    hide BlockSpill, UpdateReach, Bound;
    if level < MIN_HC_LEVEL || info.sizeId <= 5 {
      forall data: seq<byte> | 0 < |data| < info.MaxBlock()
        ensures Reach(BlockSpill(level, data), |data| + 16) == |data| + 16
      {
        BlockWithin(level, data, 4);
      }
    } else {
      FlushedOverruns(level, info);
    }
  }
}
