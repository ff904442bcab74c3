/** The blocks of a frame at every compression level: their bytes, how they read, and what is written for them. */
module FrameBlocks {
  import opened Bytes
  import opened BlockFormat
  import opened BlockParser
  import opened BlockRules
  import opened WildCopy
  import opened FastLimit
  import opened FastCompress
  import opened FastCodec
  import opened Emit
  import opened FrameFormat
  import opened HcParse
  import opened HcLimit
  import opened HcCompress
  import XxHash32
  import X = XxStripes

  // ---------------------------------------------------------------- what is written

  const MIN_HC_LEVEL := 3

  /** The level, which is unsigned, as LZ4HC_compress_generic receives it. */
  function AsInt(level: nat): int { if level < 0x8000_0000 then level else level - 0x1_0000_0000 }

  /** What the compressor that goes with the level makes of a block. */
  ghost function Squeezed(level: nat, data: seq<byte>): seq<byte>
    requires |data| <= LZ4_MAX_INPUT_SIZE
  {
    if level < MIN_HC_LEVEL then Compressed(data) else BlockBytes(HcBlock(data, AsInt(level)))
  }

  /** A block in a frame: its size, and it compressed, or as it is when that would not be smaller. */
  ghost function FrameBlock(level: nat, data: seq<byte>): (r: seq<byte>)
    ensures |r| <= |data| + 4
  {
    if |data| == 0 || |data| > LZ4_MAX_INPUT_SIZE then []
    else if |Squeezed(level, data)| < |data| then ToLE32(|Squeezed(level, data)|) + Squeezed(level, data)
    else ToLE32(|data| + UNCOMPRESSED) + data
  }

  ghost function AddBlock(level: nat): (seq<byte>, seq<byte>) -> seq<byte> {
    (frame: seq<byte>, data: seq<byte>) => frame + FrameBlock(level, data)
  }

  /** The end mark, and the content checksum if there is one. */
  function FrameEnd(info: Info, data: seq<byte>): seq<byte> {
    ToLE32(0) + if info.checksum then ToLE32(Hash(data)) else []
  }

  /** The one frame for this data: blocks of the full size, one for the rest, and the checksum of what was
      hashed. */
  ghost function FrameOf(info: Info, level: nat, data: seq<byte>, hashed: seq<byte>): seq<byte>
    requires info.Valid()
  {
    X.Absorb(AddBlock(level), info.MaxBlock(), HeaderBytes(info), data)
      + FrameBlock(level, X.Rest(info.MaxBlock(), data)) + FrameEnd(info, hashed)
  }

  /** The checksum, if there is one, is that of the data. */
  predicate ChecksumFits(info: Info, data: seq<byte>, hashed: seq<byte>) {
    info.checksum ==> Hash(hashed) == Hash(data)
  }

  /** How a frame with this data and the checksum of what was hashed reads. */
  function EndState(info: Info, data: seq<byte>, hashed: seq<byte>): State {
    if ChecksumFits(info, data, hashed) then State.Done(info, data) else Bad
  }

  // ---------------------------------------------------------------- and what the reader makes of it

  /** A field that has just been written is read whole. */
  lemma AbsorbWhole(f: Field, bytes: seq<byte>)
    requires |bytes| == f.Need() > 0
    ensures Absorb(Collect(f, []), bytes) == Finish(f, bytes)
  {
    hide Absorb, Finish;
    AbsorbField(f, [], bytes);
    assert [] + bytes == bytes;
  }

  /** The size of a block comes first, and then its body. */
  lemma AbsorbSized(info: Info, out: seq<byte>, word: nat, body: seq<byte>)
    requires word < 0x1_0000_0000
    ensures Absorb(Collect(Size(info, out), []), ToLE32(word) + body) == Absorb(AfterSize(info, word, out), body)
  {
    hide ToLE32, FromLE32, Absorb, AfterSize;
    LERoundTrip(word);
    AbsorbConcat(Collect(Size(info, out), []), ToLE32(word), body);
    AbsorbWhole(Size(info, out), ToLE32(word));
  }

  lemma AbsorbPacked(info: Info, level: nat, out: seq<byte>, data: seq<byte>)
    requires info.Valid() && !info.linked && 0 < |data| <= info.MaxBlock() && |Squeezed(level, data)| < |data|
    ensures Absorb(Collect(Packed(info, |Squeezed(level, data)|, out), []), Squeezed(level, data))
            == Collect(Size(info, out + data), [])
  {
    hide Squeezed, Parse, Decode, Absorb;
    var bytes := Squeezed(level, data);
    SqueezedParses(level, data, info.MaxBlock());
    AbsorbWhole(Packed(info, |bytes|, out), bytes);
    assert data[0..] == data;
  }

  /** Whatever the level, a block is decoded to its data, and it is not empty. */
  lemma SqueezedParses(level: nat, data: seq<byte>, cap: nat)
    requires |data| <= LZ4_MAX_INPUT_SIZE && |data| <= cap
    ensures |Squeezed(level, data)| > 0
    ensures var o := Parse(Squeezed(level, data), Limits(cap, 0, false, 0));
            o.Parsed? && Decode([], o.block) == Some(data) && BlockLength(o.block) == |data|
  {
    hide Parse, Decode, HcBlock, Compressed, CompressedBlock, BlockLength;
    if level < MIN_HC_LEVEL {
      CompressThenParse(data, cap);
    } else {
      HcBlockSound(data, AsInt(level), cap);
      LastFollows(HcBlock(data, AsInt(level)));
    }
  }

  lemma SizeOfPacked(info: Info, n: nat, out: seq<byte>)
    requires info.Valid() && 0 < n <= info.MaxBlock()
    ensures AfterSize(info, n, out) == Collect(Packed(info, n, out), [])
  {
  }

  lemma SizeOfRaw(info: Info, n: nat, out: seq<byte>)
    requires info.Valid() && 0 < n <= info.MaxBlock()
    ensures AfterSize(info, n + UNCOMPRESSED, out) == Raw(info, n, out)
  {
  }

  /** A block is read as the data that it was written for. */
  lemma AbsorbBlock(info: Info, level: nat, out: seq<byte>, data: seq<byte>)
    requires info.Valid() && !info.linked && |data| <= info.MaxBlock()
    ensures Absorb(Collect(Size(info, out), []), FrameBlock(level, data)) == Collect(Size(info, out + data), [])
  {
    hide Squeezed, Absorb, ToLE32, AfterSize;
    if data == [] {
      assert out + data == out;
      AbsorbNothing(Collect(Size(info, out), []));
    } else {
      SqueezedParses(level, data, |data|);
      var n := |Squeezed(level, data)|;
      if n < |data| {
        SizeOfPacked(info, n, out);
        AbsorbSized(info, out, n, Squeezed(level, data));
        AbsorbPacked(info, level, out, data);
      } else {
        SizeOfRaw(info, |data|, out);
        AbsorbSized(info, out, |data| + UNCOMPRESSED, data);
        AbsorbRaw(info, |data|, out, data);
      }
    }
  }

  /** It takes four bytes and the smaller of the data and what the compressor makes of it. */
  lemma FrameBlockSize(level: nat, data: seq<byte>)
    requires 0 < |data| <= LZ4_MAX_INPUT_SIZE
    ensures |FrameBlock(level, data)| == 4 + Min(|Squeezed(level, data)|, |data|)
  {
    hide Squeezed;
  }

  /** So is the end of the frame. */
  lemma AbsorbEnd(info: Info, data: seq<byte>, hashed: seq<byte>)
    ensures Absorb(Collect(Size(info, data), []), FrameEnd(info, hashed)) == EndState(info, data, hashed)
  {
    hide Hash;
    LERoundTrip(0);
    LERoundTrip(Hash(hashed));
    var tail := if info.checksum then ToLE32(Hash(hashed)) else [];
    AbsorbConcat(Collect(Size(info, data), []), ToLE32(0), tail);
    AbsorbWhole(Size(info, data), ToLE32(0));
    if info.checksum { AbsorbWhole(Suffix(info, data), tail); }
  }

  lemma AbsorbHeader(info: Info)
    requires info.Valid()
    ensures Absorb(Start, HeaderBytes(info)) == Collect(Size(info, []), [])
  {
    HeaderExactly(HeaderBytes(info), info);
    AbsorbWhole(Header, HeaderBytes(info));
  }

  // ---------------------------------------------------------------- how much is written

  /** LZ4F_compressBound. */
  function Bound(n: nat, info: Info, autoFlush: bool): nat
    requires info.Valid()
  {
    var size := info.MaxBlock();
    var blocks := n / size + 1;
    4 * blocks + size * (blocks - 1) + (if autoFlush then n % size else size) + 4 + (if info.checksum then 4 else 0)
  }

  /** The most that the blocks of `n` bytes of input can take. */
  function Worst(n: nat, size: nat, autoFlush: bool): nat
    requires size > 0
  {
    if n >= size then size + 4 + Worst(n - size, size, autoFlush)
    else if autoFlush && n > 0 then n + 4
    else 0
  }

  lemma BoundStep(n: nat, info: Info, autoFlush: bool)
    requires info.Valid() && info.MaxBlock() <= n
    ensures Bound(n, info, autoFlush) == Bound(n - info.MaxBlock(), info, autoFlush) + info.MaxBlock() + 4
  {
    if info.sizeId == 4 {
      assert n / 0x1_0000 == (n - 0x1_0000) / 0x1_0000 + 1;
    } else if info.sizeId == 5 {
      assert n / 0x4_0000 == (n - 0x4_0000) / 0x4_0000 + 1;
    } else if info.sizeId == 6 {
      assert n / 0x10_0000 == (n - 0x10_0000) / 0x10_0000 + 1;
    } else {
      assert n / 0x40_0000 == (n - 0x40_0000) / 0x40_0000 + 1;
    }
  }

  /** LZ4F_compressBound covers the blocks of the input, one more that was buffered, and the end of a frame. */
  lemma {:induction false} WorstFits(n: nat, info: Info, autoFlush: bool)
    requires info.Valid()
    ensures Worst(n, info.MaxBlock(), autoFlush) + (if autoFlush then 0 else info.MaxBlock() + 4)
            + 4 + (if info.checksum then 4 else 0) <= Bound(n, info, autoFlush)
  {
    if n >= info.MaxBlock() {
      WorstFits(n - info.MaxBlock(), info, autoFlush);
      BoundStep(n, info, autoFlush);
    }
  }

  lemma {:induction false} WorstGrows(n: nat, m: nat, size: nat)
    requires size > 0 && n <= m
    ensures Worst(n, size, false) <= Worst(m, size, false)
  {
    if n >= size { WorstGrows(n - size, m - size, size); }
  }

  // ---------------------------------------------------------------- one block

  /** Output that must be shorter than a block of a frame never passes that limit. */
  lemma NoSpill(src: seq<byte>)
    requires 0 < |src| <= 4096 * KB
    ensures SpillOf(src, |src| - 1) == None
  {
    hide SpillBlock;
    OneShotValid(src);
    LimitHolds(OneShot(src), ZeroTable(KindFor(|src|)), |src| - 1);
  }

  /** What the compressor that goes with the level makes of the block, in a buffer with `limit` bytes that
      count. Nothing behind Reach is written. */
  method Squeeze(level: nat, src: seq<byte>, dst: array<byte>) returns (size: nat)
    requires 0 < |src| <= 4096 * KB && Reach(SqueezeSpill(level, src), |src| - 1) <= dst.Length
    modifies dst
    ensures if |Squeezed(level, src)| < |src| then 0 < size < |src| && Wrote(dst, 0, size, Squeezed(level, src))
            else size == 0
    ensures OnlyWithin(dst, 0, Reach(SqueezeSpill(level, src), |src| - 1))
    ensures var spill := SqueezeSpill(level, src);
            spill.Some? ==> spill.value.at < dst.Length && dst[spill.value.at] == spill.value.value
  {
    hide Compressed, SpillOf, HcBlock, BlockBytes, SpillOfHc;
    SqueezedParses(level, src, |src|);
    if level < MIN_HC_LEVEL {
      NoSpill(src);
      size := CompressLimitedOutput(src, dst, |src| - 1);
    } else {
      size := CompressHC(src, dst, AsInt(level), true, |src| - 1);
    }
  }

  /** What is written beyond the limit that a compressed block must keep. */
  ghost function SqueezeSpill(level: nat, data: seq<byte>): (r: Option<Spill>)
    requires 0 < |data| <= LZ4_MAX_INPUT_SIZE
    ensures r.Some? ==> |data| - 1 <= r.value.at
  {
    if level < MIN_HC_LEVEL then None else SpillOfHc(data, AsInt(level), |data| - 1)
  }

  /** The furthest byte that is written behind a block and its size, if there is one. */
  ghost function BlockSpill(level: nat, data: seq<byte>): (r: Option<Spill>)
    requires 0 < |data| <= LZ4_MAX_INPUT_SIZE
    ensures r.Some? ==> 4 + |data| <= r.value.at
  {
    var spill := SqueezeSpill(level, data);
    if spill.Some? && spill.value.at >= |data| then Some(Spill(4 + spill.value.at, spill.value.value)) else None
  }

  /** The compressor at dst[body..]; it works on a copy of the rest of the buffer, which is put back. */
  method SqueezeAt(level: nat, src: seq<byte>, dst: array<byte>, body: nat) returns (size: nat)
    requires 0 < |src| <= 4096 * KB && body + Reach(SqueezeSpill(level, src), |src| - 1) <= dst.Length
    modifies dst
    ensures if |Squeezed(level, src)| < |src| then
              0 < size < |src| && body + size <= dst.Length && dst[body..body + size] == Squeezed(level, src)
            else size == 0
    ensures OnlyWithin(dst, body, body + Reach(SqueezeSpill(level, src), |src| - 1))
    ensures var spill := SqueezeSpill(level, src);
            spill.Some? ==> body + spill.value.at < dst.Length && dst[body + spill.value.at] == spill.value.value
  {
    hide Squeezed, SqueezeSpill;
    var packed := new byte[dst.Length - body](i requires 0 <= i < dst.Length - body reads dst => dst[body + i]);
    size := Squeeze(level, src, packed);
    forall i | 0 <= i < packed.Length { dst[body + i] := packed[i]; }
    if size > 0 { assert dst[body..body + size] == packed[0..size]; }
  }

  /** The block compressed, or copied when that fails, at dst[body..]; and its size, marked when it is copied. */
  method WriteBody(level: nat, src: seq<byte>, dst: array<byte>, body: nat) returns (word: nat, n: nat)
    requires 0 < |src| <= 4096 * KB && body + Reach(SqueezeSpill(level, src), |src|) <= dst.Length
    modifies dst
    ensures 0 < n <= |src| && body + n <= dst.Length
    ensures FrameBlock(level, src) == ToLE32(word) + dst[body..body + n]
    ensures OnlyWithin(dst, body, body + Reach(SqueezeSpill(level, src), |src|))
    ensures var spill := SqueezeSpill(level, src);
            spill.Some? && spill.value.at >= |src| ==>
              body + spill.value.at < dst.Length && dst[body + spill.value.at] == spill.value.value
  {
    hide Squeezed, SqueezeSpill, ToLE32;
    var size := SqueezeAt(level, src, dst, body);
    word, n := size, size;
    if size == 0 {
      CopyBytes(dst, body, src);
      word, n := |src| + UNCOMPRESSED, |src|;
      assert dst[body..body + n] == src;
    }
  }

  /** LZ4F_compressBlock, to dst[at..]: the size, and the block. */
  method WriteBlock(level: nat, src: seq<byte>, dst: array<byte>, at: nat) returns (n: nat)
    requires 0 < |src| <= 4096 * KB && at + Reach(BlockSpill(level, src), 4 + |src|) <= dst.Length
    modifies dst
    ensures OnlyWithin(dst, at, at + Reach(BlockSpill(level, src), 4 + |src|)) && n <= |src| + 4
    ensures dst[..at + n] == old(dst[..at]) + FrameBlock(level, src)
    ensures var spill := BlockSpill(level, src);
            spill.Some? ==> at + spill.value.at < dst.Length && dst[at + spill.value.at] == spill.value.value
  {
    hide FrameBlock, SqueezeSpill, ToLE32;
    ghost var before := dst[..at];
    var word;
    word, n := WriteBody(level, src, dst, at + 4);
    ghost var body := dst[at + 4..at + 4 + n];
    LESize(word);
    CopyBytes(dst, at, ToLE32(word));
    n := n + 4;
    assert dst[..at] == before && dst[at..at + 4] == ToLE32(word) && dst[at + 4..at + n] == body;
    ThreeParts(dst, at, at + 4, at + n);
  }

  lemma LESize(word: nat)
    ensures |ToLE32(word)| == 4
  {
  }

  lemma ThreeParts(dst: array<byte>, a: nat, b: nat, c: nat)
    requires a <= b <= c <= dst.Length
    ensures dst[..c] == dst[..a] + (dst[a..b] + dst[b..c])
  {
  }

  // ---------------------------------------------------------------- the blocks of a call

  ghost predicate BlocksOk(blocks: seq<seq<byte>>) {
    forall i :: 0 <= i < |blocks| ==> 0 < |blocks[i]| <= 4096 * KB
  }

  ghost function BlocksBytes(level: nat, blocks: seq<seq<byte>>): seq<byte> {
    if blocks == [] then []
    else BlocksBytes(level, blocks[..|blocks| - 1]) + FrameBlock(level, blocks[|blocks| - 1])
  }

  function Shift(spill: Option<Spill>, n: nat): Option<Spill> {
    if spill.Some? then Some(Spill(n + spill.value.at, spill.value.value)) else None
  }

  /** The furthest byte that is written behind one of the blocks, from the start of the first. */
  ghost function BlocksSpill(level: nat, blocks: seq<seq<byte>>): Option<Spill>
    requires BlocksOk(blocks)
  {
    if blocks == [] then None
    else
      var init, b := blocks[..|blocks| - 1], blocks[|blocks| - 1];
      Further(BlocksSpill(level, init), Shift(BlockSpill(level, b), |BlocksBytes(level, init)|))
  }

  lemma BlocksSnoc(level: nat, blocks: seq<seq<byte>>, b: seq<byte>)
    requires BlocksOk(blocks) && 0 < |b| <= 4096 * KB
    ensures BlocksOk(blocks + [b])
    ensures BlocksBytes(level, blocks + [b]) == BlocksBytes(level, blocks) + FrameBlock(level, b)
    ensures BlocksSpill(level, blocks + [b])
            == Further(BlocksSpill(level, blocks), Shift(BlockSpill(level, b), |BlocksBytes(level, blocks)|))
  {
    hide FrameBlock, BlockSpill, Further;
    var t := blocks + [b];
    assert t[..|t| - 1] == blocks && t[|t| - 1] == b;
  }

  lemma {:induction false} BlocksGrow(level: nat, a: seq<seq<byte>>, b: seq<seq<byte>>, maxOut: nat)
    requires BlocksOk(b) && a <= b
    ensures BlocksOk(a) && Reach(BlocksSpill(level, a), maxOut) <= Reach(BlocksSpill(level, b), maxOut)
    decreases |b|
  {
    hide FrameBlock, BlockSpill;
    if a != b { BlocksGrow(level, a, b[..|b| - 1], maxOut); }
  }

  /** These blocks have been written, as dst[..op], and so has the byte that reaches furthest beyond `maxOut`. */
  ghost predicate Laid(level: nat, dst: array<byte>, blocks: seq<seq<byte>>, op: nat, maxOut: nat)
    reads dst
  {
    && BlocksOk(blocks) && op <= dst.Length && dst[..op] == BlocksBytes(level, blocks)
    && var spill := BlocksSpill(level, blocks);
       spill.Some? && spill.value.at >= maxOut ==>
         spill.value.at < dst.Length && dst[spill.value.at] == spill.value.value
  }

  lemma NoneLaid(level: nat, dst: array<byte>, maxOut: nat)
    ensures Laid(level, dst, [], 0, maxOut)
  {
  }

  /** One more. */
  method LayBlock(level: nat, block: seq<byte>, dst: array<byte>, op0: nat, maxOut: nat, ghost blocks: seq<seq<byte>>)
    returns (op: nat)
    requires 0 < |block| <= 4096 * KB && Laid(level, dst, blocks, op0, maxOut) && op0 + 4 + |block| <= maxOut
    requires BlocksOk(blocks + [block]) && Reach(BlocksSpill(level, blocks + [block]), maxOut) <= dst.Length
    modifies dst
    ensures Laid(level, dst, blocks + [block], op, maxOut) && op0 <= op <= op0 + 4 + |block|
    ensures dst[..op] == old(dst[..op0]) + FrameBlock(level, block)
    ensures OnlyWithin(dst, 0, Reach(BlocksSpill(level, blocks + [block]), maxOut))
  {
    hide FrameBlock, BlockSpill, BlocksBytes, BlocksSpill;
    BlocksSnoc(level, blocks, block);
    SpillsBehind(level, block);
    var n := WriteBlock(level, block, dst, op0);
    op := op0 + n;
  }

  lemma SpillsBehind(level: nat, block: seq<byte>)
    requires 0 < |block| <= LZ4_MAX_INPUT_SIZE
    ensures var spill := BlockSpill(level, block); spill.Some? ==> 4 + |block| <= spill.value.at
  {
    hide SqueezeSpill;
  }

  /** The input cut into full blocks, and with autoFlush into what remains. */
  function Cuts(src: seq<byte>, size: nat, autoFlush: bool): seq<seq<byte>>
    requires size > 0
  {
    if |src| >= size then [src[..size]] + Cuts(src[size..], size, autoFlush)
    else if autoFlush && src != [] then [src]
    else []
  }

  /** The blocks of an update. */
  function UpdateBlocks(buffered: seq<byte>, src: seq<byte>, size: nat, autoFlush: bool): seq<seq<byte>>
    requires |buffered| < size
  {
    if buffered == [] then Cuts(src, size, autoFlush)
    else if |buffered| + |src| < size then []
    else [buffered + src[..size - |buffered|]] + Cuts(src[size - |buffered|..], size, autoFlush)
  }

  lemma {:induction false} CutsOk(src: seq<byte>, size: nat, autoFlush: bool)
    requires 0 < size <= 4096 * KB
    ensures BlocksOk(Cuts(src, size, autoFlush))
    decreases |src|
  {
    if |src| >= size { CutsOk(src[size..], size, autoFlush); }
  }

  lemma UpdateOk(buffered: seq<byte>, src: seq<byte>, size: nat, autoFlush: bool)
    requires |buffered| < size <= 4096 * KB
    ensures BlocksOk(UpdateBlocks(buffered, src, size, autoFlush))
  {
    hide Cuts;
    CutsOk(src, size, autoFlush);
    if buffered != [] && |buffered| + |src| >= size { CutsOk(src[size - |buffered|..], size, autoFlush); }
  }
}
