/** LZ4F_decompress: a resumable decoder for frames, with its sliding dictionary. */
module FrameDecoder {
  import opened Bytes
  import opened BlockFormat
  import opened BlockParser
  import opened WildCopy
  import opened BlockDecoder
  import opened FrameFormat
  import opened FrameWindow
  import XxHash32

  /** LZ4_decompress_safe_usingDict: the dictionary is the prefix of the output, or lies elsewhere. */
  method DecompressUsingDict(src: seq<byte>, mem: array<byte>, dest: nat, cap: nat, dictBuf: array<byte>, dictAt: nat,
                             dictSize: nat)
    returns (r: int)
    requires 0 < cap && dest + cap <= mem.Length && dictAt + dictSize <= dictBuf.Length && dictSize <= 0x7FFF_FFFF
    modifies mem
    ensures OnlyWithin(mem, dest, dest + cap) && r <= cap
    ensures var u := Unpack(src, cap, old(dictBuf[dictAt..dictAt + dictSize]));
            && (r < 0 <==> u.Malformed?)
            && (u.Content? ==> r == |u.data| && mem[dest..dest + r] == u.data)
  {
    hide Unpack, Keeps, OnlyWithin;
    ghost var dict := dictBuf[dictAt..dictAt + dictSize];
    assert mem[dest..dest] == [];
    if dictSize == 0 {
      assert dict == [] + mem[dest..dest];
      r := DecompressAfter(src, mem, dest, cap, dest, []);
    } else if dictBuf == mem && dictAt + dictSize == dest {
      r := DecompressAfterPrefix(src, mem, dest, cap, dictSize);
    } else {
      assert dict == dict + mem[dest..dest];
      r := DecompressAfter(src, mem, dest, cap, dest, dictBuf[dictAt..dictAt + dictSize]);
    }
  }

  /** The dictionary is the prefix of the output; of a long one only the window counts. */
  method DecompressAfterPrefix(src: seq<byte>, mem: array<byte>, dest: nat, cap: nat, size: nat) returns (r: int)
    requires 0 < cap && dest + cap <= mem.Length && 0 < size <= dest
    modifies mem
    ensures OnlyWithin(mem, dest, dest + cap) && r <= cap
    ensures var u := Unpack(src, cap, old(mem[dest - size..dest]));
            && (r < 0 <==> u.Malformed?)
            && (u.Content? ==> r == |u.data| && mem[dest..dest + r] == u.data)
  {
    hide Unpack, Keeps, OnlyWithin;
    ghost var dict := mem[dest - size..dest];
    var low := if size >= WINDOW - 1 then dest - Min(size, WINDOW) else dest - size;
    assert [] + mem[low..dest] == LastBytes(dict, dest - low);
    KeepsEnough(LastBytes(dict, dest - low), dict, dest - low, 0);
    UnpackWindow(src, cap, LastBytes(dict, dest - low), dict);
    r := DecompressAfter(src, mem, dest, cap, low, []);
  }

  lemma TooShort(src: seq<byte>, cap: nat, hist: seq<byte>)
    requires cap > 0 && (|src| == 0 || (|src| == 1 && src[0] / 16 == RUN_MASK))
    ensures Unpack(src, cap, hist).Malformed?
  {
    OverreadExactly(src, Limits(cap, |hist|, false, 0));
  }

  /** LZ4_decompress_generic with a prefix and an external dictionary. A block that ends inside its
      first length makes it read one byte too far, and then always fails. */
  method DecompressAfter(src: seq<byte>, mem: array<byte>, dest: nat, cap: nat, low: nat, dict: seq<byte>)
    returns (r: int)
    requires low <= dest && 0 < cap && dest + cap <= mem.Length
    modifies mem
    ensures OnlyWithin(mem, dest, dest + cap) && r <= cap
    ensures var u := Unpack(src, cap, dict + old(mem[low..dest]));
            && (r < 0 <==> u.Malformed?)
            && (u.Content? ==> r == |u.data| && mem[dest..dest + r] == u.data)
  {
    hide Parse, Decode;
    if |src| == 0 || (|src| == 1 && src[0] / 16 == RUN_MASK) {
      TooShort(src, cap, dict + mem[low..dest]);
      return -1;
    }
    var l := Limits(cap, |dict| + dest - low, false, 0);
    OverreadExactly(src, l);
    ghost var hist := dict + mem[low..dest];
    assert hist == Output(mem, dict, low, dest);
    r := DecompressGeneric(src, mem, dest, l, low, dict);
    if r >= 0 {
      assert Output(mem, dict, low, dest + r)[|hist|..] == mem[dest..dest + r];
    }
  }

  datatype Stage =
    | GetHeader | StoreHeader | DecodeHeader
    | GetCBlockSize | StoreCBlockSize | DecodeCBlockSize
    | CopyDirect
    | GetCBlock | StoreCBlock | DecodeCBlock
    | DecodeCBlockIntoDst | DecodeCBlockIntoTmp | FlushOut
    | GetSuffix | StoreSuffix | CheckSuffix

  /** LZ4F_dctx_internal_t. The dictionary is dictBuf[dictAt..dictAt + dictSize], in a buffer of the
      caller or at the start of tmpOutBuffer; `made` is all that the frame has produced so far. */
  class Decoder {
    var stage: Stage
    var info: Info
    var maxBufferSize: nat
    var srcExpect: Option<nat>
    var tmpIn: array<byte>
    var tmpInSize: nat
    var tmpInTarget: nat
    var tmpOutBuffer: array<byte>
    var dictBuf: array<byte>
    var dictAt: nat
    var dictSize: nat
    var tmpOut: nat
    var tmpOutSize: nat
    var tmpOutStart: nat
    const xxh: XxHash32.State
    const header: array<byte>
    ghost var made: seq<byte>
    ghost var k: State

    /** LZ4F_createDecompressionContext. */
    constructor ()
      ensures Valid() && stage == GetHeader && srcExpect == None
      ensures fresh(tmpIn) && fresh(tmpOutBuffer) && fresh(header) && fresh(xxh) && fresh(xxh.mem)
    {
      stage, info, maxBufferSize, srcExpect := GetHeader, Info(true, false, 0), 0, None;
      tmpIn := new byte[0];
      tmpInSize, tmpInTarget := 0, 0;
      var none := new byte[0];
      tmpOutBuffer := none;
      dictBuf, dictAt, dictSize := none, 0, 0;
      tmpOut, tmpOutSize, tmpOutStart := 0, 0, 0;
      xxh := new XxHash32.State();
      header := new byte[8];
      made, k := [], Start;
      new;
      assert Separate();
      assert Allocated();
      assert Resumable();
    }

    // -------------------------------------------------------------- the dictionary

    /** The dictionary is a stretch of a buffer, and when the buffer is tmpOutBuffer it starts it. */
    ghost predicate DictPlaced()
      reads this`dictBuf, this`dictAt, this`dictSize, this`tmpOutBuffer
    {
      dictAt + dictSize <= dictBuf.Length && (dictBuf == tmpOutBuffer ==> dictAt == 0)
    }

    ghost function Dict(): seq<byte>
      requires DictPlaced()
      reads this`dictBuf, this`dictAt, this`dictSize, this`tmpOutBuffer, dictBuf
    {
      dictBuf[dictAt..dictAt + dictSize]
    }

    /** memcpy of a stretch of the dictionary that ends `skip` bytes before its end. */
    method CopyDictEnd(at: nat, skip: nat, n: nat)
      requires DictPlaced() && at + n <= tmpOutBuffer.Length && n + skip <= dictSize
      requires dictBuf == tmpOutBuffer ==> at + n <= dictSize - skip - n
      modifies tmpOutBuffer
      ensures tmpOutBuffer[at..at + n] == old(Dict())[dictSize - skip - n..dictSize - skip]
      ensures OnlyWithin(tmpOutBuffer, at, at + n)
    {
      var i := dictSize - skip - n;
      var bytes := dictBuf[dictAt..dictAt + dictSize][i..i + n];
      CopyBytes(tmpOutBuffer, at, bytes);
      assert tmpOutBuffer[at..at + n] == bytes;
    }

    predicate BlockPlaced()
      reads this`tmpOut, this`tmpOutSize, this`tmpOutStart, this`tmpOutBuffer
    {
      tmpOutStart <= tmpOutSize && tmpOut + tmpOutSize <= tmpOutBuffer.Length
    }

    /** The block that waits in tmpOut; its first tmpOutStart bytes have been passed on. */
    ghost function Block(): (b: seq<byte>)
      requires BlockPlaced()
      reads this`tmpOut, this`tmpOutSize, this`tmpOutStart, this`tmpOutBuffer, tmpOutBuffer
      ensures |b| == tmpOutSize
    {
      tmpOutBuffer[tmpOut..tmpOut + tmpOutSize]
    }

    lemma BlockSlice(i: nat, j: nat)
      requires BlockPlaced() && i <= j <= tmpOutSize
      ensures Block()[i..j] == tmpOutBuffer[tmpOut + i..tmpOut + j]
    {
      SubSlice(tmpOutBuffer[..], tmpOut, tmpOut + tmpOutSize, i, j);
      assert Block() == tmpOutBuffer[..][tmpOut..tmpOut + tmpOutSize];
    }

    /** All that was made is `out` and what is left of the block. */
    ghost predicate Waits(out: seq<byte>)
      reads this`info, this`made, this`tmpOut, this`tmpOutSize, this`tmpOutStart, this`tmpOutBuffer, tmpOutBuffer
    {
      BlockPlaced() && BlockWaits(info.linked, made, Block(), tmpOutStart, tmpOut, out)
    }

    /** With linked blocks, a dictionary in tmpOutBuffer ends where the block is being passed on. */
    ghost predicate Waiting(out: seq<byte>)
      reads this`info, this`made, this`tmpOut, this`tmpOutSize, this`tmpOutStart, this`tmpOutBuffer, tmpOutBuffer
      reads this`dictBuf, this`dictSize
    {
      info.linked && Waits(out) && (dictBuf == tmpOutBuffer ==> dictSize == tmpOut + tmpOutStart)
    }

    /** The dictionary goes in front of a block that waits in tmpOut: as much of it as is needed there. */
    method FillInFront(ghost out: seq<byte>)
      requires DictPlaced() && dictBuf != tmpOutBuffer && tmpOutBuffer.Length >= WINDOW
      requires Waiting(out) && Keeps(Dict(), out, tmpOutSize - tmpOutStart)
      modifies this`dictBuf, this`dictAt, this`dictSize, tmpOutBuffer
      ensures DictPlaced() && dictBuf == tmpOutBuffer && dictSize == tmpOut + tmpOutStart
      ensures Waiting(out) && Keeps(Dict(), out, tmpOutSize - tmpOutStart)
      ensures Block() == old(Block())
    {
      hide Keeps, Needed, CopySize, BlockWaits, Block, LastBytes;
      BlockWaitsHas(made, Block(), tmpOutStart, tmpOut, out);
      CopyEnough(Dict(), out, tmpOutSize, tmpOut, tmpOutStart);
      ghost var dict, first := Dict(), Block()[..tmpOutStart];
      ghost var filled := CopyInFront(CopySize(tmpOutSize, tmpOut));
      dictBuf, dictAt, dictSize := tmpOutBuffer, 0, tmpOut + tmpOutStart;
      assert Dict() == filled + first;
      KeepsFilled(dict, out, filled, first, tmpOutSize);
    }

    /** The end of the dictionary, but for what has been passed on of the waiting block, in front of it. */
    method CopyInFront(n: nat) returns (ghost filled: seq<byte>)
      requires DictPlaced() && dictBuf != tmpOutBuffer && BlockPlaced()
      requires n <= tmpOut && (n > 0 ==> n + tmpOutStart <= dictSize)
      modifies tmpOutBuffer
      ensures filled == tmpOutBuffer[..tmpOut] && Block() == old(Block())
      ensures tmpOutBuffer[..tmpOut + tmpOutStart] == filled + Block()[..tmpOutStart]
      ensures n > 0 ==> LastBytes(filled, n) == old(Dict())[dictSize - tmpOutStart - n..dictSize - tmpOutStart]
    {
      if n > 0 { CopyDictEnd(tmpOut - n, tmpOutStart, n); }
      filled := tmpOutBuffer[..tmpOut];
      assert LastBytes(filled, n) == tmpOutBuffer[tmpOut - n..tmpOut];
    }

    method CopyIn(at: nat, from: array<byte>, start: nat, n: nat)
      requires from != tmpOutBuffer && at + n <= tmpOutBuffer.Length && start + n <= from.Length
      modifies tmpOutBuffer
      ensures tmpOutBuffer[at..at + n] == from[start..start + n]
      ensures OnlyWithin(tmpOutBuffer, at, at + n)
    {
      forall i | 0 <= i < n { tmpOutBuffer[at + i] := from[start + i]; }
    }

    /** The end of the dictionary, copied to the start of tmpOutBuffer unless all of it is there. */
    method MoveToFront(n: nat)
      requires DictPlaced() && n <= dictSize && n <= tmpOutBuffer.Length
      requires dictBuf == tmpOutBuffer ==> n == dictSize || n <= dictSize - n
      modifies tmpOutBuffer
      ensures tmpOutBuffer[0..n] == LastBytes(old(Dict()), n)
    {
      if dictBuf != tmpOutBuffer || n < dictSize { CopyDictEnd(0, 0, n); }
    }

    /** The end of the dictionary and new bytes from elsewhere, joined at the start of tmpOutBuffer. */
    method Join(dst: array<byte>, at: nat, size: nat, n: nat, ghost out: seq<byte>)
      requires DictPlaced() && dst != tmpOutBuffer && at + size <= dst.Length && size < WINDOW
      requires n <= dictSize && (n == dictSize || n == WINDOW - size) && n + size <= tmpOutBuffer.Length
      requires dictBuf == tmpOutBuffer ==> n == dictSize || n <= dictSize - n
      requires Keeps(Dict(), out, 0)
      modifies this`dictBuf, this`dictAt, this`dictSize, tmpOutBuffer
      ensures DictPlaced() && dictBuf == tmpOutBuffer && Keeps(Dict(), out + dst[at..at + size], 0)
    {
      hide Keeps, Needed;
      ghost var dict, a := Dict(), dst[at..at + size];
      MoveToFront(n);
      ghost var head := tmpOutBuffer[0..n];
      CopyIn(n, dst, at, size);
      dictBuf, dictAt, dictSize := tmpOutBuffer, 0, n + size;
      assert Dict() == head + a;
      KeepsJoin(dict, out, a, n);
    }

    /** How much of the waiting block is still to be passed on. */
    ghost function Left(withinTmp: bool): int
      reads this`tmpOutSize, this`tmpOutStart
    {
      if withinTmp then tmpOutSize - tmpOutStart else 0
    }

    /** The bytes dst[at..at + size] have just been passed on, after `out`; the current call has passed
        on everything from dst[from] on. */
    ghost predicate Passing(dst: array<byte>, at: nat, size: nat, from: nat, withinTmp: bool, out: seq<byte>)
      reads this, dst, tmpOutBuffer, dictBuf
    {
      && DictPlaced() && dst != tmpOutBuffer && from <= at && at + size <= dst.Length
      && maxBufferSize == tmpOutBuffer.Length >= 3 * WINDOW
      && at - from <= |out| && dst[from..at] == LastBytes(out, at - from)
      && (withinTmp ==>
            && Waiting(out) && size <= Left(true)
            && dst[at..at + size] == Block()[tmpOutStart..tmpOutStart + size])
      && Keeps(Dict(), out, Left(withinTmp))
    }

    /** The dictionary goes on in the caller's buffer, or starts there when there is none. */
    method GrowDst(dst: array<byte>, at: nat, size: nat, from: nat, withinTmp: bool, ghost out: seq<byte>)
      requires Passing(dst, at, size, from, withinTmp, out)
      requires dictSize == 0 || (dictBuf == dst && dictAt + dictSize == at)
      modifies this`dictBuf, this`dictAt, this`dictSize
      ensures DictPlaced() && dictBuf == dst && dictAt + dictSize == at + size
      ensures Keeps(Dict(), out + dst[at..at + size], if withinTmp then Left(true) - size else 0)
    {
      hide Keeps, Waiting;
      if dictSize == 0 {
        dictBuf, dictAt := dst, at;
        assert Dict() == old(Dict());
      }
      ghost var dict, a := Dict(), dst[at..at + size];
      KeepsMore(dict, out, a, Left(withinTmp), if withinTmp then Left(true) - size else 0);
      dictSize := dictSize + size;
      assert Dict() == dict + a;
    }

    /** A long enough stretch of the caller's buffer becomes the dictionary. */
    method TakeDst(dst: array<byte>, at: nat, size: nat, from: nat, withinTmp: bool, ghost out: seq<byte>)
      requires Passing(dst, at, size, from, withinTmp, out) && at - from + size >= WINDOW
      modifies this`dictBuf, this`dictAt, this`dictSize
      ensures DictPlaced() && dictBuf == dst && dictAt + dictSize == at + size
      ensures Keeps(Dict(), out + dst[at..at + size], if withinTmp then Left(true) - size else 0)
    {
      hide Keeps, Waiting;
      ghost var a := dst[at..at + size];
      dictBuf, dictAt, dictSize := dst, from, at - from + size;
      assert Dict() == dst[from..at] + a;
      LastBytesMore(out, a, at - from);
      EndKeeps(out + a, dictSize, if withinTmp then Left(true) - size else 0);
    }

    lemma WaitingHas(out: seq<byte>)
      requires Waiting(out)
      ensures BlockPlaced() && (dictBuf == tmpOutBuffer ==> dictSize == tmpOut + tmpOutStart)
    {
    }

    /** The dictionary grows over a stretch of the waiting block, right behind it. */
    method GrowTmp(size: nat, ghost out: seq<byte>, ghost a: seq<byte>)
      requires DictPlaced() && BlockPlaced() && dictBuf == tmpOutBuffer && dictSize == tmpOut + tmpOutStart
               && size <= Left(true)
      requires a == Block()[tmpOutStart..tmpOutStart + size] && Keeps(Dict(), out, Left(true))
      modifies this`dictSize
      ensures DictPlaced() && dictSize == tmpOut + tmpOutStart + size && Keeps(Dict(), out + a, Left(true) - size)
    {
      hide Keeps;
      ghost var dict := Dict();
      KeepsMore(dict, out, a, Left(true), Left(true) - size);
      BlockSlice(tmpOutStart, tmpOutStart + size);
      dictSize := dictSize + size;
      assert Dict() == dict + a;
    }

    /** The dictionary comes to the waiting block if it is not there, and grows over a stretch of it. */
    method TakeTmp(size: nat, ghost out: seq<byte>, ghost a: seq<byte>)
      requires DictPlaced() && tmpOutBuffer.Length >= WINDOW && Waiting(out) && size <= Left(true)
      requires a == Block()[tmpOutStart..tmpOutStart + size] && Keeps(Dict(), out, Left(true))
      modifies this`dictBuf, this`dictAt, this`dictSize, tmpOutBuffer
      ensures DictPlaced() && dictBuf == tmpOutBuffer && dictSize == tmpOut + tmpOutStart + size
      ensures Keeps(Dict(), out + a, Left(true) - size) && BlockPlaced() && Block() == old(Block())
    {
      hide Keeps, Needed, Waits, Waiting, Block;
      WaitingHas(out);
      if dictBuf != tmpOutBuffer { FillInFront(out); }
      WaitingHas(out);
      GrowTmp(size, out, a);
    }

    /** LZ4F_updateDict. Whatever happens to the dictionary, it goes on ending like the output. */
    method UpdateDict(dst: array<byte>, at: nat, size: nat, from: nat, withinTmp: bool, ghost out: seq<byte>)
      requires Passing(dst, at, size, from, withinTmp, out)
      modifies this`dictBuf, this`dictAt, this`dictSize, tmpOutBuffer
      ensures DictPlaced() && (dictBuf == tmpOutBuffer || (dictBuf == dst && dictAt + dictSize == at + size))
      ensures Keeps(Dict(), out + dst[at..at + size], if withinTmp then Left(true) - size else 0)
      ensures withinTmp ==> BlockPlaced() && Block() == old(Block())
      ensures withinTmp && dictBuf == tmpOutBuffer ==> dictSize == tmpOut + tmpOutStart + size
    {
      hide Keeps, Needed, BlockWaits;
      if dictSize == 0 || (dictBuf == dst && dictAt + dictSize == at) {
        GrowDst(dst, at, size, from, withinTmp, out);
        return;
      }
      if at - from + size >= WINDOW {
        TakeDst(dst, at, size, from, withinTmp, out);
        return;
      }
      if withinTmp {
        TakeTmp(size, out, dst[at..at + size]);
        return;
      }
      var n := WINDOW - size;
      if dictBuf == tmpOutBuffer {
        Join(dst, at, size, if dictSize + size > maxBufferSize then n else dictSize, out);
      } else {
        Join(dst, at, size, if n > dictSize then dictSize else n, out);
      }
    }

    // -------------------------------------------------------------- what holds between stages

    /** No two of the buffers are the same, and the dictionary is in none of those for input. */
    ghost predicate Separate()
      reads this`tmpIn, this`tmpOutBuffer, this`dictBuf
    {
      && tmpIn != header && tmpIn != tmpOutBuffer && header != tmpOutBuffer && tmpIn != dictBuf && header != dictBuf
      && xxh.mem != tmpIn && xxh.mem != header && xxh.mem != tmpOutBuffer && xxh.mem != dictBuf
      && header.Length == 8 && xxh.mem.Length == XxHash32.STRIPE
    }

    /** The buffers are as large as the largest frame so far has asked for. */
    ghost predicate Allocated()
      reads this`tmpIn, this`tmpOutBuffer, this`maxBufferSize, this`dictBuf, this`dictAt, this`dictSize
    {
      && tmpOutBuffer.Length == maxBufferSize <= 0x7FFF_FFFF && DictPlaced()
      && (dictBuf != tmpOutBuffer ==> maxBufferSize >= 3 * WINDOW)
      && forall i: Info :: i.Valid() && i.MaxBlock() <= maxBufferSize ==> i.MaxBlock() <= tmpIn.Length
    }

    /** What has been decoded and passed on, when a block is waiting or not. */
    ghost function Passed(waiting: bool): seq<byte>
      requires waiting ==> tmpOutStart <= tmpOutSize && tmpOutSize - tmpOutStart <= |made|
      reads this`made, this`tmpOutSize, this`tmpOutStart
    {
      made[..|made| - Left(waiting)]
    }

    /** Inside a frame: room for a block (and for a window of linked blocks), the bytes that wait in
        tmpOut, the running checksum, and the dictionary. */
    ghost predicate Steady(waiting: bool)
      reads this`info, this`made, this`tmpOut, this`tmpOutSize, this`tmpOutStart, this`tmpOutBuffer, this`maxBufferSize
      reads this`dictBuf, this`dictAt, this`dictSize, tmpOutBuffer, dictBuf, xxh, xxh.mem
    {
      && info.Valid()
      && info.MaxBlock() + (if info.linked then 2 * WINDOW else 0) <= maxBufferSize == tmpOutBuffer.Length
      && DictPlaced() && (!info.linked ==> tmpOut == 0 && dictBuf == tmpOutBuffer)
      && (waiting ==> tmpOutStart <= tmpOutSize && tmpOutSize - tmpOutStart <= |made| && Waits(Passed(true)))
      && (info.checksum ==> xxh.Saw(made) && xxh.seed == 0)
      && (info.linked ==>
            && dictSize <= 0x7FFF_FFFF && Keeps(Dict(), Passed(waiting), Left(waiting))
            && (waiting ==> Waiting(Passed(true))))
    }

    /** The stages that a call may end in. */
    predicate Resumable()
      reads this`stage
    {
      !(stage.DecodeHeader? || stage.DecodeCBlockSize? || stage.DecodeCBlock? || stage.DecodeCBlockIntoDst?
        || stage.DecodeCBlockIntoTmp? || stage.CheckSuffix?)
    }

    /** The stages that a call ends in, but for the end of the frame. */
    predicate Pausing()
      reads this`stage
    {
      !stage.GetHeader? && !stage.GetSuffix?
    }

    predicate InFrame()
      reads this`stage
    {
      !(stage.GetHeader? || stage.StoreHeader? || stage.DecodeHeader?)
    }

    /** The stages after which a block can still follow. */
    predicate Blocks()
      reads this`stage
    {
      InFrame() && !stage.GetSuffix? && !stage.StoreSuffix? && !stage.CheckSuffix?
    }

    /** The buffer of the dictionary, while it can still be read. */
    function DictRead(): set<array<byte>>
      reads this`stage, this`dictBuf
    {
      if Blocks() then {dictBuf} else {}
    }

    /** What a frame relies on to its end: the sizes of the buffers and the running checksum. */
    ghost predicate Ended()
      reads this`info, this`made, this`tmpOutBuffer, this`maxBufferSize, xxh, xxh.mem
    {
      && info.Valid()
      && info.MaxBlock() + (if info.linked then 2 * WINDOW else 0) <= maxBufferSize == tmpOutBuffer.Length
      && (info.checksum ==> xxh.Saw(made) && xxh.seed == 0)
    }

    lemma SteadyEnded(waiting: bool)
      requires Steady(waiting)
      ensures Ended()
    {
      hide Keeps, Waiting, Waits, XxHash32.State.Saw;
    }

    lemma NotLinked(waiting: bool)
      requires Steady(waiting)
      ensures !info.linked ==> dictBuf == tmpOutBuffer
    {
      hide Keeps, Waiting, Waits, XxHash32.State.Saw;
    }

    /** The field that a stage is about. */
    ghost function About(): Field
      reads this
    {
      match stage
      case GetHeader => Header
      case StoreHeader => Header
      case DecodeHeader => Header
      case GetCBlock => Packed(info, tmpInTarget, made)
      case StoreCBlock => Packed(info, tmpInTarget, made)
      case DecodeCBlock => Packed(info, tmpInTarget, made)
      case DecodeCBlockIntoDst => Packed(info, tmpInTarget, made)
      case DecodeCBlockIntoTmp => Packed(info, tmpInTarget, made)
      case GetSuffix => Suffix(info, made)
      case StoreSuffix => Suffix(info, made)
      case CheckSuffix => Suffix(info, made)
      case _ => Size(info, made)
    }

    /** The sizes that a stage relies on; `selected` is the input that the call has set aside. */
    ghost predicate Sized(selected: seq<byte>)
      reads this, tmpIn, tmpOutBuffer
    {
      && (stage.StoreHeader? || stage.StoreCBlockSize? || stage.StoreCBlock? || stage.StoreSuffix? ==>
          tmpInSize < About().Need())
      && (!Resumable() ==> |selected| == About().Need())
      && (InFrame() ==> info.Valid())
      && (!InFrame() ==> made == [])
      && (stage.CopyDirect? || About().Packed? ==> 0 < tmpInTarget <= info.MaxBlock())
      && (stage.StoreSuffix? || stage.CheckSuffix? ==> info.checksum)
    }

    /** The state of the byte-by-byte reader that the stage stands for. */
    ghost function Expected(selected: seq<byte>): State
      requires Sized(selected) && Allocated() && Separate() && (InFrame() ==> Ended())
      reads this, tmpIn, header, tmpOutBuffer, xxh, xxh.mem
    {
      if stage.CopyDirect? then Raw(info, tmpInTarget, made)
      else if stage.GetSuffix? && !info.checksum then Done(info, made)
      else if stage.StoreHeader? then Collect(Header, header[..tmpInSize])
      else if stage.StoreCBlockSize? || stage.StoreCBlock? || stage.StoreSuffix? then
        assert info.MaxBlock() <= tmpIn.Length;
        Collect(About(), tmpIn[..tmpInSize])
      else if Resumable() then Collect(About(), [])
      else Finish(About(), selected)
    }

    ghost predicate Good(selected: seq<byte>)
      reads this, tmpIn, header, tmpOutBuffer, DictRead(), xxh, xxh.mem
    {
      && Separate() && Allocated() && Sized(selected) && (InFrame() ==> Ended())
      && (Blocks() ==> Steady(stage.FlushOut?))
      && (k.Garbled? || k == Expected(selected))
    }

    /** Between calls. */
    ghost predicate Valid()
      reads this, tmpIn, header, tmpOutBuffer, DictRead(), xxh, xxh.mem
    {
      && Separate() && Allocated() && Resumable()
      && (stage.FlushOut? ==> tmpOutStart <= tmpOutSize && tmpOutSize - tmpOutStart <= |made|)
      && (stage.GetHeader? || Good([]))
    }

    // -------------------------------------------------------------- stages that read a field

    /** The field is there, or what there is of it will be stored. */
    method GetField(src: seq<byte>, p: nat, need: nat, decode: Stage, store: Stage, ghost f: Field)
      returns (next: nat, selected: seq<byte>)
      requires p <= |src| && 0 < need == f.Need() && (k.Garbled? || k == Collect(f, []))
      modifies this`stage, this`tmpInSize, this`k
      ensures p <= next <= |src| && k == Absorb(old(k), src[p..next])
      ensures if |src| - p >= need then
                && stage == decode && next == p + need && |selected| == need
                && (k.Garbled? || k == Finish(f, selected)) && tmpInSize == old(tmpInSize)
              else stage == store && next == p && tmpInSize == 0 && k == old(k) && selected == []
    {
      hide Finish;
      if |src| - p >= need {
        selected, next, stage := src[p..p + need], p + need, decode;
        assert [] + selected == selected;
        AbsorbMore(k, f, [], selected);
        k := Absorb(k, selected);
      } else {
        selected, next, stage, tmpInSize := [], p, store, 0;
        assert src[p..p] == [];
      }
    }

    /** What there is of the field, up to its end, is added to what is stored. */
    method StoreField(src: seq<byte>, p: nat, buf: array<byte>, need: nat, decode: Stage, ghost f: Field)
      returns (next: nat, selected: seq<byte>, full: bool)
      requires p <= |src| && tmpInSize < need == f.Need() && need <= buf.Length
      requires k.Garbled? || k == Collect(f, buf[..tmpInSize])
      modifies this`stage, this`tmpInSize, this`k, buf
      ensures p <= next <= |src| && k == Absorb(old(k), src[p..next])
      ensures if full then stage == decode && p < next && |selected| == need && (k.Garbled? || k == Finish(f, selected))
              else
                && stage == old(stage) && next == |src| && tmpInSize < need && selected == []
                && (k.Garbled? || k == Collect(f, buf[..tmpInSize]))
    {
      hide Finish;
      var n := Min(need - tmpInSize, |src| - p);
      ghost var got := buf[..tmpInSize];
      forall i | 0 <= i < n { buf[tmpInSize + i] := src[p + i]; }
      AbsorbMore(k, f, got, src[p..p + n]);
      k := Absorb(k, src[p..p + n]);
      tmpInSize, next := tmpInSize + n, p + n;
      assert buf[..tmpInSize] == got + src[p..p + n];
      selected, full := [], tmpInSize == need;
      if full { selected, stage := buf[..need], decode; }
    }

    // -------------------------------------------------------------- the header

    /** Room for the blocks of a frame. */
    method Allocate()
      requires Separate() && Allocated() && info.Valid()
      modifies this`maxBufferSize, this`tmpIn, this`tmpOutBuffer, this`dictBuf, this`dictAt, this`dictSize
      ensures Separate() && Allocated() && DictPlaced() && dictBuf == tmpOutBuffer && dictSize == 0
      ensures maxBufferSize == tmpOutBuffer.Length
      ensures info.MaxBlock() + (if info.linked then 2 * WINDOW else 0) <= maxBufferSize
      ensures (fresh(tmpIn) || tmpIn == old(tmpIn)) && (fresh(tmpOutBuffer) || tmpOutBuffer == old(tmpOutBuffer))
    {
      var needed := info.MaxBlock() + (if info.linked then 2 * WINDOW else 0);
      if needed > maxBufferSize {
        maxBufferSize := needed;
        tmpIn := new byte[info.MaxBlock()];
        tmpOutBuffer := new byte[needed];
      }
      dictBuf, dictAt, dictSize := tmpOutBuffer, 0, 0;
    }

    /** LZ4F_decodeHeader. */
    method TakeHeader(h: seq<byte>) returns (ok: bool)
      requires Separate() && Allocated() && |h| == HEADER_SIZE && made == [] && (k.Garbled? || k == Finish(Header, h))
      modifies this`stage, this`info, this`maxBufferSize, this`tmpIn, this`tmpInSize, this`tmpInTarget,
               this`tmpOutBuffer
      modifies this`dictBuf, this`dictAt, this`dictSize, this`tmpOut, this`tmpOutSize, this`tmpOutStart, xxh
      ensures ok ==> Good([]) && stage.GetCBlockSize? && dictBuf == tmpOutBuffer
      ensures (fresh(tmpIn) || tmpIn == old(tmpIn)) && (fresh(tmpOutBuffer) || tmpOutBuffer == old(tmpOutBuffer))
      ensures !ok ==> k.Bad? || k.Garbled?
    {
      hide ReadHeader, Allocated, Keeps, Waiting, XxHash32.State.Saw, Needed;
      var r := ReadHeader(h);
      if r.None? { return false; }
      info := r.value;
      ResetState();
      SteadyEnded(false);
      stage := GetCBlockSize;
      ok := true;
    }

    /** The second half of LZ4F_decodeHeader. */
    method ResetState()
      requires Separate() && Allocated() && info.Valid() && made == []
      modifies this`maxBufferSize, this`tmpIn, this`tmpInSize, this`tmpInTarget, this`tmpOutBuffer
      modifies this`dictBuf, this`dictAt, this`dictSize, this`tmpOut, this`tmpOutSize, this`tmpOutStart, xxh
      ensures Separate() && Allocated() && Steady(false) && dictBuf == tmpOutBuffer
      ensures (fresh(tmpIn) || tmpIn == old(tmpIn)) && (fresh(tmpOutBuffer) || tmpOutBuffer == old(tmpOutBuffer))
    {
      hide Steady, Keeps, XxHash32.State.Saw, Allocated, DictPlaced, Dict;
      if info.checksum { xxh.Reset(0); }
      Allocate();
      tmpInSize, tmpInTarget := 0, 0;
      tmpOut, tmpOutStart, tmpOutSize := 0, 0, 0;
      EmptyKeeps();
      IdleSteady();
    }

    lemma EmptyKeeps()
      requires DictPlaced() && dictSize == 0
      ensures Keeps(Dict(), [], 0)
    {
      hide Keeps;
      assert Dict() == [];
      KeepsNothing();
    }

    /** Steady when no block waits, put together. */
    lemma IdleSteady()
      requires info.Valid()
               && info.MaxBlock() + (if info.linked then 2 * WINDOW else 0) <= maxBufferSize == tmpOutBuffer.Length
      requires DictPlaced() && (!info.linked ==> tmpOut == 0 && dictBuf == tmpOutBuffer)
               && (info.checksum ==> xxh.Saw(made) && xxh.seed == 0)
      requires info.linked ==> dictSize <= 0x7FFF_FFFF && Keeps(Dict(), made, 0)
      ensures Steady(false)
    {
      hide Keeps, XxHash32.State.Saw;
      assert Passed(false) == made;
    }

    // -------------------------------------------------------------- producing output

    /** New output at dst[q..q + n]: the checksum and the dictionary follow. */
    method Deliver(dst: array<byte>, d0: nat, q: nat, n: nat)
      requires Separate() && Allocated() && Steady(false) && dst !in {tmpIn, header, tmpOutBuffer, xxh.mem}
      requires d0 <= q && q + n <= dst.Length <= 0x7FFF_FFFF
      requires q - d0 <= |made| && dst[d0..q] == LastBytes(made, q - d0)
      modifies this`made, this`dictBuf, this`dictAt, this`dictSize, tmpOutBuffer, xxh, xxh.mem
      ensures Separate() && Allocated() && Steady(false) && made == old(made) + dst[q..q + n]
      ensures if info.linked then dictBuf == tmpOutBuffer || (dictBuf == dst && dictAt + dictSize == q + n)
              else dictBuf == old(dictBuf) && dictAt == old(dictAt) && dictSize == old(dictSize)
    {
      hide Keeps, Waiting, XxHash32.State.Saw;
      ghost var a := dst[q..q + n];
      assert Passed(false) == made;
      if info.checksum { xxh.Update(dst[q..q + n], made); }
      if info.linked { UpdateDict(dst, q, n, d0, false, made); }
      made := made + a;
      assert Passed(false) == made;
    }

    /** The caller's buffer: nobody else's, the call writes from `q` to `hi` in it and has written what
        it passed on since `d0`, and the dictionary is out of the way. */
    ghost predicate Out(dst: array<byte>, d0: nat, q: nat, hi: nat, waiting: bool)
      reads this`tmpIn, this`tmpOutBuffer, this`dictBuf, this`dictAt, this`dictSize
      reads this`made, this`tmpOutSize, this`tmpOutStart, dst
    {
      && dst !in {tmpIn, header, tmpOutBuffer, xxh.mem} && d0 <= q <= hi <= dst.Length <= 0x7FFF_FFFF
      && (dictBuf == dst ==> dictAt + dictSize <= q || hi <= dictAt)
      && (waiting ==> tmpOutStart <= tmpOutSize && tmpOutSize - tmpOutStart <= |made|)
      && q - d0 <= |Passed(waiting)| && dst[d0..q] == LastBytes(Passed(waiting), q - d0)
    }

    /** Writing where the dictionary is not leaves it alone. */
    method WriteAside(bytes: seq<byte>, dst: array<byte>, d0: nat, q: nat, hi: nat)
      requires DictPlaced() && d0 <= q && q + |bytes| <= hi <= dst.Length
      requires dictBuf == dst ==> dictAt + dictSize <= q || hi <= dictAt
      modifies dst
      ensures DictPlaced() && Dict() == old(Dict()) && dst[d0..q] == old(dst[d0..q])
      ensures OnlyWithin(dst, q, q + |bytes|) && dst[q..q + |bytes|] == bytes
    {
      CopyBytes(dst, q, bytes);
    }

    /** Bytes of an uncompressed block are copied straight through. */
    method CopyThrough(src: seq<byte>, p: nat, n: nat, dst: array<byte>, d0: nat, q: nat, hi: nat)
      requires Separate() && Allocated() && Steady(false) && Out(dst, d0, q, hi, false)
      requires p + n <= |src| && q + n <= hi
      modifies this`made, this`dictBuf, this`dictAt, this`dictSize, tmpOutBuffer, xxh, xxh.mem, dst
      ensures Separate() && Allocated() && Steady(false) && Out(dst, d0, q + n, hi, false)
      ensures made == old(made) + src[p..p + n] && dst[q..q + n] == src[p..p + n]
      ensures OnlyWithin(dst, q, hi)
    {
      hide Keeps, Waiting, Waits, XxHash32.State.Saw;
      ghost var a := src[p..p + n];
      WriteAside(src[p..p + n], dst, d0, q, hi);
      Deliver(dst, d0, q, n);
      assert dst[d0..q + n] == dst[d0..q] + a;
    }

    lemma OutHas(dst: array<byte>, d0: nat, q: nat, hi: nat, waiting: bool)
      requires Out(dst, d0, q, hi, waiting)
      ensures d0 <= q <= hi <= dst.Length && dst !in {tmpIn, header, tmpOutBuffer, xxh.mem}
    {
    }

    /** Good, taken apart for the stages that produce output. */
    lemma FromGood(selected: seq<byte>)
      requires Good(selected) && Blocks()
      ensures Separate() && Allocated() && Steady(stage.FlushOut?) && info.Valid()
      ensures stage.CopyDirect? ==>
                0 < tmpInTarget <= info.MaxBlock() && (k.Garbled? || k == Raw(info, tmpInTarget, made))
      ensures stage.FlushOut? ==> k.Garbled? || k == Collect(Size(info, made), [])
      ensures stage.DecodeCBlockIntoDst? || stage.DecodeCBlockIntoTmp? ==>
                k.Garbled? || k == AfterPacked(info, selected, made)
    {
      hide Steady, Separate, Allocated, AfterPacked;
    }

    /** And put together again after them. */
    lemma ToGood()
      requires Separate() && Allocated() && info.Valid()
               && (stage.CopyDirect? || stage.GetCBlockSize? || stage.FlushOut?)
      requires Steady(stage.FlushOut?)
      requires if stage.CopyDirect?
               then 0 < tmpInTarget <= info.MaxBlock() && (k.Garbled? || k == Raw(info, tmpInTarget, made))
               else k.Garbled? || k == Collect(Size(info, made), [])
      ensures Good([])
    {
      hide Steady, Separate, Allocated, Ended;
      SteadyEnded(stage.FlushOut?);
    }

    /** dstage_copyDirect. */
    method CopyDirectStage(src: seq<byte>, p: nat, dst: array<byte>, d0: nat, q: nat, hi: nat)
      returns (next: nat, to: nat, again: bool)
      requires Good([]) && stage.CopyDirect? && Out(dst, d0, q, hi, false) && p <= |src|
      modifies this`stage, this`tmpInTarget, this`k
      modifies this`made, this`dictBuf, this`dictAt, this`dictSize, tmpOutBuffer, xxh, xxh.mem, dst
      ensures Good([]) && p <= next <= |src| && q <= to <= hi && Out(dst, d0, to, hi, false)
      ensures k == Absorb(old(k), src[p..next]) && made == old(made) + dst[q..to] && OnlyWithin(dst, q, hi)
      ensures if again then stage.GetCBlockSize? && p < next else stage.CopyDirect? && (next == |src| || to == hi)
    {
      hide Good, Keeps, Waiting, XxHash32.State.Saw, Steady, Separate, Allocated, Out, OnlyWithin, Absorb;
      OutHas(dst, d0, q, hi, false);
      FromGood([]);
      var n := Min(Min(tmpInTarget, |src| - p), hi - q);
      RawMore(k, info, tmpInTarget, made, src[p..p + n]);
      CopyThrough(src, p, n, dst, d0, q, hi);
      k := Absorb(k, src[p..p + n]);
      next, to := p + n, q + n;
      again := n == tmpInTarget;
      if again { stage := GetCBlockSize; } else { tmpInTarget := tmpInTarget - n; }
      ToGood();
    }

    /** The decoder for a compressed block: with the dictionary when blocks are linked. What it
        produces is what the block stands for after all of the output so far. */
    method RunDecoder(block: seq<byte>, mem: array<byte>, dest: nat) returns (r: int)
      requires info.Valid() && DictPlaced() && dest + info.MaxBlock() <= mem.Length
      requires info.linked ==> dictSize <= 0x7FFF_FFFF && Keeps(Dict(), made, 0)
      modifies mem
      ensures OnlyWithin(mem, dest, dest + info.MaxBlock()) && r <= info.MaxBlock()
      ensures Decoded(block, info, made, mem, dest, r)
    {
      hide Unpack, Keeps, OnlyWithin;
      if info.linked {
        UnpackWindow(block, info.MaxBlock(), Dict(), made);
        r := DecompressUsingDict(block, mem, dest, info.MaxBlock(), dictBuf, dictAt, dictSize);
      } else {
        assert [] + mem[dest..dest] == [];
        r := DecompressAfter(block, mem, dest, info.MaxBlock(), dest, []);
      }
    }

    /** A block is decoded straight into the caller's buffer. */
    method DecodeThrough(block: seq<byte>, dst: array<byte>, d0: nat, q: nat, hi: nat) returns (ok: bool, to: nat)
      requires Separate() && Allocated() && Steady(false) && Out(dst, d0, q, hi, false) && info.MaxBlock() <= hi - q
      modifies this`made, this`dictBuf, this`dictAt, this`dictSize, tmpOutBuffer, xxh, xxh.mem, dst
      ensures OnlyWithin(dst, q, hi) && q <= to <= hi
      ensures var after := AfterPacked(info, block, old(made));
              if ok then
                && Separate() && Allocated() && Steady(false) && Out(dst, d0, to, hi, false)
                && made == old(made) + dst[q..to]
                && (after == Collect(Size(info, made), []) || after == Garbled)
              else after == Bad || after == Garbled
    {
      hide Steady, Allocated, AfterPacked;
      IdleHas();
      var r := DecodeAt(block, dst, d0, q, hi);
      AfterPackedShape(info, block, old(made));
      if r < 0 { return false, q; }
      Deliver(dst, d0, q, r);
      IdleHas();
      ok, to := true, q + r;
      assert dst[d0..to] == dst[d0..q] + dst[q..to];
    }

    lemma IdleHas()
      requires Steady(false)
      ensures info.Valid() && DictPlaced() && Passed(false) == made
    {
      assert made[..|made|] == made;
    }

    method DecodeAt(block: seq<byte>, dst: array<byte>, d0: nat, q: nat, hi: nat) returns (r: int)
      requires Separate() && Allocated() && Steady(false) && Out(dst, d0, q, hi, false) && info.MaxBlock() <= hi - q
      modifies dst
      ensures Steady(false) && OnlyWithin(dst, q, hi) && dst[d0..q] == old(dst[d0..q]) && r <= info.MaxBlock()
      ensures Decoded(block, info, made, dst, q, r)
    {
      hide Keeps, XxHash32.State.Saw, Decoded, Waits;
      assert Passed(false) == made;
      r := RunDecoder(block, dst, q);
      assert Dict() == old(Dict());
      assert dst[d0..q] == old(dst[d0..q]);
    }

    /** tmpOut lies behind the dictionary, or behind space for one, and has room for a block. */
    ghost predicate Placed()
      reads this`info, this`made, this`tmpOut, this`tmpOutBuffer, this`dictBuf, this`dictSize
    {
      && info.Valid() && tmpOut + info.MaxBlock() <= tmpOutBuffer.Length
      && (info.linked ==> Min(WINDOW, |made|) <= tmpOut <= |made| && (dictBuf == tmpOutBuffer ==> dictSize == tmpOut))
    }

    /** Room in tmpOutBuffer for a block; an overlong dictionary is cut. */
    method PlaceTmpOut()
      requires Separate() && Allocated() && Steady(false)
      modifies this`dictSize, this`tmpOut, tmpOutBuffer
      ensures Separate() && Allocated() && Steady(false) && Placed() && dictSize <= old(dictSize)
    {
      hide Keeps, Waiting, XxHash32.State.Saw;
      assert Passed(false) == made;
      if info.linked {
        KeepsSize(Dict(), made, 0);
        if dictBuf == tmpOutBuffer {
          if dictSize > 2 * WINDOW { CutDict(); }
          tmpOut := dictSize;
        } else {
          tmpOut := Min(dictSize, WINDOW);
        }
      }
    }

    method CutDict()
      requires DictPlaced() && dictBuf == tmpOutBuffer && dictSize > 2 * WINDOW && Keeps(Dict(), made, 0)
      modifies this`dictSize, tmpOutBuffer
      ensures DictPlaced() && dictSize == WINDOW && Keeps(Dict(), made, 0)
    {
      hide Keeps;
      KeepsSize(Dict(), made, 0);
      KeepsLast(Dict(), made, WINDOW, 0, 0);
      MoveToFront(WINDOW);
      dictSize := WINDOW;
    }

    /** Decoding behind the dictionary leaves it alone. */
    method DecodeBehind(block: seq<byte>) returns (r: int)
      requires Separate() && Allocated() && Steady(false) && Placed()
      modifies tmpOutBuffer
      ensures Separate() && Allocated() && Steady(false) && r <= info.MaxBlock()
      ensures Decoded(block, info, made, tmpOutBuffer, tmpOut, r)
    {
      hide Keeps, Waiting, XxHash32.State.Saw, Decoded;
      assert Passed(false) == made;
      r := RunDecoder(block, tmpOutBuffer, tmpOut);
      if info.linked { assert Dict() == old(Dict()); }
    }

    /** The checksum follows the output. */
    method FollowHash(bytes: seq<byte>)
      requires Separate() && (info.checksum ==> xxh.Saw(made) && xxh.seed == 0)
      modifies xxh, xxh.mem
      ensures info.checksum ==> xxh.Saw(made + bytes) && xxh.seed == 0
      ensures unchanged(tmpOutBuffer) && unchanged(dictBuf)
    {
      hide XxHash32.State.Saw;
      if info.checksum { xxh.Update(bytes, made); }
    }

    /** A decoded block waits from now on; the checksum has followed already. */
    method Hold(n: nat)
      requires info.Valid()
               && info.MaxBlock() + (if info.linked then 2 * WINDOW else 0) <= maxBufferSize == tmpOutBuffer.Length
      requires DictPlaced() && (!info.linked ==> tmpOut == 0 && dictBuf == tmpOutBuffer) && Placed()
               && n <= info.MaxBlock()
      requires info.linked ==> dictSize <= 0x7FFF_FFFF && Keeps(Dict(), made, n)
      requires info.checksum ==> xxh.Saw(made + tmpOutBuffer[tmpOut..tmpOut + n]) && xxh.seed == 0
      modifies this`tmpOutSize, this`tmpOutStart, this`made
      ensures Steady(true) && tmpOutStart == 0 && tmpOutSize == n
      ensures made == old(made) + tmpOutBuffer[tmpOut..tmpOut + n] && tmpOutSize <= |made| && Passed(true) == old(made)
    {
      hide Keeps, Needed, XxHash32.State.Saw, BlockWaits, Steady;
      ghost var was := made;
      tmpOutSize, tmpOutStart := n, 0;
      made := was + Block();
      NewBlockWaits(info.linked, was, Block(), tmpOut);
      WaitsSteady(was);
    }

    /** The checksum follows, and the block waits. */
    method HashAndHold(n: nat)
      requires Separate() && Allocated() && Steady(false) && Placed() && n <= info.MaxBlock()
      modifies this`tmpOutSize, this`tmpOutStart, this`made, xxh, xxh.mem
      ensures Separate() && Allocated() && Steady(true) && tmpOutStart == 0 && tmpOutSize == n
      ensures made == old(made) + tmpOutBuffer[tmpOut..tmpOut + n] && tmpOutSize <= |made| && Passed(true) == old(made)
    {
      hide Keeps, Needed, XxHash32.State.Saw, Waiting, Waits, BlockWaits;
      assert Passed(false) == made;
      if info.linked { KeepsLess(Dict(), made, 0, n); }
      FollowHash(tmpOutBuffer[tmpOut..tmpOut + n]);
      Hold(n);
    }

    /** A block is decoded into tmpOut, where it waits. */
    method DecodeAside(block: seq<byte>) returns (ok: bool)
      requires Separate() && Allocated() && Steady(false)
      modifies this`dictSize, this`tmpOut, this`tmpOutSize, this`tmpOutStart, this`made, tmpOutBuffer, xxh, xxh.mem
      ensures var after := AfterPacked(info, block, old(made));
              if ok then
                && Separate() && Allocated() && Steady(true) && dictSize <= old(dictSize)
                && tmpOutStart == 0 && tmpOutSize <= |made| && Passed(true) == old(made)
                && (after == Collect(Size(info, made), []) || after == Garbled)
              else after == Bad || after == Garbled
    {
      hide Keeps, XxHash32.State.Saw, AfterPacked, Steady, Passed, Waiting;
      PlaceTmpOut();
      var r := DecodeBehind(block);
      AfterPackedShape(info, block, old(made));
      if r < 0 { return false; }
      HashAndHold(r);
      ok := true;
    }

    method WriteOut(n: nat, dst: array<byte>, d0: nat, q: nat, hi: nat)
      requires Separate() && Allocated() && Steady(true) && Out(dst, d0, q, hi, true)
      requires n <= tmpOutSize - tmpOutStart && q + n <= hi
      modifies dst
      ensures OnlyWithin(dst, q, q + n)
      ensures dst[q..q + n] == Block()[tmpOutStart..tmpOutStart + n]
      ensures info.linked ==> Passing(dst, q, n, d0, true, Passed(true))
    {
      hide Steady, Keeps, XxHash32.State.Saw, Waits, Waiting, Needed, OnlyWithin, Block, Out, Passing, Passed, Dict;
      SteadyHas();
      OutIs(dst, d0, q, hi);
      ghost var out := Passed(true);
      WaitsHas(out);
      var from := tmpOut + tmpOutStart;
      BlockSlice(tmpOutStart, tmpOutStart + n);
      WriteAside(tmpOutBuffer[from..from + n], dst, d0, q, hi);
      if info.linked { PassingNow(dst, q, n, d0, out); }
    }

    lemma PassingNow(dst: array<byte>, q: nat, n: nat, d0: nat, out: seq<byte>)
      requires DictPlaced() && dst != tmpOutBuffer && d0 <= q && q + n <= dst.Length
      requires maxBufferSize == tmpOutBuffer.Length >= 3 * WINDOW
      requires q - d0 <= |out| && dst[d0..q] == LastBytes(out, q - d0)
      requires Waiting(out) && BlockPlaced() && n <= Left(true)
               && dst[q..q + n] == Block()[tmpOutStart..tmpOutStart + n]
      requires Keeps(Dict(), out, Left(true))
      ensures Passing(dst, q, n, d0, true, out)
    {
      hide Keeps, BlockWaits;
    }

    /** Part of the waiting block, or the rest of it, is copied out, and the dictionary follows. */
    method CopyOut(n: nat, dst: array<byte>, d0: nat, q: nat, hi: nat)
      requires Separate() && Allocated() && Steady(true) && Out(dst, d0, q, hi, true)
      requires n <= tmpOutSize - tmpOutStart && q + n <= hi
      modifies this`dictBuf, this`dictAt, this`dictSize, tmpOutBuffer, dst
      ensures Separate() && Allocated() && DictPlaced() && OnlyWithin(dst, q, q + n)
      ensures BlockPlaced() && Block() == old(Block()) && dst[q..q + n] == Block()[tmpOutStart..tmpOutStart + n]
      ensures if info.linked then
                && dictSize <= 0x7FFF_FFFF && Keeps(Dict(), Passed(true) + dst[q..q + n], Left(true) - n)
                && (dictBuf == tmpOutBuffer ==> dictSize == tmpOut + tmpOutStart + n)
                && (dictBuf == tmpOutBuffer || (dictBuf == dst && dictAt + dictSize == q + n))
              else dictBuf == old(dictBuf) && dictAt == old(dictAt) && dictSize == old(dictSize)
      ensures info.checksum ==> xxh.Saw(made) && xxh.seed == 0
    {
      hide Keeps, XxHash32.State.Saw, BlockWaits, Needed, Passing;
      WriteOut(n, dst, d0, q, hi);
      if info.linked { UpdateDict(dst, q, n, d0, true, Passed(true)); }
    }

    /** The parts of Steady, put together again. */
    lemma WaitsSteady(out: seq<byte>)
      requires Waits(out) && DictPlaced() && (!info.linked ==> tmpOut == 0 && dictBuf == tmpOutBuffer)
               && (info.checksum ==> xxh.Saw(made) && xxh.seed == 0)
      requires info.Valid()
               && info.MaxBlock() + (if info.linked then 2 * WINDOW else 0) <= maxBufferSize == tmpOutBuffer.Length
      requires info.linked ==> dictSize <= 0x7FFF_FFFF && Keeps(Dict(), out, Left(true)) && Waiting(out)
      ensures Steady(true) && tmpOutSize - tmpOutStart <= |made| && Passed(true) == out
    {
      hide Keeps, XxHash32.State.Saw;
      assert Passed(true) == out;
    }

    lemma WaitsHas(out: seq<byte>)
      requires Waits(out)
      ensures BlockPlaced()
    {
    }

    lemma SteadyHas()
      requires Steady(true)
      ensures info.Valid()
              && info.MaxBlock() + (if info.linked then 2 * WINDOW else 0) <= maxBufferSize == tmpOutBuffer.Length
      ensures DictPlaced() && (!info.linked ==> tmpOut == 0 && dictBuf == tmpOutBuffer)
              && (info.checksum ==> xxh.Saw(made) && xxh.seed == 0)
      ensures tmpOutStart <= tmpOutSize && tmpOutSize - tmpOutStart <= |made| && Waits(Passed(true))
      ensures info.linked ==>
                dictSize <= 0x7FFF_FFFF && Keeps(Dict(), Passed(true), Left(true)) && Waiting(Passed(true))
    {
      hide Keeps, XxHash32.State.Saw, BlockWaits;
    }

    /** The position in the waiting block moves on; the dictionary is ahead already. */
    method MoveOn(n: nat, ghost out: seq<byte>)
      requires Waits(out) && n <= tmpOutSize - tmpOutStart
      requires info.linked && dictBuf == tmpOutBuffer ==> dictSize == tmpOut + tmpOutStart + n
      modifies this`tmpOutStart
      ensures tmpOutStart == old(tmpOutStart) + n && BlockPlaced() && Block() == old(Block())
      ensures Waits(out + Block()[old(tmpOutStart)..tmpOutStart])
      ensures info.linked ==> Waiting(out + Block()[old(tmpOutStart)..tmpOutStart])
    {
      hide BlockWaits;
      BlockOn(info.linked, made, Block(), tmpOutStart, tmpOut, out, n);
      tmpOutStart := tmpOutStart + n;
    }

    /** `n` bytes of the waiting block are passed on. */
    method FlushPart(n: nat, dst: array<byte>, d0: nat, q: nat, hi: nat)
      requires Separate() && Allocated() && Steady(true) && Out(dst, d0, q, hi, true)
      requires n <= tmpOutSize - tmpOutStart && q + n <= hi
      modifies this`dictBuf, this`dictAt, this`dictSize, this`tmpOutStart, tmpOutBuffer, dst
      ensures Separate() && Allocated() && Steady(true) && OnlyWithin(dst, q, q + n)
      ensures tmpOutStart == old(tmpOutStart) + n && Passed(true) == old(Passed(true)) + dst[q..q + n]
      ensures dictBuf == tmpOutBuffer || (dictBuf == dst && dictAt + dictSize == q + n)
              || (dictBuf == old(dictBuf) && dictAt == old(dictAt) && dictSize == old(dictSize))
    {
      hide Steady, Keeps, Needed, XxHash32.State.Saw, BlockWaits, Allocated, Passed, Out, OnlyWithin, Block, Waiting;
      OutHas(dst, d0, q, hi, true);
      SteadyHas();
      ghost var out := Passed(true);
      CopyOut(n, dst, d0, q, hi);
      MoveOn(n, out);
      WaitsSteady(out + dst[q..q + n]);
    }

    /** dstage_flushOut: the waiting block is passed on as far as there is room. */
    method Flush(dst: array<byte>, d0: nat, q: nat, hi: nat) returns (to: nat)
      requires Separate() && Allocated() && Steady(true) && Out(dst, d0, q, hi, true)
      modifies this`dictBuf, this`dictAt, this`dictSize, this`tmpOutStart, tmpOutBuffer, dst
      ensures Separate() && Allocated() && Steady(true) && Out(dst, d0, to, hi, true)
      ensures q <= to <= hi && OnlyWithin(dst, q, hi) && Passed(true) == old(Passed(true)) + dst[q..to]
      ensures tmpOutStart == tmpOutSize || to == hi
    {
      hide Steady, Separate, Allocated, Waits, Waiting, Out, Passed, Dict, Keeps, XxHash32.State.Saw;
      SteadyHas();
      OutIs(dst, d0, q, hi);
      var n := Min(tmpOutSize - tmpOutStart, hi - q);
      ghost var out, sent := Passed(true), dst[d0..q];
      FlushPart(n, dst, d0, q, hi);
      to := q + n;
      SteadyHas();
      assert sent == dst[d0..q];
      OutMore(dst, d0, q, n, hi, out);
    }

    lemma OutIs(dst: array<byte>, d0: nat, q: nat, hi: nat)
      requires Out(dst, d0, q, hi, true)
      ensures dst !in {tmpIn, header, tmpOutBuffer, xxh.mem} && d0 <= q <= hi <= dst.Length <= 0x7FFF_FFFF
      ensures tmpOutStart <= tmpOutSize && tmpOutSize - tmpOutStart <= |made|
      ensures q - d0 <= |Passed(true)| && dst[d0..q] == LastBytes(Passed(true), q - d0)
      ensures dictBuf == dst ==> dictAt + dictSize <= q || hi <= dictAt
    {
    }

    lemma OutMore(dst: array<byte>, d0: nat, q: nat, n: nat, hi: nat, out: seq<byte>)
      requires dst !in {tmpIn, header, tmpOutBuffer, xxh.mem} && d0 <= q && q + n <= hi <= dst.Length <= 0x7FFF_FFFF
      requires tmpOutStart <= tmpOutSize && tmpOutSize - tmpOutStart <= |made|
      requires q - d0 <= |out| && dst[d0..q] == LastBytes(out, q - d0) && Passed(true) == out + dst[q..q + n]
      requires dictBuf == dst ==> dictAt + dictSize <= q + n || hi <= dictAt
      ensures Out(dst, d0, q + n, hi, true)
    {
      assert dst[d0..q + n] == dst[d0..q] + dst[q..q + n];
    }

    // -------------------------------------------------------------- the end of a call

    /** A dictionary in the caller's buffer is saved behind nothing: its end comes to tmpOutBuffer. */
    method SaveDict()
      requires Separate() && Allocated() && dictBuf != tmpOutBuffer
      modifies this`dictBuf, this`dictAt, this`dictSize, this`tmpOut, tmpOutBuffer
      ensures Separate() && Allocated() && dictBuf == tmpOutBuffer && dictSize == Min(old(dictSize), WINDOW)
      ensures Dict() == LastBytes(old(Dict()), dictSize)
    {
      var n := Min(dictSize, WINDOW);
      ghost var end := LastBytes(Dict(), n);
      MoveToFront(n);
      assert tmpOutBuffer[0..n] == end;
      dictBuf, dictAt, dictSize, tmpOut := tmpOutBuffer, 0, n, n;
    }

    /** The same inside a frame of linked blocks, where the window is kept. */
    method SaveWindow()
      requires Separate() && Allocated() && dictBuf != tmpOutBuffer && info.linked && Steady(false)
      modifies this`dictBuf, this`dictAt, this`dictSize, this`tmpOut, tmpOutBuffer
      ensures Separate() && Allocated() && dictBuf == tmpOutBuffer && Steady(false)
    {
      hide Keeps, Waiting, XxHash32.State.Saw;
      assert Passed(false) == made;
      KeepsSize(Dict(), made, 0);
      KeepsLast(Dict(), made, Min(dictSize, WINDOW), 0, 0);
      SaveDict();
    }

    /** While a block waits, the dictionary goes in front of it. */
    method SaveBehind()
      requires Separate() && Allocated() && dictBuf != tmpOutBuffer && info.linked && Steady(true)
      modifies this`dictBuf, this`dictAt, this`dictSize, tmpOutBuffer
      ensures Separate() && Allocated() && dictBuf == tmpOutBuffer && Steady(true)
    {
      hide Steady, Keeps, XxHash32.State.Saw, BlockWaits, Needed;
      SteadyHas();
      ghost var out := Passed(true);
      FillInFront(out);
      WaitsSteady(out);
    }

    // -------------------------------------------------------------- one turn of the stage machine

    predicate Getting()
      reads this`stage, this`info
    {
      stage.GetHeader? || stage.GetCBlockSize? || stage.GetCBlock? || (stage.GetSuffix? && info.checksum)
    }

    predicate Storing()
      reads this`stage
    {
      stage.StoreHeader? || stage.StoreCBlockSize? || stage.StoreCBlock? || stage.StoreSuffix?
    }

    /** dstage_getHeader, dstage_getCBlockSize, dstage_getCBlock, dstage_getSuffix. */
    method GetTurn(src: seq<byte>, p: nat) returns (next: nat, selected: seq<byte>)
      requires Good([]) && Getting() && p <= |src|
      modifies this`stage, this`tmpInSize, this`k
      ensures Good(selected) && p <= next <= |src| && k == Absorb(old(k), src[p..next])
      ensures !stage.FlushOut? && !stage.DecodeCBlockIntoDst? && (Resumable() ==> selected == [])
      ensures p < next || Rank(stage) < old(Rank(stage))
      ensures InFrame() == old(InFrame()) && Blocks() == old(Blocks())
    {
      hide Steady, Separate, Allocated, Ended, Finish, Absorb;
      var need := if stage.GetHeader? then HEADER_SIZE else if stage.GetCBlock? then tmpInTarget else 4;
      next, selected := GetField(src, p, need, DecodeOf(stage), StoreOf(stage), About());
    }

    /** dstage_storeHeader, dstage_storeCBlockSize, dstage_storeCBlock, dstage_storeSuffix. */
    method StoreTurn(src: seq<byte>, p: nat) returns (next: nat, selected: seq<byte>, again: bool)
      requires Good([]) && Storing() && p <= |src|
      modifies this`stage, this`tmpInSize, this`k, tmpIn, header
      ensures Good(selected) && p <= next <= |src| && k == Absorb(old(k), src[p..next])
      ensures if again then !Resumable() && !stage.DecodeCBlockIntoDst? && p < next
              else Storing() && next == |src| && selected == []
      ensures InFrame() == old(InFrame()) && Blocks() == old(Blocks())
    {
      hide Steady, Allocated, Ended, Finish, Absorb;
      RoomForInput();
      ghost var f := About();
      if stage.StoreHeader? {
        next, selected, again := StoreField(src, p, header, HEADER_SIZE, DecodeHeader, f);
      } else if stage.StoreCBlockSize? {
        next, selected, again := StoreField(src, p, tmpIn, 4, DecodeCBlockSize, f);
      } else if stage.StoreCBlock? {
        next, selected, again := StoreField(src, p, tmpIn, tmpInTarget, DecodeCBlock, f);
      } else {
        next, selected, again := StoreField(src, p, tmpIn, 4, CheckSuffix, f);
      }
    }

    lemma RoomForInput()
      requires Allocated() && (InFrame() ==> Ended())
      ensures InFrame() ==> info.Valid() && info.MaxBlock() <= tmpIn.Length
    {
      hide XxHash32.State.Saw;
    }

    /** dstage_decodeCBlockSize. */
    method SizeTurn(selected: seq<byte>, noRoom: bool) returns (o: Outcome)
      requires Good(selected) && stage.DecodeCBlockSize?
      modifies this`stage, this`tmpInTarget
      ensures o.Failed? ==> (k.Bad? || k.Garbled?) && stage == old(stage)
      ensures !o.Failed? ==> Good([]) && (stage.GetSuffix? || stage.CopyDirect? || stage.GetCBlock?)
      ensures o.Again? || o.Failed? || (o.Stop? && stage.GetCBlock? && o.hint > 0 && noRoom)
    {
      hide Steady, Separate, Allocated, FromLE32;
      var word := FromLE32(selected);
      var n := word % UNCOMPRESSED;
      if n == 0 {
        stage := GetSuffix;
        return Again;
      }
      if n > info.MaxBlock() { return Failed; }
      tmpInTarget := n;
      if word >= UNCOMPRESSED {
        stage := CopyDirect;
        return Again;
      }
      stage := GetCBlock;
      o := if noRoom then Stop(n + 4) else Again;
    }

    /** dstage_checkSuffix. */
    method SuffixTurn(selected: seq<byte>) returns (o: Outcome)
      requires Good(selected) && stage.CheckSuffix?
      modifies this`stage
      ensures o.Failed? ==> (k.Bad? || k.Garbled?) && stage == old(stage)
      ensures o.Failed? || o.Finished?
      ensures !o.Failed? ==> stage.GetHeader? && (k.Garbled? || k == Done(info, made))
    {
      hide Separate, Allocated, FromLE32, XxHash32.Hash, XxHash32.State.Saw, Keeps, Waiting;
      var crc := xxh.Digest(made);
      if FromLE32(selected) != crc as nat { return Failed; }
      stage := GetHeader;
      o := Finished;
    }

    /** dstage_decodeCBlock_intoDst. */
    method IntoDstTurn(selected: seq<byte>, dst: array<byte>, d0: nat, q: nat, hi: nat) returns (ok: bool, to: nat)
      requires q <= hi <= dst.Length && info.Valid() && info.MaxBlock() <= hi - q
      requires Good(selected) && stage.DecodeCBlockIntoDst? && Out(dst, d0, q, hi, false)
      modifies this`stage, this`made, this`dictBuf, this`dictAt, this`dictSize, tmpOutBuffer, xxh, xxh.mem, dst
      ensures OnlyWithin(dst, q, hi) && q <= to <= hi
      ensures if ok then
                && Good([]) && stage.GetCBlockSize? && Out(dst, d0, to, hi, false) && made == old(made) + dst[q..to]
              else k.Bad? || k.Garbled?
    {
      hide Good, Steady, Separate, Allocated, Out, OnlyWithin, AfterPacked;
      FromGood(selected);
      ok, to := DecodeThrough(selected, dst, d0, q, hi);
      if ok {
        stage := GetCBlockSize;
        ToGood();
      }
    }

    /** dstage_decodeCBlock_intoTmp. */
    method IntoTmpTurn(selected: seq<byte>, dst: array<byte>, d0: nat, q: nat, hi: nat) returns (ok: bool)
      requires Good(selected) && stage.DecodeCBlockIntoTmp? && Out(dst, d0, q, hi, false)
      modifies this`stage, this`dictSize, this`tmpOut, this`tmpOutSize, this`tmpOutStart, this`made, tmpOutBuffer, xxh,
               xxh.mem
      ensures if ok then
                && Good([]) && stage.FlushOut? && Out(dst, d0, q, hi, true)
                && tmpOutStart == 0 && tmpOutSize <= |made| && Passed(true) == old(made)
              else k.Bad? || k.Garbled?
    {
      hide Good, Steady, Separate, Allocated, AfterPacked;
      FromGood(selected);
      assert Passed(false) == made;
      assert dst !in {tmpIn, header, tmpOutBuffer, xxh.mem};
      ok := DecodeAside(selected);
      if ok {
        stage := FlushOut;
        ToGood();
      }
    }

    lemma Flushed(dst: array<byte>, d0: nat, q: nat, hi: nat)
      requires Steady(true) && tmpOutStart == tmpOutSize && Out(dst, d0, q, hi, true)
      ensures Steady(false) && Out(dst, d0, q, hi, false) && Passed(true) == Passed(false) == made
    {
      hide Keeps, XxHash32.State.Saw;
      assert Passed(true) == made && Passed(false) == made;
    }

    /** dstage_flushOut. */
    method FlushTurn(dst: array<byte>, d0: nat, q: nat, hi: nat) returns (to: nat, again: bool)
      requires Good([]) && stage.FlushOut? && Out(dst, d0, q, hi, true)
      requires tmpOutStart <= tmpOutSize && tmpOutSize - tmpOutStart <= |made|
      modifies this`stage, this`dictBuf, this`dictAt, this`dictSize, this`tmpOutStart, tmpOutBuffer, dst
      ensures OnlyWithin(dst, q, hi) && q <= to <= hi && Good([]) && Out(dst, d0, to, hi, stage.FlushOut?)
      ensures tmpOutStart <= tmpOutSize && tmpOutSize - tmpOutStart <= |made|
      ensures Passed(stage.FlushOut?) == old(Passed(true)) + dst[q..to]
      ensures if again then stage.GetCBlockSize? else stage.FlushOut? && to == hi
    {
      hide Good, Steady, Separate, Allocated, Out, OnlyWithin;
      FromGood([]);
      to := Flush(dst, d0, q, hi);
      SteadyBounds();
      again := tmpOutStart == tmpOutSize;
      if again {
        Flushed(dst, d0, to, hi);
        stage := GetCBlockSize;
      }
      ToGood();
    }

    lemma SteadyBounds()
      requires Steady(true)
      ensures tmpOutStart <= tmpOutSize && tmpOutSize - tmpOutStart <= |made|
    {
    }

    /** Before the first block and after the last one nothing is written, and an old dictionary does not
        matter. */
    ghost predicate Free(dst: array<byte>, d0: nat, q: nat, hi: nat)
      reads this`stage, this`made, this`tmpIn, this`tmpOutBuffer
    {
      && dst !in {tmpIn, header, tmpOutBuffer, xxh.mem} && d0 <= q <= hi <= dst.Length <= 0x7FFF_FFFF
      && (if InFrame() then q - d0 <= |made| else d0 == q)
    }

    ghost predicate Ready(selected: seq<byte>, dst: array<byte>, d0: nat, q: nat, hi: nat)
      reads this, tmpIn, header, tmpOutBuffer, DictRead(), xxh, xxh.mem, dst
    {
      && Good(selected) && (if Blocks() then Out(dst, d0, q, hi, stage.FlushOut?) else Free(dst, d0, q, hi))
      && (stage.FlushOut? ==> tmpOutStart <= tmpOutSize && tmpOutSize - tmpOutStart <= |made|)
      && (stage.DecodeCBlockIntoDst? ==> info.Valid() && info.MaxBlock() <= hi - q)
    }

    lemma ReadyHas(selected: seq<byte>, dst: array<byte>, d0: nat, q: nat, hi: nat)
      requires Ready(selected, dst, d0, q, hi)
      ensures d0 <= q <= hi <= dst.Length <= 0x7FFF_FFFF && dst !in {tmpIn, header, tmpOutBuffer, xxh.mem}
      ensures InFrame() ==> q - d0 <= |Sent()|
    {
    }

    /** What the frame has passed on. */
    ghost function Sent(): seq<byte>
      requires stage.FlushOut? ==> tmpOutStart <= tmpOutSize && tmpOutSize - tmpOutStart <= |made|
      reads this`stage, this`made, this`tmpOutSize, this`tmpOutStart
    {
      Passed(stage.FlushOut?)
    }

    lemma SentIs()
      requires stage.FlushOut? ==> tmpOutStart <= tmpOutSize && tmpOutSize - tmpOutStart <= |made|
      ensures !stage.FlushOut? ==> Sent() == made
    {
      assert made[..|made|] == made;
    }

    /** dstage_decodeCBlockSize, dstage_decodeCBlock, dstage_checkSuffix, and dstage_getSuffix when
        there is no suffix: nothing is read. */
    method DecisionTurn(selected: seq<byte>, q: nat, hi: nat) returns (o: Outcome, chosen: seq<byte>)
      requires Good(selected) && q <= hi && (Resumable() ==> selected == [])
      requires stage.DecodeCBlockSize? || stage.DecodeCBlock? || stage.CheckSuffix?
               || (stage.GetSuffix? && !info.checksum)
      modifies this`stage, this`tmpInTarget
      ensures !stage.FlushOut? && (o.Finished? || o.Failed? || (Good(chosen) && InFrame() && old(Blocks())))
      ensures stage.DecodeCBlockIntoDst? ==> info.Valid() && info.MaxBlock() <= hi - q
      ensures match o
              case Again => (Resumable() ==> chosen == []) && Rank(stage) < old(Rank(stage))
              case Stop(hint) => chosen == [] && Resumable() && Pausing() && hint > 0 && q == hi
              case Finished => stage.GetHeader? && (k.Garbled? || k == Done(info, made))
              case Failed => k.Bad? || k.Garbled?
    {
      hide Steady, Separate, Allocated, Finish, Absorb;
      chosen := selected;
      if stage.DecodeCBlockSize? {
        o := SizeTurn(selected, q == hi);
        chosen := [];
      } else if stage.DecodeCBlock? {
        stage := if hi - q < info.MaxBlock() then DecodeCBlockIntoTmp else DecodeCBlockIntoDst;
        o := Again;
      } else if stage.CheckSuffix? {
        o := SuffixTurn(selected);
      } else {
        stage := GetHeader;
        o := Finished;
      }
    }

    /** How much input a stage that stores a field asks for. */
    function Wanted(): int
      reads this`stage, this`tmpInSize, this`tmpInTarget
    {
      if stage.StoreHeader? then HEADER_SIZE - tmpInSize + 4
      else if stage.StoreCBlock? then tmpInTarget - tmpInSize + 4
      else 4 - tmpInSize
    }

    lemma InputHas(selected: seq<byte>, dst: array<byte>, d0: nat, q: nat, hi: nat)
      requires Ready(selected, dst, d0, q, hi) && !stage.FlushOut?
      ensures Good(selected) && Separate() && Allocated() && (Blocks() ==> Out(dst, d0, q, hi, false))
      ensures if InFrame() then q - d0 <= |made| else d0 == q
    {
      hide Steady, Allocated;
      SentIs();
    }

    lemma InputReady(selected: seq<byte>, dst: array<byte>, d0: nat, q: nat, hi: nat)
      requires Good(selected) && !stage.FlushOut? && (Blocks() ==> Out(dst, d0, q, hi, false))
      requires dst !in {tmpIn, header, tmpOutBuffer, xxh.mem} && d0 <= q <= hi <= dst.Length <= 0x7FFF_FFFF
      requires if InFrame() then q - d0 <= |made| else d0 == q
      requires stage.DecodeCBlockIntoDst? ==> info.Valid() && info.MaxBlock() <= hi - q
      ensures Ready(selected, dst, d0, q, hi)
    {
      hide Good, Out;
    }

    /** Turns that read input but produce no output. */
    method InputTurn(src: seq<byte>, p: nat, selected: seq<byte>, dst: array<byte>, d0: nat, q: nat, hi: nat)
      returns (o: Outcome, next: nat, chosen: seq<byte>)
      requires Ready(selected, dst, d0, q, hi) && p <= |src| && (Resumable() ==> selected == [])
      requires !(stage.CopyDirect? || stage.DecodeCBlockIntoDst? || stage.DecodeCBlockIntoTmp? || stage.FlushOut?)
      requires !stage.DecodeHeader?
      modifies this`stage, this`tmpInSize, this`tmpInTarget, this`k, tmpIn, header
      ensures p <= next <= |src| && k == Absorb(old(k), src[p..next]) && !stage.FlushOut?
      ensures match o
              case Again =>
                && Ready(chosen, dst, d0, q, hi) && (Resumable() ==> chosen == [])
                && (p < next || Rank(stage) < old(Rank(stage)))
              case Stop(hint) =>
                && chosen == [] && Ready([], dst, d0, q, hi) && Resumable() && Pausing()
                && hint > 0 && (next == |src| || q == hi)
              case Finished => Separate() && Allocated() && stage.GetHeader? && (k.Garbled? || k == Done(info, made))
              case Failed => k.Bad? || k.Garbled?
    {
      hide Steady, Separate, Allocated, Ended, Out, Free, Absorb, Finish;
      ReadyHas(selected, dst, d0, q, hi);
      InputHas(selected, dst, d0, q, hi);
      next, chosen := p, selected;
      assert src[p..p] == [];
      AbsorbNothing(k);
      if Getting() {
        next, chosen := GetTurn(src, p);
        o := Again;
      } else if Storing() {
        var again;
        next, chosen, again := StoreTurn(src, p);
        o := if again then Again else Stop(Wanted());
      } else {
        o, chosen := DecisionTurn(selected, q, hi);
      }
      if o.Again? || o.Stop? { InputReady(chosen, dst, d0, q, hi); }
    }

    /** Turns that produce output. */
    method OutputTurn(src: seq<byte>, p: nat, selected: seq<byte>, dst: array<byte>, d0: nat, q: nat, hi: nat)
      returns (o: Outcome, next: nat, to: nat)
      requires p <= |src| && q <= hi <= dst.Length && (Resumable() ==> selected == [])
      requires stage.CopyDirect? || stage.DecodeCBlockIntoDst? || stage.DecodeCBlockIntoTmp? || stage.FlushOut?
      requires Ready(selected, dst, d0, q, hi)
      modifies this`stage, this`tmpInTarget, this`k, this`made, this`dictBuf, this`dictAt, this`dictSize
      modifies this`tmpOut, this`tmpOutSize, this`tmpOutStart, tmpOutBuffer, xxh, xxh.mem, dst
      ensures p <= next <= |src| && q <= to <= hi && k == Absorb(old(k), src[p..next]) && OnlyWithin(dst, q, hi)
      ensures !o.Failed? ==> Ready([], dst, d0, to, hi) && Resumable() && Sent() == old(Sent()) + dst[q..to]
      ensures match o
              case Again => p < next || Rank(stage) < old(Rank(stage))
              case Stop(hint) => Pausing() && hint > 0 && (to == hi || (next == |src| && !stage.FlushOut?))
              case Finished => false
              case Failed => k.Bad? || k.Garbled?
    {
      hide Good, Steady, Separate, Allocated, Out, Free, Absorb, Finish;
      ReadyHas(selected, dst, d0, q, hi);
      assert src[p..p] == [] && dst[q..q] == [];
      AbsorbNothing(k);
      SentIs();
      next, to := p, q;
      if stage.CopyDirect? {
        var again;
        next, to, again := CopyDirectStage(src, p, dst, d0, q, hi);
        o := if again then Again else Stop(tmpInTarget + 4);
      } else if stage.DecodeCBlockIntoDst? {
        var ok;
        ok, to := IntoDstTurn(selected, dst, d0, q, hi);
        o := if ok then Again else Failed;
      } else if stage.DecodeCBlockIntoTmp? {
        var ok := IntoTmpTurn(selected, dst, d0, q, hi);
        o := if ok then Again else Failed;
      } else {
        var again;
        to, again := FlushTurn(dst, d0, q, hi);
        o := if again then Again else Stop(4);
      }
      if !o.Failed? { SentIs(); }
    }

    /** dstage_decodeHeader. */
    method HeaderTurn(selected: seq<byte>, dst: array<byte>, d0: nat, q: nat, hi: nat) returns (ok: bool)
      requires Ready(selected, dst, d0, q, hi) && stage.DecodeHeader?
      modifies this`stage, this`info, this`maxBufferSize, this`tmpIn, this`tmpInSize, this`tmpInTarget,
               this`tmpOutBuffer
      modifies this`dictBuf, this`dictAt, this`dictSize, this`tmpOut, this`tmpOutSize, this`tmpOutStart, xxh
      ensures (fresh(tmpIn) || tmpIn == old(tmpIn)) && (fresh(tmpOutBuffer) || tmpOutBuffer == old(tmpOutBuffer))
      ensures ok ==> Ready([], dst, d0, q, hi) && stage.GetCBlockSize?
      ensures !ok ==> k.Bad? || k.Garbled?
    {
      hide Steady, Separate, Allocated, Finish;
      ReadyHas(selected, dst, d0, q, hi);
      ok := TakeHeader(selected);
      if ok { assert made == [] && dst[d0..q] == LastBytes(Passed(false), 0); }
    }

    /** One turn: the loop body of LZ4F_decompress. */
    method Turn(src: seq<byte>, p: nat, selected: seq<byte>, dst: array<byte>, d0: nat, q: nat, hi: nat)
      returns (o: Outcome, next: nat, chosen: seq<byte>, to: nat)
      requires Ready(selected, dst, d0, q, hi) && p <= |src| && (Resumable() ==> selected == [])
      modifies this, tmpIn, header, tmpOutBuffer, xxh, xxh.mem, dst
      ensures (fresh(tmpIn) || tmpIn == old(tmpIn)) && (fresh(tmpOutBuffer) || tmpOutBuffer == old(tmpOutBuffer))
      ensures srcExpect == old(srcExpect) && OnlyWithin(dst, q, hi)
      ensures p <= next <= |src| && q <= to <= hi && k == Absorb(old(k), src[p..next])
      ensures o.Again? || o.Stop? ==>
                Ready(chosen, dst, d0, to, hi) && (Resumable() ==> chosen == []) && Sent() == old(Sent()) + dst[q..to]
      ensures match o
              case Again => p < next || Rank(stage) < old(Rank(stage))
              case Stop(hint) =>
                && Resumable() && Pausing() && hint > 0
                && (to == hi || (next == |src| && !stage.FlushOut?))
              case Finished =>
                && Separate() && Allocated() && stage.GetHeader? && (k.Garbled? || k == Done(info, made))
                && made == old(Sent()) && to == q
              case Failed => k.Bad? || k.Garbled?
    {
      hide Good, Separate, Allocated, Out, Free, Absorb;
      ReadyHas(selected, dst, d0, q, hi);
      next, chosen, to := p, [], q;
      assert src[p..p] == [] && dst[q..q] == [];
      AbsorbNothing(k);
      SentIs();
      if stage.DecodeHeader? {
        var ok := HeaderTurn(selected, dst, d0, q, hi);
        o := if ok then Again else Failed;
        if ok { SentIs(); }
      } else if stage.CopyDirect? || stage.DecodeCBlockIntoDst? || stage.DecodeCBlockIntoTmp? || stage.FlushOut? {
        o, next, to := OutputTurn(src, p, selected, dst, d0, q, hi);
      } else {
        o, next, chosen := InputTurn(src, p, selected, dst, d0, q, hi);
        SentIs();
      }
    }

    /** The stages after which the dictionary is still needed, or might be. */
    predicate MidFrame()
      reads this`stage
    {
      !(stage.GetHeader? || stage.GetSuffix? || stage.StoreSuffix? || stage.CheckSuffix?)
    }

    method SaveBlocks()
      requires Good([]) && Resumable() && Blocks() && info.linked && dictBuf != tmpOutBuffer
      modifies this`dictBuf, this`dictAt, this`dictSize, this`tmpOut, tmpOutBuffer
      ensures Good([]) && dictBuf == tmpOutBuffer
    {
      hide Steady, Allocated, Ended, Finish;
      if stage.FlushOut? { SaveBehind(); } else { SaveWindow(); }
    }

    /** The dictionary leaves the caller's buffer, unless the caller has promised to keep it. */
    method PreserveDict(stableDst: bool)
      requires Good([]) && Resumable()
      modifies this`dictBuf, this`dictAt, this`dictSize, this`tmpOut, tmpOutBuffer
      ensures Good([])
      ensures !stableDst && Blocks() ==> dictBuf == tmpOutBuffer
    {
      hide Steady, Allocated, Ended, Finish;
      if info.linked && dictBuf != tmpOutBuffer && !stableDst && MidFrame() {
        if stage.StoreHeader? { SaveDict(); } else { SaveBlocks(); }
      } else if Blocks() {
        NotLinked(stage.FlushOut?);
      }
    }

    /** Where the reader is when a call begins: after a frame, at the start of another. */
    ghost function Before(): State
      reads this`stage, this`k
    {
      if stage.GetHeader? then Start else k
    }

    ghost function SentBefore(): seq<byte>
      requires stage.FlushOut? ==> tmpOutStart <= tmpOutSize && tmpOutSize - tmpOutStart <= |made|
      reads this`stage, this`made, this`tmpOutSize, this`tmpOutStart
    {
      if stage.GetHeader? then [] else Sent()
    }

    /** The stage loop of LZ4F_decompress. */
    method Stages(src: seq<byte>, dst: array<byte>, d0: nat, hi: nat) returns (o: Outcome, p: nat, q: nat)
      requires Ready([], dst, d0, d0, hi) && Resumable()
      modifies this, tmpIn, header, tmpOutBuffer, xxh, xxh.mem, dst
      ensures (fresh(tmpIn) || tmpIn == old(tmpIn)) && (fresh(tmpOutBuffer) || tmpOutBuffer == old(tmpOutBuffer))
      ensures srcExpect == old(srcExpect) && OnlyWithin(dst, d0, hi) && p <= |src| && d0 <= q <= hi
      ensures k == Absorb(old(k), src[..p])
      ensures match o
              case Again => false
              case Stop(hint) =>
                && Ready([], dst, d0, q, hi) && Resumable() && Pausing() && Sent() == old(Sent()) + dst[d0..q]
                && hint > 0 && (q == hi || (p == |src| && !stage.FlushOut?))
              case Finished =>
                && Separate() && Allocated() && stage.GetHeader? && (k.Garbled? || k == Done(info, made))
                && made == old(Sent()) + dst[d0..q]
              case Failed => k.Bad? || k.Garbled?
    {
      hide Good, Separate, Allocated, Out, Free, Absorb, Passed;
      ReadyHas([], dst, d0, d0, hi);
      ghost var k0, sent := k, Sent();
      var selected := [];
      o, p, q := Again, 0, d0;
      assert src[..0] == [] && dst[d0..d0] == [];
      AbsorbNothing(k);
      while o.Again?
        invariant (fresh(tmpIn) || tmpIn == old(tmpIn)) && (fresh(tmpOutBuffer) || tmpOutBuffer == old(tmpOutBuffer))
        invariant srcExpect == old(srcExpect) && OnlyWithin(dst, d0, hi) && p <= |src| && d0 <= q <= hi
        invariant k == Absorb(k0, src[..p])
        invariant o.Again? || o.Stop? ==>
                    Ready(selected, dst, d0, q, hi) && (Resumable() ==> selected == []) && Sent() == sent + dst[d0..q]
        invariant o.Stop? ==> Resumable() && Pausing() && o.hint > 0 && (q == hi || (p == |src| && !stage.FlushOut?))
        invariant o.Finished? ==>
                    && Separate() && Allocated() && stage.GetHeader? && (k.Garbled? || k == Done(info, made))
                    && made == sent + dst[d0..q]
        invariant o.Failed? ==> k.Bad? || k.Garbled?
        decreases o.Again?, |src| - p, Rank(stage)
      {
        var next, to;
        ghost var written := dst[d0..q];
        o, next, selected, to := Turn(src, p, selected, dst, d0, q, hi);
        AbsorbConcat(k0, src[..p], src[p..next]);
        assert src[..p] + src[p..next] == src[..next];
        assert written == dst[d0..q];
        assert dst[d0..to] == dst[d0..q] + dst[q..to];
        p, q := next, to;
      }
    }

    /** dst[d0..hi] may be written: it is nobody's, and it is not the dictionary. */
    ghost predicate MayWrite(dst: array<byte>, d0: nat, hi: nat)
      reads this`stage, this`tmpIn, this`tmpOutBuffer, this`dictBuf, this`dictAt, this`dictSize
    {
      && dst !in {tmpIn, header, tmpOutBuffer, xxh.mem} && d0 <= hi <= dst.Length <= 0x7FFF_FFFF
      && (Blocks() && dictBuf == dst ==> dictAt + dictSize <= d0 || hi <= dictAt)
    }

    lemma BeginReady(dst: array<byte>, d0: nat, hi: nat)
      requires Good([]) && MayWrite(dst, d0, hi)
      ensures Ready([], dst, d0, d0, hi)
    {
      hide Keeps, XxHash32.State.Saw;
      assert dst[d0..d0] == [];
      if Blocks() { assert LastBytes(Passed(stage.FlushOut?), 0) == []; }
    }

    /** A new frame begins. */
    ghost method Restart()
      requires Separate() && Allocated() && stage.GetHeader?
      modifies this`k, this`made
      ensures Good([]) && k == Start && made == []
    {
      k, made := Start, [];
    }

    /** The call, once it is known that the input is the one that was expected. */
    method Continue(src: seq<byte>, dst: array<byte>, d0: nat, hi: nat, stableDst: bool)
      returns (o: Outcome, p: nat, q: nat)
      requires Good([]) && Resumable() && MayWrite(dst, d0, hi)
      requires stage.FlushOut? ==> tmpOutStart <= tmpOutSize && tmpOutSize - tmpOutStart <= |made|
      modifies this, tmpIn, header, tmpOutBuffer, xxh, xxh.mem, dst
      ensures (fresh(tmpIn) || tmpIn == old(tmpIn)) && (fresh(tmpOutBuffer) || tmpOutBuffer == old(tmpOutBuffer))
      ensures srcExpect == old(srcExpect) && OnlyWithin(dst, d0, hi) && p <= |src| && d0 <= q <= hi
      ensures k == Absorb(old(k), src[..p])
      ensures if o.Failed? then Fails(k)
              else
                && Valid() && Sent() == old(Sent()) + dst[d0..q]
                && (k.Garbled? || (Produced(k) == made && !k.Bad? && !k.Past?))
                && (!stableDst && Blocks() ==> dictBuf == tmpOutBuffer)
      ensures match o
              case Again => false
              case Stop(hint) =>
                && Pausing() && (k.Garbled? || !k.Done?) && hint > 0
                && (q == hi || (p == |src| && !stage.FlushOut?))
              case Finished => stage.GetHeader? && (k.Garbled? || k.Done?)
              case Failed => true
    {
      hide Good, Separate, Allocated, Out, Free, Absorb, OnlyWithin;
      BeginReady(dst, d0, hi);
      o, p, q := Stages(src, dst, d0, hi);
      if o.Stop? {
        ReadyHas([], dst, d0, q, hi);
        PreserveDict(stableDst);
        GoodProduced();
        GoodHas([]);
      } else if o.Finished? {
        SentIs();
      }
    }

    /** The same at the start of a call, where a new frame may begin. */
    method Resume(src: seq<byte>, dst: array<byte>, d0: nat, hi: nat, stableDst: bool)
      returns (o: Outcome, p: nat, q: nat)
      requires Valid() && MayWrite(dst, d0, hi)
      modifies this, tmpIn, header, tmpOutBuffer, xxh, xxh.mem, dst
      ensures (fresh(tmpIn) || tmpIn == old(tmpIn)) && (fresh(tmpOutBuffer) || tmpOutBuffer == old(tmpOutBuffer))
      ensures srcExpect == old(srcExpect) && OnlyWithin(dst, d0, hi) && p <= |src| && d0 <= q <= hi
      ensures k == Absorb(old(Before()), src[..p])
      ensures if o.Failed? then Fails(k)
              else
                && Valid() && Sent() == old(SentBefore()) + dst[d0..q]
                && (k.Garbled? || (Produced(k) == made && !k.Bad? && !k.Past?))
                && (!stableDst && Blocks() ==> dictBuf == tmpOutBuffer)
      ensures match o
              case Again => false
              case Stop(hint) =>
                && Pausing() && (k.Garbled? || !k.Done?) && hint > 0
                && (q == hi || (p == |src| && !stage.FlushOut?))
              case Finished => stage.GetHeader? && (k.Garbled? || k.Done?)
              case Failed => true
    {
      hide Good, Separate, Allocated, Absorb, Produced, Fails, MayWrite;
      if stage.GetHeader? { Restart(); }
      SentIs();
      o, p, q := Continue(src, dst, d0, hi, stableDst);
    }

    lemma GoodHas(selected: seq<byte>)
      requires Good(selected)
      ensures Separate() && Allocated()
    {
    }

    method Expect(at: Option<nat>)
      requires Valid()
      modifies this`srcExpect
      ensures Valid() && srcExpect == at
    {
      hide Steady, Separate, Allocated;
      srcExpect := at;
    }

    /** LZ4F_decompress on src, which lies at srcAt, into dst[d0..hi]. Whatever has been received and
        however it was cut, the context stands for what reading the same bytes one by one gives. */
    method Decompress(src: seq<byte>, srcAt: nat, dst: array<byte>, d0: nat, hi: nat, stableDst: bool)
      returns (failed: bool, hint: nat, consumed: nat, produced: nat)
      requires Valid() && MayWrite(dst, d0, hi)
      modifies this, tmpIn, header, tmpOutBuffer, xxh, xxh.mem, dst
      ensures (fresh(tmpIn) || tmpIn == old(tmpIn)) && (fresh(tmpOutBuffer) || tmpOutBuffer == old(tmpOutBuffer))
      ensures failed ==> consumed == produced == 0
      ensures OnlyWithin(dst, d0, hi) && consumed <= |src| && produced <= hi - d0
      ensures old(srcExpect.Some? && srcExpect.value != srcAt) ==> failed && k == old(k)
      ensures !old(srcExpect.Some? && srcExpect.value != srcAt) ==>
                var k0 := old(Before());
                if failed then exists n :: 0 <= n <= |src| && Fails(Absorb(k0, src[..n]))
                else
                  && Valid() && k == Absorb(k0, src[..consumed])
                  && (k.Garbled? || (Produced(k) == made && !k.Bad? && !k.Past? && (hint == 0 <==> k.Done?)))
                  && Sent() == old(SentBefore()) + dst[d0..d0 + produced]
                  && (hint == 0 <==> stage.GetHeader?)
                  && (hint == 0 || produced == hi - d0 || (consumed == |src| && Sent() == made))
                  && srcExpect == (if consumed < |src| then Some(srcAt + consumed) else None)
                  && (!stableDst && Blocks() ==> dictBuf == tmpOutBuffer)
    {
      hide Good, Separate, Allocated, Absorb, Produced, Fails;
      if srcExpect.Some? && srcExpect.value != srcAt { return true, 0, 0, 0; }
      var o, p, q := Resume(src, dst, d0, hi, stableDst);
      if o.Failed? { return true, 0, 0, 0; }
      Expect(if p < |src| then Some(srcAt + p) else None);
      hint := if o.Stop? then o.hint else 0;
      SentIs();
      failed, consumed, produced := false, p, q - d0;
    }

    lemma GoodProduced()
      requires Good([]) && Resumable() && Pausing()
      ensures k.Garbled? || (Produced(k) == made && (k.Collect? || k.Raw?))
    {
      hide Steady, Separate, Allocated;
    }
  }

  /** How a turn ends: with another one, with the end of the call and a hint, with the end of the
      frame, or with an error. */
  datatype Outcome = Again | Stop(hint: nat) | Finished | Failed

  /** Where a stage goes when the field it reads is there, and when it is not. */
  function DecodeOf(stage: Stage): Stage {
    match stage
    case GetHeader => DecodeHeader
    case GetCBlockSize => DecodeCBlockSize
    case GetCBlock => DecodeCBlock
    case _ => CheckSuffix
  }

  function StoreOf(stage: Stage): Stage {
    match stage
    case GetHeader => StoreHeader
    case GetCBlockSize => StoreCBlockSize
    case GetCBlock => StoreCBlock
    case _ => StoreSuffix
  }

  /** Stages further on, as long as no input is read. */
  function Rank(stage: Stage): (r: nat)
    ensures r < 20
  {
    match stage
    case DecodeHeader => 19
    case DecodeCBlock => 18
    case DecodeCBlockIntoDst => 17
    case DecodeCBlockIntoTmp => 17
    case FlushOut => 16
    case GetHeader => 15
    case StoreHeader => 14
    case GetCBlockSize => 13
    case StoreCBlockSize => 12
    case DecodeCBlockSize => 11
    case CopyDirect => 10
    case GetCBlock => 10
    case StoreCBlock => 9
    case GetSuffix => 10
    case StoreSuffix => 9
    case CheckSuffix => 8
  }

  /** The first `start` bytes of a block end `out`, the rest of it is still to be passed on, and in front of
      it there is space for a dictionary. */
  ghost predicate BlockWaits(linked: bool, made: seq<byte>, block: seq<byte>, start: nat, space: nat, out: seq<byte>) {
    && start <= |block| && made == out + block[start..]
    && (linked ==>
          && start <= |out| && Min(WINDOW, |out| - start) <= space <= |out| - start
          && block[..start] == LastBytes(out, start))
  }

  lemma BlockWaitsHas(made: seq<byte>, block: seq<byte>, start: nat, space: nat, out: seq<byte>)
    requires BlockWaits(true, made, block, start, space, out)
    ensures start <= |block| && start <= |out| && Min(WINDOW, |out| - start) <= space <= |out| - start
    ensures block[..start] == LastBytes(out, start)
  {
  }

  lemma NewBlockWaits(linked: bool, out: seq<byte>, block: seq<byte>, space: nat)
    requires linked ==> Min(WINDOW, |out|) <= space <= |out|
    ensures BlockWaits(linked, out + block, block, 0, space, out)
  {
  }

  /** `n` more bytes of it are passed on. */
  lemma BlockOn(linked: bool, made: seq<byte>, block: seq<byte>, start: nat, space: nat, out: seq<byte>, n: nat)
    requires BlockWaits(linked, made, block, start, space, out) && start + n <= |block|
    ensures BlockWaits(linked, made, block, start + n, space, out + block[start..start + n])
  {
    var a := block[start..start + n];
    assert block[start..] == a + block[start + n..] && out + block[start..] == (out + a) + block[start + n..];
    if linked { assert LastBytes(out + a, start + n) == block[..start + n]; }
  }

  lemma AfterPackedShape(info: Info, block: seq<byte>, out: seq<byte>)
    ensures var s := AfterPacked(info, block, out);
            s == Bad || s == Garbled || (s.Collect? && s.f.Size? && s.got == [])
  {
  }

  /** The block is malformed, or its content has been written, or it has none. */
  ghost predicate Decoded(block: seq<byte>, info: Info, made: seq<byte>, mem: array<byte>, dest: nat, r: int)
    requires info.Valid() && r <= info.MaxBlock() && dest + info.MaxBlock() <= mem.Length
    reads mem
  {
    match AfterPacked(info, block, made)
    case Bad => r < 0
    case Collect(f, _) => r >= 0 && f == Size(info, made + mem[dest..dest + r])
    case _ => r >= 0
  }

  lemma RawMore(k: State, info: Info, left: nat, out: seq<byte>, more: seq<byte>)
    requires 0 < left && |more| <= left && (k.Garbled? || k == Raw(info, left, out))
    ensures Absorb(k, more) == if k.Garbled? then k else Copied(info, left - |more|, out + more)
  {
    if k.Garbled? { AbsorbStuck(k, more); } else { AbsorbRaw(info, left, out, more); }
  }

  lemma AbsorbMore(k: State, f: Field, got: seq<byte>, more: seq<byte>)
    requires |got| < f.Need() && |got| + |more| <= f.Need() && (k.Garbled? || k == Collect(f, got))
    ensures Absorb(k, more) == if k.Garbled? then k else Collected(f, got + more)
  {
    if k.Garbled? { AbsorbStuck(k, more); } else { AbsorbField(f, got, more); }
  }
}
