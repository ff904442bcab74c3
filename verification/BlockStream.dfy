/** Streams of blocks that refer to each other: LZ4_compress_continue on data that stays in place,
    and LZ4_decompress_safe_continue. */
module BlockStream {
  import opened Bytes
  import opened BlockFormat
  import opened BlockParser
  import opened BlockRules
  import opened WildCopy
  import opened FastParse
  import opened FastSound
  import opened FastCompress
  import opened BlockDecoder
  import opened Emit

  /** LZ4_stream_t. Positions are indices into the data; `origin` is the address of index 0. */
  class StreamEncoder {
    const table: array<nat>
    const origin: nat
    var currentOffset: nat
    var started: bool
    var dictEnd: nat
    var dictSize: nat

    ghost predicate Valid()
      reads this, table
    {
      && table.Length == TableSize(ByU32) && origin >= WINDOW
      && dictSize <= currentOffset < 0x1_0000_0000 && dictSize <= dictEnd
      && (!started ==> currentOffset == 0)
      && (forall i :: 0 <= i < table.Length ==> table[i] < currentOffset || table[i] == 0)
    }

    /** LZ4_createStream. */
    constructor (origin: nat)
      requires origin >= WINDOW
      ensures Valid() && fresh(table) && !started && dictSize == 0 && this.origin == origin
    {
      table := new nat[TableSize(ByU32)](i => 0);
      this.origin := origin;
      currentOffset, started, dictEnd, dictSize := 0, false, 0, 0;
    }

    /** The position that a table entry stands for, when the next block follows the dictionary. */
    ghost function PositionOf(entry: nat): int
      reads this
    {
      dictEnd - currentOffset + entry
    }

    /** Entries that get too large are rescaled, which drops those before the window. */
    predicate TooLarge(smallest: nat)
      reads this`currentOffset
    {
      currentOffset > 0x8000_0000 || currentOffset > origin + smallest
    }

    /** What the offset, the size of the dictionary and the table then are. */
    ghost function Scaled(smallest: nat): (nat, nat, seq<nat>)
      requires Valid()
      reads this, table
    {
      if started && TooLarge(smallest)
      then (WINDOW, Min(dictSize, WINDOW), Rescaled(table[..], currentOffset - WINDOW))
      else (currentOffset, dictSize, table[..])
    }

    /** LZ4_renormDictT: entries are rescaled before they reach 32 bits. Every candidate inside the
        window keeps its position; older ones move to the start of the window. */
    method Renorm(smallest: nat)
      requires Valid() && smallest == dictEnd && started
      modifies this`currentOffset, this`dictSize, table
      ensures Valid() && currentOffset <= 0x8000_0000 && dictEnd == old(dictEnd)
      ensures (currentOffset, dictSize, table[..]) == old(Scaled(smallest))
      ensures dictSize == old(dictSize) || (dictSize == WINDOW && old(dictSize) > WINDOW)
      ensures forall i :: 0 <= i < table.Length && old(PositionOf(table[i])) >= dictEnd - WINDOW ==>
                PositionOf(table[i]) == old(PositionOf(table[i]))
      ensures forall i :: 0 <= i < table.Length && old(PositionOf(table[i])) < dictEnd - WINDOW ==>
                PositionOf(table[i]) <= dictEnd - WINDOW
    {
      if TooLarge(smallest) {
        var delta := currentOffset - WINDOW;
        var i := 0;
        while i < table.Length
          invariant 0 <= i <= table.Length
          invariant currentOffset == old(currentOffset) && dictSize == old(dictSize)
          invariant forall j :: 0 <= j < i ==>
                      table[j] == if old(table[j]) < delta then 0 else old(table[j]) - delta
          invariant forall j :: i <= j < table.Length ==> table[j] == old(table[j])
        {
          if table[i] < delta { table[i] := 0; } else { table[i] := table[i] - delta; }
          i := i + 1;
        }
        assert table[..] == Rescaled(old(table[..]), delta);
        currentOffset := WINDOW;
        if dictSize > WINDOW { dictSize := WINDOW; }
      }
    }

    /** The block data[start..start + n] as the compressor sees it. */
    function ViewOf(data: seq<byte>, start: nat, n: nat): View
      requires dictSize <= start
      reads this
    {
      View(data, start, start + n, start - currentOffset, start - dictSize,
           dictSize < WINDOW && dictSize < currentOffset, ByU32)
    }

    /** The same after entries have been rescaled. */
    ghost function ViewAfter(data: seq<byte>, start: nat, n: nat): View
      requires Valid() && dictSize <= start
      reads this, table
    {
      var s := Scaled(start);
      View(data, start, start + n, start - s.0, start - s.1, s.1 < WINDOW && s.1 < s.0, ByU32)
    }

    lemma ViewIsValid(data: seq<byte>, start: nat, n: nat)
      requires Valid() && dictSize <= start && start + n <= |data| && n <= LZ4_MAX_INPUT_SIZE
      requires currentOffset <= 0x8000_0000
      ensures ViewOf(data, start, n).Valid() && TableOk(ViewOf(data, start, n), table[..], start + 1)
    {
    }

    /** LZ4_compress_continue on the block that follows the previous one in memory. */
    method CompressContinue(data: seq<byte>, start: nat, n: nat, dst: array<byte>)
      returns (r: nat, ghost b: Block, ghost v: View, ghost t: seq<nat>)
      requires Valid() && (started ==> start == dictEnd) && start + n <= |data| && n <= LZ4_MAX_INPUT_SIZE
      requires CompressBound(n) <= dst.Length && dst as object != table
      modifies this, table, dst
      ensures Valid() && started && dictEnd == start + n && dictSize <= old(dictSize) + n
      ensures BlockLength(b) == n && AllEncodable(b.seqs) && Wrote(dst, 0, r, BlockBytes(b))
      ensures v == old(ViewAfter(data, start, n)) && t == old(Scaled(start)).2 && v.Valid() && TableOk(v, t, start + 1)
      ensures b == FastBlock(v, t) && table[..] == ParseBlock(v, t).table
      ensures currentOffset == start + n - v.base && dictSize == start + n - v.low
      ensures start - old(dictSize) <= v.low <= start && CodesFrom(data, v.low, start, n, b)
    {
      hide BlockBytes, TableOk, Wrote, FastBlock, ParseBlock, Legal, Decode, CompressBound, Rescaled;
      if started {
        Renorm(start);
      } else {
        started, dictEnd := true, start;
      }
      ViewIsValid(data, start, n);
      v, t := ViewOf(data, start, n), table[..];
      r, b := CompressView(ViewOf(data, start, n), table, dst);
      dictEnd, dictSize, currentOffset := dictEnd + n, dictSize + n, currentOffset + n;
    }
  }

  /** The greedy compressor without a limit. */
  method CompressView(v: View, table: array<nat>, dst: array<byte>) returns (r: nat, ghost b: Block)
    requires v.Valid() && TableOk(v, table[..], v.start + 1) && dst as object != table
    requires CompressBound(v.end - v.start) <= dst.Length
    modifies table, dst
    ensures b == old(FastBlock(v, table[..])) && table[..] == old(ParseBlock(v, table[..])).table
    ensures BlockLength(b) == v.end - v.start && AllEncodable(b.seqs) && Wrote(dst, 0, r, BlockBytes(b))
    ensures CodesFrom(v.buf, v.low, v.start, v.end - v.start, b)
    ensures if v.end == v.start then table[..] == old(table[..])
            else forall i :: 0 <= i < table.Length ==> table[i] < v.end - v.base
  {
    hide BlockBytes, TableOk, Wrote, FastBlock, ParseBlock, Legal, Decode, CompressBound;
    FastBlockSound(v, table[..]);
    b := FastBlock(v, table[..]);
    r := CompressGeneric(v, table, dst, false, 0);
    LastFollows(b);
    WroteSome(dst, r, BlockBytes(b));
    if v.end > v.start { EntriesBelow(v, table[..]); }
  }

  lemma WroteSome(dst: array<byte>, r: nat, bytes: seq<byte>)
    requires Wrote(dst, 0, r, bytes)
    ensures r == |bytes|
  {
  }

  function Rescaled(table: seq<nat>, delta: int): (t: seq<nat>)
    ensures |t| == |table| && forall i :: 0 <= i < |t| ==> t[i] == if table[i] < delta then 0 else table[i] - delta
  {
    seq(|table|, i requires 0 <= i < |table| => if table[i] < delta then 0 else table[i] - delta)
  }

  /** A legal block that decodes to data[start..start + n] after data[low..start]. */
  ghost predicate CodesFrom(data: seq<byte>, low: nat, start: nat, n: nat, b: Block) {
    && low <= start && start + n <= |data|
    && BlockLength(b) == n && Legal(b.seqs, start - low, n)
    && Decode(data[low..start], b) == Some(data[low..start + n])
  }

  lemma EntriesBelow(v: View, table: seq<nat>)
    requires v.Valid() && TableOk(v, table, v.end)
    ensures forall i :: 0 <= i < |table| ==> table[i] < v.end - v.base
  {
  }

  /** The block has been decoded after `h`: `r` is its length or an error, and what it stands for is there. */
  ghost predicate Decoded(src: seq<byte>, mem: array<byte>, dest: nat, maxOut: nat, h: seq<byte>, r: int)
    reads mem
  {
    var o := Parse(src, Limits(maxOut, |h|, false, 0));
    && !o.Overread? && r == Code(o) && (r >= 0 ==> dest + r <= mem.Length)
    && (r >= 0 && Decode(h, o.block).Some? ==> h + mem[dest..dest + r] == Decode(h, o.block).value)
  }

  /** The safe decoder after a dictionary and a prefix. */
  method DecodeAfter(src: seq<byte>, mem: array<byte>, dest: nat, maxOut: nat, lowPrefix: nat, dict: seq<byte>)
    returns (r: int)
    requires lowPrefix <= dest && dest + maxOut <= mem.Length
    requires !Parse(src, Limits(maxOut, |Output(mem, dict, lowPrefix, dest)|, false, 0)).Overread?
    modifies mem
    ensures OnlyWithin(mem, dest, dest + maxOut) && r <= maxOut
    ensures Decoded(src, mem, dest, maxOut, old(Output(mem, dict, lowPrefix, dest)), r)
  {
    hide Parse, Decode;
    ghost var h := Output(mem, dict, lowPrefix, dest);
    r := DecompressGeneric(src, mem, dest, Limits(maxOut, |dict| + dest - lowPrefix, false, 0), lowPrefix, dict);
    if r >= 0 {
      assert mem[lowPrefix..dest] == old(mem[lowPrefix..dest]);
      assert mem[lowPrefix..dest + r] == mem[lowPrefix..dest] + mem[dest..dest + r];
      assert Output(mem, dict, lowPrefix, dest + r) == h + mem[dest..dest + r];
    }
  }

  /** The same with a dictionary mem[from..to], which stays in front of what has been decoded. */
  method DecodeBehind(src: seq<byte>, mem: array<byte>, dest: nat, maxOut: nat, lowPrefix: nat, from: nat, to: nat)
    returns (r: int)
    requires lowPrefix <= dest && dest + maxOut <= mem.Length && from <= to <= mem.Length
    requires to <= dest || dest + maxOut <= from
    requires !Parse(src, Limits(maxOut, |mem[from..to] + mem[lowPrefix..dest]|, false, 0)).Overread?
    modifies mem
    ensures OnlyWithin(mem, dest, dest + maxOut) && r <= maxOut && mem[from..to] == old(mem[from..to])
    ensures var h := old(mem[from..to] + mem[lowPrefix..dest]);
            && Decoded(src, mem, dest, maxOut, h, r)
            && (r >= 0 ==> mem[from..to] + mem[lowPrefix..dest + r] == h + mem[dest..dest + r])
  {
    hide Parse, Decode, Code;
    ghost var prefix := mem[lowPrefix..dest];
    var dict := mem[from..to];
    r := DecodeAfter(src, mem, dest, maxOut, lowPrefix, dict);
    if r >= 0 {
      assert mem[from..to] == dict && mem[lowPrefix..dest] == prefix;
      assert mem[lowPrefix..dest + r] == prefix + mem[dest..dest + r];
      Assoc(dict, prefix, mem[dest..dest + r]);
    }
  }

  /** The same without a prefix. */
  method DecodeElsewhere(src: seq<byte>, mem: array<byte>, dest: nat, maxOut: nat, from: nat, to: nat) returns (r: int)
    requires dest + maxOut <= mem.Length && from <= to <= mem.Length && (to <= dest || dest + maxOut <= from)
    requires !Parse(src, Limits(maxOut, to - from, false, 0)).Overread?
    modifies mem
    ensures OnlyWithin(mem, dest, dest + maxOut) && r <= maxOut
    ensures mem[from..to] == old(mem[from..to]) && Decoded(src, mem, dest, maxOut, old(mem[from..to]), r)
  {
    hide Parse, Decode, Code, Decoded;
    var dict := mem[from..to];
    assert Output(mem, dict, dest, dest) == dict;
    r := DecodeAfter(src, mem, dest, maxOut, dest, dict);
  }

  /** LZ4_streamDecode_t over one array: the prefix ends at `prefixEnd`, and an earlier stretch of the
      same array may serve as external dictionary. */
  class StreamDecoder {
    var prefixEnd: Option<nat>
    var prefixSize: nat
    var extEnd: nat
    var extSize: nat

    ghost predicate Valid()
      reads this
    {
      extSize <= extEnd && if prefixEnd.Some? then prefixSize <= prefixEnd.value else prefixSize == 0
    }

    /** LZ4_createStreamDecode: everything is zero. */
    constructor ()
      ensures Valid() && prefixEnd == None && extSize == 0 && extEnd == 0
    {
      prefixEnd, prefixSize, extEnd, extSize := None, 0, 0, 0;
    }

    /** The external dictionary and the prefix that the next block at `dest` may refer to. */
    ghost function History(mem: array<byte>, dest: nat): seq<byte>
      requires Valid() && extEnd <= mem.Length && (prefixEnd.Some? ==> prefixEnd.value <= mem.Length)
      reads this, mem
    {
      if prefixEnd == Some(dest) then mem[extEnd - extSize..extEnd] + mem[dest - prefixSize..dest]
      else if prefixEnd.Some? then mem[prefixEnd.value - prefixSize..prefixEnd.value]
      else []
    }

    lemma HistoryIs(mem: array<byte>, dest: nat)
      requires Valid() && extEnd <= mem.Length && dest <= mem.Length && prefixEnd == Some(dest)
      ensures History(mem, dest) == mem[extEnd - extSize..extEnd] + mem[dest - prefixSize..dest]
    {
    }

    lemma HistoryWas(mem: array<byte>, dest: nat, end: nat)
      requires Valid() && extEnd <= mem.Length && prefixEnd != Some(dest)
      requires end == (if prefixEnd.Some? then prefixEnd.value else 0) && end <= mem.Length
      ensures History(mem, dest) == mem[end - prefixSize..end]
    {
    }

    /** A block right behind the prefix. */
    method Contiguous(src: seq<byte>, mem: array<byte>, dest: nat, maxOut: nat) returns (r: int)
      requires Valid() && dest + maxOut <= mem.Length && prefixEnd == Some(dest) && extEnd <= mem.Length
      requires extEnd <= dest || dest + maxOut <= extEnd - extSize
      requires var h := mem[extEnd - extSize..extEnd] + mem[dest - prefixSize..dest];
               !Parse(src, Limits(maxOut, |h|, false, 0)).Overread?
      modifies this`prefixEnd, this`prefixSize, mem
      ensures Valid() && OnlyWithin(mem, dest, dest + maxOut) && r <= maxOut
      ensures prefixEnd == Some(dest + Max(r, 0)) && prefixSize == old(prefixSize) + Max(r, 0)
      ensures var h, low := old(mem[extEnd - extSize..extEnd] + mem[dest - prefixSize..dest]), dest - old(prefixSize);
              && Decoded(src, mem, dest, maxOut, h, r)
              && (r > 0 ==> History(mem, dest + r) == h + mem[dest..dest + r])
    {
      hide Parse, Decode, Code, OnlyWithin, Decoded, History;
      var low := dest - prefixSize;
      r := DecodeBehind(src, mem, dest, maxOut, low, extEnd - extSize, extEnd);
      if r <= 0 { return; }
      prefixSize := prefixSize + r;
      prefixEnd := Some(dest + r);
      HistoryIs(mem, dest + r);
    }

    /** What has been decoded at `dest` is the new prefix. */
    method NewPrefix(mem: array<byte>, dest: nat, r: nat)
      requires extSize <= extEnd <= mem.Length && dest + r <= mem.Length
      modifies this`prefixEnd, this`prefixSize
      ensures Valid() && prefixEnd == Some(dest + r) && prefixSize == r
      ensures History(mem, dest + r) == mem[extEnd - extSize..extEnd] + mem[dest..dest + r]
    {
      hide History;
      prefixSize := r;
      prefixEnd := Some(dest + r);
      HistoryIs(mem, dest + r);
    }

    /** A block somewhere else: what was the prefix is now the dictionary, which ends at `end`. */
    method Jump(src: seq<byte>, mem: array<byte>, dest: nat, maxOut: nat, end: nat) returns (r: int, ghost h: seq<byte>)
      requires Valid() && dest + maxOut <= mem.Length && prefixSize <= end <= mem.Length
      requires end <= dest || dest + maxOut <= end - prefixSize
      requires !Parse(src, Limits(maxOut, prefixSize, false, 0)).Overread?
      modifies this, mem
      ensures Valid() && OnlyWithin(mem, dest, dest + maxOut) && r <= maxOut
      ensures extSize == old(prefixSize) && extEnd == end
      ensures if r > 0 then prefixEnd == Some(dest + r) && prefixSize == r
              else prefixEnd == old(prefixEnd) && prefixSize == old(prefixSize)
      ensures h == old(mem[end - prefixSize..end]) && Decoded(src, mem, dest, maxOut, h, r)
      ensures r > 0 ==> History(mem, dest + r) == h + mem[dest..dest + r]
    {
      hide Parse, Decode, Code, Decoded, OnlyWithin, History;
      var from := end - prefixSize;
      h := mem[from..end];
      r := DecodeElsewhere(src, mem, dest, maxOut, from, end);
      extSize, extEnd := prefixSize, end;
      if r > 0 { NewPrefix(mem, dest, r); }
    }

    /** LZ4_decompress_safe_continue. The dictionary must not lie in the output buffer. */
    method DecompressContinue(src: seq<byte>, mem: array<byte>, dest: nat, maxOut: nat) returns (r: int)
      requires Valid() && dest + maxOut <= mem.Length
      requires prefixEnd == Some(dest) ==> extEnd <= dest || dest + maxOut <= extEnd - extSize
      requires prefixEnd.Some? && prefixEnd != Some(dest) ==>
                 prefixEnd.value <= dest
                 || (prefixEnd.value <= mem.Length && dest + maxOut <= prefixEnd.value - prefixSize)
      requires extEnd <= mem.Length
      requires !Parse(src, Limits(maxOut, |History(mem, dest)|, false, 0)).Overread?
      modifies this, mem
      ensures Valid() && OnlyWithin(mem, dest, dest + maxOut) && r <= maxOut
      ensures Decoded(src, mem, dest, maxOut, old(History(mem, dest)), r)
      ensures r <= 0 ==> prefixEnd == old(prefixEnd) && prefixSize == old(prefixSize)
      ensures r > 0 ==> prefixEnd == Some(dest + r)
                        && prefixSize == r + (if old(prefixEnd) == Some(dest) then old(prefixSize) else 0)
      ensures if old(prefixEnd) == Some(dest) then extEnd == old(extEnd) && extSize == old(extSize)
              else extSize == old(prefixSize) && extEnd == if old(prefixEnd).Some? then old(prefixEnd.value) else 0
      ensures r > 0 ==> extEnd <= mem.Length && History(mem, dest + r) == old(History(mem, dest)) + mem[dest..dest + r]
    {
      hide Parse, Decode, Code, History, Decoded, OnlyWithin;
      if prefixEnd == Some(dest) {
        HistoryIs(mem, dest);
        r := Contiguous(src, mem, dest, maxOut);
      } else {
        var end := if prefixEnd.Some? then prefixEnd.value else 0;
        HistoryWas(mem, dest, end);
        ghost var h;
        r, h := Jump(src, mem, dest, maxOut, end);
      }
    }
  }

  /** A block of the stream, decoded after everything before it, gives its part of the data. */
  lemma BlockDecodes(data: seq<byte>, s0: nat, low: nat, start: nat, n: nat, b: Block)
    requires s0 <= low && CodesFrom(data, low, start, n, b)
    ensures AllEncodable(b.seqs)
    ensures Parse(BlockBytes(b), Limits(n, start - s0, false, 0)) == Parsed(b)
    ensures Decode(data[s0..start], b) == Some(data[s0..start + n])
  {
    hide Parse, Decode, Legal, BlockBytes;
    LegalParses(b, start - low, Limits(n, start - s0, false, 0));
    DecodeMoreHistory(data[s0..low], data[low..start], b);
    assert data[s0..low] + data[low..start] == data[s0..start];
    assert data[s0..low] + data[low..start + n] == data[s0..start + n];
  }

  function Sum(sizes: seq<nat>): nat {
    if sizes == [] then 0 else Sum(sizes[..|sizes| - 1]) + sizes[|sizes| - 1]
  }

  lemma {:induction false} SumPrefix(sizes: seq<nat>, k: nat)
    requires k <= |sizes|
    ensures Sum(sizes[..k]) <= Sum(sizes)
    decreases |sizes|
  {
    if k < |sizes| {
      SumPrefix(sizes[..|sizes| - 1], k);
      assert sizes[..|sizes| - 1][..k] == sizes[..k];
    } else {
      assert sizes[..k] == sizes;
    }
  }

  /** The decoder has decoded mem[d0..d0 + done], nothing else, and no earlier dictionary. */
  ghost predicate CaughtUp(dec: StreamDecoder, d0: nat, done: nat)
    reads dec
  {
    && dec.Valid() && dec.extSize == 0 && dec.extEnd <= d0
    && ((dec.prefixEnd == Some(d0 + done) && dec.prefixSize == done) || (done == 0 && dec.prefixEnd == None))
  }

  lemma HistoryCaughtUp(dec: StreamDecoder, mem: array<byte>, d0: nat, done: nat)
    requires CaughtUp(dec, d0, done) && d0 + done <= mem.Length
    ensures dec.History(mem, d0 + done) == mem[d0..d0 + done]
  {
  }

  /** One block of the stream through the decoder. */
  method DecodeNext(dec: StreamDecoder, src: seq<byte>, mem: array<byte>, d0: nat, data: seq<byte>, s0: nat, start: nat,
                    n: nat, ghost b: Block)
    requires s0 <= start && start + n <= |data| && d0 + (start - s0) + n <= mem.Length
    requires CaughtUp(dec, d0, start - s0) && mem[d0..d0 + (start - s0)] == data[s0..start]
    requires AllEncodable(b.seqs) && BlockLength(b) == n && src == BlockBytes(b)
    requires Parse(BlockBytes(b), Limits(n, start - s0, false, 0)) == Parsed(b)
    requires Decode(data[s0..start], b) == Some(data[s0..start + n])
    modifies dec, mem
    ensures CaughtUp(dec, d0, start + n - s0) && mem[d0..d0 + (start + n - s0)] == data[s0..start + n]
  {
    hide Parse, Decode, BlockBytes, BlockLength, StreamDecoder.History;
    var d := d0 + (start - s0);
    HistoryCaughtUp(dec, mem, d0, start - s0);
    ghost var h := data[s0..start];
    var r := dec.DecompressContinue(src, mem, d, n);
    assert h + mem[d..d + n] == data[s0..start + n];
    HistoryJoined(mem[..], d0, d, d + n, h);
  }

  lemma HistoryJoined(s: seq<byte>, i: nat, j: nat, k: nat, h: seq<byte>)
    requires i <= j <= k <= |s| && j - i == |h| && forall x :: i <= x < j ==> s[x] == h[x - i]
    ensures s[i..k] == h + s[j..k]
  {
  }

  /** One block through encoder and decoder. */
  method PassBlock(enc: StreamEncoder, dec: StreamDecoder, data: seq<byte>, s0: nat, start: nat, n: nat,
                   mem: array<byte>, d0: nat)
    requires enc.Valid() && s0 <= start && start + n <= |data| && n <= LZ4_MAX_INPUT_SIZE
    requires (enc.started ==> enc.dictEnd == start) && enc.dictSize <= start - s0
    requires d0 + (start - s0) + n <= mem.Length && mem as object != enc.table
    requires CaughtUp(dec, d0, start - s0) && mem[d0..d0 + (start - s0)] == data[s0..start]
    modifies enc, enc.table, dec, mem
    ensures enc.Valid() && enc.started && enc.dictEnd == start + n && enc.dictSize <= start + n - s0
    ensures CaughtUp(dec, d0, start + n - s0) && mem[d0..d0 + (start + n - s0)] == data[s0..start + n]
  {
    hide Parse, Decode, BlockBytes, CodesFrom, CompressBound, StreamEncoder.Valid, BlockLength, CaughtUp, FastBlock,
         ParseBlock, StreamEncoder.ViewAfter, StreamEncoder.Scaled, TableOk, View.Valid;
    var dst := new byte[CompressBound(n)];
    ghost var dictSize := enc.dictSize;
    var r, b, v, t := enc.CompressContinue(data, start, n, dst);
    BlockDecodes(data, s0, v.low, start, n, b);
    DecodeNext(dec, dst[..r], mem, d0, data, s0, start, n, b);
  }

  /** Any run of contiguous blocks through the stream encoder, decoded block by block, gives the data. */
  method StreamRoundTrip(data: seq<byte>, s0: nat, sizes: seq<nat>, origin: nat, mem: array<byte>, d0: nat)
    requires s0 + Sum(sizes) <= |data| && d0 + Sum(sizes) <= mem.Length && origin >= WINDOW
    requires forall i :: 0 <= i < |sizes| ==> sizes[i] <= LZ4_MAX_INPUT_SIZE
    modifies mem
    ensures mem[d0..d0 + Sum(sizes)] == data[s0..s0 + Sum(sizes)]
  {
    hide Sum;
    var enc := new StreamEncoder(origin);
    var dec := new StreamDecoder();
    SumPrefix(sizes, 0);
    SumEmpty();
    assert sizes[..0] == [];
    var start, k := s0, 0;
    while k < |sizes|
      invariant k <= |sizes| && start == s0 + Sum(sizes[..k]) && start <= s0 + Sum(sizes)
      invariant fresh(enc) && fresh(enc.table) && fresh(dec) && enc.Valid()
      invariant (enc.started ==> enc.dictEnd == start) && enc.dictSize <= start - s0
      invariant CaughtUp(dec, d0, start - s0)
      invariant mem[d0..d0 + (start - s0)] == data[s0..start]
    {
      SumPrefix(sizes, k + 1);
      SumNext(sizes, k);
      PassBlock(enc, dec, data, s0, start, sizes[k], mem, d0);
      start, k := start + sizes[k], k + 1;
    }
    assert sizes[..k] == sizes;
  }

  lemma SumEmpty()
    ensures Sum([]) == 0
  {
  }

  lemma SumNext(sizes: seq<nat>, k: nat)
    requires k < |sizes|
    ensures Sum(sizes[..k + 1]) == Sum(sizes[..k]) + sizes[k]
  {
    assert sizes[..k + 1][..k] == sizes[..k];
  }
}
