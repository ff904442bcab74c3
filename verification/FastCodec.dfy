/** LZ4_compress, LZ4_compress_limitedOutput, LZ4_decompress_safe and LZ4_decompress_safe_partial,
    and what they are for: giving the data back. */
module FastCodec {
  import opened Bytes
  import opened BlockFormat
  import opened BlockParser
  import opened BlockRules
  import opened WildCopy
  import opened FastParse
  import opened FastSound
  import opened FastLimit
  import opened FastCompress
  import opened BlockDecoder

  function KindFor(n: nat): Kind { if n < LZ4_64K_LIMIT then ByU16 else ByU32 }

  /** A block on its own. */
  function OneShot(src: seq<byte>): View { View(src, 0, |src|, 0, 0, false, KindFor(|src|)) }

  function ZeroTable(k: Kind): seq<nat> { seq(TableSize(k), i => 0) }

  lemma OneShotValid(src: seq<byte>)
    requires |src| <= LZ4_MAX_INPUT_SIZE
    ensures OneShot(src).Valid() && TableOk(OneShot(src), ZeroTable(KindFor(|src|)), 1)
  {
  }

  /** The block that LZ4_compress writes for `src`. */
  ghost function CompressedBlock(src: seq<byte>): Block
    requires |src| <= LZ4_MAX_INPUT_SIZE
  {
    OneShotValid(src);
    FastBlock(OneShot(src), ZeroTable(KindFor(|src|)))
  }

  lemma CompressedBlockSound(src: seq<byte>)
    requires |src| <= LZ4_MAX_INPUT_SIZE
    ensures var b := CompressedBlock(src);
            && AllEncodable(b.seqs) && Legal(b.seqs, 0, |src|) && BlockLength(b) == |src|
            && Decode([], b) == Some(src)
  {
    hide FastBlock, Legal, Decode, TableOk;
    OneShotValid(src);
    FastBlockSound(OneShot(src), ZeroTable(KindFor(|src|)));
    assert src[0..|src|] == src && src[0..0] == [];
  }

  /** The bytes that LZ4_compress writes for `src`. */
  ghost function Compressed(src: seq<byte>): (c: seq<byte>)
    requires |src| <= LZ4_MAX_INPUT_SIZE
    ensures 1 <= |c| <= CompressBound(|src|)
  {
    CompressedBlockSound(src);
    BlockSize(CompressedBlock(src));
    BlockBytes(CompressedBlock(src))
  }

  /** Decompressing what LZ4_compress wrote gives the input, with any capacity that holds it. */
  lemma CompressThenParse(src: seq<byte>, cap: nat)
    requires |src| <= LZ4_MAX_INPUT_SIZE && |src| <= cap
    ensures Parse(Compressed(src), Limits(cap, 0, false, 0)) == Parsed(CompressedBlock(src))
    ensures Decode([], CompressedBlock(src)) == Some(src)
  {
    hide CompressedBlock, Legal, Decode, Parse;
    CompressedBlockSound(src);
    LegalParses(CompressedBlock(src), 0, Limits(cap, 0, false, 0));
  }

  /** Partial decompression of what LZ4_compress wrote gives a prefix of the input: all of it, or at
      least the target. */
  lemma CompressThenParsePartly(src: seq<byte>, cap: nat, target: nat)
    requires |src| <= LZ4_MAX_INPUT_SIZE && |src| <= cap && cap > 0
    ensures var o := Parse(Compressed(src), Limits(cap, 0, true, target));
            && o.Parsed?
            && var d := Decode([], o.block);
               d.Some? && d.value <= src && Min(target, |src|) <= |d.value|
  {
    hide CompressedBlock, Legal, Decode, Parse, Fits, Cut, AllEncodable;
    CompressedBlockSound(src);
    var b := CompressedBlock(src);
    var l := Limits(cap, 0, true, target);
    LegalFits(b, 0, l);
    ParseBytes(b, l);
    CutLength(b, 0, l);
    CutDecodes(b, 0, l, []);
  }

  // ---------------------------------------------------------------- the functions themselves

  method ZeroedTable(k: Kind) returns (table: array<nat>)
    ensures fresh(table) && table[..] == ZeroTable(k)
  {
    table := new nat[TableSize(k)](i => 0);
  }

  /** LZ4_compress: 0 when the input is too large. */
  method Compress(src: seq<byte>, dst: array<byte>) returns (r: nat)
    requires CompressBound(|src|) <= dst.Length
    modifies dst
    ensures OnlyWithin(dst, 0, CompressBound(|src|))
    ensures |src| > LZ4_MAX_INPUT_SIZE ==> r == 0
    ensures |src| <= LZ4_MAX_INPUT_SIZE ==> r == |Compressed(src)| && dst[..r] == Compressed(src)
  {
    hide FastBlock, BlockBytes, TableOk;
    if |src| > LZ4_MAX_INPUT_SIZE { return 0; }
    OneShotValid(src);
    var table := ZeroedTable(KindFor(|src|));
    r := CompressGeneric(OneShot(src), table, dst, false, 0);
  }

  /** A byte that LZ4_compress_limitedOutput writes beyond its limit. */
  function SpillOf(src: seq<byte>, maxOut: nat): Option<Spill> {
    if |src| > LZ4_MAX_INPUT_SIZE then None
    else
      OneShotValid(src);
      SpillBlock(OneShot(src), ZeroTable(KindFor(|src|)), maxOut)
  }

  /** LZ4_compress_limitedOutput: the bytes of LZ4_compress, or 0 when they exceed the limit. Nothing beyond
      the limit is touched, unless SpillOf names a byte; then that one is. */
  method CompressLimitedOutput(src: seq<byte>, dst: array<byte>, maxOut: nat) returns (r: nat)
    requires maxOut <= dst.Length && (SpillOf(src, maxOut).Some? ==> CompressBound(|src|) <= dst.Length)
    modifies dst
    ensures OnlyWithin(dst, 0, if SpillOf(src, maxOut).None? then maxOut else CompressBound(|src|))
    ensures SpillOf(src, maxOut).Some? ==> r == 0 && Spilled(dst, SpillOf(src, maxOut), dst.Length, maxOut)
    ensures |src| <= LZ4_MAX_INPUT_SIZE && |Compressed(src)| <= maxOut ==>
              r == |Compressed(src)| && dst[..r] == Compressed(src)
    ensures |src| > LZ4_MAX_INPUT_SIZE || |Compressed(src)| > maxOut ==> r == 0
  {
    hide FastBlock, BlockBytes, TableOk, SpillBlock;
    if |src| > LZ4_MAX_INPUT_SIZE { return 0; }
    OneShotValid(src);
    var table := ZeroedTable(KindFor(|src|));
    r := CompressGeneric(OneShot(src), table, dst, true, maxOut);
  }

  /** LZ4_decompress_safe into mem[dest..dest + cap]. */
  method DecompressSafe(src: seq<byte>, mem: array<byte>, dest: nat, cap: nat) returns (r: int)
    requires dest + cap <= mem.Length && !Parse(src, Limits(cap, 0, false, 0)).Overread?
    modifies mem
    ensures OnlyWithin(mem, dest, dest + cap) && r <= cap
    ensures var o := Parse(src, Limits(cap, 0, false, 0));
            && r == Code(o)
            && (r >= 0 && Decode([], o.block).Some? ==> mem[dest..dest + r] == Decode([], o.block).value)
  {
    hide Parse, Decode;
    assert Output(mem, [], dest, dest) == [];
    r := DecompressGeneric(src, mem, dest, Limits(cap, 0, false, 0), dest, []);
    if r >= 0 { assert Output(mem, [], dest, dest + r) == mem[dest..dest + r]; }
  }

  /** LZ4_decompress_safe_partial into mem[dest..dest + cap]. */
  method DecompressSafePartial(src: seq<byte>, mem: array<byte>, dest: nat, target: nat, cap: nat) returns (r: int)
    requires dest + cap <= mem.Length && !Parse(src, Limits(cap, 0, true, target)).Overread?
    modifies mem
    ensures OnlyWithin(mem, dest, dest + cap) && r <= cap
    ensures var o := Parse(src, Limits(cap, 0, true, target));
            && r == Code(o)
            && (r >= 0 && Decode([], o.block).Some? ==> mem[dest..dest + r] == Decode([], o.block).value)
  {
    hide Parse, Decode;
    assert Output(mem, [], dest, dest) == [];
    r := DecompressGeneric(src, mem, dest, Limits(cap, 0, true, target), dest, []);
    if r >= 0 { assert Output(mem, [], dest, dest + r) == mem[dest..dest + r]; }
  }

  /** Compress, decompress, and the data is back. */
  method RoundTrip(src: seq<byte>, mem: array<byte>, dest: nat, cap: nat) returns (r: int)
    requires |src| <= LZ4_MAX_INPUT_SIZE && |src| <= cap && dest + cap <= mem.Length
    modifies mem
    ensures r == |src| && mem[dest..dest + r] == src
    ensures OnlyWithin(mem, dest, dest + cap)
  {
    hide CompressedBlock, Parse, Decode;
    CompressThenParse(src, cap);
    var packed := new byte[CompressBound(|src|)];
    var n := Compress(src, packed);
    r := DecompressSafe(packed[..n], mem, dest, cap);
  }

  /** The same with partial decompression: a prefix, at least as long as asked for. */
  method PartialRoundTrip(src: seq<byte>, mem: array<byte>, dest: nat, target: nat, cap: nat) returns (r: int)
    requires |src| <= LZ4_MAX_INPUT_SIZE && |src| <= cap && 0 < cap && dest + cap <= mem.Length
    modifies mem
    ensures Min(target, |src|) <= r <= |src| && mem[dest..dest + r] == src[..r]
  {
    hide CompressedBlock, Parse, Decode;
    CompressThenParsePartly(src, cap, target);
    var packed := new byte[CompressBound(|src|)];
    var n := Compress(src, packed);
    r := DecompressSafePartial(packed[..n], mem, dest, target, cap);
  }

  /** A block that refers to a dictionary, decoded with the dictionary somewhere else and with the
      dictionary right before the output. */
  method DictionaryAnywhere(src: seq<byte>, dict: seq<byte>, cap: nat)
    returns (apart: int, behind: int, a: array<byte>, b: array<byte>)
    requires !Parse(src, Limits(cap, |dict|, false, 0)).Overread?
    ensures a.Length == cap && b.Length == |dict| + cap && apart == behind <= cap
    ensures var o := Parse(src, Limits(cap, |dict|, false, 0));
            o.Parsed? && cap > 0 && NoZeroOffset(o.block.seqs) ==>
              apart >= 0 && a[..apart] == b[|dict|..|dict| + behind]
  {
    hide Parse, Decode, Output;
    var l := Limits(cap, |dict|, false, 0);
    a := new byte[cap];
    b := new byte[|dict| + cap](i requires 0 <= i < |dict| + cap => if i < |dict| then dict[i] else 0);
    OutputIs(a, dict, 0, 0);
    OutputIs(b, [], 0, |dict|);
    assert dict + a[0..0] == dict && [] + b[0..|dict|] == dict;
    assert Output(a, dict, 0, 0) == dict && Output(b, [], 0, |dict|) == dict;
    apart := DecompressGeneric(src, a, 0, l, 0, dict);
    behind := DecompressGeneric(src, b, |dict|, l, 0, []);
    if apart >= 0 {
      if cap > 0 { AcceptedMeaning(src, l, dict); }
      OutputIs(a, dict, 0, apart);
      OutputIs(b, [], 0, |dict| + behind);
      if Decode(dict, Parse(src, l).block).Some? {
        assert dict + a[0..apart] == [] + b[0..|dict| + behind];
        assert (dict + a[0..apart])[|dict|..] == a[..apart];
        assert b[0..|dict| + behind][|dict|..] == b[|dict|..|dict| + behind];
      }
    }
  }

  lemma OutputIs(mem: array<byte>, dict: seq<byte>, low: nat, op: nat)
    requires low <= op <= mem.Length
    ensures Output(mem, dict, low, op) == dict + mem[low..op]
  {
  }
}
