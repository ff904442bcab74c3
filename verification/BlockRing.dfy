/** A stream of blocks decoded into a buffer that is used again and again: two or more places, each block behind the
    one before it or somewhere else. */
module BlockRing {
  import opened Bytes
  import opened BlockFormat
  import opened BlockParser
  import opened BlockRules
  import opened WildCopy
  import opened FastParse
  import opened FastSound
  import opened FastCompress
  import opened BlockStream
  import opened FrameWindow

  /** Where the decoder has its prefix and its external dictionary. */
  datatype Spots = Spots(prefixEnd: Option<nat>, prefixSize: nat, extEnd: nat, extSize: nat)
  {
    function End(): nat { if prefixEnd.Some? then prefixEnd.value else 0 }

    /** How much of what has been decoded a block at `dest` can refer to. */
    function Reach(dest: nat): nat { if prefixEnd == Some(dest) then extSize + prefixSize else prefixSize }

    function Next(dest: nat, n: nat): Spots {
      if prefixEnd == Some(dest) then Spots(Some(dest + n), prefixSize + n, extEnd, extSize)
      else Spots(Some(dest + n), n, End(), prefixSize)
    }

    /** A block can be decoded at `dest`: it overwrites nothing that it may refer to, and it can refer to the
        last 64 KiB of what was decoded before. */
    predicate Fits(dest: nat, n: nat, done: nat, size: nat) {
      && 0 < n && dest + n <= size && Min(WINDOW, done) <= Reach(dest)
      && (prefixEnd == Some(dest) ==> extEnd <= dest || dest + n <= extEnd - extSize)
      && (prefixEnd != Some(dest) ==> End() <= dest || dest + n <= End() - prefixSize)
    }
  }

  function SpotsAfter(sizes: seq<nat>, places: seq<nat>): Spots
    requires |sizes| == |places|
  {
    if sizes == [] then Spots(None, 0, 0, 0)
    else
      var n := |sizes| - 1;
      SpotsAfter(sizes[..n], places[..n]).Next(places[n], sizes[n])
  }

  /** Every block fits where it is decoded. */
  predicate Placed(sizes: seq<nat>, places: seq<nat>, size: nat)
    requires |sizes| == |places|
  {
    forall k :: 0 <= k < |sizes| ==>
      SpotsAfter(sizes[..k], places[..k]).Fits(places[k], sizes[k], Sum(sizes[..k]), size)
  }

  /** The decoder is where the spots say, and what it can refer to is the end of what has been decoded. */
  ghost predicate At(dec: StreamDecoder, s: Spots, mem: array<byte>, done: seq<byte>)
    reads dec, mem
  {
    && dec.Valid() && dec.prefixEnd == s.prefixEnd && dec.prefixSize == s.prefixSize
    && dec.extEnd == s.extEnd <= mem.Length && dec.extSize == s.extSize
    && if s.prefixEnd.Some? then
         s.prefixEnd.value <= mem.Length && Ends(done, dec.History(mem, s.prefixEnd.value))
       else done == []
  }

  /** `h` is the end of `s`. */
  ghost predicate Ends(s: seq<byte>, h: seq<byte>) {
    |h| <= |s| && h == s[|s| - |h|..]
  }

  /** So is what a block at `dest` can refer to. */
  lemma CanReach(dec: StreamDecoder, s: Spots, mem: array<byte>, done: seq<byte>, dest: nat)
    requires At(dec, s, mem, done) && dest <= mem.Length
    ensures Ends(done, dec.History(mem, dest)) && |dec.History(mem, dest)| == s.Reach(dest)
  {
    hide StreamDecoder.History;
    if s.prefixEnd.Some? {
      var end := s.prefixEnd.value;
      dec.HistoryIs(mem, end);
      if end != dest {
        dec.HistoryWas(mem, dest, end);
        EndsMore(done, mem[s.extEnd - s.extSize..s.extEnd], mem[end - s.prefixSize..end]);
      }
    } else {
      dec.HistoryWas(mem, dest, 0);
      assert mem[0..0] == [];
    }
  }

  lemma EndsMore(s: seq<byte>, a: seq<byte>, b: seq<byte>)
    requires Ends(s, a + b)
    ensures Ends(s, b)
  {
    var t := s[|s| - |a + b|..];
    assert (a + b)[|a|..] == b && t[|a|..] == s[|s| - |b|..];
  }

  lemma EndsOn(s: seq<byte>, h: seq<byte>, more: seq<byte>)
    requires Ends(s, h)
    ensures Ends(s + more, h + more)
  {
    assert (s + more)[|s| - |h|..] == s[|s| - |h|..] + more;
  }

  /** A block that decodes to `piece` after everything decodes to it after the last 64 KiB, or after more. */
  lemma WindowDecodes(bytes: seq<byte>, h: seq<byte>, done: seq<byte>, piece: seq<byte>, b: Block)
    requires Ends(done, h) && Min(WINDOW, |done|) <= |h| && AllEncodable(b.seqs)
    requires Parse(bytes, Limits(|piece|, |done|, false, 0)) == Parsed(b) && Decode(done, b) == Some(done + piece)
    ensures Parse(bytes, Limits(|piece|, |h|, false, 0)) == Parsed(b) && Decode(h, b) == Some(h + piece)
  {
    hide Parse, Decode;
    if |h| == |done| {
      assert h == done;
    } else {
      RoomEnough(bytes, Limits(|piece|, |h|, false, 0), Limits(|piece|, |done|, false, 0));
      var x := done[..|done| - |h|];
      assert done == x + h;
      DecodeLong(x, h, b);
      DecodeMoreHistory(x, h, b);
      var v := Decode(h, b).value;
      assert x + v == x + (h + piece);
      assert (x + v)[|x|..] == v && (x + (h + piece))[|x|..] == h + piece;
    }
  }

  /** One block through the decoder. */
  method DecodePlaced(dec: StreamDecoder, src: seq<byte>, mem: array<byte>, dest: nat, ghost s: Spots,
                      ghost done: seq<byte>, ghost piece: seq<byte>, ghost b: Block, n: nat) returns (out: seq<byte>)
    requires At(dec, s, mem, done) && s.Fits(dest, n, |done|, mem.Length) && |piece| == n
    requires AllEncodable(b.seqs) && BlockLength(b) == n
    requires Parse(src, Limits(n, |done|, false, 0)) == Parsed(b) && Decode(done, b) == Some(done + piece)
    modifies dec, mem
    ensures At(dec, s.Next(dest, n), mem, done + piece) && out == piece
  {
    hide Parse, Decode, BlockLength, StreamDecoder.History, Ends, OnlyWithin;
    CanReach(dec, s, mem, done, dest);
    ghost var h := dec.History(mem, dest);
    WindowDecodes(src, h, done, piece, b);
    var r := dec.DecompressContinue(src, mem, dest, n);
    assert r == n && h + mem[dest..dest + r] == h + piece;
    assert (h + mem[dest..dest + r])[|h|..] == mem[dest..dest + r] && (h + piece)[|h|..] == piece;
    EndsOn(done, h, piece);
    out := mem[dest..dest + r];
  }

  lemma SpotsNext(sizes: seq<nat>, places: seq<nat>, k: nat)
    requires |sizes| == |places| && k < |sizes|
    ensures SpotsAfter(sizes[..k + 1], places[..k + 1])
            == SpotsAfter(sizes[..k], places[..k]).Next(places[k], sizes[k])
  {
    assert sizes[..k + 1][..k] == sizes[..k] && places[..k + 1][..k] == places[..k];
  }

  /** One block through encoder and decoder. */
  method PassPlaced(enc: StreamEncoder, dec: StreamDecoder, data: seq<byte>, s0: nat, start: nat, n: nat,
                    mem: array<byte>, dest: nat, ghost s: Spots) returns (out: seq<byte>)
    requires enc.Valid() && s0 <= start && start + n <= |data| && n <= LZ4_MAX_INPUT_SIZE
    requires (enc.started ==> enc.dictEnd == start) && enc.dictSize <= start - s0 && mem as object != enc.table
    requires At(dec, s, mem, data[s0..start]) && s.Fits(dest, n, start - s0, mem.Length)
    modifies enc, enc.table, dec, mem
    ensures enc.Valid() && enc.started && enc.dictEnd == start + n && enc.dictSize <= start + n - s0
    ensures At(dec, s.Next(dest, n), mem, data[s0..start + n]) && out == data[start..start + n]
  {
    hide Parse, Decode, BlockBytes, CodesFrom, CompressBound, StreamEncoder.Valid, BlockLength, At, FastBlock,
         ParseBlock, StreamEncoder.ViewAfter, StreamEncoder.Scaled, TableOk, View.Valid;
    var dst := new byte[CompressBound(n)];
    ghost var dictSize := enc.dictSize;
    var r, b, v, t := enc.CompressContinue(data, start, n, dst);
    BlockDecodes(data, s0, v.low, start, n, b);
    Joined(data, s0, start, start + n);
    out := DecodePlaced(dec, dst[..r], mem, dest, s, data[s0..start], data[start..start + n], b, n);
  }

  /** Any run of blocks through the stream encoder, decoded into a buffer that is used again and again, gives the
      data, if no block overwrites what it may refer to and the last 64 KiB are always within reach. */
  method RingRoundTrip(data: seq<byte>, s0: nat, sizes: seq<nat>, places: seq<nat>, origin: nat, mem: array<byte>)
    returns (out: seq<byte>)
    requires |sizes| == |places| && Placed(sizes, places, mem.Length)
    requires s0 + Sum(sizes) <= |data| && origin >= WINDOW
    requires forall i :: 0 <= i < |sizes| ==> sizes[i] <= LZ4_MAX_INPUT_SIZE
    modifies mem
    ensures out == data[s0..s0 + Sum(sizes)]
  {
    hide Sum, At, SpotsAfter, Spots.Fits, Spots.Next;
    var enc := new StreamEncoder(origin);
    var dec := new StreamDecoder();
    SumPrefix(sizes, 0);
    SumEmpty();
    assert sizes[..0] == [] && places[..0] == [];
    AtStart(dec, mem);
    var start, k := s0, 0;
    out := [];
    assert data[s0..start] == [];
    while k < |sizes|
      invariant k <= |sizes| && start == s0 + Sum(sizes[..k]) && start <= s0 + Sum(sizes)
      invariant fresh(enc) && fresh(enc.table) && fresh(dec) && enc.Valid()
      invariant (enc.started ==> enc.dictEnd == start) && enc.dictSize <= start - s0
      invariant At(dec, SpotsAfter(sizes[..k], places[..k]), mem, data[s0..start]) && out == data[s0..start]
    {
      SumPrefix(sizes, k + 1);
      SumNext(sizes, k);
      SpotsNext(sizes, places, k);
      var piece := PassPlaced(enc, dec, data, s0, start, sizes[k], mem, places[k], SpotsAfter(sizes[..k], places[..k]));
      Joined(data, s0, start, start + sizes[k]);
      start, k, out := start + sizes[k], k + 1, out + piece;
    }
    assert sizes[..k] == sizes;
  }

  lemma AtStart(dec: StreamDecoder, mem: array<byte>)
    requires dec.Valid() && dec.prefixEnd == None && dec.extSize == 0 && dec.extEnd == 0
    ensures At(dec, SpotsAfter([], []), mem, [])
  {
  }

  // ---------------------------------------------------------------- two places in turn

  /** Blocks of 64 KiB, decoded at 0 and at 128 KiB in turn. */
  function TwoPlaces(n: nat): (places: seq<nat>)
    ensures |places| == n && forall k :: 0 <= k < n ==> places[k] == if k % 2 == 0 then 0 else 2 * WINDOW
  {
    seq(n, k => if k % 2 == 0 then 0 else 2 * WINDOW)
  }

  function Whole(n: nat): (sizes: seq<nat>)
    ensures |sizes| == n && forall k :: 0 <= k < n ==> sizes[k] == WINDOW
  {
    seq(n, k => WINDOW)
  }

  lemma {:induction false} TwoPlacesAt(n: nat)
    requires n > 0
    ensures var s := SpotsAfter(Whole(n), TwoPlaces(n));
            && s.prefixEnd == Some(if n % 2 == 1 then WINDOW else 3 * WINDOW) && s.prefixSize == WINDOW
  {
    assert Whole(n)[..n - 1] == Whole(n - 1) && TwoPlaces(n)[..n - 1] == TwoPlaces(n - 1);
    if n > 1 { TwoPlacesAt(n - 1); }
  }

  /** That is room enough for any number of them. */
  lemma TwoPlacesFit(n: nat)
    ensures Placed(Whole(n), TwoPlaces(n), 3 * WINDOW)
  {
    forall k | 0 <= k < n
      ensures SpotsAfter(Whole(n)[..k], TwoPlaces(n)[..k]).Fits(TwoPlaces(n)[k], WINDOW, Sum(Whole(n)[..k]), 3 * WINDOW)
    {
      assert Whole(n)[..k] == Whole(k) && TwoPlaces(n)[..k] == TwoPlaces(k);
      if k > 0 { TwoPlacesAt(k); } else { SumEmpty(); }
    }
  }
}
