/** The LZ4 frame format, section "General Structure of LZ4 Framing format" of version 1.4.1: the
    frame descriptor, data blocks, end mark and content checksum, read one byte at a time. */
module FrameFormat {
  import opened Bytes
  import opened BlockFormat
  import opened BlockParser
  import XxHash32

  const MAGIC := 0x184D2204
  const UNCOMPRESSED := 0x8000_0000
  const HEADER_SIZE := 7
  const KB := 1024

  /** Block mode, content checksum flag, and the code of the maximal block size. */
  datatype Info = Info(linked: bool, checksum: bool, sizeId: nat)
  {
    predicate Valid() { 4 <= sizeId <= 7 }

    function MaxBlock(): (n: nat)
      requires Valid()
      ensures 64 * KB <= n <= 4096 * KB
    {
      if sizeId == 4 then 64 * KB else if sizeId == 5 then 256 * KB else if sizeId == 6 then 1024 * KB else 4096 * KB
    }
  }

  // ---------------------------------------------------------------- the header

  function Hash(data: seq<byte>): (h: nat)
    ensures h < 0x1_0000_0000
  {
    XxHash32.Hash(data, 0) as nat
  }

  /** LZ4F_headerChecksum. */
  function HeaderChecksum(descriptor: seq<byte>): byte { (Hash(descriptor) / 256) % 256 }

  function Descriptor(info: Info): (d: seq<byte>)
    requires info.Valid()
    ensures |d| == 2
  {
    [64 + (if info.linked then 0 else 32) + (if info.checksum then 4 else 0), 16 * info.sizeId]
  }

  function HeaderBytes(info: Info): (h: seq<byte>)
    requires info.Valid()
    ensures |h| == HEADER_SIZE
  {
    ToLE32(MAGIC) + Descriptor(info) + [HeaderChecksum(Descriptor(info))]
  }

  /** LZ4F_decodeHeader: version 01, no block checksum, no content size, no dictionary, reserved bits 0. */
  function ReadHeader(h: seq<byte>): (r: Option<Info>)
    requires |h| == HEADER_SIZE
    ensures r.Some? ==> r.value.Valid()
  {
    var flg: int, bd: int := h[4], h[5];
    if FromLE32(h[..4]) != MAGIC || HeaderChecksum(h[4..6]) != h[6] then None
    else if flg / 64 != 1 || flg / 16 % 2 != 0 || flg / 8 % 2 != 0 || flg / 2 % 2 != 0 || flg % 2 != 0 then None
    else if bd / 128 != 0 || bd / 16 % 8 < 4 || bd % 16 != 0 then None
    else Some(Info(flg / 32 % 2 == 0, flg / 4 % 2 == 1, bd / 16 % 8))
  }

  /** The decoder accepts a header exactly when the encoder writes it for some preferences. */
  lemma HeaderExactly(h: seq<byte>, info: Info)
    requires |h| == HEADER_SIZE
    ensures ReadHeader(h) == Some(info) <==> info.Valid() && h == HeaderBytes(info)
  {
    hide Hash, FromLE32, ToLE32, ReadHeader, HeaderBytes;
    if info.Valid() && h == HeaderBytes(info) { HeaderReads(info); }
    if ReadHeader(h) == Some(info) { HeaderUnique(h); }
  }

  lemma HeaderReads(info: Info)
    requires info.Valid()
    ensures ReadHeader(HeaderBytes(info)) == Some(info)
  {
    hide Hash, FromLE32, ToLE32;
    LERoundTrip(MAGIC);
    var h := HeaderBytes(info);
    assert h[..4] == ToLE32(MAGIC) && h[4..6] == Descriptor(info);
  }

  lemma HeaderUnique(h: seq<byte>)
    requires |h| == HEADER_SIZE && ReadHeader(h).Some?
    ensures h == HeaderBytes(ReadHeader(h).value)
  {
    hide Hash, FromLE32, ToLE32;
    LEExactly(h[..4]);
    var info := ReadHeader(h).value;
    assert h[4..6] == Descriptor(info);
    assert h == h[..4] + h[4..6] + [h[6]];
  }

  // ---------------------------------------------------------------- reading a frame byte by byte

  /** A field of a known size that is collected before it means something. `out` is what the frame
      has produced so far. */
  datatype Field =
    | Header
    | Size(info: Info, out: seq<byte>)
    | Packed(info: Info, size: nat, out: seq<byte>)
    | Suffix(info: Info, out: seq<byte>)
  {
    function Need(): (n: nat)
    {
      if Header? then HEADER_SIZE else if Packed? then size else 4
    }
  }

  /** `Past`: there are bytes after the end of the frame. `Bad`: it is broken. `Garbled`: a block
      copies from offset 0, and what it produces is not defined. */
  datatype State =
    | Collect(f: Field, got: seq<byte>)
    | Raw(info: Info, left: nat, out: seq<byte>)
    | Done(info: Info, out: seq<byte>)
    | Past
    | Bad
    | Garbled

  const Start := Collect(Header, [])

  /** What a compressed block refers to. */
  function History(info: Info, out: seq<byte>): seq<byte> { if info.linked then out else [] }

  /** What is known of a block: it is malformed, has no defined content, or stands for these bytes. */
  datatype Unpacked = Malformed | Undefined | Content(data: seq<byte>)

  function Unpack(bytes: seq<byte>, cap: nat, hist: seq<byte>): Unpacked {
    var o := Parse(bytes, Limits(cap, |hist|, false, 0));
    if !o.Parsed? then Unpacked.Malformed
    else
      var d := Decode(hist, o.block);
      if d.None? then Undefined else Content(d.value[|hist|..])
  }

  function AfterHeader(h: seq<byte>): State
    requires |h| == HEADER_SIZE
  {
    var r := ReadHeader(h);
    if r.None? then Bad else Collect(Size(r.value, []), [])
  }

  function AfterSize(info: Info, word: nat, out: seq<byte>): State {
    var n := word % UNCOMPRESSED;
    if n == 0 then if info.checksum then Collect(Suffix(info, out), []) else Done(info, out)
    else if !info.Valid() || n > info.MaxBlock() then Bad
    else if word >= UNCOMPRESSED then Raw(info, n, out)
    else Collect(Packed(info, n, out), [])
  }

  function AfterPacked(info: Info, bytes: seq<byte>, out: seq<byte>): State {
    if !info.Valid() then Bad
    else
      match Unpack(bytes, info.MaxBlock(), History(info, out))
      case Malformed => Bad
      case Undefined => Garbled
      case Content(d) => Collect(Size(info, out + d), [])
  }

  function AfterSuffix(info: Info, word: nat, out: seq<byte>): State {
    if word == Hash(out) then Done(info, out) else Bad
  }

  function Finish(f: Field, bytes: seq<byte>): State
    requires |bytes| == f.Need()
  {
    match f
    case Header => AfterHeader(bytes)
    case Size(info, out) => AfterSize(info, FromLE32(bytes), out)
    case Packed(info, _, out) => AfterPacked(info, bytes, out)
    case Suffix(info, out) => AfterSuffix(info, FromLE32(bytes), out)
  }

  /** A field that has come this far, whole or not. */
  function Collected(f: Field, got: seq<byte>): State
    requires |got| <= f.Need()
  {
    if |got| == f.Need() then Finish(f, got) else Collect(f, got)
  }

  function Copied(info: Info, left: nat, out: seq<byte>): State {
    if left == 0 then Collect(Size(info, out), []) else Raw(info, left, out)
  }

  /** One byte. */
  function Step(s: State, b: byte): State {
    match s
    case Collect(f, got) => if |got| < f.Need() then Collected(f, got + [b]) else Bad
    case Raw(info, left, out) => if left > 0 then Copied(info, left - 1, out + [b]) else Bad
    case Done(_, _) => Past
    case Past => Past
    case Bad => Bad
    case Garbled => Garbled
  }

  function Absorb(s: State, bytes: seq<byte>): State
    decreases |bytes|
  {
    if bytes == [] then s else Absorb(Step(s, bytes[0]), bytes[1..])
  }

  lemma AbsorbNothing(s: State)
    ensures Absorb(s, []) == s
  {
  }

  lemma {:induction false} AbsorbConcat(s: State, a: seq<byte>, b: seq<byte>)
    ensures Absorb(s, a + b) == Absorb(Absorb(s, a), b)
    decreases |a|
  {
    if a == [] {
      assert a + b == b;
    } else {
      assert (a + b)[0] == a[0] && (a + b)[1..] == a[1..] + b;
      AbsorbConcat(Step(s, a[0]), a[1..], b);
    }
  }

  /** Part of a field, or the rest of it, at once. */
  lemma {:induction false} AbsorbField(f: Field, got: seq<byte>, more: seq<byte>)
    requires |got| < f.Need() && |got| + |more| <= f.Need()
    ensures Absorb(Collect(f, got), more) == Collected(f, got + more)
    decreases |more|
  {
    hide Finish;
    assert more != [] ==> Absorb(Collect(f, got), more) == Absorb(Collected(f, got + [more[0]]), more[1..]);
    if more == [] {
      assert got + more == got;
    } else {
      assert got + more == (got + [more[0]]) + more[1..];
      if |got| + 1 == f.Need() {
        assert more == [more[0]];
      } else {
        AbsorbField(f, got + [more[0]], more[1..]);
      }
    }
  }

  /** Part of an uncompressed block, or the rest of it, at once. */
  lemma {:induction false} AbsorbRaw(info: Info, left: nat, out: seq<byte>, more: seq<byte>)
    requires 0 < left && |more| <= left
    ensures Absorb(Raw(info, left, out), more) == Copied(info, left - |more|, out + more)
    decreases |more|
  {
    assert more != [] ==>
             Absorb(Raw(info, left, out), more) == Absorb(Copied(info, left - 1, out + [more[0]]), more[1..]);
    if more == [] {
      assert out + more == out;
    } else {
      assert out + more == (out + [more[0]]) + more[1..];
      if left == 1 {
        assert more == [more[0]];
      } else {
        AbsorbRaw(info, left - 1, out + [more[0]], more[1..]);
      }
    }
  }

  /** What is broken stays broken, and so on. */
  lemma {:induction false} AbsorbStuck(s: State, more: seq<byte>)
    requires s.Bad? || s.Garbled? || s.Past?
    ensures Absorb(s, more) == s
    decreases |more|
  {
    if more != [] { AbsorbStuck(s, more[1..]); }
  }

  predicate Fails(s: State) { s.Bad? || s.Garbled? }

  /** What a frame has produced in this state. */
  function Produced(s: State): seq<byte> {
    match s
    case Collect(f, _) => if f.Header? then [] else f.out
    case Raw(_, _, out) => out
    case Done(_, out) => out
    case _ => []
  }

  /** A frame ends in one place, and if it does, no part of it is broken or without meaning. */
  lemma OneVerdict(frame: seq<byte>, end: nat, n: nat)
    requires end <= |frame| && n <= |frame| && Absorb(Start, frame[..end]).Done?
    ensures !Fails(Absorb(Start, frame[..n])) && (Absorb(Start, frame[..n]).Done? ==> n == end)
  {
    if n < end {
      assert frame[..end] == frame[..n] + frame[n..end];
      AbsorbConcat(Start, frame[..n], frame[n..end]);
      AbsorbEnded(Absorb(Start, frame[..n]), frame[n..end]);
    } else if end < n {
      assert frame[..n] == frame[..end] + frame[end..n];
      AbsorbConcat(Start, frame[..end], frame[end..n]);
      AbsorbEnded(Absorb(Start, frame[..end]), frame[end..n]);
    }
  }

  lemma AbsorbEnded(s: State, more: seq<byte>)
    requires more != []
    ensures Fails(s) || s.Past? ==> Absorb(s, more) == s
    ensures s.Done? ==> Absorb(s, more) == Past
  {
    if Fails(s) || s.Past? { AbsorbStuck(s, more); }
    if s.Done? { AbsorbStuck(Past, more[1..]); }
  }

  lemma StepGrows(s: State, b: byte)
    requires !Fails(Step(s, b)) && !Step(s, b).Past?
    ensures Produced(s) <= Produced(Step(s, b))
  {
  }

  /** Output is never taken back. */
  lemma {:induction false} ProducedGrows(s: State, more: seq<byte>)
    requires !Fails(Absorb(s, more)) && !Absorb(s, more).Past?
    ensures Produced(s) <= Produced(Absorb(s, more))
    decreases |more|
  {
    if more != [] {
      var t := Step(s, more[0]);
      hide Step, Produced;
      AbsorbEndedAll(t, more[1..]);
      ProducedGrows(t, more[1..]);
      StepGrows(s, more[0]);
    }
  }

  lemma AbsorbEndedAll(s: State, more: seq<byte>)
    ensures Fails(s) || s.Past? ==> Absorb(s, more) == s
  {
    if Fails(s) || s.Past? { AbsorbStuck(s, more); }
  }
}
