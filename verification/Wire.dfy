/** The memcached binary protocol as the client uses it: headers, framing, and the compressed values. */
module Wire {
  import opened Bytes
  import opened BlockFormat
  import opened BlockParser
  import opened FastCodec

  const HEADER_SIZE := 24
  const MAX_CAPACITY := 50 * 1024 * 1024
  const FLAG_COMPRESS := 0x4000_0000
  const CMD_BOTTOM := 0x51
  const CMD_INCREMENT := 5
  const CMD_DECREMENT := 6

  datatype Error = OK | SYSTEM_ERROR | BAD_ARGUMENT | DISCONNECTED | OUT_OF_MEMORY | COMPRESS_FAILED | PROTOCOL_ERROR

  // ---------------------------------------------------------------- numbers

  /** `n` in `width` bytes, most significant first. */
  function ToBE(n: nat, width: nat): (s: seq<byte>)
    ensures |s| == width
  {
    if width == 0 then [] else ToBE(n / 256, width - 1) + [n % 256]
  }

  function FromBE(s: seq<byte>): nat {
    if s == [] then 0 else
      var last: int := s[|s| - 1];
      256 * FromBE(s[..|s| - 1]) + last
  }

  function Power256(w: nat): (p: nat)
    ensures p > 0
  {
    if w == 0 then 1 else 256 * Power256(w - 1)
  }

  lemma {:induction false} BERoundTrip(n: nat, width: nat)
    requires n < Power256(width)
    ensures FromBE(ToBE(n, width)) == n
  {
    if width > 0 {
      BERoundTrip(n / 256, width - 1);
      var s := ToBE(n, width);
      assert s[..|s| - 1] == ToBE(n / 256, width - 1);
    }
  }

  /** Whether bit 30 is set. */
  predicate HasCompressFlag(flags: nat) { (flags / FLAG_COMPRESS) % 2 == 1 }

  // ---------------------------------------------------------------- packets

  /** Magic, command, key length, extras length, status, total length, serial, CAS. */
  function Header(magic: byte, cmd: byte, keyLen: nat, extrasLen: nat, status: nat, total: nat, serial: nat,
                  cas: nat): (h: seq<byte>)
    ensures |h| == HEADER_SIZE
  {
    [magic, cmd] + ToBE(keyLen, 2) + [extrasLen % 256, 0] + ToBE(status, 2) + ToBE(total, 4) + ToLE32(serial)
    + ToBE(cas, 8)
  }

  datatype Response = Response(serial: nat, length: nat, status: nat, command: nat, cas: nat, flags: nat,
                               key: seq<byte>, data: seq<byte>, value: nat)

  /** What the first bytes of a stream say: nothing yet, a broken packet, or a packet. */
  datatype Framing = NeedMore | Bad | Packet(r: Response)

  function TotalLength(p: seq<byte>): nat
    requires |p| >= HEADER_SIZE
  {
    FromBE(p[8..12])
  }

  /** A whole packet, with its value as it was sent. */
  function ParsePacket(p: seq<byte>): Framing
    requires |p| >= HEADER_SIZE && |p| == HEADER_SIZE + TotalLength(p)
  {
    var total := TotalLength(p);
    var keyLen := FromBE(p[2..4]);
    var extrasLen: nat := p[4];
    if total < keyLen + extrasLen || (extrasLen > 0 && extrasLen != 4) then Bad
    else
      var command: nat, status := p[1], FromBE(p[6..8]);
      var flags := if extrasLen > 0 then FromBE(p[HEADER_SIZE..HEADER_SIZE + 4]) else 0;
      var key := p[HEADER_SIZE + extrasLen..HEADER_SIZE + extrasLen + keyLen];
      var data := p[HEADER_SIZE + extrasLen + keyLen..];
      var r := Response(FromLE32(p[12..16]), |p|, status, command, FromBE(p[16..24]), flags, key, data, 0);
      if (command == CMD_INCREMENT || command == CMD_DECREMENT) && status == 0 then
        if |data| != 8 then Bad else Packet(r.(data := [], value := FromBE(data)))
      else Packet(r)
  }

  /** The first packet of a stream. */
  function Frame(p: seq<byte>): (f: Framing)
    ensures f.Packet? ==> HEADER_SIZE <= f.r.length <= |p| && f.r.length <= HEADER_SIZE + MAX_CAPACITY
  {
    if |p| < HEADER_SIZE then NeedMore
    else if p[0] != 0x81 || TotalLength(p) > MAX_CAPACITY then Bad
    else if |p| < HEADER_SIZE + TotalLength(p) then NeedMore
    else
      var q := p[..HEADER_SIZE + TotalLength(p)];
      assert q[8..12] == p[8..12];
      ParsePacket(q)
  }

  /** More input does not change what has been recognised. */
  lemma FrameStable(p: seq<byte>, more: seq<byte>)
    ensures !Frame(p).NeedMore? ==> Frame(p + more) == Frame(p)
  {
    if !Frame(p).NeedMore? {
      var q := p + more;
      assert q[8..12] == p[8..12];
      if Frame(p).Packet? || !(p[0] != 0x81 || TotalLength(p) > MAX_CAPACITY) {
        assert q[..HEADER_SIZE + TotalLength(p)] == p[..HEADER_SIZE + TotalLength(p)];
      }
    }
  }

  /** All the packets of a stream, up to an incomplete or broken one. */
  ghost function Frames(p: seq<byte>): seq<Response>
    decreases |p|
  {
    var f := Frame(p);
    if f.Packet? then [f.r] + Frames(p[f.r.length..]) else []
  }

  /** The packets of a stream stay what they are, in their order, when more arrives. */
  lemma {:induction false} FramesGrow(p: seq<byte>, more: seq<byte>)
    ensures Frames(p) <= Frames(p + more)
    decreases |p|
  {
    hide Frame;
    var f := Frame(p);
    if f.Packet? {
      FrameStable(p, more);
      var rest := p[f.r.length..];
      FramesGrow(rest, more);
      assert (p + more)[f.r.length..] == rest + more;
    }
  }

  /** The stream consists of whole packets. */
  ghost predicate Whole(p: seq<byte>)
    decreases |p|
  {
    p == [] || (Frame(p).Packet? && Whole(p[Frame(p).r.length..]))
  }

  /** What is left after the first packet with this serial number, if there is one. */
  ghost function AfterReply(p: seq<byte>, serial: nat): Option<seq<byte>>
    decreases |p|
  {
    var f := Frame(p);
    if !f.Packet? then None
    else if f.r.serial == serial then Some(p[f.r.length..])
    else AfterReply(p[f.r.length..], serial)
  }

  /** The first packet with this serial number, if every packet up to it can be delivered. */
  ghost function Answer(p: seq<byte>, serial: nat, compressSize: nat): Option<Response>
    decreases |p|
  {
    var f := Frame(p);
    if !f.Packet? || Inflate(f.r, compressSize).Broken? then None
    else if f.r.serial == serial then Some(f.r)
    else Answer(p[f.r.length..], serial, compressSize)
  }

  /** Whole packets, the last of them the reply to a request, and no earlier one with its serial number. */
  ghost predicate AnsweredLast(all: seq<Response>, serial: nat) {
    && all != [] && all[|all| - 1].serial == serial
    && forall i :: 0 <= i < |all| - 1 ==> all[i].serial != serial
  }

  lemma AnsweredLastStep(r: Response, later: seq<Response>, serial: nat)
    ensures AnsweredLast([r] + later, serial) <==>
              if r.serial == serial then later == [] else AnsweredLast(later, serial)
  {
    var all := [r] + later;
    assert forall i :: 0 <= i < |later| ==> all[i + 1] == later[i];
    assert all[0] == r;
    if AnsweredLast(all, serial) && r.serial != serial {
      assert forall i :: 0 <= i < |later| ==> later[i] == all[i + 1];
    }
  }

  /** Reading up to the reply to a request leaves nothing unread exactly when the server answers in order. */
  lemma {:induction false} NothingUnread(p: seq<byte>, serial: nat)
    ensures AfterReply(p, serial) == Some([]) <==> Whole(p) && AnsweredLast(Frames(p), serial)
    decreases |p|
  {
    hide Frame, AnsweredLast;
    var f := Frame(p);
    WholeFrames(p);
    if f.Packet? {
      var rest := p[f.r.length..];
      NothingUnread(rest, serial);
      AnsweredLastStep(f.r, Frames(rest), serial);
      WholeFrames(rest);
    } else {
      AnsweredLastEmpty(serial);
    }
  }

  lemma AnsweredLastEmpty(serial: nat)
    ensures !AnsweredLast([], serial)
  {
  }

  lemma WholeFrames(p: seq<byte>)
    ensures p == [] ==> Frames(p) == []
    ensures Whole(p) && Frames(p) == [] ==> p == []
  {
  }

  // ---------------------------------------------------------------- compressed values

  /** A packet after transparent decompression: unchanged, broken, or with this value. `Scrambled`:
      the block copies from offset 0, so it has a length but no defined content. */
  datatype Inflated = Unchanged | Broken | Value(data: seq<byte>) | Scrambled(size: nat)

  predicate IsCompressed(r: Response, compressSize: nat) {
    compressSize > 0 && HasCompressFlag(r.flags)
      && !((r.command == CMD_INCREMENT || r.command == CMD_DECREMENT) && r.status == 0)
  }

  function Inflate(r: Response, compressSize: nat): Inflated {
    if !IsCompressed(r, compressSize) then Unchanged
    else if |r.data| < 4 || FromBE(r.data[..4]) > 0x7FFF_FFFF then Broken
    else
      var size := FromBE(r.data[..4]);
      var o := Parse(r.data[4..], Limits(size, 0, false, 0));
      if !o.Parsed? || BlockLength(o.block) != size then Broken
      else match Decode([], o.block)
        case Some(data) => Value(data)
        case None => Scrambled(size)
  }

  /** These bytes are a block, within what a whole block must keep, that stands for `d`. */
  ghost predicate Packs(bytes: seq<byte>, d: seq<byte>) {
    exists b: Block, junk: nat ::
      && AllEncodable(b.seqs) && junk < 16 && bytes == BlockBytesWith(b, junk)
      && Fits(b, 0, Limits(|d|, 0, false, 0)) && Decode([], b) == Some(d)
  }

  /** A flagged value is inflated to `d` exactly when it is the length of `d` and a block that stands for it. */
  lemma InflateExactly(r: Response, compressSize: nat, d: seq<byte>)
    requires IsCompressed(r, compressSize) && d != []
    ensures Inflate(r, compressSize) == Value(d) <==>
              && |r.data| >= 4 && |d| <= 0x7FFF_FFFF && r.data[..4] == ToBE(|d|, 4) && Packs(r.data[4..], d)
  {
    hide Parse, Fits, BlockBytesWith, ToBE, FromBE, Power256, Decode, AllEncodable;
    if |r.data| >= 4 && FromBE(r.data[..4]) <= 0x7FFF_FFFF {
      Powers();
      BEExactly(r.data[..4]);
      var l := Limits(|d|, 0, false, 0);
      if FromBE(r.data[..4]) == |d| {
        forall b: Block ensures Parse(r.data[4..], l) == Parsed(b) <==>
                                  AllEncodable(b.seqs) && Fits(b, 0, l)
                                  && exists junk: nat :: junk < 16 && r.data[4..] == BlockBytesWith(b, junk)
        {
          AcceptsWhole(r.data[4..], l, b);
        }
      }
    }
    if |d| <= 0x7FFF_FFFF {
      Powers();
      BERoundTrip(|d|, 4);
    }
  }

  lemma {:induction false} BEExactly(s: seq<byte>)
    ensures FromBE(s) < Power256(|s|) && ToBE(FromBE(s), |s|) == s
  {
    if s != [] {
      var init, last: int := s[..|s| - 1], s[|s| - 1];
      BEExactly(init);
      assert FromBE(s) / 256 == FromBE(init) && FromBE(s) % 256 == last;
    }
  }

  // ---------------------------------------------------------------- what is stored and what comes back

  /** The flags and bytes that send_data stores for a value; None when it refuses to compress it. */
  ghost function Stored(data: seq<byte>, flags: nat, compressSize: nat): Option<(nat, seq<byte>)> {
    if compressSize > 0 && |data| > compressSize then
      if HasCompressFlag(flags) || |Narrow(data)| > LZ4_MAX_INPUT_SIZE then None
      else Some((flags + FLAG_COMPRESS, ToBE(|Narrow(data)|, 4) + Compressed(Narrow(data))))
    else Some((flags, data))
  }

  /** The reply of a server to a get: it gives back the flags and bytes it was sent. */
  function Reply(cmd: byte, serial: nat, status: nat, cas: nat, flags: nat, key: seq<byte>,
                 data: seq<byte>): seq<byte> {
    Header(0x81, cmd, |key|, 4, status, 4 + |key| + |data|, serial, cas) + ToBE(flags, 4) + key + data
  }

  /** Any response: with extras or without. */
  function AnyReply(cmd: byte, serial: nat, status: nat, cas: nat, extras: seq<byte>, key: seq<byte>,
                    data: seq<byte>): seq<byte> {
    Header(0x81, cmd, |key|, |extras|, status, |extras| + |key| + |data|, serial, cas) + extras + key + data
  }

  /** A request, and what follows it in the stream. */
  datatype Arrived = Arrived(cmd: byte, serial: nat, cas: nat, key: seq<byte>, extras: seq<byte>, data: seq<byte>,
                             rest: seq<byte>)

  /** The first request of a stream, as a server cuts it out: its body is as long as the header says. */
  function TakeRequest(s: seq<byte>): Option<Arrived> {
    if |s| < HEADER_SIZE || s[0] != 0x80 then None
    else
      var total, keyLen := TotalLength(s), FromBE(s[2..4]);
      var extrasLen: nat := s[4];
      if |s| < HEADER_SIZE + total || total < extrasLen + keyLen then None
      else
        var body := s[HEADER_SIZE..HEADER_SIZE + total];
        var extras, key := body[..extrasLen], body[extrasLen..extrasLen + keyLen];
        Some(Arrived(s[1], FromLE32(s[12..16]), FromBE(s[16..24]), key, extras, body[extrasLen + keyLen..],
                     s[HEADER_SIZE + total..]))
  }

  lemma HeaderParts(magic: byte, cmd: byte, keyLen: nat, extrasLen: nat, status: nat, total: nat, serial: nat, cas: nat)
    ensures var h := Header(magic, cmd, keyLen, extrasLen, status, total, serial, cas);
            && h[0] == magic && h[1] == cmd && h[2..4] == ToBE(keyLen, 2) && h[4] == extrasLen % 256
            && h[6..8] == ToBE(status, 2) && h[8..12] == ToBE(total, 4)
            && h[12..16] == ToLE32(serial) && h[16..24] == ToBE(cas, 8)
  {
    hide ToBE, ToLE32;
  }

  /** The header tells its fields. */
  lemma HeaderTells(magic: byte, cmd: byte, keyLen: nat, extrasLen: nat, status: nat, total: nat, serial: nat, cas: nat,
                    s: seq<byte>)
    requires keyLen < 0x1_0000 && extrasLen < 256 && status < 0x1_0000 && total < 0x1_0000_0000
    requires serial < 0x1_0000_0000 && cas < Power256(8)
    requires HEADER_SIZE <= |s| && s[..HEADER_SIZE] == Header(magic, cmd, keyLen, extrasLen, status, total, serial, cas)
    ensures s[0] == magic && s[1] == cmd && FromBE(s[2..4]) == keyLen && s[4] == extrasLen
    ensures FromBE(s[6..8]) == status && FromBE(s[8..12]) == total
    ensures FromLE32(s[12..16]) == serial && FromBE(s[16..24]) == cas
  {
    hide Header, ToBE, ToLE32, FromBE, FromLE32, Power256;
    var h := Header(magic, cmd, keyLen, extrasLen, status, total, serial, cas);
    HeaderParts(magic, cmd, keyLen, extrasLen, status, total, serial, cas);
    Powers();
    BERoundTrip(keyLen, 2);
    BERoundTrip(status, 2);
    BERoundTrip(total, 4);
    BERoundTrip(cas, 8);
    LERoundTrip(serial);
    assert s[0] == h[0] && s[1] == h[1] && s[4] == h[4];
    assert s[2..4] == h[2..4] && s[6..8] == h[6..8] && s[8..12] == h[8..12];
    assert s[12..16] == h[12..16] && s[16..24] == h[16..24];
  }

  /** A response with these fields is broken exactly when its extras are neither 0 nor 4 bytes, or it answers an
      increment or a decrement well with something else than 8 bytes; otherwise it is recognised as these. */
  lemma AnyReplyParses(cmd: byte, serial: nat, status: nat, cas: nat, extras: seq<byte>, key: seq<byte>,
                       data: seq<byte>)
    requires serial < 0x1_0000_0000 && status < 0x1_0000 && cas < Power256(8)
    requires |extras| < 256 && |key| < 0x1_0000 && |extras| + |key| + |data| <= MAX_CAPACITY
    ensures var p := AnyReply(cmd, serial, status, cas, extras, key, data);
            var counted := (cmd == CMD_INCREMENT || cmd == CMD_DECREMENT) && status == 0;
            Frame(p) == if (|extras| != 0 && |extras| != 4) || (counted && |data| != 8) then Bad
                        else Packet(Response(serial, |p|, status, cmd, cas, FromBE(extras), key,
                                             if counted then [] else data, if counted then FromBE(data) else 0))
  {
    hide Header, FromBE, FromLE32, Power256;
    var total := |extras| + |key| + |data|;
    var p := AnyReply(cmd, serial, status, cas, extras, key, data);
    HeaderTells(0x81, cmd, |key|, |extras|, status, total, serial, cas, p);
    assert p[..HEADER_SIZE + total] == p;
    assert p[HEADER_SIZE..HEADER_SIZE + |extras|] == extras;
    assert p[HEADER_SIZE + |extras|..HEADER_SIZE + |extras| + |key|] == key;
    assert p[HEADER_SIZE + |extras| + |key|..] == data;
    NoDigits();
  }

  lemma NoDigits()
    ensures FromBE([]) == 0
  {
  }

  /** The reply is recognised as a packet with exactly the key, flags and bytes it was made of. */
  lemma ReplyParses(cmd: byte, serial: nat, status: nat, cas: nat, flags: nat, key: seq<byte>, data: seq<byte>)
    requires serial < 0x1_0000_0000 && status < 0x1_0000 && cas < Power256(8) && flags < 0x1_0000_0000
    requires |key| < 0x1_0000 && 4 + |key| + |data| <= MAX_CAPACITY
    requires !((cmd == CMD_INCREMENT || cmd == CMD_DECREMENT) && status == 0)
    ensures var p := Reply(cmd, serial, status, cas, flags, key, data);
            Frame(p) == Packet(Response(serial, |p|, status, cmd, cas, flags, key, data, 0))
  {
    hide Header, ToBE, FromBE, Power256, Frame;
    AnyReplyParses(cmd, serial, status, cas, ToBE(flags, 4), key, data);
    Powers();
    BERoundTrip(flags, 4);
  }

  /** When a server answers twice, its second reply is left unread. */
  lemma SecondReplyUnread(cmd: byte, serial: nat)
    requires serial < 0x1_0000_0000 && cmd != CMD_INCREMENT && cmd != CMD_DECREMENT
    ensures var r := Reply(cmd, serial, 0, 0, 0, [], []);
            Whole(r + r) && AfterReply(r + r, serial) == Some(r) && r != []
  {
    hide Frame, Reply;
    var r := Reply(cmd, serial, 0, 0, 0, [], []);
    assert Power256(8) > 0;
    ReplyParses(cmd, serial, 0, 0, 0, [], []);
    FrameStable(r, r);
    PacketSize(r);
    assert (r + r)[|r|..] == r && r[|r|..] == [];
    assert Whole(r[|r|..]);
  }

  lemma PacketSize(p: seq<byte>)
    ensures Frame(p).Packet? ==> |p| >= HEADER_SIZE
  {
  }

  lemma Powers()
    ensures Power256(2) == 0x1_0000 && Power256(4) == 0x1_0000_0000
  {
    assert Power256(1) == 256 && Power256(3) == 256 * Power256(2);
  }

  lemma FlagSet(flags: nat)
    requires flags < 0x1_0000_0000 && !HasCompressFlag(flags)
    ensures HasCompressFlag(flags + FLAG_COMPRESS) && flags + FLAG_COMPRESS < 0x1_0000_0000
  {
  }

  lemma NotInflated(r: Response, threshold: nat)
    requires !HasCompressFlag(r.flags)
    ensures Inflate(r, threshold) == Unchanged
  {
    hide Parse, Decode;
  }

  lemma Decompresses(cut: seq<byte>)
    requires |cut| <= LZ4_MAX_INPUT_SIZE
    ensures var o := Parse(Compressed(cut), Limits(|cut|, 0, false, 0));
            o.Parsed? && BlockLength(o.block) == |cut| && Decode([], o.block) == Some(cut)
  {
    hide Parse, Compressed, Decode, CompressedBlock, BlockLength;
    CompressThenParse(cut, |cut|);
    CompressedBlockSound(cut);
  }

  /** What the sender compressed is inflated to what it was. */
  lemma InflatesBack(r: Response, cut: seq<byte>, threshold: nat)
    requires |cut| <= LZ4_MAX_INPUT_SIZE && IsCompressed(r, threshold)
    requires r.data == ToBE(|cut|, 4) + Compressed(cut)
    ensures Inflate(r, threshold) == Value(cut)
  {
    hide Parse, Compressed, Decode, BlockLength, Power256, ToBE, FromBE, HasCompressFlag;
    Powers();
    BERoundTrip(|cut|, 4);
    assert r.data[..4] == ToBE(|cut|, 4);
    assert FromBE(r.data[..4]) == |cut| <= 0x7FFF_FFFF;
    assert r.data[4..] == Compressed(cut);
    Decompresses(cut);
    var o := Parse(r.data[4..], Limits(|cut|, 0, false, 0));
    assert o.Parsed? && BlockLength(o.block) == |cut| && Decode([], o.block) == Some(cut);
  }

  /** A value goes out as it is unless it is longer than the threshold; then its flag is set and its bytes are the
      length and a block that decodes to it, and it is refused exactly when the flag is taken or it is too long. */
  lemma StoredAbove(data: seq<byte>, flags: nat, compressSize: nat)
    requires flags < 0x1_0000_0000
    ensures var st := Stored(data, flags, compressSize);
            if compressSize == 0 || |data| <= compressSize then st == Some((flags, data))
            else if HasCompressFlag(flags) || |Narrow(data)| > LZ4_MAX_INPUT_SIZE then st == None
            else
              && st.Some? && |st.value.1| >= 4 && HasCompressFlag(st.value.0)
              && FromBE(st.value.1[..4]) == |Narrow(data)|
              && var o := Parse(st.value.1[4..], Limits(|Narrow(data)|, 0, false, 0));
                 o.Parsed? && Decode([], o.block) == Some(Narrow(data))
  {
    hide Parse, Compressed, Decode, Power256, ToBE, FromBE, HasCompressFlag;
    var cut := Narrow(data);
    if compressSize > 0 && |data| > compressSize && !HasCompressFlag(flags) && |cut| <= LZ4_MAX_INPUT_SIZE {
      Powers();
      BERoundTrip(|cut|, 4);
      FlagSet(flags);
      Decompresses(cut);
      var bytes := ToBE(|cut|, 4) + Compressed(cut);
      assert bytes[..4] == ToBE(|cut|, 4) && bytes[4..] == Compressed(cut);
    }
  }

  /** Storing a value and reading it back gives the flags that were given and the data, compressed or
      not, exactly when its length survives the cast to 32 bits or nothing was compressed. */
  lemma StoredComesBack(data: seq<byte>, flags: nat, sendThreshold: nat, recvThreshold: nat,
                        cmd: byte, serial: nat, status: nat, cas: nat, key: seq<byte>)
    requires flags < 0x1_0000_0000 && !HasCompressFlag(flags) && recvThreshold > 0
    requires Stored(data, flags, sendThreshold).Some?
    requires serial < 0x1_0000_0000 && status < 0x1_0000 && cas < Power256(8) && |key| < 0x1_0000
    requires !((cmd == CMD_INCREMENT || cmd == CMD_DECREMENT) && status == 0)
    requires 4 + |key| + |Stored(data, flags, sendThreshold).value.1| <= MAX_CAPACITY
    ensures var st := Stored(data, flags, sendThreshold).value;
            var frame := Frame(Reply(cmd, serial, status, cas, st.0, key, st.1));
            && frame.Packet? && frame.r.key == key && frame.r.serial == serial && frame.r.command == cmd
            && if st.0 == flags
               then Inflate(frame.r, recvThreshold) == Unchanged && frame.r.flags == flags && frame.r.data == data
               else Inflate(frame.r, recvThreshold) == Value(Narrow(data)) && frame.r.flags - FLAG_COMPRESS == flags
    ensures Narrow(data) == data <==> |data| < 0x1_0000_0000
  {
    hide Reply, Frame, Compressed, Inflate, HasCompressFlag, ToBE;
    var st := Stored(data, flags, sendThreshold).value;
    FlagSet(flags);
    ReplyParses(cmd, serial, status, cas, st.0, key, st.1);
    var r := Frame(Reply(cmd, serial, status, cas, st.0, key, st.1)).r;
    if st.0 == flags { NotInflated(r, recvThreshold); } else { InflatesBack(r, Narrow(data), recvThreshold); }
  }

  /** A value of 2^32 bytes that is compressed comes back empty. */
  lemma LongValueLost(data: seq<byte>, flags: nat, sendThreshold: nat, recvThreshold: nat, cmd: byte, serial: nat)
    requires |data| == 0x1_0000_0000 && 0 < sendThreshold < |data| && recvThreshold > 0
    requires flags < 0x1_0000_0000 && !HasCompressFlag(flags) && serial < 0x1_0000_0000
    requires cmd != CMD_INCREMENT && cmd != CMD_DECREMENT
    ensures var st := Stored(data, flags, sendThreshold);
            && st.Some?
            && var f := Frame(Reply(cmd, serial, 0, 0, st.value.0, [], st.value.1));
               f.Packet? && Inflate(f.r, recvThreshold) == Value([])
  {
    hide Reply, Frame, Inflate, Compressed;
    assert Narrow(data) == [];
    assert Power256(8) > 0;
    StoredComesBack(data, flags, sendThreshold, recvThreshold, cmd, serial, 0, 0, []);
  }
}
