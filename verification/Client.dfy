/** A connection to the server: yrmcds_recv over its growing buffer, send_command and send_data. */
module Client {
  import opened Bytes
  import opened BlockFormat
  import opened BlockParser
  import opened WildCopy
  import opened FastCodec
  import opened Wire
  import S = Socket

  const RECV_SIZE := 256 * 1024
  const MIB := 1024 * 1024
  const MAX_DATA_SIZE := 1024 * MIB

  /** The capacities that doubling from 1 MiB can reach. */
  predicate CapacityOk(c: nat) {
    c == MIB || c == 2 * MIB || c == 4 * MIB || c == 8 * MIB || c == 16 * MIB || c == 32 * MIB || c == 64 * MIB
  }

  predicate BadCommand(cmd: nat, key: seq<byte>, extras: seq<byte>, data: seq<byte>) {
    cmd >= CMD_BOTTOM || |key| > 65535 || |extras| > 127 || |data| > MAX_DATA_SIZE
  }

  /** A whole request. */
  function Request(cmd: byte, serial: nat, cas: nat, key: seq<byte>, extras: seq<byte>, data: seq<byte>): seq<byte> {
    Header(0x80, cmd, |key|, |extras|, 0, |key| + |extras| + |data|, serial, cas) + extras + key + data
  }

  predicate NoneEmpty(buffers: seq<seq<byte>>) { forall i :: 0 <= i < |buffers| ==> buffers[i] != [] }

  /** The first of the buffers goes. */
  method Shift(iov: array<seq<byte>>, count: nat)
    requires 0 < count <= iov.Length
    modifies iov
    ensures iov[..count - 1] == old(iov[1..count])
  {
    for i := 0 to count - 1
      invariant iov[..i] == old(iov[1..i + 1])
      invariant forall j :: i <= j < count ==> iov[j] == old(iov[j])
    {
      iov[i] := iov[i + 1];
    }
  }

  /** After `n` bytes have been written: the buffers still to send. */
  method Advance(iov: array<seq<byte>>, count: nat, n: nat) returns (left: nat)
    requires 0 < count <= iov.Length && n <= |Flatten(iov[..count])| && NoneEmpty(iov[..count])
    modifies iov
    ensures left <= count && NoneEmpty(iov[..left])
    ensures Flatten(iov[..left]) == old(Flatten(iov[..count]))[n..]
  {
    left := count;
    var rest: nat := n;
    ghost var flat := Flatten(iov[..count]);
    while rest > 0
      invariant 0 < left <= count && rest <= n && NoneEmpty(iov[..left]) && rest <= |Flatten(iov[..left])|
      invariant Flatten(iov[..left])[rest..] == flat[n..]
    {
      ghost var was := iov[..left];
      FlattenHead(was);
      if rest < |iov[0]| {
        iov[0] := iov[0][rest..];
        ghost var now := iov[..left];
        assert now[0] == was[0][rest..] && now[1..] == was[1..];
        FlattenHead(now);
        return;
      }
      rest := rest - |iov[0]|;
      assert Flatten(was[1..])[rest..] == Flatten(was)[rest + |was[0]|..];
      left := left - 1;
      if left == 0 {
        assert was[1..] == [] && iov[..0] == [];
        return;
      }
      Shift(iov, left + 1);
      assert iov[..left] == was[1..];
    }
  }

  /** One more buffer, unless it is empty. */
  method Append(iov: array<seq<byte>>, count: nat, b: seq<byte>) returns (more: nat)
    requires count < iov.Length && NoneEmpty(iov[..count])
    modifies iov
    ensures more <= count + 1 && NoneEmpty(iov[..more])
    ensures Flatten(iov[..more]) == old(Flatten(iov[..count])) + b
  {
    more := count;
    if |b| > 0 {
      iov[count] := b;
      more := count + 1;
      assert iov[..more] == old(iov[..count]) + [b];
    }
  }

  /** What a call to writev makes of the first `count` buffers. */
  function Gathered(iov: array<seq<byte>>, count: nat): seq<byte>
    requires count <= iov.Length
    reads iov
  {
    Flatten(iov[..count])
  }

  /** OK exactly when no call failed, and then all of the message was sent; otherwise a system error, with a
      proper prefix sent. */
  ghost predicate SentPost(before: seq<byte>, after: seq<byte>, message: seq<byte>, failures: int, e: Error) {
    if e == OK then failures == 0 && after == before + message
    else e == SYSTEM_ERROR && failures == 1 && exists k :: 0 <= k < |message| && after == before + message[..k]
  }

  class Yrmcds {
    const sock: S.Stream
    var serial: nat
    var compressSize: nat
    var recvbuf: array<byte>
    var capacity: nat
    var used: nat
    var lastSize: nat
    var decompressed: array?<byte>
    var invalid: bool

    ghost predicate Valid()
      reads this
    {
      lastSize <= used <= capacity && capacity == recvbuf.Length && CapacityOk(capacity) && serial < 0x1_0000_0000
    }

    /** Bytes received or on their way that no response has been returned for. */
    ghost function Pending(): seq<byte>
      requires Valid()
      reads this, recvbuf, sock
    {
      recvbuf[lastSize..used] + sock.incoming
    }

    /** yrmcds_connect, once the socket is there. */
    constructor (sock: S.Stream)
      ensures Valid() && this.sock == sock && fresh(recvbuf) && lastSize == used == 0
      ensures !invalid && compressSize == serial == 0
    {
      this.sock := sock;
      serial, compressSize := 0, 0;
      recvbuf := new byte[MIB];
      capacity, used, lastSize, decompressed, invalid := MIB, 0, 0, null, false;
    }

    /** realloc to twice the capacity. */
    method Grow()
      requires Valid() && capacity <= 32 * MIB
      modifies this`recvbuf, this`capacity
      ensures Valid() && capacity == 2 * old(capacity) && fresh(recvbuf)
      ensures recvbuf[..used] == old(recvbuf[..used])
    {
      var newBuffer := new byte[capacity * 2];
      forall i | 0 <= i < capacity { newBuffer[i] := recvbuf[i]; }
      recvbuf := newBuffer;
      capacity := capacity * 2;
    }

    /** RECV_SIZE bytes of room, whatever has been received of a packet that is not too long. */
    method EnsureRoom()
      requires Valid() && used < HEADER_SIZE + MAX_CAPACITY
      modifies this`recvbuf, this`capacity
      ensures Valid() && RECV_SIZE <= capacity - used && (recvbuf == old(recvbuf) || fresh(recvbuf))
      ensures recvbuf[..used] == old(recvbuf[..used])
    {
      if capacity - used < RECV_SIZE { Grow(); }
    }

    /** recv_data: makes sure of RECV_SIZE bytes of room, then receives once. Nothing is lost. */
    method RecvData() returns (e: Error)
      requires Valid() && lastSize == 0 && used < HEADER_SIZE + MAX_CAPACITY
      modifies this`recvbuf, this`capacity, this`used, recvbuf, sock`incoming, sock`script, sock`broken
      ensures Valid() && Pending() == old(Pending()) && (recvbuf == old(recvbuf) || fresh(recvbuf))
      ensures e == OK ==> used > old(used) && used <= old(used) + RECV_SIZE && sock.broken == old(sock.broken)
      ensures e != OK ==> used == old(used) && (e == SYSTEM_ERROR || e == DISCONNECTED)
      ensures e != OK ==>
                || sock.broken == old(sock.broken) + 1
                || (sock.broken == old(sock.broken) && sock.incoming == [])
      ensures sock.sent == old(sock.sent)
    {
      hide OnlyWithin, CapacityOk;
      EnsureRoom();
      ghost var before := recvbuf[..used];
      ghost var incoming := sock.incoming;
      while true
        invariant Valid() && used == old(used) && RECV_SIZE <= capacity - used && lastSize == 0
        invariant recvbuf == old(recvbuf) || fresh(recvbuf)
        invariant sock.incoming == incoming && sock.sent == old(sock.sent) && sock.broken == old(sock.broken)
        invariant recvbuf[..used] == before
        decreases |sock.script|
      {
        var o := sock.Recv(recvbuf, used, RECV_SIZE);
        match o
        case Eintr => assert recvbuf[..used] == recvbuf[..][..used];
        case Errno => assert recvbuf[..used] == recvbuf[..][..used]; return SYSTEM_ERROR;
        case Eof => assert recvbuf[..used] == recvbuf[..][..used]; return DISCONNECTED;
        case Moved(n) =>
          used := used + n;
          return OK;
      }
    }

    /** Receives until `n` bytes are buffered. */
    method FillTo(n: nat) returns (e: Error)
      requires Valid() && lastSize == 0 && n <= HEADER_SIZE + MAX_CAPACITY
      modifies this`recvbuf, this`capacity, this`used, recvbuf, sock`incoming, sock`script, sock`broken
      ensures Valid() && Pending() == old(Pending()) && (recvbuf == old(recvbuf) || fresh(recvbuf))
      ensures e == OK ==> used >= n && sock.broken == old(sock.broken)
      ensures e != OK ==> e == SYSTEM_ERROR || e == DISCONNECTED
      ensures e != OK ==> sock.broken == old(sock.broken) + 1 || (sock.broken == old(sock.broken) && |Pending()| < n)
      ensures sock.sent == old(sock.sent)
    {
      hide Pending, CapacityOk;
      e := OK;
      while used < n
        invariant Valid() && lastSize == 0 && Pending() == old(Pending())
        invariant recvbuf == old(recvbuf) || fresh(recvbuf)
        invariant sock.sent == old(sock.sent) && sock.broken == old(sock.broken) && e == OK
        decreases n - used
      {
        e := RecvData();
        if e != OK {
          if sock.incoming == [] { NothingMore(); }
          return;
        }
      }
    }

    lemma NothingMore()
      requires Valid() && lastSize == 0 && sock.incoming == []
      ensures |Pending()| == used
    {
    }

    /** The response returned last is dropped, and its decompressed value released. */
    method DropLast()
      requires Valid()
      modifies this`used, this`lastSize, this`decompressed, recvbuf
      ensures Valid() && lastSize == 0 && Pending() == old(Pending())
      ensures sock.sent == old(sock.sent)
    {
      if lastSize > 0 {
        var remain := used - lastSize;
        var kept := recvbuf[lastSize..used];
        if remain > 0 { CopyBytes(recvbuf, 0, kept); }
        assert recvbuf[..remain] == kept;
        used := remain;
        lastSize := 0;
        decompressed := null;
      }
    }

    /** LZ4_decompress_safe on the value of a compressed packet. A body that ends inside its first
        length bytes makes the decoder read what happens to follow in the buffer, and always fails. */
    method InflateBody(body: seq<byte>, size: nat) returns (ok: bool, buf: array<byte>)
      ensures fresh(buf) && buf.Length == size
      ensures var o := Parse(body, Limits(size, 0, false, 0));
              && ok == (o.Parsed? && BlockLength(o.block) == size)
              && (ok && Decode([], o.block).Some? ==> buf[..] == Decode([], o.block).value)
    {
      hide Parse, Decode;
      buf := new byte[size];
      OverreadExactly(body, Limits(size, 0, false, 0));
      if size > 0 && (|body| == 0 || (|body| == 1 && body[0] / 16 == RUN_MASK)) { return false, buf; }
      var d := DecompressSafe(body, buf, 0, size);
      ok := d == size;
      if ok { assert buf[0..size] == buf[..]; }
    }

    /** The framing part of yrmcds_recv: the first packet of the stream is in the buffer, or there is
        an error, of the protocol or of the socket. */
    method ReceivePacket() returns (e: Error, packet: Response)
      requires Valid() && lastSize == 0
      modifies this`recvbuf, this`capacity, this`used, recvbuf, sock`incoming, sock`script, sock`broken
      ensures Valid() && Pending() == old(Pending()) && sock.sent == old(sock.sent)
      ensures recvbuf == old(recvbuf) || fresh(recvbuf)
      ensures var f := Frame(old(Pending()));
              match e
              case OK => f == Packet(packet) && packet.length <= used && sock.broken == old(sock.broken)
              case PROTOCOL_ERROR => f.Bad? && sock.broken == old(sock.broken)
              case SYSTEM_ERROR => NotNow(f, sock.broken - old(sock.broken))
              case DISCONNECTED => NotNow(f, sock.broken - old(sock.broken))
              case _ => false
    {
      hide Frame, CapacityOk, ParsePacket, FromBE;
      packet := Response(0, 0, 0, 0, 0, 0, [], [], 0);
      ghost var p := Pending();
      e := FillTo(HEADER_SIZE);
      if e != OK {
        FrameShort(p);
        return;
      }
      BufferStarts(p, HEADER_SIZE);
      assert recvbuf[8..12] == p[8..12];
      if recvbuf[0] != 0x81 || FromBE(recvbuf[8..12]) > MAX_CAPACITY {
        FrameBad(p);
        return PROTOCOL_ERROR, packet;
      }
      var total := FromBE(recvbuf[8..12]);
      e := FillTo(HEADER_SIZE + total);
      if e != OK {
        FrameShort(p);
        return;
      }
      BufferStarts(p, HEADER_SIZE + total);
      FrameWhole(p, recvbuf[..HEADER_SIZE + total]);
      var framing := ParsePacket(recvbuf[..HEADER_SIZE + total]);
      if framing.Bad? { return PROTOCOL_ERROR, packet; }
      packet := framing.r;
    }

    /** yrmcds_recv: the next packet of the stream, or why there is none. After a failed read nothing
        is lost and the next call goes on from there. */
    method Recv() returns (e: Error, r: Response)
      requires Valid()
      modifies this, recvbuf, sock`incoming, sock`script, sock`broken
      ensures Valid() && (recvbuf == old(recvbuf) || fresh(recvbuf))
      ensures sock.sent == old(sock.sent) && serial == old(serial) && compressSize == old(compressSize)
      ensures if old(invalid) then e == PROTOCOL_ERROR && invalid
              else RecvPost(old(Pending()), Pending(), invalid, compressSize, sock.broken - old(sock.broken), e, r)
    {
      hide Frame, Inflate, CapacityOk, Delivered;
      r := Response(0, 0, 0, 0, 0, 0, [], [], 0);
      if invalid { return PROTOCOL_ERROR, r; }
      DropLast();
      var packet;
      e, packet := ReceivePacket();
      if e == PROTOCOL_ERROR { invalid := true; }
      if e != OK { return; }
      var ok;
      ok, r := Deliver(packet);
      if !ok {
        invalid := true;
        return PROTOCOL_ERROR, r;
      }
      lastSize := packet.length;
      assert Pending() == old(Pending())[packet.length..];
    }

    lemma BufferStarts(p: seq<byte>, n: nat)
      requires Valid() && lastSize == 0 && Pending() == p && n <= used
      ensures n <= |p| && recvbuf[..n] == p[..n] && recvbuf[..used] <= p
    {
    }

    /** The last part of yrmcds_recv: transparent decompression. */
    method Deliver(packet: Response) returns (ok: bool, r: Response)
      modifies this`decompressed
      ensures var i := Inflate(packet, compressSize);
              ok == !i.Broken? && (ok ==> Delivered(r, packet, i))
    {
      hide Parse, Decode, FromBE;
      r := packet;
      if !IsCompressed(packet, compressSize) { return true, r; }
      if |packet.data| < 4 { return false, r; }
      var size := FromBE(packet.data[..4]);
      if size > 0x7FFF_FFFF { return false, r; }
      var buf;
      ok, buf := InflateBody(packet.data[4..], size);
      decompressed := buf;
      if ok {
        FlagLeavesRest(packet.flags);
        r := packet.(flags := packet.flags - FLAG_COMPRESS, data := buf[..]);
        DecodeLength(Parse(packet.data[4..], Limits(size, 0, false, 0)).block);
      }
    }

    // -------------------------------------------------------------- sending

    /** The write loop of send_command: short writes are continued and EINTR retried. */
    method Transmit(iov: array<seq<byte>>, count: nat) returns (e: Error)
      requires count <= iov.Length && NoneEmpty(iov[..count])
      modifies iov, sock`sent, sock`script, sock`broken
      ensures sock.incoming == old(sock.incoming)
      ensures SentPost(old(sock.sent), sock.sent, old(Flatten(iov[..count])), sock.broken - old(sock.broken), e)
    {
      ghost var flat, before := Flatten(iov[..count]), sock.sent;
      var left: nat := count;
      ghost var done: nat := 0;
      while left > 0
        invariant left <= count && NoneEmpty(iov[..left]) && done <= |flat|
        invariant Flatten(iov[..left]) == flat[done..] && sock.sent == before + flat[..done]
        invariant sock.incoming == old(sock.incoming) && sock.broken == old(sock.broken)
        decreases |sock.script|
      {
        var bytes := Gathered(iov, left);
        assert bytes == flat[done..];
        assert iov[..left][0] == iov[0] != [];
        var o := sock.Writev(bytes);
        match o
        case Errno => return SYSTEM_ERROR;
        case Moved(n) =>
          assert flat[..done] + flat[done..][..n] == flat[..done + n];
          left := Advance(iov, left, n);
          done := done + n;
        case _ =>
      }
      e := OK;
    }

    /** Nothing was sent and no system call made. */
    ghost predicate Untouched(serial: nat, sent: seq<byte>, broken: nat)
      reads this, sock
    {
      this.serial == serial && sock.sent == sent && sock.broken == broken
    }

    /** send_command. */
    method SendCommand(cmd: byte, cas: nat, key: seq<byte>, extras: seq<byte>, data: seq<byte>) returns (e: Error)
      requires Valid() && cas < Power256(8)
      modifies this`serial, sock`sent, sock`script, sock`broken
      ensures Valid() && sock.incoming == old(sock.incoming)
      ensures if BadCommand(cmd, key, extras, data) then
                e == BAD_ARGUMENT && Untouched(old(serial), old(sock.sent), old(sock.broken))
              else
                && serial == (old(serial) + 1) % 0x1_0000_0000
                && SentPost(old(sock.sent), sock.sent, Request(cmd, serial, cas, key, extras, data),
                            sock.broken - old(sock.broken), e)
    {
      hide CapacityOk, Header;
      if BadCommand(cmd, key, extras, data) { return BAD_ARGUMENT; }
      serial := (serial + 1) % 0x1_0000_0000;
      var h := Header(0x80, cmd, |key|, |extras|, 0, |key| + |extras| + |data|, serial, cas);
      var iov, count := new seq<byte>[4](i => []), 1;
      iov[0] := h;
      assert iov[..1] == [h] && Flatten([h]) == h;
      count := Append(iov, count, extras);
      count := Append(iov, count, key);
      count := Append(iov, count, data);
      assert Flatten(iov[..count]) == h + extras + key + data;
      e := Transmit(iov, count);
    }

    /** send_data: the value goes out compressed when it is longer than the threshold. */
    method SendData(cmd: byte, key: seq<byte>, data: seq<byte>, flags: nat, expire: nat, cas: nat) returns (e: Error)
      requires Valid() && cas < Power256(8) && flags < 0x1_0000_0000
      modifies this`serial, sock`sent, sock`script, sock`broken
      ensures Valid() && sock.incoming == old(sock.incoming)
      ensures var st := Stored(data, flags, compressSize);
              if key == [] || data == [] || (st.None? && HasCompressFlag(flags)) then
                e == BAD_ARGUMENT && Untouched(old(serial), old(sock.sent), old(sock.broken))
              else if st.None? then
                e == COMPRESS_FAILED && Untouched(old(serial), old(sock.sent), old(sock.broken))
              else if BadCommand(cmd, key, [], st.value.1) then
                e == BAD_ARGUMENT && Untouched(old(serial), old(sock.sent), old(sock.broken))
              else
                && serial == (old(serial) + 1) % 0x1_0000_0000
                && SentPost(old(sock.sent), sock.sent,
                            Request(cmd, serial, cas, key, ToBE(st.value.0, 4) + ToBE(expire, 4), st.value.1),
                            sock.broken - old(sock.broken), e)
    {
      hide CapacityOk, Compressed, Request, ToBE;
      if key == [] || data == [] { return BAD_ARGUMENT; }
      var bytes, f := data, flags;
      if compressSize > 0 && |data| > compressSize {
        if HasCompressFlag(flags) { return BAD_ARGUMENT; }
        var cut := Narrow(data);
        var buf := new byte[CompressBound(|cut|)];
        var size := Compress(cut, buf);
        if size == 0 { return COMPRESS_FAILED; }
        f, bytes := flags + FLAG_COMPRESS, ToBE(|cut|, 4) + buf[..size];
      }
      e := SendCommand(cmd, cas, key, ToBE(f, 4) + ToBE(expire, 4), bytes);
    }
  }

  /** A socket error: the environment made a call fail, or there is no whole packet. */
  ghost predicate NotNow(f: Framing, failures: int) {
    failures == 1 || (failures == 0 && f.NeedMore?)
  }

  /** What one yrmcds_recv does to the bytes that are pending, when `failures` system calls failed. */
  ghost predicate RecvPost(before: seq<byte>, after: seq<byte>, invalid: bool, compressSize: nat, failures: int,
                           e: Error, r: Response) {
    var f := Frame(before);
    match e
    case OK =>
      && f.Packet? && !invalid && failures == 0 && after == before[f.r.length..]
      && Delivered(r, f.r, Inflate(f.r, compressSize))
    case PROTOCOL_ERROR =>
      && invalid && failures == 0 && after == before
      && (f.Bad? || (f.Packet? && Inflate(f.r, compressSize).Broken?))
    case SYSTEM_ERROR => !invalid && after == before && NotNow(f, failures)
    case DISCONNECTED => !invalid && after == before && NotNow(f, failures)
    case _ => false
  }

  lemma FlagLeavesRest(flags: nat)
    requires HasCompressFlag(flags)
    ensures flags >= FLAG_COMPRESS
  {
  }

  lemma DecodeLength(b: Block)
    ensures Decode([], b).Some? ==> |Decode([], b).value| == BlockLength(b)
  {
  }

  lemma FrameShort(p: seq<byte>)
    ensures |p| < HEADER_SIZE ==> Frame(p).NeedMore?
    ensures HEADER_SIZE <= |p| < HEADER_SIZE + FromBE(p[8..12]) && p[0] == 0x81 && FromBE(p[8..12]) <= MAX_CAPACITY ==>
              Frame(p).NeedMore?
  {
  }

  lemma FrameBad(p: seq<byte>)
    requires |p| >= HEADER_SIZE && (p[0] != 0x81 || FromBE(p[8..12]) > MAX_CAPACITY)
    ensures Frame(p).Bad?
  {
  }

  lemma FrameWhole(p: seq<byte>, q: seq<byte>)
    requires |p| >= HEADER_SIZE && p[0] == 0x81 && FromBE(p[8..12]) <= MAX_CAPACITY
    requires |q| <= |p| && q == p[..|q|] && |q| == HEADER_SIZE + FromBE(p[8..12])
    ensures TotalLength(q) == FromBE(p[8..12]) && Frame(p) == ParsePacket(q)
    ensures Frame(p).Packet? ==> Frame(p).r.length == |q|
    ensures !Frame(p).NeedMore?
  {
    assert q[8..12] == p[8..12];
  }

  /** The response a caller sees for a packet. */
  ghost predicate Delivered(r: Response, packet: Response, i: Inflated) {
    match i
    case Unchanged => r == packet
    case Value(d) => r == packet.(flags := r.flags, data := d) && r.flags + FLAG_COMPRESS == packet.flags
    case Scrambled(n) =>
      && |r.data| == n && r == packet.(flags := r.flags, data := r.data) && r.flags + FLAG_COMPRESS == packet.flags
    case Broken => false
  }
}
