/** What a program sees of its connections: packets in order, and values that come back. */
module Sessions {
  import opened Bytes
  import opened BlockFormat
  import opened FastCodec
  import opened Wire
  import opened Client
  import S = Socket

  /** What has been delivered after some calls: the first packets of the stream, in order. */
  ghost predicate InOrder(got: seq<Response>, stream: seq<byte>, left: seq<byte>, compressSize: nat) {
    && |got| <= |Frames(stream)| && Frames(left) == Frames(stream)[|got|..]
    && forall i :: 0 <= i < |got| ==> Delivered(got[i], Frames(stream)[i], Inflate(Frames(stream)[i], compressSize))
  }

  /** No packet can be read from here on. */
  ghost predicate StreamBroken(stream: seq<byte>, compressSize: nat) {
    var f := Frame(stream);
    f.Bad? || (f.Packet? && Inflate(f.r, compressSize).Broken?)
  }

  lemma OneMore(got: seq<Response>, stream: seq<byte>, left: seq<byte>, compressSize: nat, r: Response)
    requires InOrder(got, stream, left, compressSize) && Frame(left).Packet?
    requires Delivered(r, Frame(left).r, Inflate(Frame(left).r, compressSize))
    ensures InOrder(got + [r], stream, left[Frame(left).r.length..], compressSize)
  {
    hide Frame, Inflate, Delivered;
    var all := Frames(stream);
    assert Frames(left) == [Frame(left).r] + Frames(left[Frame(left).r.length..]);
    assert all[|got|] == all[|got|..][0] && all[|got| + 1..] == all[|got|..][1..];
  }

  /** Calls yrmcds_recv so many times, whatever the socket does in between. The packets of the stream
      are returned in order, none twice and none lost; the only calls that return none are those in
      which a system call failed, and those made when no whole packet is left. */
  method ReceiveAll(c: Yrmcds, tries: nat) returns (got: seq<Response>)
    requires c.Valid() && !c.invalid
    modifies c, c.sock, c.recvbuf
    ensures c.Valid() && c.sock.sent == old(c.sock.sent)
    ensures InOrder(got, old(c.Pending()), c.Pending(), c.compressSize) && c.compressSize == old(c.compressSize)
    ensures c.invalid ==> StreamBroken(c.Pending(), c.compressSize)
    ensures c.invalid || Frame(c.Pending()).NeedMore? || |got| + (c.sock.broken - old(c.sock.broken)) == tries
  {
    hide Frame, Inflate, Delivered, InOrder, Frames, CapacityOk;
    ghost var stream := c.Pending();
    got := [];
    InOrderStart(stream, c.compressSize);
    for i := 0 to tries
      invariant c.Valid() && c.sock.sent == old(c.sock.sent) && c.compressSize == old(c.compressSize)
      invariant (c.recvbuf == old(c.recvbuf) || fresh(c.recvbuf)) && !c.invalid
      invariant InOrder(got, stream, c.Pending(), c.compressSize)
      invariant Frame(c.Pending()).NeedMore? || |got| + (c.sock.broken - old(c.sock.broken)) == i
    {
      ghost var left := c.Pending();
      var e, r := c.Recv();
      if e == PROTOCOL_ERROR { return; }
      if e == OK {
        OneMore(got, stream, left, c.compressSize, r);
        got := got + [r];
      }
    }
  }

  lemma InOrderStart(stream: seq<byte>, compressSize: nat)
    ensures InOrder([], stream, stream, compressSize)
  {
  }

  /** A server cuts a request out of its stream by the length in the header, and finds every field in it. */
  lemma RequestArrives(cmd: byte, serial: nat, cas: nat, key: seq<byte>, extras: seq<byte>, data: seq<byte>,
                       more: seq<byte>)
    requires !BadCommand(cmd, key, extras, data) && serial < 0x1_0000_0000 && cas < Power256(8)
    ensures TakeRequest(Request(cmd, serial, cas, key, extras, data) + more)
            == Some(Arrived(cmd, serial, cas, key, extras, data, more))
  {
    hide Header, FromBE, FromLE32, Power256;
    var total := |key| + |extras| + |data|;
    var m := Request(cmd, serial, cas, key, extras, data);
    var s := m + more;
    assert s[..HEADER_SIZE] == Header(0x80, cmd, |key|, |extras|, 0, total, serial, cas);
    HeaderTells(0x80, cmd, |key|, |extras|, 0, total, serial, cas, s);
    var body := extras + key + data;
    assert s[HEADER_SIZE..HEADER_SIZE + total] == body && s[HEADER_SIZE + total..] == more;
    assert body[..|extras|] == extras && body[|extras|..|extras| + |key|] == key;
    assert body[|extras| + |key|..] == data;
  }

  lemma FlagsFirst(flags: nat, expire: nat)
    requires flags < 0x1_0000_0000
    ensures FromBE((ToBE(flags, 4) + ToBE(expire, 4))[..4]) == flags
  {
    hide ToBE, FromBE, Power256;
    Powers();
    BERoundTrip(flags, 4);
    assert (ToBE(flags, 4) + ToBE(expire, 4))[..4] == ToBE(flags, 4);
  }

  lemma StoredFacts(data: seq<byte>, flags: nat, compressSize: nat)
    requires flags < 0x1_0000_0000 && !HasCompressFlag(flags)
    ensures var st := Stored(data, flags, compressSize);
            if st.Some? then st.value.0 < 0x1_0000_0000 else |Narrow(data)| > LZ4_MAX_INPUT_SIZE
    ensures |data| < 0x1_0000_0000 ==> Narrow(data) == data
  {
    hide Compressed, ToBE;
  }

  /** Whole packets, and what comes after them. */
  lemma {:induction false} FramesJoin(p: seq<byte>, more: seq<byte>)
    requires Whole(p)
    ensures Frames(p + more) == Frames(p) + Frames(more)
    decreases |p|
  {
    hide Frame, Frames, Whole;
    NoFrames();
    if p == [] {
      assert p + more == more && [] + Frames(more) == Frames(more);
    } else {
      FirstFrame(p);
      FrameStable(p, more);
      FirstFrame(p + more);
      var f := Frame(p).r;
      assert (p + more)[f.length..] == p[f.length..] + more;
      FramesJoin(p[f.length..], more);
      assert [f] + (Frames(p[f.length..]) + Frames(more)) == [f] + Frames(p[f.length..]) + Frames(more);
    }
  }

  lemma FirstFrame(p: seq<byte>)
    ensures Whole(p) && p != [] ==> Frame(p).Packet? && Whole(p[Frame(p).r.length..])
    ensures Frame(p).Packet? ==> Frames(p) == [Frame(p).r] + Frames(p[Frame(p).r.length..])
  {
    hide Frame;
  }

  /** A call of yrmcds_recv for every packet there is and the reply behind them: the reply comes, unless
      calls fail or an earlier packet cannot be read. */
  lemma LastComes(got: seq<Response>, p: seq<byte>, reply: seq<byte>, left: seq<byte>, compressSize: nat)
    requires Whole(p) && Frame(reply).Packet? && Frame(reply).r.length == |reply|
    requires InOrder(got, p + reply, left, compressSize)
    ensures |got| <= |Frames(p)| + 1
    ensures |got| == |Frames(p)| + 1 ==>
              Delivered(got[|Frames(p)|], Frame(reply).r, Inflate(Frame(reply).r, compressSize))
    ensures |got| <= |Frames(p)| ==>
              Frame(left) == Packet(if |got| < |Frames(p)| then Frames(p)[|got|] else Frame(reply).r)
  {
    hide Frame, Inflate, Delivered, Whole;
    FramesJoin(p, reply);
    assert Frames(reply[|reply|..]) == [] by { NoFrames(); }
    var all := Frames(p + reply);
    assert all == Frames(p) + [Frame(reply).r];
    if |got| < |all| { assert Frames(left)[0] == all[|got|]; }
  }

  lemma NoFrames()
    ensures Frames([]) == []
  {
  }

  /** One client stores a value, the server keeps the flags and bytes of the request and gives them to
      another client, behind the packets already sent to it. That client gets the flags and the data that
      were given with the packet after those, whatever threshold each has and however the system calls chop
      the bytes up, unless the request is illegal, one of the calls that send it fails, so many of those that
      receive fail that the tries run out, or a packet before the reply cannot be read. */
  method SetThenGet(writer: Yrmcds, reader: Yrmcds, setCmd: byte, getCmd: byte, serial: nat, cas: nat,
                    key: seq<byte>, data: seq<byte>, flags: nat, expire: nat, tries: nat)
    returns (e: Error, got: seq<Response>)
    requires writer.Valid() && reader.Valid() && !reader.invalid && Whole(reader.Pending())
    requires writer != reader && writer.sock != reader.sock && reader.compressSize > 0
    requires flags < 0x1_0000_0000 && !HasCompressFlag(flags) && |data| < 0x1_0000_0000
    requires serial < 0x1_0000_0000 && cas < Power256(8) && getCmd != CMD_INCREMENT && getCmd != CMD_DECREMENT
    requires Stored(data, flags, writer.compressSize).Some? ==>
               4 + |Stored(data, flags, writer.compressSize).value.1| <= MAX_CAPACITY
    modifies writer, writer.sock, reader, reader.sock, reader.recvbuf
    ensures match e
            case OK =>
              var earlier, n := Frames(old(reader.Pending())), |Frames(old(reader.Pending()))|;
              if |got| > n then got[n].flags == flags && got[n].data == data && got[n].serial == serial
              else
                || |got| + (reader.sock.broken - old(reader.sock.broken)) == tries
                || (|got| < n && Inflate(earlier[|got|], reader.compressSize).Broken?)
            case SYSTEM_ERROR => writer.sock.broken == old(writer.sock.broken) + 1
            case BAD_ARGUMENT => key == [] || data == [] || BadCommand(setCmd, key, [], [])
            case COMPRESS_FAILED => |data| > LZ4_MAX_INPUT_SIZE
            case _ => false
  {
    hide Frame, Frames, Whole, Inflate, InOrder, Delivered, Reply, Stored, Request, CapacityOk, TakeRequest;
    StoredFacts(data, flags, writer.compressSize);
    var before := |writer.sock.sent|;
    e := writer.SendData(setCmd, key, data, flags, expire, cas);
    got := [];
    if e != OK { return; }
    ghost var st := Stored(data, flags, writer.compressSize).value;
    ghost var extras := ToBE(st.0, 4) + ToBE(expire, 4);
    var m := writer.sock.sent[before..];
    assert m == Request(setCmd, writer.serial, cas, key, extras, st.1) == m + [];
    RequestArrives(setCmd, writer.serial, cas, key, extras, st.1, []);
    var item := TakeRequest(m).value;
    FlagsFirst(st.0, expire);
    var reply := Reply(getCmd, serial, 0, cas, FromBE(item.extras[..4]), [], item.data);
    ghost var p := reader.Pending();
    reader.sock.incoming := reader.sock.incoming + reply;
    assert reader.Pending() == p + reply;
    got := ReceiveAll(reader, tries);
    StoredComesBack(data, flags, writer.compressSize, reader.compressSize, getCmd, serial, 0, cas, []);
    ReplyParses(getCmd, serial, 0, cas, st.0, [], st.1);
    LastComes(got, p, reply, reader.Pending(), reader.compressSize);
    Gives(got, |Frames(p)|, Frame(reply).r, reader.compressSize, flags, data);
  }

  /** What a delivered packet gives. */
  lemma Gives(got: seq<Response>, n: nat, packet: Response, compressSize: nat, flags: nat, data: seq<byte>)
    requires n < |got| ==> Delivered(got[n], packet, Inflate(packet, compressSize))
    requires if Inflate(packet, compressSize).Unchanged? then packet.flags == flags && packet.data == data
             else Inflate(packet, compressSize) == Value(data) && packet.flags == flags + FLAG_COMPRESS
    ensures n < |got| ==> got[n].flags == flags && got[n].data == data && got[n].serial == packet.serial
  {
    hide Inflate;
  }
}
