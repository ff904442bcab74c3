/** A stream socket whose every call does something the environment has chosen. */
module Socket {
  import opened Bytes
  import opened WildCopy

  /** What one system call does: move up to n + 1 bytes, fail with EINTR, fail otherwise, or report
      the end of the stream. */
  datatype Event = Transfer(n: nat) | Interrupted | Failed | Closed

  datatype Outcome = Moved(n: nat) | Eintr | Errno | Eof

  /** Whether the next call is not made to fail. */
  predicate Takes(script: seq<Event>) { script != [] && !script[0].Failed? }

  class Stream {
    /** Bytes not yet received, bytes already sent, and the choices still to come. */
    var incoming: seq<byte>
    var sent: seq<byte>
    var script: seq<Event>
    /** How many transfers and how many settings the environment has made fail. */
    ghost var broken: nat
    ghost var refused: nat

    constructor (incoming: seq<byte>, script: seq<Event>)
      ensures this.incoming == incoming && this.script == script && sent == [] && broken == 0 && refused == 0
    {
      this.incoming, this.script, sent, broken, refused := incoming, script, [], 0, 0;
    }

    /** setsockopt(2), which also does what the script says. */
    method Configure() returns (ok: bool)
      modifies this`script, this`refused
      ensures ok == Takes(old(script)) && script == if old(script) == [] then [] else old(script)[1..]
      ensures refused == old(refused) + (if ok then 0 else 1)
    {
      ok := Takes(script);
      if script != [] { script := script[1..]; }
      refused := refused + (if ok then 0 else 1);
    }

    method NextEvent() returns (e: Event)
      modifies this`script, this`broken
      ensures if old(script) == [] then e == Failed && script == []
              else e == old(script)[0] && script == old(script)[1..]
      ensures broken == old(broken) + (if e.Failed? || e.Closed? then 1 else 0)
    {
      if script == [] {
        e := Failed;
      } else {
        e := script[0];
        script := script[1..];
      }
      broken := broken + (if e.Failed? || e.Closed? then 1 else 0);
    }

    /** recv(2) with room for `max` bytes at buf[at..]. Where the environment does not make it fail, it
        fails only when there is nothing to receive. */
    method Recv(buf: array<byte>, at: nat, max: nat) returns (o: Outcome)
      requires at + max <= buf.Length && max > 0
      modifies this`incoming, this`script, this`broken, buf
      ensures broken == old(broken) || (broken == old(broken) + 1 && (o == Errno || o == Eof))
      ensures broken == old(broken) && (o == Errno || o == Eof) ==> old(incoming) == []
      ensures o == Eintr ==> |script| < |old(script)|
      ensures OnlyWithin(buf, at, at + max)
      ensures if o.Moved? then
                0 < o.n <= max && o.n <= |old(incoming)|
                && incoming == old(incoming)[o.n..] && buf[..at + o.n] == old(buf[..at]) + old(incoming)[..o.n]
              else incoming == old(incoming) && buf[..] == old(buf[..])
    {
      var e := NextEvent();
      match e
      case Interrupted => o := Eintr;
      case Failed => o := Errno;
      case Closed => o := Eof;
      case Transfer(k) =>
        var n := Min(Min(k + 1, max), |incoming|);
        if n == 0 { return Errno; }
        CopyBytes(buf, at, incoming[..n]);
        incoming := incoming[n..];
        o := Moved(n);
    }

    /** writev(2): a prefix of the buffers, laid end to end, is sent. */
    method Writev(bytes: seq<byte>) returns (o: Outcome)
      modifies this`sent, this`script, this`broken
      ensures !o.Moved? ==> o == Eintr || o == Errno
      ensures o == Eintr || o.Moved? ==> |script| < |old(script)|
      ensures broken == old(broken) + (if o == Errno then 1 else 0)
      ensures if o.Moved? then o.n <= |bytes| && sent == old(sent) + bytes[..o.n] else sent == old(sent)
    {
      var e := NextEvent();
      match e
      case Interrupted => o := Eintr;
      case Failed => o := Errno;
      case Closed => o := Errno;
      case Transfer(k) =>
        var n := Min(k, |bytes|);
        sent := sent + bytes[..n];
        o := Moved(n);
    }
  }
}
