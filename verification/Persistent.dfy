/** Client objects and the connections they share: constructors, destructors and the persistent list. */
module Persistent {
  import opened Bytes
  import opened Wire
  import opened Client
  import S = Socket

  const CMD_NOOP: byte := 0x0a
  const CMD_UNLOCKALL: byte := 0x44
  const STATUS_OK := 0
  const STATUS_UNKNOWN_COMMAND := 0x81

  /** php_yrmcds_t. A closed one has been freed. */
  class Conn {
    const pkey: Option<string>
    const res: Yrmcds
    var referenceCount: int
    var closed: bool
    /** References that were overwritten by a second construction of the same object. */
    ghost var lost: nat

    constructor (pkey: Option<string>, res: Yrmcds)
      ensures this.pkey == pkey && this.res == res && referenceCount == 1 && !closed && lost == 0
    {
      this.pkey, this.res, referenceCount, closed, lost := pkey, res, 1, false, 0;
    }
  }

  class ClientObject {
    var conn: Conn?

    constructor ()
      ensures conn == null
    {
      conn := null;
    }
  }

  /** An entry of the persistent list; other extensions keep theirs there too. */
  datatype Entry = Ours(c: Conn) | Foreign

  datatype Found = Existing(c: Conn) | NotFound | Broken | BrokenAndOccupied

  // ---------------------------------------------------------------- one connection

  function NextSerial(serial: nat): nat { (serial + 1) % 0x1_0000_0000 }

  /** The reply to a request can be read, without a failing system call, and has one of these statuses. */
  ghost predicate Answered(p: seq<byte>, serial: nat, compressSize: nat, invalid: bool, failures: int,
                           statuses: set<nat>) {
    var a := Answer(p, serial, compressSize);
    !invalid && failures == 0 && a.Some? && a.value.status in statuses
  }

  /** What is known of a connection: what will arrive on it, what was sent, its state and its failures. */
  datatype Line = Line(pending: seq<byte>, sent: seq<byte>, serial: nat, invalid: bool, compressSize: nat,
                       broken: nat, refused: nat)

  const UNUSED := Line([], [], 0, false, 0, 0, 0)

  function LineIn(lines: map<Conn, Line>, c: Conn): Line { if c in lines then lines[c] else UNUSED }

  function Changed(lines: map<Conn, Line>, c: Conn?, after: Line): map<Conn, Line> {
    if c == null then lines else lines[c := after]
  }

  ghost function LineOf(c: Yrmcds): Line
    reads c, c.recvbuf, c.sock
  {
    Line(if c.Valid() then c.Pending() else [], c.sock.sent, c.serial, c.invalid, c.compressSize, c.sock.broken,
         c.sock.refused)
  }

  /** A request without key and data was sent, or a part of it. */
  ghost predicate Requested(before: seq<byte>, after: seq<byte>, cmd: byte, serial: nat, whole: bool) {
    var m := Request(cmd, serial, 0, [], [], []);
    if whole then after == before + m else exists k :: 0 <= k <= |m| && after == before + m[..k]
  }

  /** The round trip of a no-op. It goes well exactly when no call fails and the reply says so. */
  ghost predicate Checked(before: Line, after: Line, healthy: bool) {
    var serial := NextSerial(before.serial);
    && healthy == (after.refused == before.refused
                   && Answered(before.pending, serial, before.compressSize, before.invalid,
                               after.broken - before.broken, {STATUS_OK}))
    && Requested(before.sent, after.sent, CMD_NOOP, serial, false)
    && (after.broken == before.broken && after.refused == before.refused ==>
          Requested(before.sent, after.sent, CMD_NOOP, serial, true))
    && (healthy ==> AfterReply(before.pending, serial) == Some(after.pending))
  }

  /** A request was sent, or refused, or a call failed on the way. */
  ghost predicate Posted(before: Line, after: Line, cmd: byte, cas: nat, key: seq<byte>, extras: seq<byte>,
                         data: seq<byte>)
    requires cas < Power256(8)
  {
    && after.pending == before.pending && after.invalid == before.invalid && after.refused == before.refused
    && if BadCommand(cmd, key, extras, data) then after == before
       else
         && after.serial == NextSerial(before.serial)
         && SentPost(before.sent, after.sent, Request(cmd, after.serial, cas, key, extras, data),
                     after.broken - before.broken, if after.broken == before.broken then OK else SYSTEM_ERROR)
  }

  /** A response was received, or none, as RecvPost says. */
  ghost predicate Received(before: Line, after: Line) {
    && after.sent == before.sent && after.serial == before.serial && after.compressSize == before.compressSize
    && if before.invalid then after.invalid else exists e, r :: Took(before, after, e, r)
  }

  /** A response was taken off what has arrived, or there was none. */
  ghost predicate Took(before: Line, after: Line, e: Error, r: Response) {
    RecvPost(before.pending, after.pending, after.invalid, after.compressSize, after.broken - before.broken, e, r)
  }

  /** A connection is tried, if that is wanted. */
  ghost predicate Tried(detectStale: bool, before: Line, after: Line, healthy: bool) {
    if detectStale then Checked(before, after, healthy) else healthy && after == before
  }

  /** A request on a connection. */
  method Command(c: Yrmcds, cmd: byte, cas: nat, key: seq<byte>, extras: seq<byte>, data: seq<byte>)
    returns (e: Error)
    requires c.Valid() && cas < Power256(8)
    modifies c`serial, c.sock`sent, c.sock`script, c.sock`broken
    ensures c.Valid() && Posted(old(LineOf(c)), LineOf(c), cmd, cas, key, extras, data)
  {
    hide CapacityOk, Request, BadCommand;
    e := c.SendCommand(cmd, cas, key, extras, data);
  }

  /** A response on a connection. */
  method Fetch(c: Yrmcds) returns (e: Error, r: Response)
    requires c.Valid()
    modifies c, c.recvbuf, c.sock`incoming, c.sock`script, c.sock`broken
    ensures c.Valid() && (c.recvbuf == old(c.recvbuf) || fresh(c.recvbuf))
    ensures Received(old(LineOf(c)), LineOf(c))
  {
    hide CapacityOk, RecvPost;
    ghost var before := LineOf(c);
    e, r := c.Recv();
    assert before.invalid || Took(before, LineOf(c), e, r);
  }

  lemma RequestedPart(before: seq<byte>, after: seq<byte>, cmd: byte, serial: nat)
    ensures Requested(before, before, cmd, serial, false)
    ensures Requested(before, after, cmd, serial, true) ==> Requested(before, after, cmd, serial, false)
  {
    hide Request;
    var m := Request(cmd, serial, 0, [], [], []);
    assert before == before + m[..0] && m == m[..|m|];
  }

  /** Receives until the reply to a request has come. */
  method AwaitReply(c: Yrmcds, serial: nat) returns (e: Error, r: Response)
    requires c.Valid()
    modifies c, c.recvbuf, c.sock`incoming, c.sock`script, c.sock`broken
    ensures c.Valid() && (c.recvbuf == old(c.recvbuf) || fresh(c.recvbuf))
    ensures c.serial == old(c.serial) && c.compressSize == old(c.compressSize)
    ensures (e == OK) == (!old(c.invalid) && c.sock.broken == old(c.sock.broken)
                          && Answer(old(c.Pending()), serial, c.compressSize).Some?)
    ensures e == OK ==> r.status == Answer(old(c.Pending()), serial, c.compressSize).value.status
    ensures e == OK ==> AfterReply(old(c.Pending()), serial) == Some(c.Pending())
  {
    hide Frame, Inflate, CapacityOk;
    ghost var p := c.Pending();
    e, r := c.Recv();
    while e == OK && r.serial != serial
      invariant c.Valid() && (c.recvbuf == old(c.recvbuf) || fresh(c.recvbuf))
      invariant c.serial == old(c.serial) && c.compressSize == old(c.compressSize)
      invariant e == OK ==> !old(c.invalid) && !c.invalid && c.sock.broken == old(c.sock.broken)
      invariant e == OK && r.serial == serial ==> AfterReply(p, serial) == Some(c.Pending())
      invariant e == OK && r.serial == serial ==>
                  Answer(p, serial, c.compressSize).Some? && r.status == Answer(p, serial, c.compressSize).value.status
      invariant e == OK && r.serial != serial ==> AfterReply(p, serial) == AfterReply(c.Pending(), serial)
      invariant e == OK && r.serial != serial ==>
                  Answer(p, serial, c.compressSize) == Answer(c.Pending(), serial, c.compressSize)
      invariant e != OK ==>
                  old(c.invalid) || c.sock.broken != old(c.sock.broken) || Answer(p, serial, c.compressSize).None?
      decreases if e == OK then 1 + |c.Pending()| else 0
    {
      e, r := c.Recv();
    }
  }

  /** yrmcds_noop and yrmcds_unlockall. */
  method Ask(c: Yrmcds, cmd: byte) returns (e: Error)
    requires c.Valid() && cmd < CMD_BOTTOM
    modifies c`serial, c.sock`sent, c.sock`script, c.sock`broken
    ensures c.Valid() && c.Pending() == old(c.Pending()) && c.serial == NextSerial(old(c.serial))
    ensures (e == OK) == (c.sock.broken == old(c.sock.broken))
    ensures Requested(old(c.sock.sent), c.sock.sent, cmd, c.serial, e == OK)
  {
    hide Request, CapacityOk;
    e := c.SendCommand(cmd, 0, [], [], []);
  }

  /** setsockopt. */
  method SetTimeout(sock: S.Stream) returns (e: Error)
    modifies sock`script, sock`refused
    ensures e == if S.Takes(old(sock.script)) then OK else SYSTEM_ERROR
    ensures sock.refused == old(sock.refused) + (if e == OK then 0 else 1)
  {
    var ok := sock.Configure();
    e := if ok then OK else SYSTEM_ERROR;
  }

  /** check_persistent_connection: the round trip of a no-op. It succeeds exactly when no system call
      fails and the reply says so. */
  method Check(c: Yrmcds) returns (e: Error, status: nat)
    requires c.Valid()
    modifies c, c.sock, c.recvbuf
    ensures c.Valid() && (c.recvbuf == old(c.recvbuf) || fresh(c.recvbuf))
    ensures Checked(old(LineOf(c)), LineOf(c), e == OK && status == STATUS_OK)
  {
    hide Answer, AfterReply, Requested, CapacityOk;
    status := STATUS_OK;
    RequestedPart(c.sock.sent, c.sock.sent, CMD_NOOP, NextSerial(c.serial));
    e := SetTimeout(c.sock);
    if e != OK { return; }
    e := Ask(c, CMD_NOOP);
    if e != OK { return; }
    RequestedPart(old(c.sock.sent), c.sock.sent, CMD_NOOP, c.serial);
    var r;
    e, r := AwaitReply(c, c.serial);
    if e != OK { return; }
    status := r.status;
    if status != STATUS_OK { return; }
    e := SetTimeout(c.sock);
  }

  /** A goodbye was said on a connection. It goes well exactly when no call fails and the reply says so. Then
      everything up to its reply has been read, and nothing is left exactly when that reply was the last of
      what the server sent. */
  ghost predicate Goodbye(before: Line, after: Line, settled: bool) {
    var serial := NextSerial(before.serial);
    && settled == Answered(before.pending, serial, before.compressSize, before.invalid, after.broken - before.broken,
                           {STATUS_OK, STATUS_UNKNOWN_COMMAND})
    && Requested(before.sent, after.sent, CMD_UNLOCKALL, serial, false)
    && (after.broken == before.broken ==> Requested(before.sent, after.sent, CMD_UNLOCKALL, serial, true))
    && (settled ==>
          && AfterReply(before.pending, serial) == Some(after.pending)
          && (after.pending == [] <==> Whole(before.pending) && AnsweredLast(Frames(before.pending), serial)))
  }

  /** The goodbye is said on persistent connections; others are just closed. */
  ghost predicate PartedFrom(c: Conn, before: Line, after: Line, settled: bool) {
    if c.pkey.Some? then Goodbye(before, after, settled) else after == before
  }

  /** The goodbye of destruct_conn: unlockall, and everything up to its reply is read. */
  method Settle(c: Yrmcds) returns (ok: bool)
    requires c.Valid()
    modifies c, c.sock, c.recvbuf
    ensures c.Valid() && (c.recvbuf == old(c.recvbuf) || fresh(c.recvbuf))
    ensures Goodbye(old(LineOf(c)), LineOf(c), ok)
  {
    hide Answer, AfterReply, Requested, CapacityOk, Frames, Whole, AnsweredLast;
    NothingUnread(c.Pending(), NextSerial(c.serial));
    var t := SetTimeout(c.sock);
    var e := Ask(c, CMD_UNLOCKALL);
    if e != OK { return false; }
    RequestedPart(old(c.sock.sent), c.sock.sent, CMD_UNLOCKALL, c.serial);
    var r;
    e, r := AwaitReply(c, c.serial);
    ok := e == OK && (r.status == STATUS_OK || r.status == STATUS_UNKNOWN_COMMAND);
  }

  // ---------------------------------------------------------------- the books

  /** A connection's count, the references lost, and whether it is closed. */
  datatype Row = Row(count: int, lost: nat, closed: bool)

  /** The persistent list, every connection that was ever handed to an object, and the live objects. */
  datatype World = World(list: map<string, Entry>, rows: map<Conn, Row>, held: map<ClientObject, Conn?>)

  function Holders(held: map<ClientObject, Conn?>, c: Conn): set<ClientObject> {
    set o | o in held && held[o] == c
  }

  predicate Listed(list: map<string, Entry>, c: Conn) {
    c.pkey.Some? && c.pkey.value in list && list[c.pkey.value] == Ours(c)
  }

  /** One connection's books: its count is the number of objects that hold it plus the references
      lost, and it is open exactly as long as something can reach it. */
  predicate RowOk(list: map<string, Entry>, row: Row, c: Conn, holders: nat) {
    && row.count == holders + row.lost
    && (row.closed == if c.pkey.Some? then !Listed(list, c) else row.count == 0)
    && (row.count > 0 ==> !row.closed) && (c.pkey.None? ==> row.count <= 1)
  }

  ghost predicate Balanced(w: World) {
    && (forall o :: o in w.held && w.held[o] != null ==> w.held[o] in w.rows)
    && (forall k :: k in w.list && w.list[k].Ours? ==> w.list[k].c in w.rows && w.list[k].c.pkey == Some(k))
    && forall c :: c in w.rows ==> RowOk(w.list, w.rows[c], c, |Holders(w.held, c)|)
  }

  lemma HeldIsOpen(w: World, o: ClientObject)
    requires Balanced(w) && o in w.held && w.held[o] != null
    ensures var c: Conn := w.held[o];
            c in w.rows && w.rows[c].count > 0 && !w.rows[c].closed && (c.pkey.Some? ==> Listed(w.list, c))
  {
    assert o in Holders(w.held, w.held[o]);
  }

  lemma EntriesAreConns(w: World, k: string)
    requires Balanced(w) && k in w.list && w.list[k].Ours?
    ensures w.list[k].c in w.rows && Listed(w.list, w.list[k].c) && w.list[k].c.pkey == Some(k)
  {
  }

  // ---------------------------------------------------------------- what each operation does to the books

  function RowOf(rows: map<Conn, Row>, c: Conn): Row { if c in rows then rows[c] else Row(0, 0, true) }

  /** The list after the entry of a connection is gone. */
  function Without(list: map<string, Entry>, c: Conn): map<string, Entry> {
    if c.pkey.Some? then list - {c.pkey.value} else list
  }

  /** One more reference to `c`. */
  function Refer(rows: map<Conn, Row>, c: Conn): map<Conn, Row> {
    rows[c := RowOf(rows, c).(count := RowOf(rows, c).count + 1)]
  }

  /** A reference to `a` is overwritten. */
  function Lose(rows: map<Conn, Row>, a: Conn?): map<Conn, Row> {
    if a == null then rows else rows[a := RowOf(rows, a).(lost := RowOf(rows, a).lost + 1)]
  }

  function HeldBy(w: World, o: ClientObject): Conn? { if o in w.held then w.held[o] else null }

  /** A new object, which holds nothing. */
  function Create(w: World, o: ClientObject): World { w.(held := w.held[o := null]) }

  /** An object goes; `settled`: the goodbye on its persistent connection went well. */
  function Forget(w: World, o: ClientObject, settled: bool): World {
    var c := HeldBy(w, o);
    if c == null then w.(held := w.held - {o})
    else
      var n := RowOf(w.rows, c).count - 1;
      var closed := c.pkey.None? || (!settled && n == 0);
      World(if closed then Without(w.list, c) else w.list,
            w.rows[c := RowOf(w.rows, c).(count := n, closed := closed)], w.held - {o})
  }

  /** A listed connection that is broken goes. */
  function Drop(w: World, c: Conn): World {
    World(Without(w.list, c), w.rows[c := RowOf(w.rows, c).(closed := true)], w.held)
  }

  /** An object takes a connection that is listed. */
  function Take(w: World, o: ClientObject, c: Conn): World {
    World(w.list, Lose(Refer(w.rows, c), HeldBy(w, o)), w.held[o := c])
  }

  /** An object takes a new connection, which is listed if it has a key. */
  function Add(w: World, o: ClientObject, c: Conn): World {
    World(if c.pkey.Some? then w.list[c.pkey.value := Ours(c)] else w.list,
          Lose(w.rows[c := Row(1, 0, false)], HeldBy(w, o)), w.held[o := c])
  }

  predicate HasOurs(w: World, key: Option<string>) {
    key.Some? && key.value in w.list && w.list[key.value].Ours?
  }

  /** What the constructor does when the connection listed under the key is found `healthy` or not,
      and a new one is `made` when it is needed, or not; and whether it throws. */
  function Build(w: World, o: ClientObject, key: Option<string>, healthy: bool, made: Conn?): (World, bool) {
    if HasOurs(w, key) && healthy then (Take(w, o, w.list[key.value].c), false)
    else if HasOurs(w, key) && RowOf(w.rows, w.list[key.value].c).count != 0 then (w, true)
    else
      var cleared := if HasOurs(w, key) then Drop(w, w.list[key.value].c) else w;
      if made == null then (cleared, true) else (Add(cleared, o, made), false)
  }

  /** The constructor has to make a connection. */
  predicate Needs(w: World, key: Option<string>, healthy: bool) {
    HasOurs(w, key) ==> !healthy && RowOf(w.rows, w.list[key.value].c).count == 0
  }

  /** The key in the persistent list for the identifier that PHP was given. */
  function KeyOf(persistId: string): Option<string> {
    if persistId == "" then None else Some("yrmcds:" + persistId)
  }

  /** Different identifiers have different keys, and only the empty one has none. */
  lemma KeysTell(a: string, b: string)
    ensures KeyOf(a) == KeyOf(b) <==> a == b
    ensures KeyOf(a) == None <==> a == ""
  {
    if a != "" && b != "" {
      assert ("yrmcds:" + a)[7..] == a && ("yrmcds:" + b)[7..] == b;
    }
  }

  // ---------------------------------------------------------------- and that it keeps them balanced

  lemma CreateKeeps(w: World, o: ClientObject)
    requires Balanced(w) && o !in w.held
    ensures Balanced(Create(w, o))
  {
    forall c: Conn | c in w.rows ensures Holders(Create(w, o).held, c) == Holders(w.held, c) {}
  }

  /** How the number of holders of `d` changes when an object takes `c`, and when it goes. */
  lemma HoldersAfter(held: map<ClientObject, Conn?>, o: ClientObject, c: Conn, d: Conn)
    requires o in held
    ensures |Holders(held - {o}, d)| == |Holders(held, d)| - (if held[o] == d then 1 else 0)
    ensures |Holders(held[o := c], d)| == |Holders(held - {o}, d)| + (if c == d then 1 else 0)
  {
    var rest := Holders(held - {o}, d);
    assert Holders(held, d) == if held[o] == d then rest + {o} else rest;
    assert Holders(held[o := c], d) == if c == d then rest + {o} else rest;
  }

  lemma NoHolders(w: World, c: Conn)
    requires Balanced(w) && c !in w.rows
    ensures Holders(w.held, c) == {}
  {
  }

  lemma ForgetKeeps(w: World, o: ClientObject, settled: bool)
    requires Balanced(w) && o in w.held
    ensures Balanced(Forget(w, o, settled))
  {
    hide Holders;
    var after := Forget(w, o, settled);
    if w.held[o] != null { HeldIsOpen(w, o); }
    forall d: Conn | d in after.rows ensures RowOk(after.list, after.rows[d], d, |Holders(after.held, d)|) {
      HoldersAfter(w.held, o, d, d);
    }
  }

  lemma DropKeeps(w: World, c: Conn)
    requires Balanced(w) && Listed(w.list, c) && c in w.rows && w.rows[c].count == 0
    ensures Balanced(Drop(w, c))
  {
  }

  /** The books after an object has let go of its connection. */
  lemma ForgottenBooks(w: World, books: World, o: ClientObject, settled: bool)
    requires Balanced(w) && o in w.held && books.held == w.held - {o}
    requires var c := HeldBy(w, o);
             if c == null then books.list == w.list && books.rows == w.rows
             else
               && c in w.rows
               && var row, closed := w.rows[c], c.pkey.None? || (!settled && w.rows[c].count == 1);
                  && books.list == (if closed then Without(w.list, c) else w.list)
                  && books.rows == w.rows[c := Row(row.count - 1, row.lost, closed)]
    ensures books == Forget(w, o, settled) && Balanced(books)
  {
    hide Balanced;
    ForgetKeeps(w, o, settled);
  }

  /** The books after an entry has been tried, before an object holds it. */
  lemma FoundBooks(w: World, books: World, c: Conn, f: Found)
    requires Balanced(w) && Listed(w.list, c) && c in w.rows && (f == Found.Broken ==> w.rows[c].count == 0)
    requires var row := w.rows[c];
             books == World(if f == Found.Broken then Without(w.list, c) else w.list,
                            w.rows[c := Row(row.count + (if f.Existing? then 1 else 0), row.lost,
                                            f == Found.Broken || row.closed)], w.held)
    ensures f.Existing? ==> books == World(w.list, Refer(w.rows, c), w.held)
    ensures f == Found.Broken ==> books == Drop(w, c) && Balanced(books)
    ensures f == BrokenAndOccupied ==> books == w
  {
    hide Balanced;
    if f == Found.Broken { DropKeeps(w, c); }
    assert w.rows[c := w.rows[c]] == w.rows;
  }

  lemma TakeKeeps(w: World, o: ClientObject, c: Conn)
    requires Balanced(w) && Listed(w.list, c) && c in w.rows && o in w.held
    ensures Balanced(Take(w, o, c))
  {
    hide Holders;
    var after := Take(w, o, c);
    forall d: Conn | d in after.rows ensures RowOk(after.list, after.rows[d], d, |Holders(after.held, d)|) {
      HoldersAfter(w.held, o, c, d);
    }
  }

  lemma AddKeeps(w: World, o: ClientObject, c: Conn)
    requires Balanced(w) && c !in w.rows && o in w.held && !HasOurs(w, c.pkey)
    ensures Balanced(Add(w, o, c))
  {
    hide Holders;
    var after := Add(w, o, c);
    assert Holders(w.held, c) == {} by { NoHolders(w, c); }
    forall d: Conn | d in after.rows ensures RowOk(after.list, after.rows[d], d, |Holders(after.held, d)|) {
      HoldersAfter(w.held, o, c, d);
    }
  }

  /** Whatever the constructor meets. */
  lemma BuildKeeps(w: World, o: ClientObject, key: Option<string>, healthy: bool, made: Conn?)
    requires Balanced(w) && o in w.held && (made != null ==> made !in w.rows && made.pkey == key)
    ensures Balanced(Build(w, o, key, healthy, made).0)
  {
    hide Balanced, Take, Add;
    if HasOurs(w, key) {
      var c := w.list[key.value].c;
      EntriesAreConns(w, key.value);
      if healthy {
        TakeKeeps(w, o, c);
      } else if w.rows[c].count == 0 {
        DropKeeps(w, c);
        if made != null { AddKeeps(Drop(w, c), o, made); }
      }
    } else if made != null {
      AddKeeps(w, o, made);
    }
  }

  /** The connection that is listed under a key. */
  function ListedAs(w: World, key: Option<string>): Conn? { if HasOurs(w, key) then w.list[key.value].c else null }

  // ---------------------------------------------------------------- the extension's state

  function Wires(c: Conn): set<object>
    reads c.res
  {
    {c.res, c.res.sock, c.res.recvbuf}
  }

  function OwnConn(o: ClientObject): set<Conn>
    reads o
  {
    if o.conn != null then {o.conn} else {}
  }

  class Extension {
    var persistentList: map<string, Entry>
    /** Every connection that was ever handed to an object, and the objects that are alive. */
    ghost var conns: set<Conn>
    ghost var clients: set<ClientObject>

    constructor ()
      ensures Valid() && Books() == World(map[], map[], map[])
    {
      persistentList, conns, clients := map[], {}, {};
    }

    ghost function Rows(): (rows: map<Conn, Row>)
      reads this`conns, conns
      ensures rows.Keys == conns
    {
      map c | c in conns :: Row(c.referenceCount, c.lost, c.closed)
    }

    ghost function Held(): (held: map<ClientObject, Conn?>)
      reads this`clients, clients
      ensures held.Keys == clients
    {
      map o | o in clients :: o.conn
    }

    ghost function Books(): World
      reads this, clients, conns
    {
      World(persistentList, Rows(), Held())
    }

    lemma Named(o: ClientObject)
      requires Balanced(Books()) && o in clients
      ensures Books() == World(persistentList, Rows(), Held()) && Rows().Keys == conns && Held().Keys == clients
      ensures HeldBy(Books(), o) == o.conn && (o.conn != null ==> o.conn in conns)
      ensures forall c :: c in conns ==> Books().rows[c] == Row(c.referenceCount, c.lost, c.closed)
    {
      hide Balanced;
      if o.conn != null { HeldIsOpen(Books(), o); }
    }

    lemma Entry(key: Option<string>)
      requires Valid()
      ensures HasOurs(Books(), key) <==>
                key.Some? && key.value in persistentList && persistentList[key.value].Ours?
      ensures HasOurs(Books(), key) ==>
                var c := persistentList[key.value].c;
                && c == Books().list[key.value].c && c in conns && Listed(persistentList, c) && c.pkey == key
                && c.referenceCount == RowOf(Books().rows, c).count
    {
      hide Balanced;
      if HasOurs(Books(), key) { EntriesAreConns(Books(), key.value); }
    }

    lemma Apart(c: Conn)
      requires Valid() && c in conns
      ensures forall d :: d in conns && d != c ==> Disjoint(c, d)
    {
      hide Balanced, Yrmcds.Valid;
    }

    lemma Holds(o: ClientObject)
      requires Valid() && o in clients
      ensures HeldBy(Books(), o) == o.conn
    {
      hide Balanced;
    }

    lemma Uses(o: ClientObject)
      requires Valid() && o in clients && o.conn != null
      ensures o.conn in conns && o.conn.res.Valid() && !o.conn.closed
    {
      hide Balanced;
      HeldIsOpen(Books(), o);
    }

    lemma RowsAre()
      ensures Rows().Keys == conns
      ensures forall c :: c in conns ==> Rows()[c] == Row(c.referenceCount, c.lost, c.closed)
    {
    }

    lemma HeldAre()
      ensures Held().Keys == clients && forall o :: o in clients ==> Held()[o] == o.conn
    {
    }

    /** The books after the fields of one connection have changed. */
    lemma RowsNow(rows: map<Conn, Row>, c: Conn)
      requires c in conns && conns == rows.Keys + {c}
      requires forall d :: d in conns && d != c ==> rows[d] == Row(d.referenceCount, d.lost, d.closed)
      ensures Rows() == rows[c := Row(c.referenceCount, c.lost, c.closed)]
      ensures Books() == World(persistentList, Rows(), Held())
    {
    }

    /** The books after an object has gone. */
    lemma HeldNow(held: map<ClientObject, Conn?>, o: ClientObject)
      requires clients == held.Keys - {o} && forall p :: p in clients ==> held[p] == p.conn
      ensures Held() == held - {o} && Books() == World(persistentList, Rows(), Held())
    {
    }

    /** What is known of every connection. */
    ghost function Lines(): (lines: map<Conn, Line>)
      reads this`conns, set c | c in conns :: c.res, set c | c in conns :: c.res.recvbuf
      reads set c | c in conns :: c.res.sock
      ensures lines.Keys == conns
    {
      map c | c in conns :: LineOf(c.res)
    }

    /** After the line of one connection has changed. */
    lemma LinesNow(lines: map<Conn, Line>, c: Conn)
      requires c in conns && conns == lines.Keys + {c}
      requires forall d :: d in conns && d != c ==> lines[d] == LineOf(d.res)
      ensures Lines() == lines[c := LineOf(c.res)]
    {
      hide LineOf;
    }

    lemma LinesAre()
      ensures Lines().Keys == conns && forall c :: c in conns ==> Lines()[c] == LineOf(c.res)
    {
      hide LineOf;
    }

    /** No two connections share a library object, its socket or its buffer. */
    ghost predicate Separate()
      reads this`conns, set c | c in conns :: c.res
    {
      && (forall c :: c in conns ==> c.res.Valid())
      && forall c, d :: c in conns && d in conns && c != d ==> Disjoint(c, d)
    }

    ghost predicate Disjoint(c: Conn, d: Conn)
      reads c.res, d.res
    {
      c.res != d.res && c.res.sock != d.res.sock && c.res.recvbuf != d.res.recvbuf
    }

    ghost predicate Valid()
      reads this, clients, conns, set c | c in conns :: c.res
    {
      Balanced(Books()) && Separate()
    }

    /** The destructor of a list entry. */
    method Pdtor(c: Conn)
      modifies c`closed
      ensures c.closed
    {
      c.closed := true;
    }

    /** on_broken_connection_detected: the last one out removes the entry, which closes the connection. */
    method OnBroken(c: Conn)
      requires Listed(persistentList, c)
      modifies this`persistentList, c`closed
      ensures if c.referenceCount == 0 then c.closed && persistentList == Without(old(persistentList), c)
              else c.closed == old(c.closed) && persistentList == old(persistentList)
    {
      if c.referenceCount == 0 {
        match persistentList[c.pkey.value] {
          case Ours(d) => Pdtor(d);
          case Foreign =>
        }
        persistentList := persistentList - {c.pkey.value};
      }
    }

    /** destruct_conn; `settled` says that the goodbye went well. */
    method DestructConn(c: Conn) returns (ghost settled: bool)
      requires c.res.Valid() && !c.closed && (c.pkey.Some? ==> Listed(persistentList, c))
      modifies this`persistentList, c`closed, c`referenceCount, c.res, c.res.sock, c.res.recvbuf
      ensures c.res.Valid() && (c.res.recvbuf == old(c.res.recvbuf) || fresh(c.res.recvbuf))
      ensures c.referenceCount == old(c.referenceCount) - 1
      ensures c.closed == (c.pkey.None? || (!settled && c.referenceCount == 0))
      ensures persistentList == if c.closed then Without(old(persistentList), c) else old(persistentList)
      ensures PartedFrom(c, old(LineOf(c.res)), LineOf(c.res), settled)
    {
      hide Goodbye, LineOf, Yrmcds.Valid;
      c.referenceCount := c.referenceCount - 1;
      settled := true;
      if c.pkey.Some? {
        var ok := Settle(c.res);
        settled := ok;
        if !ok { OnBroken(c); }
        return;
      }
      c.closed := true;
    }

    /** yrmcds_client_new. */
    method NewObject() returns (o: ClientObject)
      requires Valid()
      modifies this`clients
      ensures Valid() && fresh(o) && Books() == Create(old(Books()), o)
    {
      hide Balanced;
      o := new ClientObject();
      ghost var w := Books();
      clients := clients + {o};
      assert Rows() == w.rows && Held() == w.held[o := null];
      CreateKeeps(w, o);
    }

    /** An object lets go of its connection. */
    method Release(o: ClientObject, c: Conn) returns (ghost settled: bool)
      requires Separate() && o.conn == c && c in conns && !c.closed && (c.pkey.Some? ==> Listed(persistentList, c))
      modifies this`persistentList, o`conn, c`closed, c`referenceCount, c.res, c.res.sock, c.res.recvbuf
      ensures Separate() && (c.res.recvbuf == old(c.res.recvbuf) || fresh(c.res.recvbuf))
      ensures c.referenceCount == old(c.referenceCount) - 1
      ensures c.closed == (c.pkey.None? || (!settled && c.referenceCount == 0))
      ensures persistentList == if c.closed then Without(old(persistentList), c) else old(persistentList)
      ensures PartedFrom(c, old(LineOf(c.res)), LineOf(c.res), settled)
      ensures forall d :: d in conns && d != c ==> LineOf(d.res) == old(LineOf(d.res))
    {
      hide Goodbye, LineOf, CapacityOk;
      settled := DestructConn(c);
      o.conn := null;
    }

    /** The object dies, and with it its hold on the connection: the books. */
    method LetGo(o: ClientObject) returns (ghost settled: bool)
      requires Valid() && o in clients
      modifies this`persistentList, this`clients, o`conn, OwnConn(o)`closed, OwnConn(o)`referenceCount
      modifies if o.conn != null then Wires(o.conn) else {}
      ensures Valid() && Books() == Forget(old(Books()), o, settled)
      ensures conns == old(conns) && clients == old(clients) - {o}
      ensures forall c :: c in conns ==> c.res.recvbuf == old(c.res.recvbuf) || fresh(c.res.recvbuf)
      ensures var c := old(o.conn);
              c != null ==> c in conns && PartedFrom(c, old(LineOf(c.res)), LineOf(c.res), settled)
      ensures forall c :: c in conns && c != old(o.conn) ==> LineOf(c.res) == old(LineOf(c.res))
    {
      hide Balanced, Separate, PartedFrom, LineOf, Yrmcds.Valid, Rows, Held, Books, HeldBy, Listed, Without, Forget;
      settled := true;
      var c := o.conn;
      ghost var w := Books();
      Named(o);
      HeldAre();
      clients := clients - {o};
      if c != null {
        HeldIsOpen(w, o);
        settled := Release(o, c);
        RowsNow(w.rows, c);
      }
      HeldNow(w.held, o);
      ForgottenBooks(w, Books(), o, settled);
    }

    /** yrmcds_client_delete. */
    method Delete(o: ClientObject) returns (ghost settled: bool)
      requires Valid() && o in clients
      modifies this`persistentList, this`clients, o`conn, OwnConn(o)`closed, OwnConn(o)`referenceCount
      modifies if o.conn != null then Wires(o.conn) else {}
      ensures Valid() && Books() == Forget(old(Books()), o, settled)
      ensures conns == old(conns) && clients == old(clients) - {o}
      ensures forall c :: c in conns ==> c.res.recvbuf == old(c.res.recvbuf) || fresh(c.res.recvbuf)
      ensures var c := old(o.conn);
              if c == null then Lines() == old(Lines())
              else
                && PartedFrom(c, old(LineOf(c.res)), LineOf(c.res), settled)
                && Lines() == old(Lines())[c := LineOf(c.res)]
    {
      hide Valid, Books, Forget, PartedFrom, LineOf, Lines;
      ghost var c, lines := o.conn, Lines();
      LinesAre();
      settled := LetGo(o);
      if c != null { LinesNow(lines, c); } else { LinesSame(lines); }
    }

    lemma LinesSame(lines: map<Conn, Line>)
      requires conns == lines.Keys && forall d :: d in conns ==> lines[d] == LineOf(d.res)
      ensures Lines() == lines
    {
      hide LineOf;
    }

    /** The rest of use_existing_persistent_connection, once an entry of ours is found: `healthy` is not
        known unless it is asked for. */
    method TryExisting(c: Conn, detectStale: bool) returns (f: Found, ghost healthy: bool)
      requires Separate() && c in conns && Listed(persistentList, c)
      modifies this`persistentList, c`referenceCount, c`closed, c.res, c.res.sock, c.res.recvbuf
      ensures Separate() && (c.res.recvbuf == old(c.res.recvbuf) || fresh(c.res.recvbuf))
      ensures Tried(detectStale, old(LineOf(c.res)), LineOf(c.res), healthy)
      ensures forall d :: d in conns && d != c ==> LineOf(d.res) == old(LineOf(d.res))
      ensures f == if healthy then Existing(c)
                   else if old(c.referenceCount) == 0 then Found.Broken else BrokenAndOccupied
      ensures c.referenceCount == old(c.referenceCount) + (if healthy then 1 else 0)
      ensures if f == Found.Broken then c.closed && persistentList == Without(old(persistentList), c)
              else c.closed == old(c.closed) && persistentList == old(persistentList)
    {
      hide LineOf, Checked, Yrmcds.Valid;
      healthy := true;
      if detectStale {
        var e, status := Check(c.res);
        healthy := e == OK && status == STATUS_OK;
        if e != OK || status != STATUS_OK {
          var n := c.referenceCount;
          OnBroken(c);
          f := if n == 0 then Found.Broken else BrokenAndOccupied;
          return;
        }
      }
      c.referenceCount := c.referenceCount + 1;
      f := Existing(c);
    }

    /** The object holds the connection; a reference it held before is lost. */
    method Attach(o: ClientObject, c: Conn)
      requires o in clients && c in conns && (o.conn != null ==> o.conn in conns)
      modifies o`conn, OwnConn(o)`lost
      ensures Books() == World(old(Books()).list, Lose(old(Books()).rows, old(o.conn)), old(Books()).held[o := c])
    {
      hide Rows;
      ghost var rows, held := Rows(), Held();
      RowsAre();
      if o.conn != null {
        o.conn.lost := o.conn.lost + 1;
        RowsNow(rows, o.conn);
      }
      o.conn := c;
      assert Held() == held[o := c];
    }

    /** The object holds a listed connection, for which a reference has been counted. */
    method Hold(o: ClientObject, c: Conn, ghost w: World)
      requires Balanced(w) && o in clients && c in conns && Listed(w.list, c) && c in w.rows && o in w.held
      requires HeldBy(w, o) == o.conn && (o.conn != null ==> o.conn in conns)
      requires Books() == World(w.list, Refer(w.rows, c), w.held)
      modifies o`conn, OwnConn(o)`lost
      ensures Books() == Take(w, o, c) && Balanced(Books())
    {
      hide Books, Balanced, Lose, Refer, HeldBy, Listed;
      Attach(o, c);
      TakeKeeps(w, o, c);
    }

    /** A connection joins the others, under its key if it has one. */
    method Register(c: Conn)
      requires Separate() && c.res.Valid() && c !in conns && forall d :: d in conns ==> Disjoint(c, d)
      requires c.referenceCount == 1 && c.lost == 0 && !c.closed
      modifies this`conns, this`persistentList
      ensures Separate() && conns == old(conns) + {c}
      ensures Books() ==
                World(if c.pkey.Some? then old(persistentList)[c.pkey.value := Ours(c)] else old(persistentList),
                      old(Books()).rows[c := Row(1, 0, false)], old(Books()).held)
    {
      hide Rows, Held, Yrmcds.Valid;
      ghost var rows := Rows();
      RowsAre();
      conns := conns + {c};
      RowsNow(rows, c);
      if c.pkey.Some? { persistentList := persistentList[c.pkey.value := Ours(c)]; }
    }

    /** An object takes a new connection. */
    method Adopt(o: ClientObject, c: Conn)
      requires Valid() && o in clients && !HasOurs(Books(), c.pkey)
      requires c.res.Valid() && c !in conns && forall d :: d in conns ==> Disjoint(c, d)
      requires c.referenceCount == 1 && c.lost == 0 && !c.closed
      modifies this`persistentList, this`conns, o`conn, OwnConn(o)`lost
      ensures Valid() && Books() == Add(old(Books()), o, c) && conns == old(conns) + {c}
    {
      hide Books, Balanced, Separate, Yrmcds.Valid, Rows, Held, Lose, HeldBy;
      ghost var w := Books();
      Named(o);
      Register(c);
      Attach(o, c);
      AddKeeps(w, o, c);
    }

    /** A new connection for an object, if the server lets it be made. */
    method ConstructNew(o: ClientObject, key: Option<string>, reached: S.Stream?, threshold: nat)
      returns (thrown: bool, ghost made: Conn?)
      requires Valid() && o in clients && !HasOurs(Books(), key)
      requires reached != null ==> forall c :: c in conns ==> c.res.sock != reached
      modifies this`persistentList, this`conns, o`conn, OwnConn(o)`lost
      modifies if reached != null then {reached} else {}
      ensures forall c :: c in old(conns) ==> LineOf(c.res) == old(LineOf(c.res))
      ensures made != null ==> LineOf(made.res) == old(FirstLine(reached, threshold))
      ensures Valid() && Books() == if made == null then old(Books()) else Add(old(Books()), o, made)
      ensures thrown == (made == null) && (made != null <==> reached != null && S.Takes(old(reached.script)))
      ensures made != null ==>
                && made.pkey == key && made.res.sock == reached
                && fresh(made) && fresh(made.res) && fresh(made.res.recvbuf)
      ensures conns == old(conns) + if made == null then {} else {made}
    {
      hide Balanced, Separate, Yrmcds.Valid, S.Takes, Books, Add, LineOf, HasOurs;
      var e, c := Connect(key, reached, threshold);
      thrown, made := e != OK, if e == OK then c else null;
      if e == OK { Adopt(o, c); }
    }

    /** What the connection listed under a key consists of. */
    ghost function Reach(key: Option<string>): set<object>
      reads this, clients, conns, if HasOurs(Books(), key) then {persistentList[key.value].c.res} else {}
    {
      if HasOurs(Books(), key) then {persistentList[key.value].c} + Wires(persistentList[key.value].c) else {}
    }

    /** use_existing_persistent_connection for an entry of ours, and what it does to the books. */
    method UseExisting(c: Conn, detectStale: bool) returns (f: Found, ghost healthy: bool)
      requires Valid() && c in conns && Listed(persistentList, c)
      modifies this`persistentList, c`referenceCount, c`closed, c.res, c.res.sock, c.res.recvbuf
      ensures Separate() && (c.res.recvbuf == old(c.res.recvbuf) || fresh(c.res.recvbuf))
      ensures Tried(detectStale, old(LineOf(c.res)), LineOf(c.res), healthy)
      ensures forall d :: d in conns && d != c ==> LineOf(d.res) == old(LineOf(d.res))
      ensures f == if healthy then Existing(c)
                   else if old(c.referenceCount) == 0 then Found.Broken else BrokenAndOccupied
      ensures var w := old(Books());
              && (f.Existing? ==> Books() == World(w.list, Refer(w.rows, c), w.held))
              && (f == Found.Broken ==> Books() == Drop(w, c) && Balanced(Books()))
              && (f == BrokenAndOccupied ==> Books() == w)
    {
      hide Books, Balanced, Separate, LineOf, Tried, Yrmcds.Valid, Rows, Held, Without, Drop, Refer;
      ghost var w := Books();
      RowsOf(c);
      f, healthy := TryExisting(c, detectStale);
      RowsNow(w.rows, c);
      FoundBooks(w, Books(), c, f);
    }

    lemma RowsOf(c: Conn)
      requires c in conns
      ensures Books() == World(persistentList, Rows(), Held()) && Rows().Keys == conns
      ensures forall d :: d in conns ==> Books().rows[d] == Row(d.referenceCount, d.lost, d.closed)
    {
    }

    /** The part of the constructor for an entry that exists: taken, found broken and in use, or gone. */
    method ConstructExisting(o: ClientObject, c: Conn, detectStale: bool) returns (f: Found, ghost healthy: bool)
      requires Valid() && o in clients && c in conns && Listed(persistentList, c)
      modifies this`persistentList, o`conn, OwnConn(o)`lost
      modifies c`referenceCount, c`closed, c.res, c.res.sock, c.res.recvbuf
      ensures Valid() && (c.res.recvbuf == old(c.res.recvbuf) || fresh(c.res.recvbuf))
      ensures Tried(detectStale, old(LineOf(c.res)), LineOf(c.res), healthy)
      ensures forall d :: d in conns && d != c ==> LineOf(d.res) == old(LineOf(d.res))
      ensures conns == old(conns)
      ensures f == if healthy then Existing(c)
                   else if old(c.referenceCount) == 0 then Found.Broken else BrokenAndOccupied
      ensures Books() == if healthy then Take(old(Books()), o, c)
                         else if f == Found.Broken then Drop(old(Books()), c) else old(Books())
    {
      hide Books, Balanced, Separate, LineOf, Tried, Rows, Held, Take, HeldBy, Without, Drop, Refer;
      ghost var w := Books();
      Named(o);
      f, healthy := UseExisting(c, detectStale);
      if f.Existing? { Hold(o, c, w); }
    }

    /** The constructor, up to what is known of the connections. */
    method Establish(o: ClientObject, persistId: string, reached: S.Stream?, threshold: nat, detectStale: bool)
      returns (thrown: bool, ghost healthy: bool, ghost made: Conn?)
      requires Valid() && o in clients
      requires reached != null ==> forall c :: c in conns ==> c.res.sock != reached
      modifies this`persistentList, this`conns, o`conn, OwnConn(o)`lost
      modifies Reach(KeyOf(persistId)), if reached != null then {reached} else {}
      ensures Valid() && (Books(), thrown) == Build(old(Books()), o, KeyOf(persistId), healthy, made)
      ensures var c := ListedAs(old(Books()), KeyOf(persistId));
              c != null ==> c in old(conns) && Tried(detectStale, old(LineOf(c.res)), LineOf(c.res), healthy)
      ensures forall c :: c in old(conns) && c != ListedAs(old(Books()), KeyOf(persistId)) ==>
                LineOf(c.res) == old(LineOf(c.res))
      ensures made != null ==> LineOf(made.res) == old(FirstLine(reached, threshold))
      ensures forall c :: c in old(conns) ==> c.res.recvbuf == old(c.res.recvbuf) || fresh(c.res.recvbuf)
      ensures (made != null) == (Needs(old(Books()), KeyOf(persistId), healthy)
                                 && reached != null && S.Takes(old(reached.script)))
      ensures made != null ==> made.pkey == KeyOf(persistId) && made.res.sock == reached
      ensures conns == old(conns) + if made == null then {} else {made}
      ensures made != null ==> fresh(made) && fresh(made.res) && fresh(made.res.recvbuf)
    {
      hide Extension.Valid, Books, LineOf, Tried, S.Takes, Take, Add, Listed, Refer, Lose;
      var key := KeyOf(persistId);
      Entry(key);
      Holds(o);
      healthy, made := true, null;
      if key.Some? && key.value in persistentList && persistentList[key.value].Ours? {
        var c := persistentList[key.value].c;
        Apart(c);
        var f;
        f, healthy := ConstructExisting(o, c, detectStale);
        Holds(o);
        if f.BrokenAndOccupied? { return true, healthy, made; }
        if f.Existing? { return false, healthy, made; }
      }
      thrown, made := ConstructNew(o, key, reached, threshold);
    }

    /** Client::__construct. It does to the books what Build says: the connection of the identifier is
        taken if it is healthy, given up if nobody uses it, and replaced by a new one if that can be
        made; otherwise the constructor throws. */
    method Construct(o: ClientObject, persistId: string, reached: S.Stream?, threshold: nat, detectStale: bool)
      returns (thrown: bool, ghost healthy: bool, ghost made: Conn?, ghost after: Line)
      requires Valid() && o in clients
      requires reached != null ==> forall c :: c in conns ==> c.res.sock != reached
      modifies this`persistentList, this`conns, o`conn, OwnConn(o)`lost
      modifies Reach(KeyOf(persistId)), if reached != null then {reached} else {}
      ensures Valid() && (Books(), thrown) == Build(old(Books()), o, KeyOf(persistId), healthy, made)
      ensures var c := ListedAs(old(Books()), KeyOf(persistId));
              && (c != null ==> Tried(detectStale, LineIn(old(Lines()), c), after, healthy))
              && Lines() == Changed(Changed(old(Lines()), c, after), made, old(FirstLine(reached, threshold)))
      ensures forall c :: c in old(conns) ==> c.res.recvbuf == old(c.res.recvbuf) || fresh(c.res.recvbuf)
      ensures (made != null) == (Needs(old(Books()), KeyOf(persistId), healthy)
                                 && reached != null && S.Takes(old(reached.script)))
      ensures made != null ==> made.pkey == KeyOf(persistId) && made.res.sock == reached
      ensures conns == old(conns) + if made == null then {} else {made}
      ensures made != null ==> fresh(made) && fresh(made.res) && fresh(made.res.recvbuf)
    {
      hide Valid, Books, Build, ListedAs, Needs, Tried, LineOf, Lines, FirstLine, S.Takes, KeyOf;
      ghost var lines, first := Lines(), FirstLine(reached, threshold);
      ghost var listed := ListedAs(Books(), KeyOf(persistId));
      LinesAre();
      thrown, healthy, made := Establish(o, persistId, reached, threshold, detectStale);
      after := if listed == null then UNUSED else LineOf(listed.res);
      LinesSame(Changed(Changed(lines, listed, after), made, first));
    }

    /** A client object uses its connection. */
    method Send(o: ClientObject, c: Conn, cmd: byte, cas: nat, key: seq<byte>, extras: seq<byte>, data: seq<byte>)
      returns (e: Error)
      requires Valid() && o in clients && o.conn == c && cas < Power256(8)
      modifies c.res`serial, c.res.sock
      ensures Valid() && !c.closed && Posted(old(LineOf(c.res)), LineOf(c.res), cmd, cas, key, extras, data)
      ensures forall d :: d in conns && d != c ==> LineOf(d.res) == old(LineOf(d.res))
    {
      hide Books, Balanced, Yrmcds.Valid, LineOf, Posted;
      Uses(o);
      e := Command(c.res, cmd, cas, key, extras, data);
    }

    method Receive(o: ClientObject, c: Conn) returns (e: Error, r: Response)
      requires Valid() && o in clients && o.conn == c
      modifies c.res, c.res.sock, c.res.recvbuf
      ensures Valid() && !c.closed && Received(old(LineOf(c.res)), LineOf(c.res))
      ensures c.res.recvbuf == old(c.res.recvbuf) || fresh(c.res.recvbuf)
      ensures forall d :: d in conns && d != c ==> LineOf(d.res) == old(LineOf(d.res))
    {
      hide Books, Balanced, Yrmcds.Valid, LineOf, Received;
      Uses(o);
      e, r := Fetch(c.res);
    }

    /** What holds in every state that the operations reach. No live object points at a closed
        connection; a persistent one that is in use is the one on the list; a connection counts its
        users and the references lost; and a connection that nothing can reach has been closed. */
    lemma Reachable(c: Conn)
      requires Valid() && c in conns
      ensures c.referenceCount == |set o | o in clients && o.conn == c| + c.lost
      ensures (exists o :: o in clients && o.conn == c) ==> !c.closed && (c.pkey.Some? ==> Listed(persistentList, c))
      ensures c.closed <==> if c.pkey.Some? then !Listed(persistentList, c) else c.referenceCount == 0
      ensures c.closed ==> c.lost == 0
    {
      assert RowOk(persistentList, Rows()[c], c, |Holders(Held(), c)|);
      assert Holders(Held(), c) == set o | o in clients && o.conn == c;
      if o :| o in clients && o.conn == c { HeldIsOpen(Books(), o); }
    }
  }

  /** What is known of a connection that has just been made. */
  ghost function FirstLine(reached: S.Stream?, threshold: nat): Line
    reads if reached != null then {reached} else {}
  {
    if reached == null then Line([], [], 0, false, 0, 0, 0)
    else Line(reached.incoming, reached.sent, 0, false, threshold, reached.broken, reached.refused)
  }

  /** pemalloc, yrmcds_connect, yrmcds_set_compression and yrmcds_set_timeout. A connection that does
      not get through all of them is never handed to anyone. */
  method Connect(pkey: Option<string>, reached: S.Stream?, threshold: nat) returns (e: Error, c: Conn?)
    modifies if reached != null then {reached} else {}
    ensures e == OK <==> reached != null && S.Takes(old(reached.script))
    ensures e == OK ==>
              && c != null && fresh(c) && fresh(c.res) && fresh(c.res.recvbuf) && c.res.sock == reached && c.res.Valid()
              && c.pkey == pkey && c.referenceCount == 1 && !c.closed && c.lost == 0
              && LineOf(c.res) == old(FirstLine(reached, threshold))
  {
    if reached == null { return SYSTEM_ERROR, null; }
    var res := new Yrmcds(reached);
    res.compressSize := threshold;
    c := new Conn(pkey, res);
    e := SetTimeout(reached);
  }
}
