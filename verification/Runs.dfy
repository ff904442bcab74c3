/** Whole runs of the extension: client objects are created, constructed, used and destroyed in any
    order, against servers that do anything. */
module Runs {
  import opened Bytes
  import opened Wire
  import opened Client
  import opened Persistent
  import S = Socket

  /** What the network does about a connection. */
  datatype Server = Refusing | Accepting(incoming: seq<byte>, script: seq<S.Event>)

  /** What a program does, with the object of index `i` where there is one. */
  datatype Step =
    | New
    | Construct(i: nat, persistId: string, server: Server, threshold: nat, detectStale: bool)
    | Destroy(i: nat)
    | Send(i: nat, cmd: byte, cas: nat, key: seq<byte>, extras: seq<byte>, data: seq<byte>)
    | Receive(i: nat)

  /** What came of a step: the object or connection that was made, whether the listed connection was
      healthy, whether the goodbye went well, and how things then stand on the connection in question. */
  datatype Answer = Answer(o: ClientObject?, made: Conn?, healthy: bool, settled: bool, after: Line)

  /** The objects in the order of their creation, the books, and how things stand on each connection. */
  datatype State = State(objects: seq<ClientObject>, w: World, lines: map<Conn, Line>)

  const START := State([], World(map[], map[], map[]), map[])

  // ---------------------------------------------------------------- the transition system

  /** The step has a live object to work on. */
  predicate Acts(s: State, step: Step) {
    !step.New? && step.i < |s.objects| && s.objects[step.i] in s.w.held
  }

  /** The connection that a step uses: the one listed for its identifier, or the one its object holds. */
  function Used(s: State, step: Step): Conn? {
    if !Acts(s, step) then null
    else if step.Construct? then ListedAs(s.w, KeyOf(step.persistId))
    else if step.Send? && step.cas >= Power256(8) then null
    else HeldBy(s.w, s.objects[step.i])
  }

  /** How things stand on a connection that has just been made. */
  function FirstTo(server: Server, threshold: nat): Line {
    if server.Refusing? then UNUSED else UNUSED.(pending := server.incoming, compressSize := threshold)
  }

  function NextLines(s: State, step: Step, a: Answer): map<Conn, Line> {
    var used := Changed(s.lines, Used(s, step), a.after);
    if step.Construct? && Acts(s, step) then Changed(used, a.made, FirstTo(step.server, step.threshold)) else used
  }

  function NextBooks(s: State, step: Step, a: Answer): World {
    match step
    case New => if a.o == null then s.w else Create(s.w, a.o)
    case Construct(i, id, _, _, _) =>
      if Acts(s, step) then Build(s.w, s.objects[i], KeyOf(id), a.healthy, a.made).0 else s.w
    case Destroy(i) => if Acts(s, step) then Forget(s.w, s.objects[i], a.settled) else s.w
    case _ => s.w
  }

  function Next(s: State, step: Step, a: Answer): State {
    State(if step.New? && a.o != null then s.objects + [a.o] else s.objects, NextBooks(s, step, a),
          NextLines(s, step, a))
  }

  /** A connection to this server gets through. */
  predicate Connects(server: Server) { server.Accepting? && S.Takes(server.script) }

  /** What can happen on the connection that a step uses. A listed one is healthy exactly when the round
      trip of a no-op says so, if that is wanted, and the goodbye goes well exactly when its reply says so. */
  ghost predicate Happens(step: Step, c: Conn, before: Line, a: Answer) {
    match step
    case New => true
    case Construct(_, _, _, _, detectStale) => Tried(detectStale, before, a.after, a.healthy)
    case Destroy(_) => PartedFrom(c, before, a.after, a.settled)
    case Send(_, cmd, cas, key, extras, data) =>
      cas < Power256(8) ==> Posted(before, a.after, cmd, cas, key, extras, data)
    case Receive(_) => Received(before, a.after)
  }

  /** What a step makes is new, and a connection is made exactly when it is needed and the server lets it. */
  predicate Makes(s: State, step: Step, a: Answer) {
    match step
    case New => a.o != null && a.o !in s.objects
    case Construct(i, id, server, _, _) =>
      Acts(s, step) ==>
        && ((a.made != null) == (Needs(s.w, KeyOf(id), a.healthy) && Connects(server)))
        && (a.made != null ==> a.made !in s.w.rows && a.made.pkey == KeyOf(id))
    case _ => true
  }

  /** The answers that a step can have. */
  ghost predicate Allowed(s: State, step: Step, a: Answer) {
    var c := Used(s, step);
    Makes(s, step, a) && (c != null ==> Happens(step, c, LineIn(s.lines, c), a))
  }

  function After(steps: seq<Step>, answers: seq<Answer>): State
    requires |steps| == |answers|
  {
    if steps == [] then START
    else
      var n := |steps| - 1;
      Next(After(steps[..n], answers[..n]), steps[n], answers[n])
  }

  ghost predicate Possible(steps: seq<Step>, answers: seq<Answer>)
    requires |steps| == |answers|
  {
    steps != [] ==>
      var n := |steps| - 1;
      Possible(steps[..n], answers[..n]) && Allowed(After(steps[..n], answers[..n]), steps[n], answers[n])
  }

  lemma OneMore(steps: seq<Step>, answers: seq<Answer>, step: Step, a: Answer)
    requires |steps| == |answers|
    ensures After(steps + [step], answers + [a]) == Next(After(steps, answers), step, a)
    ensures Possible(steps + [step], answers + [a]) <==>
              Possible(steps, answers) && Allowed(After(steps, answers), step, a)
    ensures Overwritten(steps + [step], answers + [a]) <==>
              Overwritten(steps, answers) || Overwrites(After(steps, answers), step, a)
  {
    hide Next, Allowed, Overwrites;
    var t, b := steps + [step], answers + [a];
    assert t[..|t| - 1] == steps && b[..|b| - 1] == answers;
  }

  // ---------------------------------------------------------------- every run keeps the books

  ghost predicate Good(s: State) {
    && Balanced(s.w) && (forall o :: o in s.w.held ==> o in s.objects)
    && forall i, j :: 0 <= i < j < |s.objects| ==> s.objects[i] != s.objects[j]
  }

  lemma NextGood(s: State, step: Step, a: Answer)
    requires Good(s) && Allowed(s, step, a)
    ensures Good(Next(s, step, a))
  {
    hide Balanced, NextLines, Used, Happens;
    match step
    case New => CreateKeeps(s.w, a.o);
    case Construct(i, id, _, _, _) =>
      if Acts(s, step) { BuildKeeps(s.w, s.objects[i], KeyOf(id), a.healthy, a.made); }
    case Destroy(i) => if Acts(s, step) { ForgetKeeps(s.w, s.objects[i], a.settled); }
    case _ =>
  }

  /** In every state of every run the books balance. */
  lemma {:induction false} RunBalanced(steps: seq<Step>, answers: seq<Answer>)
    requires |steps| == |answers| && Possible(steps, answers)
    ensures Good(After(steps, answers))
  {
    hide Next, Allowed;
    if steps != [] {
      var n := |steps| - 1;
      RunBalanced(steps[..n], answers[..n]);
      NextGood(After(steps[..n], answers[..n]), steps[n], answers[n]);
    }
  }

  function CountNew(steps: seq<Step>): nat {
    if steps == [] then 0 else CountNew(steps[..|steps| - 1]) + if steps[|steps| - 1].New? then 1 else 0
  }

  /** The object of index `i` was there and was destroyed. */
  predicate Destroyed(steps: seq<Step>, i: nat) {
    steps != [] &&
      var n := |steps| - 1;
      Destroyed(steps[..n], i) || (steps[n] == Destroy(i) && i < CountNew(steps[..n]))
  }

  lemma NextObjects(s: State, step: Step, a: Answer)
    requires Good(s) && Allowed(s, step, a)
    ensures var t := Next(s, step, a).objects;
            s.objects == t[..|s.objects|] && |t| == |s.objects| + if step.New? then 1 else 0
    ensures forall i :: 0 <= i < |Next(s, step, a).objects| ==>
              (Next(s, step, a).objects[i] in Next(s, step, a).w.held <==>
               if i < |s.objects| then s.objects[i] in s.w.held && step != Destroy(i) else true)
  {
    hide Balanced, Build, NextLines, Used, Happens;
    if step.Construct? && Acts(s, step) {
      BuildKeys(s.w, s.objects[step.i], KeyOf(step.persistId), a.healthy, a.made);
    }
  }

  /** The objects are those that were created, and alive are those that were not destroyed. */
  lemma {:induction false} ObjectsFollow(steps: seq<Step>, answers: seq<Answer>)
    requires |steps| == |answers| && Possible(steps, answers)
    ensures var s := After(steps, answers);
            |s.objects| == CountNew(steps)
            && forall i :: 0 <= i < |s.objects| ==> (s.objects[i] in s.w.held <==> !Destroyed(steps, i))
  {
    hide Next, Allowed, Good;
    if steps != [] {
      var n := |steps| - 1;
      ObjectsFollow(steps[..n], answers[..n]);
      RunBalanced(steps[..n], answers[..n]);
      NextObjects(After(steps[..n], answers[..n]), steps[n], answers[n]);
      NeverDestroyed(steps[..n], CountNew(steps[..n]));
    }
  }

  /** What was not there was not destroyed. */
  lemma {:induction false} NeverDestroyed(steps: seq<Step>, i: nat)
    requires i >= CountNew(steps)
    ensures !Destroyed(steps, i)
  {
    if steps != [] { NeverDestroyed(steps[..|steps| - 1], i); }
  }

  // ---------------------------------------------------------------- when the counts are exact

  /** An object that holds a connection is constructed again. */
  predicate Overwrites(s: State, step: Step, a: Answer) {
    && step.Construct? && Acts(s, step) && HeldBy(s.w, s.objects[step.i]) != null
    && !Build(s.w, s.objects[step.i], KeyOf(step.persistId), a.healthy, a.made).1
  }

  predicate Overwritten(steps: seq<Step>, answers: seq<Answer>)
    requires |steps| == |answers|
  {
    steps != [] &&
      var n := |steps| - 1;
      Overwritten(steps[..n], answers[..n]) || Overwrites(After(steps[..n], answers[..n]), steps[n], answers[n])
  }

  predicate NoneLost(rows: map<Conn, Row>) { forall c :: c in rows ==> rows[c].lost == 0 }

  /** Every count is the number of live objects that hold the connection. */
  predicate Exact(w: World) { forall c :: c in w.rows ==> w.rows[c].count == |Holders(w.held, c)| }

  lemma LoseShows(rows: map<Conn, Row>, a: Conn?)
    ensures NoneLost(Lose(rows, a)) <==> NoneLost(rows) && a == null
  {
    if a != null { assert a in Lose(rows, a); }
    if a == null || !NoneLost(rows) {
      forall c | c in rows ensures Lose(rows, a)[c].lost >= rows[c].lost {}
    }
  }

  lemma SameLost(rows: map<Conn, Row>, c: Conn, r: Row)
    requires r.lost == RowOf(rows, c).lost
    ensures NoneLost(rows[c := r]) <==> NoneLost(rows)
  {
    var after := rows[c := r];
    if NoneLost(after) {
      forall d | d in rows ensures rows[d].lost == 0 { assert d in after; }
    }
  }

  lemma BuildLoses(w: World, o: ClientObject, key: Option<string>, healthy: bool, made: Conn?)
    requires made != null ==> made !in w.rows
    requires HasOurs(w, key) ==> w.list[key.value].c in w.rows
    ensures var b := Build(w, o, key, healthy, made);
            NoneLost(b.0.rows) <==> NoneLost(w.rows) && (b.1 || HeldBy(w, o) == null)
  {
    hide NoneLost, Lose;
    if HasOurs(w, key) {
      var c := w.list[key.value].c;
      SameLost(w.rows, c, RowOf(w.rows, c).(count := RowOf(w.rows, c).count + 1));
      SameLost(w.rows, c, RowOf(w.rows, c).(closed := true));
      LoseShows(Refer(w.rows, c), HeldBy(w, o));
      if made != null {
        SameLost(Drop(w, c).rows, made, Row(1, 0, false));
        LoseShows(Drop(w, c).rows[made := Row(1, 0, false)], HeldBy(w, o));
      }
    } else if made != null {
      SameLost(w.rows, made, Row(1, 0, false));
      LoseShows(w.rows[made := Row(1, 0, false)], HeldBy(w, o));
    }
  }

  lemma NextLoses(s: State, step: Step, a: Answer)
    requires Good(s) && Allowed(s, step, a)
    ensures NoneLost(Next(s, step, a).w.rows) <==> NoneLost(s.w.rows) && !Overwrites(s, step, a)
  {
    hide NoneLost, Build, NextLines, Happens;
    match step
    case Construct(i, id, _, _, _) =>
      if Acts(s, step) { BuildLoses(s.w, s.objects[i], KeyOf(id), a.healthy, a.made); }
    case Destroy(i) =>
      if Acts(s, step) && HeldBy(s.w, s.objects[i]) != null {
        var c := HeldBy(s.w, s.objects[i]);
        SameLost(s.w.rows, c, Forget(s.w, s.objects[i], a.settled).rows[c]);
      }
    case _ =>
  }

  lemma {:induction false} LostIff(steps: seq<Step>, answers: seq<Answer>)
    requires |steps| == |answers| && Possible(steps, answers)
    ensures NoneLost(After(steps, answers).w.rows) <==> !Overwritten(steps, answers)
  {
    hide Next, Allowed, Overwrites, Good;
    if steps != [] {
      var n := |steps| - 1;
      LostIff(steps[..n], answers[..n]);
      RunBalanced(steps[..n], answers[..n]);
      NextLoses(After(steps[..n], answers[..n]), steps[n], answers[n]);
    }
  }

  /** After any run, every reference count is the number of live objects that hold the connection if and
      only if no object that held a connection has been constructed again. */
  lemma CountsExact(steps: seq<Step>, answers: seq<Answer>)
    requires |steps| == |answers| && Possible(steps, answers)
    ensures Exact(After(steps, answers).w) <==> !Overwritten(steps, answers)
  {
    hide After, Possible, Overwritten;
    RunBalanced(steps, answers);
    LostIff(steps, answers);
    var w := After(steps, answers).w;
    forall c | c in w.rows ensures w.rows[c].count == |Holders(w.held, c)| <==> w.rows[c].lost == 0 {
      assert RowOk(w.list, w.rows[c], c, |Holders(w.held, c)|);
    }
  }

  // ---------------------------------------------------------------- who shares a connection

  /** The constructor of the object of index `i` returns. */
  predicate Constructs(s: State, step: Step, a: Answer, i: nat) {
    && step.Construct? && step.i == i && Acts(s, step)
    && !Build(s.w, s.objects[i], KeyOf(step.persistId), a.healthy, a.made).1
  }

  /** The identifier with which the object of index `i` was constructed, the last time that this did not throw. */
  function Identifier(steps: seq<Step>, answers: seq<Answer>, i: nat): Option<string>
    requires |steps| == |answers|
  {
    if steps == [] then None
    else
      var n := |steps| - 1;
      if Constructs(After(steps[..n], answers[..n]), steps[n], answers[n], i) then Some(steps[n].persistId)
      else Identifier(steps[..n], answers[..n], i)
  }

  /** What an object holds is the connection of its identifier. */
  predicate HoldsFor(c: Conn?, id: Option<string>) {
    if id.Some? then c != null && c.pkey == KeyOf(id.value) else c == null
  }

  lemma BuildHolds(w: World, o: ClientObject, key: Option<string>, healthy: bool, made: Conn?, p: ClientObject)
    requires Balanced(w) && o in w.held && p in w.held && (made != null ==> made.pkey == key)
    ensures var b := Build(w, o, key, healthy, made);
            && p in b.0.held
            && if p == o && !b.1 then b.0.held[p] != null && b.0.held[p].pkey == key else b.0.held[p] == w.held[p]
  {
    hide Balanced, Lose, Refer;
    if HasOurs(w, key) { EntriesAreConns(w, key.value); }
  }

  lemma NextHolds(s: State, step: Step, a: Answer, i: nat)
    requires Good(s) && Allowed(s, step, a) && i < |s.objects|
    requires s.objects[i] in Next(s, step, a).w.held
    ensures Next(s, step, a).objects[i] == s.objects[i] && s.objects[i] in s.w.held
    ensures if Constructs(s, step, a, i) then HoldsFor(Next(s, step, a).w.held[s.objects[i]], Some(step.persistId))
            else Next(s, step, a).w.held[s.objects[i]] == s.w.held[s.objects[i]]
  {
    hide Balanced, Build, NextLines, Used, Happens;
    match step
    case Construct(k, id, _, _, _) =>
      if Acts(s, step) {
        BuildKeys(s.w, s.objects[k], KeyOf(id), a.healthy, a.made);
        BuildHolds(s.w, s.objects[k], KeyOf(id), a.healthy, a.made, s.objects[i]);
      }
    case _ =>
  }

  lemma {:induction false} NotYet(steps: seq<Step>, answers: seq<Answer>, i: nat)
    requires |steps| == |answers| && Possible(steps, answers) && i >= |After(steps, answers).objects|
    ensures Identifier(steps, answers, i) == None
  {
    hide Next, Allowed, Good;
    if steps != [] {
      var n := |steps| - 1;
      RunBalanced(steps[..n], answers[..n]);
      NextObjects(After(steps[..n], answers[..n]), steps[n], answers[n]);
      NotYet(steps[..n], answers[..n], i);
    }
  }

  /** After any run, every live object holds a connection of the identifier it was constructed with, or none if it
      was not. */
  lemma {:induction false} HeldByName(steps: seq<Step>, answers: seq<Answer>, i: nat)
    requires |steps| == |answers| && Possible(steps, answers)
    requires var s := After(steps, answers); i < |s.objects| && s.objects[i] in s.w.held
    ensures var s := After(steps, answers); HoldsFor(s.w.held[s.objects[i]], Identifier(steps, answers, i))
  {
    hide Next, Allowed, Good, Constructs, HoldsFor;
    if steps != [] {
      var n := |steps| - 1;
      var before := After(steps[..n], answers[..n]);
      RunBalanced(steps[..n], answers[..n]);
      NextObjects(before, steps[n], answers[n]);
      if i < |before.objects| {
        NextHolds(before, steps[n], answers[n], i);
        HeldByName(steps[..n], answers[..n], i);
      } else {
        NotYet(steps[..n], answers[..n], i);
        HoldsNothing(before, steps[n], answers[n], i);
      }
    }
  }

  lemma HoldsNothing(s: State, step: Step, a: Answer, i: nat)
    requires Good(s) && Allowed(s, step, a) && |s.objects| <= i < |Next(s, step, a).objects|
    requires Next(s, step, a).objects[i] in Next(s, step, a).w.held
    ensures HoldsFor(Next(s, step, a).w.held[Next(s, step, a).objects[i]], None) && !Constructs(s, step, a, i)
  {
    hide Balanced, Build, NextLines, Used, Happens;
  }

  /** Two objects share a connection if and only if they were constructed with the same identifier, which is not
      empty. */
  lemma SharedByName(steps: seq<Step>, answers: seq<Answer>, i: nat, j: nat)
    requires |steps| == |answers| && Possible(steps, answers)
    requires var s := After(steps, answers);
             i < j < |s.objects| && s.objects[i] in s.w.held && s.objects[j] in s.w.held
             && s.w.held[s.objects[i]] != null
    ensures var s, a, b := After(steps, answers), Identifier(steps, answers, i), Identifier(steps, answers, j);
            s.w.held[s.objects[i]] == s.w.held[s.objects[j]] <==> a == b && a != Some("")
  {
    hide After, Possible, Identifier, KeyOf;
    HeldByName(steps, answers, i);
    HeldByName(steps, answers, j);
    RunBalanced(steps, answers);
    var s, a, b := After(steps, answers), Identifier(steps, answers, i), Identifier(steps, answers, j);
    if a.Some? && b.Some? {
      KeysTell(a.value, b.value);
      KeysTell(a.value, "");
      HeldOnce(s.w, s.objects[i], s.objects[j]);
    }
  }

  /** A connection without a key has one holder, and one with a key is the listed one. */
  lemma HeldOnce(w: World, o: ClientObject, p: ClientObject)
    requires Balanced(w) && o in w.held && p in w.held && o != p && w.held[o] != null && w.held[p] != null
    ensures w.held[o].pkey == None ==> w.held[o] != w.held[p]
    ensures w.held[o].pkey.Some? && w.held[o].pkey == w.held[p].pkey ==> w.held[o] == w.held[p]
  {
    HeldIsOpen(w, o);
    HeldIsOpen(w, p);
    var c: Conn := w.held[o];
    assert RowOk(w.list, w.rows[c], c, |Holders(w.held, c)|);
    if w.held[p] == c {
      var both := {o, p};
      assert both <= Holders(w.held, c) && |both| == 2;
      AtLeast(both, Holders(w.held, c));
    }
  }

  lemma AtLeast(a: set<ClientObject>, b: set<ClientObject>)
    requires a <= b
    ensures |a| <= |b|
  {
    assert b == a + (b - a);
  }

  // ---------------------------------------------------------------- the extension follows it

  method Reached(server: Server, ghost threshold: nat) returns (sock: S.Stream?)
    ensures sock == null <==> server.Refusing?
    ensures sock != null ==> fresh(sock) && sock.script == server.script
    ensures FirstLine(sock, threshold) == FirstTo(server, threshold)
  {
    sock := null;
    match server
    case Refusing =>
    case Accepting(incoming, script) => sock := new S.Stream(incoming, script);
  }

  /** Everything that an extension's operations may change. */
  ghost function Footprint(x: Extension): set<object>
    reads x, x.conns, set c | c in x.conns :: c.res
  {
    {x} + x.clients + x.conns + set c, w | c in x.conns && w in Wires(c) :: w
  }

  lemma Empty(x: Extension)
    requires x.Books() == START.w
    ensures Footprint(x) == {x} && x.clients == {} && x.Lines() == START.lines
  {
    assert x.Held().Keys == {} && x.Rows().Keys == {} && x.Lines().Keys == {};
  }

  lemma Inside(x: Extension, c: Conn)
    requires c in x.conns
    ensures {c, c.res, c.res.sock, c.res.recvbuf} <= Footprint(x)
  {
    assert Wires(c) <= Footprint(x);
  }

  lemma Owns(x: Extension, o: ClientObject)
    requires x.Valid() && o in x.Books().held
    ensures {x, o} + OwnConn(o) <= Footprint(x) && x.Books().rows.Keys == x.conns && o in x.clients
    ensures o.conn != null ==> o.conn in x.conns && Wires(o.conn) <= Footprint(x)
  {
    hide Balanced;
    x.Named(o);
    if o.conn != null { Inside(x, o.conn); }
  }

  lemma Reaches(x: Extension, key: Option<string>)
    requires x.Valid()
    ensures x.Reach(key) <= Footprint(x) && forall f :: f in x.Reach(key) ==> !(f is ClientObject || f is Extension)
  {
    hide Extension.Valid;
    x.Entry(key);
    if HasOurs(x.Books(), key) { Inside(x, x.persistentList[key.value].c); }
  }

  lemma ForgetKeys(w: World, o: ClientObject, settled: bool)
    ensures Forget(w, o, settled).held.Keys == w.held.Keys - {o}
  {
  }

  lemma BuildKeys(w: World, o: ClientObject, key: Option<string>, healthy: bool, made: Conn?)
    requires o in w.held
    ensures Build(w, o, key, healthy, made).0.held.Keys == w.held.Keys
  {
  }

  lemma Begin()
    ensures Possible([], []) && After([], []) == START
  {
  }

  /** A step that has no object to work on. */
  lemma Idle(s: State, step: Step, a: Answer)
    requires !step.New? && !Acts(s, step)
    ensures Next(s, step, a) == s && Allowed(s, step, a)
  {
  }

  lemma NewIs(s: State, step: Step, a: Answer)
    requires step.New? && a.o != null
    ensures Next(s, step, a) == State(s.objects + [a.o], Create(s.w, a.o), s.lines)
    ensures Allowed(s, step, a) <==> a.o !in s.objects
  {
  }

  /** yrmcds_client_new. */
  method NewStep(x: Extension, ghost s: State, step: Step) returns (o: ClientObject, ghost a: Answer)
    requires x.Valid() && x.Books() == s.w && x.Lines() == s.lines && step.New?
    modifies Footprint(x)
    ensures fresh(o) && a.o == o
    ensures x.Books().held.Keys == s.w.held.Keys + {o}
    ensures x.Valid() && x.Books() == Next(s, step, a).w && x.Lines() == Next(s, step, a).lines
    ensures x.clients <= old(x.clients) + {o}
    ensures x.conns == old(x.conns)
    ensures forall c :: c in x.conns ==> c.res.recvbuf == old(c.res.recvbuf)
  {
    hide Extension.Valid, Extension.Lines;
    o := x.NewObject();
    a := Answer(o, null, true, true, UNUSED);
  }

  /** The constructor, and what it can touch. */
  method Construct(x: Extension, o: ClientObject, id: string, server: Server, threshold: nat, detectStale: bool)
    returns (ghost healthy: bool, ghost made: Conn?, ghost after: Line)
    requires x.Valid() && o in x.Books().held
    modifies Footprint(x)
    ensures x.Valid() && x.Books() == Build(old(x.Books()), o, KeyOf(id), healthy, made).0
    ensures var c := ListedAs(old(x.Books()), KeyOf(id));
            && (c != null ==> Tried(detectStale, LineIn(old(x.Lines()), c), after, healthy))
            && x.Lines() == Changed(Changed(old(x.Lines()), c, after), made, FirstTo(server, threshold))
    ensures (made != null) == (Needs(old(x.Books()), KeyOf(id), healthy) && Connects(server))
    ensures made != null ==> made !in old(x.Books()).rows && made.pkey == KeyOf(id)
    ensures x.clients <= old(x.clients)
    ensures forall c :: c in x.conns ==> c in old(x.conns) || (fresh(c) && fresh(c.res) && fresh(c.res.sock))
    ensures forall c :: c in x.conns ==>
              (c in old(x.conns) && c.res.recvbuf == old(c.res.recvbuf)) || fresh(c.res.recvbuf)
  {
    hide Extension.Valid, Extension.Books, Extension.Lines, LineOf, OwnConn, Build, Needs, ListedAs, KeyOf, Tried,
         FirstLine, FirstTo, Changed, LineIn, S.Takes;
    Owns(x, o);
    Reaches(x, KeyOf(id));
    hide Footprint, Extension.Reach;
    ghost var books, lines := x.Books(), x.Lines();
    var sock := Reached(server, threshold);
    assert x.Books() == books && x.Lines() == lines;
    var thrown;
    thrown, healthy, made, after := x.Construct(o, id, sock, threshold, detectStale);
  }

  method ConstructStep(x: Extension, ghost s: State, step: Step, o: ClientObject) returns (ghost a: Answer)
    requires x.Valid() && x.Books() == s.w && x.Lines() == s.lines
    requires step.Construct? && Acts(s, step) && s.objects[step.i] == o
    modifies Footprint(x)
    ensures x.Valid() && x.Books() == Next(s, step, a).w && x.Lines() == Next(s, step, a).lines && Allowed(s, step, a)
    ensures x.Books().held.Keys == s.w.held.Keys
    ensures x.clients <= old(x.clients)
    ensures forall c :: c in x.conns ==> c in old(x.conns) || (fresh(c) && fresh(c.res) && fresh(c.res.sock))
    ensures forall c :: c in x.conns ==>
              (c in old(x.conns) && c.res.recvbuf == old(c.res.recvbuf)) || fresh(c.res.recvbuf)
  {
    hide Extension.Valid, Extension.Books, Extension.Lines, Footprint, Build, Needs, Tried, Changed, LineIn;
    ghost var healthy, made, after;
    healthy, made, after := Construct(x, o, step.persistId, step.server, step.threshold, step.detectStale);
    BuildKeys(s.w, o, KeyOf(step.persistId), healthy, made);
    a := Answer(null, made, healthy, true, after);
  }

  /** The destructor, and what it can touch. */
  method Delete(x: Extension, o: ClientObject) returns (ghost settled: bool, ghost after: Line)
    requires x.Valid() && o in x.Books().held
    modifies Footprint(x)
    ensures x.Valid() && x.Books() == Forget(old(x.Books()), o, settled)
    ensures var c := HeldBy(old(x.Books()), o);
            && (c != null ==> PartedFrom(c, LineIn(old(x.Lines()), c), after, settled))
            && x.Lines() == Changed(old(x.Lines()), c, after)
    ensures x.clients <= old(x.clients)
    ensures x.conns == old(x.conns)
    ensures forall c :: c in x.conns ==> c.res.recvbuf == old(c.res.recvbuf) || fresh(c.res.recvbuf)
  {
    hide Extension.Valid, PartedFrom, LineOf, Extension.Lines, Forget, OwnConn;
    Owns(x, o);
    x.Holds(o);
    x.LinesAre();
    hide Footprint, Extension.Books;
    ghost var c := o.conn;
    settled := x.Delete(o);
    after := if c == null then UNUSED else LineOf(c.res);
  }

  method DestroyStep(x: Extension, ghost s: State, step: Step, o: ClientObject) returns (ghost a: Answer)
    requires x.Valid() && x.Books() == s.w && x.Lines() == s.lines
    requires step.Destroy? && Acts(s, step) && s.objects[step.i] == o
    modifies Footprint(x)
    ensures x.Valid() && x.Books() == Next(s, step, a).w && x.Lines() == Next(s, step, a).lines && Allowed(s, step, a)
    ensures x.Books().held.Keys == s.w.held.Keys - {o}
    ensures x.clients <= old(x.clients)
    ensures x.conns == old(x.conns)
    ensures forall c :: c in x.conns ==> c.res.recvbuf == old(c.res.recvbuf) || fresh(c.res.recvbuf)
  {
    hide Extension.Valid, Extension.Books, Extension.Lines, Footprint, Forget, PartedFrom, Changed, LineIn;
    ghost var settled, after;
    settled, after := Delete(x, o);
    ForgetKeys(s.w, o, settled);
    a := Answer(null, null, true, settled, after);
  }

  /** A request or a response, and what it can touch. */
  method Use(x: Extension, o: ClientObject, step: Step) returns (ghost after: Line)
    requires x.Valid() && o in x.Books().held && (step.Send? || step.Receive?)
    modifies Footprint(x)
    ensures x.Valid() && x.Books() == old(x.Books())
    ensures var c := if step.Send? && step.cas >= Power256(8) then null else HeldBy(old(x.Books()), o);
            && (c != null && step.Receive? ==> Received(LineIn(old(x.Lines()), c), after))
            && (c != null && step.Send? ==>
                  Posted(LineIn(old(x.Lines()), c), after, step.cmd, step.cas, step.key, step.extras, step.data))
            && x.Lines() == Changed(old(x.Lines()), c, after)
    ensures x.clients <= old(x.clients)
    ensures x.conns == old(x.conns)
    ensures forall c :: c in x.conns ==> c.res.recvbuf == old(c.res.recvbuf) || fresh(c.res.recvbuf)
  {
    hide Extension.Valid, Extension.Lines, Footprint, LineOf, Posted, Received, Power256, OwnConn;
    Owns(x, o);
    x.Holds(o);
    x.LinesAre();
    hide Extension.Books;
    ghost var lines := x.Lines();
    after := UNUSED;
    var c := o.conn;
    if c == null { return; }
    if step.Receive? {
      var e, r := x.Receive(o, c);
    } else if step.cas < Power256(8) {
      var e := x.Send(o, c, step.cmd, step.cas, step.key, step.extras, step.data);
    } else {
      return;
    }
    x.LinesNow(lines, c);
    after := LineOf(c.res);
  }

  method UseStep(x: Extension, ghost s: State, step: Step, o: ClientObject) returns (ghost a: Answer)
    requires x.Valid() && x.Books() == s.w && x.Lines() == s.lines
    requires (step.Send? || step.Receive?) && Acts(s, step) && s.objects[step.i] == o
    modifies Footprint(x)
    ensures x.Valid() && x.Books() == s.w == Next(s, step, a).w && x.Lines() == Next(s, step, a).lines
    ensures Allowed(s, step, a)
    ensures x.clients <= old(x.clients)
    ensures x.conns == old(x.conns)
    ensures forall c :: c in x.conns ==> c.res.recvbuf == old(c.res.recvbuf) || fresh(c.res.recvbuf)
  {
    hide Extension.Valid, Extension.Books, Extension.Lines, Footprint, Posted, Received, Power256, Changed, LineIn;
    ghost var after := Use(x, o, step);
    a := Answer(null, null, true, true, after);
  }

  /** A step of a live object. */
  method ActStep(x: Extension, ghost s: State, step: Step, o: ClientObject) returns (ghost a: Answer)
    requires x.Valid() && x.Books() == s.w && x.Lines() == s.lines && Acts(s, step) && s.objects[step.i] == o
    modifies Footprint(x)
    ensures x.Valid() && State(s.objects, x.Books(), x.Lines()) == Next(s, step, a) && Allowed(s, step, a)
    ensures x.Books().held.Keys == if step.Destroy? then s.w.held.Keys - {o} else s.w.held.Keys
    ensures x.clients <= old(x.clients)
    ensures forall c :: c in x.conns ==> c in old(x.conns) || (fresh(c) && fresh(c.res) && fresh(c.res.sock))
    ensures forall c :: c in x.conns ==>
              (c in old(x.conns) && c.res.recvbuf == old(c.res.recvbuf)) || fresh(c.res.recvbuf)
  {
    hide Extension.Valid, Extension.Books, Extension.Lines, Footprint, NextBooks, NextLines, Allowed;
    if step.Construct? {
      a := ConstructStep(x, s, step, o);
    } else if step.Destroy? {
      a := DestroyStep(x, s, step, o);
    } else {
      a := UseStep(x, s, step, o);
    }
  }

  /** Whatever a program does and whatever the servers do, the extension goes the way of the transition
      system, so everything proved about its runs holds of the objects and connections. */
  method Run(steps: seq<Step>) returns (x: Extension, objects: seq<ClientObject>, ghost answers: seq<Answer>)
    ensures |answers| == |steps| && Possible(steps, answers)
    ensures x.Valid() && State(objects, x.Books(), x.Lines()) == After(steps, answers)
  {
    hide Extension.Valid, Extension.Books, Extension.Lines, Possible, After, Next, Allowed;
    x := new Extension();
    objects, answers := [], [];
    var alive: set<ClientObject> := {};
    Empty(x);
    Begin();
    for n := 0 to |steps|
      invariant x.Valid() && fresh(x) && fresh(x.clients) && alive == x.Books().held.Keys
      invariant forall c :: c in x.conns ==> fresh(c) && fresh(c.res) && fresh(c.res.sock) && fresh(c.res.recvbuf)
      invariant |answers| == n && Possible(steps[..n], answers)
      invariant State(objects, x.Books(), x.Lines()) == After(steps[..n], answers)
    {
      var step := steps[n];
      ghost var s, a := State(objects, x.Books(), x.Lines()), Answer(null, null, true, true, UNUSED);
      assert steps[..n + 1] == steps[..n] + [step];
      if step.New? {
        var o;
        o, a := NewStep(x, s, step);
        assert o !in objects;
        NewIs(s, step, a);
        objects, alive := objects + [o], alive + {o};
      } else if step.i < |objects| && objects[step.i] in alive {
        a := ActStep(x, s, step, objects[step.i]);
        if step.Destroy? { alive := alive - {objects[step.i]}; }
      } else {
        Idle(s, step, a);
      }
      OneMore(steps[..n], answers, step, a);
      answers := answers + [a];
    }
    assert steps[..|steps|] == steps;
  }

  // ---------------------------------------------------------------- a run that leaks

  function Twice(server: Server): seq<Step> {
    [New, Step.Construct(0, "", server, 0, false), Step.Construct(0, "", server, 0, false), Destroy(0)]
  }

  lemma TwiceLeaks(server: Server, a: seq<Answer>)
    requires Connects(server) && |a| == 4 && Possible(Twice(server), a)
    ensures Overwritten(Twice(server), a)
    ensures var c, w := a[1].made, After(Twice(server), a).w;
            w.held == map[] && c != null && c in w.rows && w.rows[c] == Row(1, 1, false)
  {
    hide After, Possible, Connects, Overwritten, NextLines, Used, Happens;
    var t := Twice(server);
    Begin();
    OneMore([], [], t[0], a[0]);
    OneMore(t[..1], a[..1], t[1], a[1]);
    OneMore(t[..2], a[..2], t[2], a[2]);
    OneMore(t[..3], a[..3], t[3], a[3]);
    assert t[..1] == [] + [t[0]] && a[..1] == [] + [a[0]];
    assert t[..2] == t[..1] + [t[1]] && a[..2] == a[..1] + [a[1]];
    assert t[..3] == t[..2] + [t[2]] && a[..3] == a[..2] + [a[2]];
    assert t == t[..3] + [t[3]] && a == a[..3] + [a[3]];
  }

  /** An object is constructed twice and destroyed. Its first connection stays open for ever, counted once
      and held by nobody. */
  method ConstructTwice(server: Server) returns (x: Extension, ghost c: Conn)
    requires Connects(server)
    ensures x.Valid() && x.clients == {} && c in x.conns && c.referenceCount == 1 && !c.closed
  {
    hide Extension.Valid, Possible, After;
    var objects;
    ghost var answers;
    x, objects, answers := Run(Twice(server));
    TwiceLeaks(server, answers);
    c := answers[1].made;
    assert x.Books().rows[c] == Row(c.referenceCount, c.lost, c.closed) && x.Books().held.Keys == x.clients;
  }
}
