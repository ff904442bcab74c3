/** Which sequences LZ4HC_compress_generic finds: its lazy parser, which weighs up to three overlapping
    matches, as a machine that jumps between its main loop and its two labels. */
module HcParse {
  import opened Bytes
  import opened BlockFormat
  import opened BlockParser
  import opened BlockRules
  import opened FastParse
  import opened FastSound
  import opened FastCodec
  import opened HcFinder

  const OPTIMAL_ML := ML_MASK - 1 + MINMATCH
  const MAX_LEVEL := 16
  const DEFAULT_LEVEL := 8

  /** How many chain links are followed at a compression level. */
  function Attempts(level: int): (n: nat)
    ensures n >= 1
  {
    var l := if level > MAX_LEVEL then MAX_LEVEL else if level < 1 then DEFAULT_LEVEL else level;
    Power2(l - 1)
  }

  function Power2(n: nat): (p: nat)
    ensures p >= 1
  {
    if n == 0 then 1 else 2 * Power2(n - 1)
  }

  // ---------------------------------------------------------------- matches that are cut

  /** A match shortened from the left. */
  function TrimLeft(c: Candidate, cut: nat): Candidate
    requires cut <= c.len
  {
    Candidate(c.start + cut, c.ref + cut, c.len - cut)
  }

  lemma TrimLeftGood(src: seq<byte>, c: Candidate, cut: nat)
    requires Good(src, c) && cut + MINMATCH <= c.len
    ensures Good(src, TrimLeft(c, cut)) && TrimLeft(c, cut).End() == c.End()
  {
  }

  lemma TrimRightGood(src: seq<byte>, c: Candidate, len: nat)
    requires Good(src, c) && MINMATCH <= len <= c.len
    ensures Good(src, c.(len := len))
  {
  }

  lemma TrimLeftGoodAll(src: seq<byte>, c: Candidate)
    requires Good(src, c)
    ensures forall cut: nat :: cut + MINMATCH <= c.len ==> Good(src, TrimLeft(c, cut))
  {
    forall cut: nat | cut + MINMATCH <= c.len ensures Good(src, TrimLeft(c, cut)) { TrimLeftGood(src, c, cut); }
  }

  /** The correction at _Search3: the second match gives way to the first, up to OPTIMAL_ML bytes,
      but keeps MINMATCH bytes. */
  function Separate(c1: Candidate, c2: Candidate): Candidate
    requires c1.start <= c2.start && MINMATCH <= c2.len
  {
    var gap := c2.start - c1.start;
    if gap < OPTIMAL_ML then
      var newMl := Min(c1.len, OPTIMAL_ML);
      var newMl' := if c1.start + newMl > c2.End() - MINMATCH then gap + c2.len - MINMATCH else newMl;
      var correction := newMl' - gap;
      if correction > 0 then TrimLeft(c2, correction) else c2
    else c2
  }

  lemma SeparateGood(src: seq<byte>, c1: Candidate, c2: Candidate)
    requires Good(src, c1) && Good(src, c2) && c1.start <= c2.start && c1.start + 2 * MINMATCH <= c2.End()
    ensures var r := Separate(c1, c2);
            && Good(src, r) && r.End() == c2.End() && c1.start + MINMATCH <= r.start
            && (r == c2 || c2.start < r.start <= c1.End())
  {
    hide Repeats;
    TrimLeftGoodAll(src, c2);
  }

  /** It ends where it did, and starts where the first one does after OPTIMAL_ML bytes, or after all it has, unless
      that leaves less than MINMATCH bytes, and not before it did. */
  lemma SeparateIs(c1: Candidate, c2: Candidate)
    requires c1.start <= c2.start && MINMATCH <= c2.len && MINMATCH <= c1.len
    requires c1.start + MINMATCH <= c2.End() - MINMATCH
    ensures var r, cut := Separate(c1, c2), Min(c1.start + Min(c1.len, OPTIMAL_ML), c2.End() - MINMATCH);
            && r.End() == c2.End() && r.start - r.ref == c2.start - c2.ref
            && r.start == if c2.start < c1.start + OPTIMAL_ML && cut > c2.start then cut else c2.start
  {
  }

  /** The last correction, before the first of three matches is written: how long it may be, and what
      is left of the second. */
  function Yield(c1: Candidate, c2: Candidate): (Candidate, Candidate)
    requires c1.start <= c2.start && MINMATCH <= c2.len
  {
    var gap := c2.start - c1.start;
    if c2.start < c1.End() then
      if gap < ML_MASK then
        var ml := Min(c1.len, OPTIMAL_ML);
        var ml' := if c1.start + ml > c2.End() - MINMATCH then gap + c2.len - MINMATCH else ml;
        var correction := ml' - gap;
        (c1.(len := ml'), if correction > 0 then TrimLeft(c2, correction) else c2)
      else (c1.(len := gap), c2)
    else (c1, c2)
  }

  lemma YieldGood(src: seq<byte>, c1: Candidate, c2: Candidate)
    requires Good(src, c1) && Good(src, c2) && c1.start + MINMATCH <= c2.start
    ensures var (a, b) := Yield(c1, c2);
            && Good(src, a) && a.start == c1.start && a.End() <= b.start
            && Good(src, b) && b.End() == c2.End()
            && (b == c2 || c2.start < b.start <= c1.End())
  {
    hide Repeats;
    TrimLeftGoodAll(src, c2);
    var (a, b) := Yield(c1, c2);
    if a.len <= c1.len { TrimRightGood(src, c1, a.len); }
  }

  /** Two matches that overlap are cut where the first has OPTIMAL_ML bytes, or all it has, unless that leaves less
      than MINMATCH bytes of the second; but where the second starts, if that is ML_MASK bytes on, or more. */
  lemma YieldIs(c1: Candidate, c2: Candidate)
    requires c1.start + MINMATCH <= c2.start && MINMATCH <= c2.len && MINMATCH <= c1.len
    ensures var (a, b) := Yield(c1, c2);
            var cut := if c2.start >= c1.start + ML_MASK then c2.start
                       else Min(c1.start + Min(c1.len, OPTIMAL_ML), c2.End() - MINMATCH);
            && a.start == c1.start && a.ref == c1.ref && b.End() == c2.End()
            && b.start - b.ref == c2.start - c2.ref
            && if c2.start >= c1.End() then a == c1 && b == c2
               else a.End() == cut && b.start == if c2.start < cut then cut else c2.start
  {
  }

  /** Where the second match overlaps the first it gives way to it, or to the third if too little is left. */
  function MoveOut(c1: Candidate, c2: Candidate, c3: Candidate): Candidate
  {
    if c2.start >= c1.End() then c2
    else if c2.len < MINMATCH + (c1.End() - c2.start) then c3
    else TrimLeft(c2, c1.End() - c2.start)
  }

  lemma MoveOutGood(src: seq<byte>, c1: Candidate, c2: Candidate, c3: Candidate)
    requires Good(src, c2) && Good(src, c3) && c2.start <= c3.start && c1.End() <= c3.start
    ensures var d := MoveOut(c1, c2, c3);
            Good(src, d) && c1.End() <= d.start <= c3.start && (d == c3 || d.End() == c2.End())
  {
    hide Repeats;
    TrimLeftGoodAll(src, c2);
  }

  /** It then starts where the first one ends, if MINMATCH bytes are left; otherwise it is the third. */
  lemma MoveOutIs(c1: Candidate, c2: Candidate, c3: Candidate)
    ensures var d := MoveOut(c1, c2, c3);
            if c2.start >= c1.End() then d == c2
            else if c2.End() < c1.End() + MINMATCH then d == c3
            else d.start == c1.End() && d.End() == c2.End() && d.start - d.ref == c2.start - c2.ref
  {
  }

  /** The first of two matches, cut where the second starts. */
  function CutAt(c1: Candidate, c2: Candidate): Candidate
    requires c1.start <= c2.start
  {
    if c2.start < c1.End() then c1.(len := c2.start - c1.start) else c1
  }

  // ---------------------------------------------------------------- the machine

  /** Where the parser goes next: its main loop, or one of its two labels. */
  datatype Label = MainLoop | Search2 | Search3

  /** The local variables: position and anchor, the matches at hand, and the one that may be reinstated. */
  datatype Jump = Jump(label_: Label, ip: nat, anchor: nat, c1: Candidate, c2: Candidate, c0: Candidate)

  /** With the tables, and the sequences written so far. */
  datatype Parser = Parser(j: Jump, t: Chains, seqs: seq<Sequence>)

  function MfLimitOf(src: seq<byte>): int { |src| - MFLIMIT }

  /** A match that may be written: it starts more than MFLIMIT bytes before the end of the input. */
  ghost predicate Ready(src: seq<byte>, c: Candidate) {
    Good(src, c) && c.start < MfLimitOf(src)
  }

  /** At _Search2: the current match, and the earlier, shorter one that may be reinstated. Positions
      up to `next` are in the chains. */
  ghost predicate InSearch2(src: seq<byte>, anchor: nat, c1: Candidate, c0: Candidate, next: int) {
    && Ready(src, c1) && Ready(src, c0)
    && anchor <= c0.start <= c1.start <= c0.start + 2
    && (c0 == c1 || c0.End() < MfLimitOf(src))
    && next <= c1.End() - MINMATCH
  }

  /** At _Search3: two matches, the second longer than the least, reaching far enough past the start
      of the first that both can be written, with a gap of at most one byte between them. */
  ghost predicate InSearch3(src: seq<byte>, anchor: nat, c1: Candidate, c2: Candidate, next: int) {
    && Ready(src, c1) && Ready(src, c2)
    && anchor <= c1.start <= c2.start <= c1.End() + 1
    && c1.End() < MfLimitOf(src)
    && c2.len > MINMATCH && c1.start + 2 * MINMATCH <= c2.End()
    && next <= c2.End() - MINMATCH
  }

  ghost predicate InPlace(src: seq<byte>, j: Jump, next: int) {
    match j.label_
    case MainLoop => j.anchor <= j.ip && next <= j.ip
    case Search2 => InSearch2(src, j.anchor, j.c1, j.c0, next)
    case Search3 => InSearch3(src, j.anchor, j.c1, j.c2, next)
  }

  /** No run of literals reaches the last MFLIMIT bytes of the input. */
  predicate Short(src: seq<byte>, seqs: seq<Sequence>) {
    forall i :: 0 <= i < |seqs| ==> |seqs[i].lits| < MfLimitOf(src) && seqs[i].matchLen <= |src|
  }

  /** What the machine keeps. */
  ghost predicate Sound(src: seq<byte>, s: Parser) {
    && OneShot(src).Valid() && s.t.Valid() && Codes(OneShot(src), s.seqs, s.j.anchor) && AllEncodable(s.seqs)
    && Short(src, s.seqs)
    && InPlace(src, s.j, s.t.next - BASE)
  }

  predicate AtEnd(src: seq<byte>, j: Jump) { j.label_.MainLoop? && j.ip >= MfLimitOf(src) }

  function SequenceOf(src: seq<byte>, anchor: nat, c: Candidate): Sequence
    requires anchor <= c.start <= |src| && c.ref <= c.start
  {
    Sequence(src[anchor..c.start], c.start - c.ref, c.len)
  }

  /** After a match has been written. */
  function Written1(src: seq<byte>, seqs: seq<Sequence>, anchor: nat, c: Candidate): seq<Sequence>
    requires anchor <= c.start <= |src| && c.ref <= c.start
  {
    seqs + [SequenceOf(src, anchor, c)]
  }

  function ToMain(j: Jump, ip: nat): Jump { j.(label_ := MainLoop, ip := ip, anchor := ip) }

  /** One turn of the main loop. */
  ghost function NextMain(src: seq<byte>, attempts: nat, s: Parser): Parser
    requires Sound(src, s) && s.j.label_.MainLoop? && !AtEnd(src, s.j)
  {
    var t := InsertTo(src, s.t, s.j.ip);
    var c := Best(src, t, s.j.ip, attempts);
    if c.len == 0 then Parser(s.j.(ip := s.j.ip + 1), t, s.seqs)
    else Parser(s.j.(label_ := Search2, c1 := c, c0 := c), t, s.seqs)
  }

  /** From _Search2 to the next jump. */
  ghost function Next2(src: seq<byte>, attempts: nat, s: Parser): Parser
    requires Sound(src, s) && s.j.label_.Search2?
  {
    var c1, c0 := s.j.c1, s.j.c0;
    if c1.End() >= MfLimitOf(src) then
      Parser(ToMain(s.j, c1.End()), s.t, Written1(src, s.seqs, s.j.anchor, c1))
    else
      var t := InsertTo(src, s.t, c1.End() - 2);
      var c2 := Wider(src, t, c1.End() - 2, c1.start + 1, c1.len, attempts);
      if c2.len == c1.len then Parser(ToMain(s.j, c1.End()), t, Written1(src, s.seqs, s.j.anchor, c1))
      else
        var d1 := if c0.start < c1.start && c2.start < c1.start + c0.len then c0 else c1;
        if c2.start - d1.start < 3 then Parser(s.j.(c1 := c2), t, s.seqs)
        else Parser(s.j.(label_ := Search3, c1 := d1, c2 := c2), t, s.seqs)
  }

  /** From _Search3 to the next jump. */
  ghost function Next3(src: seq<byte>, attempts: nat, s: Parser): Parser
    requires Sound(src, s) && s.j.label_.Search3?
  {
    SeparateGood(src, s.j.c1, s.j.c2);
    var c1, c2 := s.j.c1, Separate(s.j.c1, s.j.c2);
    if c2.End() >= MfLimitOf(src) then Two(src, s, s.t, c1, c2)
    else
      var t := InsertTo(src, s.t, c2.End() - 3);
      var c3 := Wider(src, t, c2.End() - 3, c2.start, c2.len, attempts);
      if c3.len == c2.len then Two(src, s, t, c1, c2) else Three(src, s, t, c1, c2, c3)
  }

  /** No better match: two sequences, the first cut where the second starts. */
  function Two(src: seq<byte>, s: Parser, t: Chains, c1: Candidate, c2: Candidate): Parser
    requires s.j.anchor <= c1.start <= c2.start <= |src| && c1.ref <= c1.start && c2.ref <= c2.start
  {
    var first := CutAt(c1, c2);
    Parser(ToMain(s.j, c2.End()), t, Written1(src, Written1(src, s.seqs, s.j.anchor, first), first.End(), c2))
  }

  /** A third match: the second goes, or the first is written. */
  function AfterThree(src: seq<byte>, j: Jump, seqs: seq<Sequence>, c1: Candidate, c2: Candidate, c3: Candidate)
    : (Jump, seq<Sequence>)
    requires j.anchor <= c1.start <= c2.start && c1.start <= |src| && c1.ref <= c1.start && MINMATCH <= c2.len
  {
    if c3.start < c1.End() then (j.(c2 := c3), seqs)
    else if c3.start < c1.End() + 3 then
      (j.(label_ := Search2, anchor := c1.End(), c1 := c3, c0 := MoveOut(c1, c2, c3)),
       Written1(src, seqs, j.anchor, c1))
    else
      var (first, rest) := Yield(c1, c2);
      (j.(anchor := first.End(), c1 := rest, c2 := c3), Written1(src, seqs, j.anchor, first))
  }

  function Three(src: seq<byte>, s: Parser, t: Chains, c1: Candidate, c2: Candidate, c3: Candidate): Parser
    requires s.j.anchor <= c1.start <= c2.start && c1.start <= |src| && c1.ref <= c1.start && MINMATCH <= c2.len
  {
    var (j, seqs) := AfterThree(src, s.j, s.seqs, c1, c2, c3);
    Parser(j, t, seqs)
  }

  ghost function NextState(src: seq<byte>, attempts: nat, s: Parser): Parser
    requires Sound(src, s) && !AtEnd(src, s.j)
  {
    match s.j.label_
    case MainLoop => NextMain(src, attempts, s)
    case Search2 => Next2(src, attempts, s)
    case Search3 => Next3(src, attempts, s)
  }

  // ---------------------------------------------------------------- what every step keeps

  /** A written match extends the coded part of the input. */
  lemma CodesCandidate(src: seq<byte>, acc: seq<Sequence>, anchor: nat, c: Candidate)
    requires OneShot(src).Valid() && Codes(OneShot(src), acc, anchor) && AllEncodable(acc)
    requires Ready(src, c) && anchor <= c.start
    ensures anchor <= c.start <= |src| && c.ref <= c.start && Encodable(SequenceOf(src, anchor, c))
    ensures Short(src, acc) ==> Short(src, Written1(src, acc, anchor, c))
    ensures AllEncodable(Written1(src, acc, anchor, c)) && Codes(OneShot(src), Written1(src, acc, anchor, c), c.End())
  {
    hide SequencesBytes, SequenceBytes, Codes, AllEncodable, Repeats;
    CodesRepeat(OneShot(src), acc, anchor, c.start, c.ref, c.len);
    SequencesSnoc(acc, SequenceOf(src, anchor, c));
  }

  lemma ReadyEnds(src: seq<byte>, c: Candidate)
    requires Good(src, c)
    ensures MINMATCH <= c.len && c.End() <= |src| - LASTLITERALS && c.ref < c.start
  {
  }

  /** How far the machine is: positions are only left behind, and the main loop comes before its search. */
  function Position(s: Parser): int { if s.j.label_.MainLoop? then s.j.ip else s.t.next - BASE }

  function Rank(s: Parser): nat { if s.j.label_.MainLoop? then 1 else 0 }

  ghost predicate Follows(src: seq<byte>, s: Parser, r: Parser) {
    && Sound(src, r) && s.seqs <= r.seqs
    && (Position(s) < Position(r) || (Position(s) == Position(r) && Rank(r) < Rank(s)))
  }

  lemma MainFollows(src: seq<byte>, attempts: nat, s: Parser)
    requires Sound(src, s) && s.j.label_.MainLoop? && !AtEnd(src, s.j)
    ensures Follows(src, s, NextMain(src, attempts, s))
  {
    hide Codes, AllEncodable, Short, Best, InsertTo, Good, Chains.Valid;
    Inserted(src, s.t, s.j.ip);
    BestGood(src, InsertTo(src, s.t, s.j.ip), s.j.ip, attempts);
    var c := Best(src, InsertTo(src, s.t, s.j.ip), s.j.ip, attempts);
    if c.len > 0 { ReadyEnds(src, c); }
  }

  lemma Follows2(src: seq<byte>, attempts: nat, s: Parser)
    requires Sound(src, s) && s.j.label_.Search2?
    ensures Follows(src, s, Next2(src, attempts, s))
  {
    hide Codes, AllEncodable, Short, Wider, InsertTo, Good, Chains.Valid;
    var c1 := s.j.c1;
    ReadyEnds(src, c1);
    ReadyEnds(src, s.j.c0);
    CodesCandidate(src, s.seqs, s.j.anchor, c1);
    if c1.End() < MfLimitOf(src) {
      var p := c1.End() - 2;
      Inserted(src, s.t, p);
      WiderGood(src, InsertTo(src, s.t, p), p, c1.start + 1, c1.len, attempts);
      var c2 := Wider(src, InsertTo(src, s.t, p), p, c1.start + 1, c1.len, attempts);
      if c2.len > c1.len { ReadyEnds(src, c2); }
    }
  }

  lemma TwoFollows(src: seq<byte>, s: Parser, t: Chains, c1: Candidate, c2: Candidate)
    requires Sound(src, s) && s.j.label_.Search3? && t.Valid() && t.next <= BASE + c2.End() && Position(s) < c2.End()
    requires Ready(src, c1) && Ready(src, c2) && s.j.anchor <= c1.start && c1.start + MINMATCH <= c2.start
    ensures Follows(src, s, Two(src, s, t, c1, c2))
    ensures var first := CutAt(c1, c2);
            && Ready(src, first) && first.start == c1.start && first.End() <= c2.start
            && Codes(OneShot(src), Written1(src, s.seqs, s.j.anchor, first), first.End())
            && AllEncodable(Written1(src, s.seqs, s.j.anchor, first))
  {
    hide Codes, AllEncodable, Short, Good, Chains.Valid;
    ReadyEnds(src, c1);
    ReadyEnds(src, c2);
    var first := CutAt(c1, c2);
    if c2.start < c1.End() { TrimRightGood(src, c1, first.len); }
    ReadyEnds(src, first);
    CodesCandidate(src, s.seqs, s.j.anchor, first);
    CodesCandidate(src, Written1(src, s.seqs, s.j.anchor, first), first.End(), c2);
  }

  lemma ThreeFollows(src: seq<byte>, s: Parser, t: Chains, c1: Candidate, c2: Candidate, c3: Candidate)
    requires Sound(src, s) && s.j.label_.Search3? && t.Valid() && t.next == BASE + c2.End() - 3
    requires Position(s) < c2.End() - 3 && c1 == s.j.c1
    requires Ready(src, c1) && Ready(src, c2)
    requires s.j.anchor <= c1.start && c1.start + MINMATCH <= c2.start <= c1.End() + 1
    requires c1.End() < MfLimitOf(src) && c2.End() < MfLimitOf(src)
    requires Good(src, c3) && c2.start <= c3.start <= c2.End() - 3 && c2.End() + 1 <= c3.End() && c3.len > c2.len
    ensures Follows(src, s, Three(src, s, t, c1, c2, c3))
  {
    hide Codes, AllEncodable, Short, Good, Chains.Valid, MoveOut, Yield;
    ReadyEnds(src, c1);
    ReadyEnds(src, c2);
    ReadyEnds(src, c3);
    if c3.start >= c1.End() + 3 {
      YieldGood(src, c1, c2);
      var (first, rest) := Yield(c1, c2);
      ReadyEnds(src, first);
      ReadyEnds(src, rest);
      CodesCandidate(src, s.seqs, s.j.anchor, first);
    } else if c3.start >= c1.End() {
      MoveOutGood(src, c1, c2, c3);
      ReadyEnds(src, MoveOut(c1, c2, c3));
      CodesCandidate(src, s.seqs, s.j.anchor, c1);
    }
  }

  lemma Follows3(src: seq<byte>, attempts: nat, s: Parser)
    requires Sound(src, s) && s.j.label_.Search3?
    ensures Follows(src, s, Next3(src, attempts, s))
  {
    hide Codes, AllEncodable, Short, Wider, InsertTo, Good, Chains.Valid, Separate, Two, Three, Follows;
    SeparateGood(src, s.j.c1, s.j.c2);
    var c1, c2 := s.j.c1, Separate(s.j.c1, s.j.c2);
    ReadyEnds(src, c1);
    ReadyEnds(src, c2);
    if c2.End() >= MfLimitOf(src) {
      TwoFollows(src, s, s.t, c1, c2);
    } else {
      var p := c2.End() - 3;
      Inserted(src, s.t, p);
      var t := InsertTo(src, s.t, p);
      WiderGood(src, t, p, c2.start, c2.len, attempts);
      var c3 := Wider(src, t, p, c2.start, c2.len, attempts);
      if c3.len == c2.len { TwoFollows(src, s, t, c1, c2); } else { ThreeFollows(src, s, t, c1, c2, c3); }
    }
  }

  lemma NextFollows(src: seq<byte>, attempts: nat, s: Parser)
    requires Sound(src, s) && !AtEnd(src, s.j)
    ensures Follows(src, s, NextState(src, attempts, s))
  {
    hide Sound, Follows, NextMain, Next2, Next3;
    match s.j.label_
    case MainLoop => MainFollows(src, attempts, s);
    case Search2 => Follows2(src, attempts, s);
    case Search3 => Follows3(src, attempts, s);
  }

  // ---------------------------------------------------------------- a whole run

  /** The machine runs until its main loop has no room for a match. */
  ghost function Run(src: seq<byte>, attempts: nat, s: Parser): (r: Parser)
    requires Sound(src, s)
    ensures Sound(src, r) && AtEnd(src, r.j) && s.seqs <= r.seqs
    decreases |src| - Position(s), Rank(s)
  {
    if AtEnd(src, s.j) then s
    else
      NextFollows(src, attempts, s);
      PositionBelow(src, s);
      Run(src, attempts, NextState(src, attempts, s))
  }

  lemma PositionBelow(src: seq<byte>, s: Parser)
    requires Sound(src, s) && !AtEnd(src, s.j)
    ensures Position(s) <= |src|
  {
    hide Codes, AllEncodable, Short, Repeats;
  }

  function AtStart(): Parser {
    var none := Candidate(0, 0, 0);
    Parser(Jump(MainLoop, 1, 0, none, none, none), NoChains(), [])
  }

  lemma StartSound(src: seq<byte>)
    requires |src| <= LZ4_MAX_INPUT_SIZE
    ensures Sound(src, AtStart())
  {
    OneShotValid(src);
    assert src[0..0] == [];
  }

  /** The block that the parser finds at a compression level. */
  ghost function HcBlock(src: seq<byte>, level: int): (b: Block)
    requires |src| <= LZ4_MAX_INPUT_SIZE
    ensures Encodes(src, b) && AllEncodable(b.seqs) && Short(src, b.seqs)
  {
    StartSound(src);
    var r := Run(src, Attempts(level), AtStart());
    CodedEncodes(src, r.seqs, r.j.anchor);
    Block(r.seqs, src[r.j.anchor..])
  }

  /** A block that codes `src`. */
  ghost predicate Encodes(src: seq<byte>, b: Block) {
    Legal(b.seqs, 0, |src|) && BlockLength(b) == |src| && Decode([], b) == Some(src)
  }

  lemma CodedEncodes(src: seq<byte>, acc: seq<Sequence>, anchor: nat)
    requires OneShot(src).Valid() && Codes(OneShot(src), acc, anchor)
    ensures anchor <= |src| && Encodes(src, Block(acc, src[anchor..]))
  {
    assert OneShot(src).Hist() == [];
    assert src[0..anchor] + src[anchor..] == src;
  }

  lemma HcBlockEncodable(src: seq<byte>, level: int)
    requires |src| <= LZ4_MAX_INPUT_SIZE
    ensures AllEncodable(HcBlock(src, level).seqs)
  {
    hide Run, Encodes;
  }

  /** The parser finds a block that codes the input, and it decodes to it. */
  lemma HcBlockSound(src: seq<byte>, level: int, cap: nat)
    requires |src| <= LZ4_MAX_INPUT_SIZE && |src| <= cap
    ensures var b := HcBlock(src, level);
            && AllEncodable(b.seqs) && Parse(BlockBytes(b), Limits(cap, 0, false, 0)) == Parsed(b)
            && Decode([], b) == Some(src) && BlockLength(b) == |src|
  {
    hide Parse, Legal, BlockBytes, Decode, Run;
    LegalParses(HcBlock(src, level), 0, Limits(cap, 0, false, 0));
  }
}
