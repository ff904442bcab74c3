/** What LZ4_decompress_generic makes of its input: the control flow of the decoder, which
    depends on the compressed bytes and the sizes but never on the decoded data. */
module BlockParser {
  import opened Bytes
  import opened BlockFormat

  /** `Parsed`: decoding ends normally with this block. `Malformed(at)`: it stops with code -at-1.
      `Overread`: a token or length byte is read beyond the end of the input. */
  datatype Outcome = Parsed(block: Block) | Malformed(at: nat) | Overread

  /** Output capacity, bytes of history before the output, and the partial-decoding target. */
  datatype Limits = Limits(cap: nat, room: nat, partial: bool, target: nat)
  {
    /** Where the literals of a sequence that is followed by a match must end. */
    function RunEnd(): int {
      if partial then Min(target, cap - MFLIMIT) else cap - MFLIMIT
    }
  }

  /** The literal-length loop; it also stops within RUN_MASK bytes of the end of the input. */
  function ReadRun(src: seq<byte>, ip: nat, len: nat): (r: (nat, nat))
    requires ip < |src|
    ensures r.0 >= len && ip < r.1 <= |src|
    decreases |src| - ip
  {
    if ip + 1 < |src| - RUN_MASK && src[ip] == 255
    then ReadRun(src, ip + 1, len + 255)
    else (len + src[ip], ip + 1)
  }

  /** The match-length loop: whether it ended well, the length, and the next position. */
  function ReadMatch(src: seq<byte>, ip: nat, len: nat): (r: (bool, nat, nat))
    requires ip <= |src|
    ensures r.1 >= len && ip <= r.2 <= |src|
    ensures r.0 ==> ip < r.2 <= |src| - LASTLITERALS + 1
    decreases |src| - ip
  {
    if ip > |src| - LASTLITERALS then (false, len, ip)
    else if src[ip] == 255 then ReadMatch(src, ip + 1, len + 255)
    else (true, len + src[ip], ip + 1)
  }

  /** One turn of the main loop: the block ends here, or fails, or one sequence is taken. */
  datatype Step = Last(lits: seq<byte>) | Fail(at: nat) | Beyond | Take(s: Sequence, next: nat)

  function ReadLiterals(src: seq<byte>, ip: nat): (r: (nat, nat))
    requires ip + 1 < |src| || (ip < |src| && src[ip] / 16 != RUN_MASK)
    ensures ip < r.1 <= |src|
  {
    if src[ip] / 16 == RUN_MASK then ReadRun(src, ip + 1, RUN_MASK) else (src[ip] / 16, ip + 1)
  }

  function ReadMatchLength(src: seq<byte>, token: byte, ip: nat): (r: (bool, nat, nat))
    requires ip <= |src|
    ensures ip <= r.2 <= |src|
    ensures r.0 && token % 16 == ML_MASK ==> r.2 <= |src| - LASTLITERALS + 1
    ensures r.0 && token % 16 != ML_MASK ==> r.2 == ip
  {
    if token % 16 == ML_MASK then ReadMatch(src, ip, ML_MASK) else (true, token % 16, ip)
  }

  /** The second half of a turn: offset and match length at `q`, the match starting at output `cpy`. */
  function MatchStep(src: seq<byte>, token: byte, lits: seq<byte>, q: nat, cpy: nat, l: Limits): (r: Step)
    requires q <= |src| - (2 + 1 + LASTLITERALS)
    ensures r.Take? ==> q < r.next && r.next + 2 <= |src| && r.s.lits == lits
    ensures r.Take? ==> Encodable(r.s) && cpy + r.s.matchLen <= l.cap - LASTLITERALS && r.s.offset <= cpy + l.room
    ensures r.Fail? ==> r.at <= |src|
    ensures r.Take? || r.Fail?
  {
    var offset := LE16(src[q], src[q + 1]);
    if offset > cpy + l.room then Fail(q + 2)
    else
      var (ok, len, next) := ReadMatchLength(src, token, q + 2);
      if !ok || cpy + len + MINMATCH > l.cap - LASTLITERALS then Fail(next)
      else Take(Sequence(lits, offset, len + MINMATCH), next)
  }

  function ReadStep(src: seq<byte>, ip: nat, op: nat, l: Limits): (r: Step)
    requires ip <= |src|
    ensures r.Take? ==> ip < r.next && r.next + 2 <= |src|
    ensures r.Take? ==> Encodable(r.s) && op + |r.s.lits| + r.s.matchLen <= l.cap - LASTLITERALS
    ensures r.Take? ==> op + |r.s.lits| <= l.RunEnd() && r.s.offset <= op + |r.s.lits| + l.room
    ensures r.Fail? ==> r.at <= |src|
    ensures r.Last? ==> op + |r.lits| <= l.cap
    ensures r.Beyond? <==> ip == |src| || (src[ip] / 16 == RUN_MASK && ip + 1 == |src|)
  {
    if ip == |src| || (src[ip] / 16 == RUN_MASK && ip + 1 == |src|) then Beyond
    else
      var (run, p) := ReadLiterals(src, ip);
      var cpy := op + run;
      if cpy > l.RunEnd() || p + run > |src| - (2 + 1 + LASTLITERALS) then
        if cpy > l.cap || (if l.partial then p + run > |src| else p + run != |src|) then Fail(p)
        else Last(src[p..p + run])
      else MatchStep(src, src[ip], src[p..p + run], p + run, cpy, l)
  }

  /** The main loop from input position `ip` and output position `op`. */
  function ParseFrom(src: seq<byte>, ip: nat, op: nat, l: Limits, acc: seq<Sequence>): (o: Outcome)
    requires ip <= |src|
    ensures o.Malformed? ==> o.at <= |src|
    decreases |src| - ip
  {
    match ReadStep(src, ip, op, l)
    case Last(lits) => Parsed(Block(acc, lits))
    case Fail(at) => Malformed(at)
    case Beyond => Overread
    case Take(s, next) => ParseFrom(src, next, op + |s.lits| + s.matchLen, l, acc + [s])
  }

  /** The whole call, with the special case of an empty output buffer. */
  function Parse(src: seq<byte>, l: Limits): (o: Outcome)
  {
    if l.cap == 0 then
      if |src| == 1 && src[0] == 0 then Parsed(Block([], [])) else Malformed(0)
    else ParseFrom(src, 0, 0, l, [])
  }

  /** The value the C function returns. */
  function Code(o: Outcome): int
    requires !o.Overread?
  {
    if o.Parsed? then BlockLength(o.block) else -(o.at as int) - 1
  }

  // ---------------------------------------------------------------- which reads stay in bounds

  lemma {:induction false} NoOverreadFrom(src: seq<byte>, ip: nat, op: nat, l: Limits, acc: seq<Sequence>)
    requires ip + 2 <= |src|
    ensures !ParseFrom(src, ip, op, l, acc).Overread?
    decreases |src| - ip
  {
    var r := ReadStep(src, ip, op, l);
    if r.Take? {
      NoOverreadFrom(src, r.next, op + |r.s.lits| + r.s.matchLen, l, acc + [r.s]);
    }
  }

  /** The unguarded first reads leave the input exactly when it is empty, or is a lone token that
      announces more length bytes, and there is output room at all. */
  lemma OverreadExactly(src: seq<byte>, l: Limits)
    ensures Parse(src, l).Overread? <==>
              l.cap > 0 && (|src| == 0 || (|src| == 1 && src[0] / 16 == RUN_MASK))
  {
    if |src| >= 2 { NoOverreadFrom(src, 0, 0, l, []); }
  }

  // ---------------------------------------------------------------- lengths

  lemma {:induction false} ReadRunBytes(src: seq<byte>, ip: nat, len: nat, x: nat)
    requires ip < |src| && LengthBytes(x) <= src[ip..]
    requires ip + |LengthBytes(x)| + x + RUN_MASK <= |src|
    ensures ReadRun(src, ip, len) == (len + x, ip + |LengthBytes(x)|)
    decreases x
  {
    assert src[ip] == LengthBytes(x)[0];
    if x >= 255 {
      assert src[ip..][1..] == src[ip + 1..];
      assert LengthBytes(x)[1..] == LengthBytes(x - 255);
      ReadRunBytes(src, ip + 1, len + 255, x - 255);
    }
  }

  lemma {:induction false} ReadRunUnique(src: seq<byte>, ip: nat, len: nat)
    requires ip < |src|
    requires var r := ReadRun(src, ip, len); r.1 + (r.0 - len) + RUN_MASK <= |src|
    ensures var r := ReadRun(src, ip, len); src[ip..r.1] == LengthBytes(r.0 - len)
    decreases |src| - ip
  {
    if ip + 1 < |src| - RUN_MASK && src[ip] == 255 {
      ReadRunUnique(src, ip + 1, len + 255);
      var r := ReadRun(src, ip, len);
      assert src[ip..r.1] == [src[ip]] + src[ip + 1..r.1];
    }
  }

  lemma {:induction false} ReadMatchBytes(src: seq<byte>, ip: nat, len: nat, x: nat)
    requires ip <= |src| && LengthBytes(x) <= src[ip..]
    ensures var r := ReadMatch(src, ip, len);
            if ip + |LengthBytes(x)| + LASTLITERALS - 1 <= |src| then r == (true, len + x, ip + |LengthBytes(x)|)
            else !r.0
    decreases x
  {
    assert src[ip] == LengthBytes(x)[0];
    if x >= 255 {
      assert src[ip..][1..] == src[ip + 1..];
      assert LengthBytes(x)[1..] == LengthBytes(x - 255);
      ReadMatchBytes(src, ip + 1, len + 255, x - 255);
    }
  }

  lemma {:induction false} ReadMatchUnique(src: seq<byte>, ip: nat, len: nat)
    requires ip <= |src| && ReadMatch(src, ip, len).0
    ensures var r := ReadMatch(src, ip, len); src[ip..r.2] == LengthBytes(r.1 - len)
    decreases |src| - ip
  {
    if src[ip] == 255 {
      ReadMatchUnique(src, ip + 1, len + 255);
      var r := ReadMatch(src, ip, len);
      assert src[ip..r.2] == [src[ip]] + src[ip + 1..r.2];
    }
  }

  // ---------------------------------------------------------------- which blocks are accepted

  function Tail(b: Block): Block
    requires b.seqs != []
  {
    Block(b.seqs[1..], b.last)
  }

  function AfterFirst(b: Block, op: nat): nat
    requires b.seqs != []
  {
    op + |b.seqs[0].lits| + b.seqs[0].matchLen
  }

  /** The parsing restrictions: where literals and matches may end in the output, how far back a
      match may reach, and how many bytes must follow in the input. */
  predicate Fits(b: Block, op: nat, l: Limits)
    requires AllEncodable(b.seqs)
    decreases |b.seqs|
  {
    if b.seqs == [] then op + |b.last| <= l.cap
    else
      var s := b.seqs[0];
      var ext := |Extension(s.matchLen - MINMATCH)|;
      var follow := |BlockBytes(Tail(b))|;
      && op + |s.lits| <= l.cap - MFLIMIT
      && s.offset <= op + |s.lits| + l.room
      && AfterFirst(b, op) <= l.cap - LASTLITERALS
      && 2 + ext + follow >= 2 + 1 + LASTLITERALS
      && (ext > 0 ==> follow >= LASTLITERALS - 1)
      && Fits(Tail(b), AfterFirst(b, op), l)
  }

  /** The part of a block that is decoded: all of it, or up to the first literals past RunEnd. */
  function Cut(b: Block, op: nat, l: Limits): Block
    decreases |b.seqs|
  {
    if b.seqs == [] then b
    else if op + |b.seqs[0].lits| > l.RunEnd() then Block([], b.seqs[0].lits)
    else
      var c := Cut(Tail(b), AfterFirst(b, op), l);
      Block([b.seqs[0]] + c.seqs, c.last)
  }

  lemma {:induction false} CutWhole(b: Block, op: nat, l: Limits)
    requires AllEncodable(b.seqs) && Fits(b, op, l) && !l.partial
    ensures Cut(b, op, l) == b
    decreases |b.seqs|
  {
    if b.seqs != [] {
      CutWhole(Tail(b), AfterFirst(b, op), l);
      assert b.seqs == [b.seqs[0]] + b.seqs[1..];
    }
  }

  lemma FirstBytes(b: Block, junk: nat)
    requires AllEncodable(b.seqs) && b.seqs != []
    ensures BlockBytesWith(b, junk) == SequenceBytes(b.seqs[0]) + BlockBytesWith(Tail(b), junk)
  {
    var one := [b.seqs[0]];
    SequencesConcat(one, b.seqs[1..]);
    assert b.seqs == one + b.seqs[1..];
    assert one[..0] == [];
    assert SequencesBytes(one) == SequenceBytes(b.seqs[0]);
  }

  lemma OnlyLiterals(b: Block, junk: nat)
    requires b.seqs == []
    ensures BlockBytesWith(b, junk) == HeadBytes(b.last, junk)
  {
  }

  lemma JunkSize(b: Block, junk: nat)
    requires AllEncodable(b.seqs)
    ensures |BlockBytesWith(b, junk)| == |BlockBytes(b)|
  {
  }

  /** Reading back a token with its literal length. */
  lemma ReadHead(src: seq<byte>, ip: nat, lits: seq<byte>, match4: nat)
    requires ip <= |src| && HeadBytes(lits, match4) <= src[ip..]
    ensures ip < |src| && src[ip] == Token(|lits|, match4)
    ensures src[ip] / 16 == RUN_MASK ==> ip + 1 < |src|
    ensures var p := ip + 1 + |Extension(|lits|)|;
            ReadLiterals(src, ip) == (|lits|, p) && p + |lits| <= |src| && src[p..p + |lits|] == lits
  {
    hide LengthBytes, Token, HeadBytes, ReadRun;
    HeadLies(src, ip, lits, match4);
    TokenParts(|lits|, match4);
    if |lits| >= 15 { ReadRunOf(src, ip + 1, |lits|); }
  }

  /** Where the parts of a head lie. */
  lemma HeadLies(src: seq<byte>, ip: nat, lits: seq<byte>, match4: nat)
    requires ip <= |src| && HeadBytes(lits, match4) <= src[ip..]
    ensures var p := ip + 1 + |Extension(|lits|)|;
            && p + |lits| <= |src| && src[ip] == Token(|lits|, match4)
            && src[ip + 1..p] == Extension(|lits|) && src[p..p + |lits|] == lits
  {
    hide Extension, Token;
    var h, e := HeadBytes(lits, match4), Extension(|lits|);
    assert src[ip..ip + |h|] == h;
    SubSlice(src, ip, ip + |h|, 1, 1 + |e|);
    SubSlice(src, ip, ip + |h|, 1 + |e|, |h|);
    assert src[ip] == src[ip..ip + |h|][0];
    assert h[1..1 + |e|] == e && h[1 + |e|..|h|] == lits;
  }

  lemma ReadRunOf(src: seq<byte>, at: nat, n: nat)
    requires n >= 15 && at + |Extension(n)| + n <= |src| && src[at..at + |Extension(n)|] == Extension(n)
    ensures |Extension(n)| > 0 && ReadRun(src, at, RUN_MASK) == (n, at + |Extension(n)|)
  {
    LengthBytesSize(n - 15);
    assert src[at..][..|Extension(n)|] == Extension(n);
    ReadRunBytes(src, at, RUN_MASK, n - 15);
  }

  /** Reading back an offset and a match length. */
  lemma ReadTail(src: seq<byte>, q: nat, token: byte, s: Sequence)
    requires Encodable(s) && token % 16 == Nibble(s.matchLen - MINMATCH)
    requires q <= |src| && OffsetBytes(s.offset) + Extension(s.matchLen - MINMATCH) <= src[q..]
    ensures q + 2 <= |src| && LE16(src[q], src[q + 1]) == s.offset
    ensures var e := |Extension(s.matchLen - MINMATCH)|;
            var next := q + 2 + e;
            && next <= |src|
            && (if e == 0 || next + LASTLITERALS - 1 <= |src|
                then ReadMatchLength(src, token, q + 2) == (true, s.matchLen - MINMATCH, next)
                else !ReadMatchLength(src, token, q + 2).0)
  {
    var e := Extension(s.matchLen - MINMATCH);
    var t := OffsetBytes(s.offset) + e;
    assert src[q] == t[0] && src[q + 1] == t[1];
    assert src[q + 2..][..|e|] == t[2..] == e;
    if e != [] { ReadMatchBytes(src, q + 2, ML_MASK, s.matchLen - MINMATCH - 15); }
  }

  lemma MatchStepTakes(src: seq<byte>, q: nat, token: byte, cpy: nat, l: Limits, s: Sequence)
    requires Encodable(s) && token % 16 == Nibble(s.matchLen - MINMATCH)
    requires q <= |src| && OffsetBytes(s.offset) + Extension(s.matchLen - MINMATCH) <= src[q..]
    requires s.offset <= cpy + l.room && cpy + s.matchLen <= l.cap - LASTLITERALS
    requires q <= |src| - (2 + 1 + LASTLITERALS)
    requires var e := |Extension(s.matchLen - MINMATCH)|; e == 0 || q + 2 + e + LASTLITERALS - 1 <= |src|
    ensures MatchStep(src, token, s.lits, q, cpy, l) == Take(s, q + 2 + |Extension(s.matchLen - MINMATCH)|)
  {
    ReadTail(src, q, token, s);
  }

  lemma SplitPrefix<T>(s: seq<T>, a: seq<T>, b: seq<T>)
    requires a + b <= s
    ensures a <= s && b <= s[|a|..]
  {
    assert s[|a|..][..|b|] == s[..|a + b|][|a|..] == (a + b)[|a|..] == b;
  }

  lemma TokenParts(lits: nat, match4: nat)
    ensures var t := Token(lits, match4); t / 16 == Nibble(lits) && t % 16 == Nibble(match4)
  {
  }

  lemma StepTakes(src: seq<byte>, ip: nat, op: nat, l: Limits, s: Sequence)
    requires Encodable(s) && ip <= |src| && SequenceBytes(s) <= src[ip..]
    requires op + |s.lits| <= l.RunEnd() && s.offset <= op + |s.lits| + l.room
    requires op + |s.lits| + s.matchLen <= l.cap - LASTLITERALS
    requires var ext := |Extension(s.matchLen - MINMATCH)|;
             var follow := |src| - ip - |SequenceBytes(s)|;
             2 + ext + follow >= 2 + 1 + LASTLITERALS && (ext > 0 ==> follow >= LASTLITERALS - 1)
    ensures ReadStep(src, ip, op, l) == Take(s, ip + |SequenceBytes(s)|)
  {
    hide ReadLiterals, Extension, MatchStep, OffsetBytes, Token;
    var m := s.matchLen - MINMATCH;
    var h := HeadBytes(s.lits, m);
    var t := OffsetBytes(s.offset) + Extension(m);
    Assoc(h, OffsetBytes(s.offset), Extension(m));
    SplitPrefix(src[ip..], h, t);
    ReadHead(src, ip, s.lits, m);
    TokenParts(|s.lits|, m);
    var q := ip + |h|;
    assert src[ip..][|h|..] == src[q..];
    SequenceSize(s);
    MatchStepTakes(src, q, src[ip], op + |s.lits|, l, s);
  }

  lemma StepEnds(src: seq<byte>, ip: nat, op: nat, l: Limits, lits: seq<byte>, junk: nat)
    requires ip <= |src| && HeadBytes(lits, junk) <= src[ip..] && op + |lits| <= l.cap
    requires src[ip..] == HeadBytes(lits, junk) || (l.partial && op + |lits| > l.RunEnd())
    ensures ReadStep(src, ip, op, l) == Last(lits)
  {
    ReadHead(src, ip, lits, junk);
  }

  lemma StepOfBlock(src: seq<byte>, ip: nat, op: nat, l: Limits, b: Block, junk: nat)
    requires AllEncodable(b.seqs) && Fits(b, op, l) && b.seqs != []
    requires ip <= |src| && src[ip..] == BlockBytesWith(b, junk)
    ensures var s := b.seqs[0];
            if op + |s.lits| > l.RunEnd() then ReadStep(src, ip, op, l) == Last(s.lits)
            else
              var next := ip + |SequenceBytes(s)|;
              next <= |src| && src[next..] == BlockBytesWith(Tail(b), junk) && ReadStep(src, ip, op, l) == Take(s, next)
  {
    hide ReadStep, SequencesBytes, BlockBytesWith, HeadBytes;
    FirstBytes(b, junk);
    var s := b.seqs[0];
    var sb, tb := SequenceBytes(s), BlockBytesWith(Tail(b), junk);
    SequenceSize(s);
    assert HeadBytes(s.lits, s.matchLen - MINMATCH) <= sb <= src[ip..];
    if op + |s.lits| > l.RunEnd() {
      StepEnds(src, ip, op, l, s.lits, s.matchLen - MINMATCH);
    } else {
      assert src[ip + |sb|..] == src[ip..][|sb|..] == tb;
      JunkSize(Tail(b), junk);
      StepTakes(src, ip, op, l, s);
    }
  }

  lemma {:induction false} ParseBytesFrom(src: seq<byte>, ip: nat, op: nat, l: Limits, acc: seq<Sequence>, b: Block,
                                          junk: nat)
    requires AllEncodable(b.seqs) && Fits(b, op, l)
    requires ip <= |src| && src[ip..] == BlockBytesWith(b, junk)
    ensures var c := Cut(b, op, l); ParseFrom(src, ip, op, l, acc) == Parsed(Block(acc + c.seqs, c.last))
    decreases |b.seqs|
  {
    hide ReadStep, SequencesBytes, SequenceBytes, HeadBytes;
    if b.seqs == [] {
      OnlyLiterals(b, junk);
      StepEnds(src, ip, op, l, b.last, junk);
      assert acc + b.seqs == acc;
    } else {
      StepOfBlock(src, ip, op, l, b, junk);
      var s := b.seqs[0];
      if op + |s.lits| > l.RunEnd() {
        assert acc + [] == acc;
      } else {
        ParseBytesFrom(src, ip + |SequenceBytes(s)|, AfterFirst(b, op), l, acc + [s], Tail(b), junk);
        var c := Cut(Tail(b), AfterFirst(b, op), l);
        assert acc + [s] + c.seqs == acc + ([s] + c.seqs);
      }
    }
  }

  /** A written-out block that fits is decoded: wholly, or up to where partial decoding stops. */
  lemma ParseBytes(b: Block, l: Limits)
    requires AllEncodable(b.seqs) && Fits(b, 0, l) && l.cap > 0
    ensures Parse(BlockBytes(b), l) == Parsed(Cut(b, 0, l))
  {
    hide Fits, ParseFrom, SequencesBytes, HeadBytes;
    var src := BlockBytes(b);
    assert src[0..] == src == BlockBytesWith(b, 0);
    ParseBytesFrom(src, 0, 0, l, [], b, 0);
    var c := Cut(b, 0, l);
    assert [] + c.seqs == c.seqs;
  }

  // ---------------------------------------------------------------- and only those blocks

  lemma TokenNibbles(t: byte, lits: nat, match4: nat)
    requires t / 16 == Nibble(lits) && t % 16 == Nibble(match4)
    ensures t == Token(lits, match4)
  {
  }

  lemma HeadUnique(src: seq<byte>, ip: nat, match4: nat)
    requires ip + 1 < |src| || (ip < |src| && src[ip] / 16 != RUN_MASK)
    requires src[ip] % 16 == Nibble(match4)
    requires var r := ReadLiterals(src, ip); r.1 + r.0 <= |src|
    ensures var r := ReadLiterals(src, ip); src[ip..r.1 + r.0] == HeadBytes(src[r.1..r.1 + r.0], match4)
  {
    hide LengthBytes, Token;
    var (run, p) := ReadLiterals(src, ip);
    if src[ip] / 16 == RUN_MASK { ReadRunUnique(src, ip + 1, RUN_MASK); }
    TokenNibbles(src[ip], run, match4);
    assert src[ip + 1..p] == Extension(run);
    assert src[ip..ip + 1] == [src[ip]];
    Joined(src, ip, ip + 1, p);
    Joined(src, ip, p, p + run);
  }

  lemma MatchStepUnique(src: seq<byte>, token: byte, lits: seq<byte>, q: nat, cpy: nat, l: Limits)
    requires q <= |src| - (2 + 1 + LASTLITERALS)
    requires MatchStep(src, token, lits, q, cpy, l).Take?
    ensures var Take(s, next) := MatchStep(src, token, lits, q, cpy, l);
            var ext := Extension(s.matchLen - MINMATCH);
            && token % 16 == Nibble(s.matchLen - MINMATCH)
            && src[q..next] == OffsetBytes(s.offset) + ext
            && (|ext| > 0 ==> next + LASTLITERALS - 1 <= |src|)
  {
    hide LengthBytes;
    var Take(s, next) := MatchStep(src, token, lits, q, cpy, l);
    if token % 16 == ML_MASK { ReadMatchUnique(src, q + 2, ML_MASK); }
    assert src[q..q + 2] == OffsetBytes(s.offset);
    SplitAt(src[q..], 2, next - q);
    assert src[q..next] == src[q..q + 2] + src[q + 2..next];
  }

  /** What stands at `ip` when a turn ends the block or takes a sequence. */
  lemma StepUnique(src: seq<byte>, ip: nat, op: nat, l: Limits)
    requires ip <= |src|
    ensures var r := ReadStep(src, ip, op, l);
            && (r.Last? ==>
                  ip < |src| && HeadBytes(r.lits, src[ip] % 16) <= src[ip..]
                  && StopsAt(r.lits, op, l, |src| - ip - |HeadBytes(r.lits, src[ip] % 16)|))
            && (r.Take? ==>
                  var ext := |Extension(r.s.matchLen - MINMATCH)|;
                  && src[ip..r.next] == SequenceBytes(r.s)
                  && 2 + ext + |src| - r.next >= 2 + 1 + LASTLITERALS
                  && (ext > 0 ==> |src| - r.next >= LASTLITERALS - 1))
  {
    hide ReadLiterals, LengthBytes, MatchStep, Token;
    var r := ReadStep(src, ip, op, l);
    if r.Last? || r.Take? {
      var (run, p) := ReadLiterals(src, ip);
      if r.Last? {
        HeadUnique(src, ip, src[ip] % 16);
        PrefixAt(src, ip, p + run);
      } else {
        hide HeadBytes, Extension, OffsetBytes;
        MatchStepUnique(src, src[ip], src[p..p + run], p + run, op + run, l);
        HeadUnique(src, ip, r.s.matchLen - MINMATCH);
        SequenceLies(src, ip, p + run, r.next, r.s);
      }
    }
  }

  lemma SequenceLies(src: seq<byte>, ip: nat, q: nat, next: nat, s: Sequence)
    requires ip <= q <= next <= |src| && Encodable(s)
    requires src[ip..q] == HeadBytes(s.lits, s.matchLen - MINMATCH)
    requires src[q..next] == OffsetBytes(s.offset) + Extension(s.matchLen - MINMATCH)
    ensures src[ip..next] == SequenceBytes(s)
  {
    hide HeadBytes, Extension, OffsetBytes;
    Joined(src, ip, q, next);
    Assoc(HeadBytes(s.lits, s.matchLen - MINMATCH), OffsetBytes(s.offset), Extension(s.matchLen - MINMATCH));
  }

  lemma PrefixAt<T>(s: seq<T>, i: nat, j: nat)
    requires i <= j <= |s|
    ensures s[i..j] <= s[i..]
  {
    assert s[i..][..j - i] == s[i..j];
  }

  /** The literals are the last ones that are decoded, when `rest` bytes of input follow them: all of
      the input is used up, or partial decoding stops at them. */
  predicate StopsAt(lits: seq<byte>, op: nat, l: Limits, rest: nat) {
    && op + |lits| <= l.cap
    && (if l.partial then op + |lits| > l.RunEnd() || rest < 2 + 1 + LASTLITERALS else rest == 0)
  }

  /** The parsing restrictions for a block that `rest` more bytes of input follow. */
  predicate Reached(b: Block, op: nat, l: Limits, rest: nat)
    requires AllEncodable(b.seqs)
    decreases |b.seqs|
  {
    if b.seqs == [] then StopsAt(b.last, op, l, rest)
    else
      var s := b.seqs[0];
      var ext := |Extension(s.matchLen - MINMATCH)|;
      var follow := |BlockBytes(Tail(b))| + rest;
      && op + |s.lits| <= l.RunEnd()
      && s.offset <= op + |s.lits| + l.room
      && AfterFirst(b, op) <= l.cap - LASTLITERALS
      && 2 + ext + follow >= 2 + 1 + LASTLITERALS
      && (ext > 0 ==> follow >= LASTLITERALS - 1)
      && Reached(Tail(b), AfterFirst(b, op), l, rest)
  }

  /** Without partial decoding these are the restrictions on the whole of a block. */
  lemma {:induction false} FitsReached(b: Block, op: nat, l: Limits)
    requires AllEncodable(b.seqs) && !l.partial
    ensures Reached(b, op, l, 0) == Fits(b, op, l)
    decreases |b.seqs|
  {
    hide Extension, SequencesBytes;
    if b.seqs != [] { FitsReached(Tail(b), AfterFirst(b, op), l); }
  }

  lemma {:induction false} ReachedRest(b: Block, op: nat, l: Limits, rest: nat)
    requires AllEncodable(b.seqs) && Reached(b, op, l, rest)
    ensures l.partial || rest == 0
    decreases |b.seqs|
  {
    if b.seqs != [] { ReachedRest(Tail(b), AfterFirst(b, op), l, rest); }
  }

  lemma {:induction false} ParseUniqueFrom(src: seq<byte>, ip: nat, op: nat, l: Limits, acc: seq<Sequence>)
    returns (b: Block, junk: nat, rest: seq<byte>)
    requires ip <= |src| && ParseFrom(src, ip, op, l, acc).Parsed?
    ensures ParseFrom(src, ip, op, l, acc) == Parsed(Block(acc + b.seqs, b.last))
    ensures AllEncodable(b.seqs) && Reached(b, op, l, |rest|) && junk < 16
    ensures src[ip..] == BlockBytesWith(b, junk) + rest
    decreases |src| - ip
  {
    hide ReadStep, SequencesBytes, SequenceBytes, HeadBytes, BlockBytesWith, Extension, StopsAt;
    StepUnique(src, ip, op, l);
    var r := ReadStep(src, ip, op, l);
    if r.Last? {
      b, junk := Block([], r.lits), src[ip] % 16;
      OnlyLiterals(b, junk);
      rest := src[ip..][|HeadBytes(b.last, junk)|..];
      assert acc + b.seqs == acc;
    } else {
      var more, j, left := ParseUniqueFrom(src, r.next, op + |r.s.lits| + r.s.matchLen, l, acc + [r.s]);
      b, junk, rest := Block([r.s] + more.seqs, more.last), j, left;
      Assoc(acc, [r.s], more.seqs);
      assert Tail(b) == more && b.seqs[0] == r.s;
      FirstBytes(b, junk);
      JunkSize(more, junk);
      Joined(src, ip, r.next, |src|);
      Assoc(SequenceBytes(r.s), BlockBytesWith(more, junk), rest);
    }
  }

  lemma StepStops(src: seq<byte>, ip: nat, op: nat, l: Limits, lits: seq<byte>, junk: nat, rest: seq<byte>)
    requires ip <= |src| && src[ip..] == HeadBytes(lits, junk) + rest && StopsAt(lits, op, l, |rest|)
    ensures ReadStep(src, ip, op, l) == Last(lits)
  {
    ReadHead(src, ip, lits, junk);
  }

  lemma {:induction false} ParseReachedFrom(src: seq<byte>, ip: nat, op: nat, l: Limits, acc: seq<Sequence>, b: Block,
                                            junk: nat, rest: seq<byte>)
    requires AllEncodable(b.seqs) && Reached(b, op, l, |rest|)
    requires ip <= |src| && src[ip..] == BlockBytesWith(b, junk) + rest
    ensures ParseFrom(src, ip, op, l, acc) == Parsed(Block(acc + b.seqs, b.last))
    decreases |b.seqs|
  {
    hide ReadStep, SequencesBytes, SequenceBytes, HeadBytes, BlockBytesWith, Extension, StopsAt;
    if b.seqs == [] {
      OnlyLiterals(b, junk);
      StepStops(src, ip, op, l, b.last, junk, rest);
      assert acc + b.seqs == acc;
    } else {
      var s := b.seqs[0];
      var sb, tb := SequenceBytes(s), BlockBytesWith(Tail(b), junk);
      FirstBytes(b, junk);
      Assoc(sb, tb, rest);
      SequenceSize(s);
      SplitPrefix(src[ip..], sb, tb + rest);
      assert src[ip + |sb|..] == src[ip..][|sb|..] == tb + rest;
      JunkSize(Tail(b), junk);
      StepTakes(src, ip, op, l, s);
      ParseReachedFrom(src, ip + |sb|, AfterFirst(b, op), l, acc + [s], Tail(b), junk, rest);
      Assoc(acc, [s], Tail(b).seqs);
      assert [s] + Tail(b).seqs == b.seqs;
    }
  }

  /** `src` begins with this block written out, and decoding reaches its end and stops there. */
  ghost predicate Accepted(src: seq<byte>, b: Block, l: Limits) {
    && AllEncodable(b.seqs)
    && exists junk: nat, rest: seq<byte> ::
         junk < 16 && src == BlockBytesWith(b, junk) + rest && Reached(b, 0, l, |rest|)
  }

  /** The decoder, whole or partial, accepts exactly the input that begins with a written-out block that
      keeps the restrictions up to where decoding stops, and then it sees that block. */
  lemma AcceptsExactly(src: seq<byte>, l: Limits, b: Block)
    requires l.cap > 0
    ensures Parse(src, l) == Parsed(b) <==> Accepted(src, b, l)
  {
    hide ParseFrom, Reached, BlockBytesWith;
    assert src[0..] == src;
    if Parse(src, l).Parsed? {
      var c, junk, rest := ParseUniqueFrom(src, 0, 0, l, []);
      assert [] + c.seqs == c.seqs;
    }
    if Accepted(src, b, l) {
      var junk: nat, rest: seq<byte> :|
        junk < 16 && src == BlockBytesWith(b, junk) + rest && Reached(b, 0, l, |rest|);
      ParseReachedFrom(src, 0, 0, l, [], b, junk, rest);
      assert [] + b.seqs == b.seqs;
    }
  }

  /** What is accepted as a whole is the block written out, which keeps the restrictions to its end. */
  lemma AcceptsWhole(src: seq<byte>, l: Limits, b: Block)
    requires !l.partial && l.cap > 0
    ensures Parse(src, l) == Parsed(b) <==>
              AllEncodable(b.seqs) && Fits(b, 0, l) && exists junk: nat :: junk < 16 && src == BlockBytesWith(b, junk)
  {
    hide Parse, Fits, Reached, BlockBytesWith;
    AcceptsExactly(src, l, b);
    if Accepted(src, b, l) {
      var junk: nat, rest: seq<byte> :|
        junk < 16 && src == BlockBytesWith(b, junk) + rest && Reached(b, 0, l, |rest|);
      ReachedRest(b, 0, l, |rest|);
      assert src == BlockBytesWith(b, junk);
    }
    if AllEncodable(b.seqs) {
      FitsReached(b, 0, l);
      forall junk: nat | junk < 16 && src == BlockBytesWith(b, junk) ensures src == BlockBytesWith(b, junk) + [] {}
    }
  }
}
