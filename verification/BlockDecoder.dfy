/** LZ4_decompress_generic with endOnInputSize: the safe decoder, its partial form, and its
    prefix and external-dictionary forms, over one array that holds prefix and output. */
module BlockDecoder {
  import opened Bytes
  import opened BlockFormat
  import opened BlockParser
  import opened WildCopy

  /** Dictionary and prefix, followed by what has been decoded up to `op`. */
  ghost function Output(mem: array<byte>, dict: seq<byte>, lowPrefix: nat, op: nat): seq<byte>
    requires lowPrefix <= op <= mem.Length
    reads mem
  {
    dict + mem[lowPrefix..op]
  }

  lemma RepeatsIsCopy(before: seq<byte>, after: seq<byte>, offset: nat)
    requires 1 <= offset <= |before| <= |after| && after[..|before|] == before
    requires Repeats(after, |before|, |after|, offset)
    ensures after == CopyMatch(before, offset, |after| - |before|)
  {
    CopyMatchPeriodic(before, offset, |after| - |before|, after);
  }

  /** Byte `j` of a match that starts `back` bytes before the end of the dictionary. */
  ghost function FromDict(mem: array<byte>, dict: seq<byte>, lowPrefix: nat, j: int, back: int): byte
    requires 1 <= back <= |dict| && 0 <= j && (j < back || lowPrefix + j - back < mem.Length)
    reads mem
  {
    if j < back then dict[|dict| - back + j] else mem[lowPrefix + j - back]
  }

  /** A match that starts inside the external dictionary. */
  method CopyFromDict(mem: array<byte>, dict: seq<byte>, lowPrefix: nat, op: nat, back: nat, length: nat)
    requires lowPrefix <= op && op + length <= mem.Length && 1 <= back <= |dict|
    modifies mem
    ensures OnlyWithin(mem, op, op + length)
    ensures forall k :: op <= k < op + length ==> mem[k] == FromDict(mem, dict, lowPrefix, k - op, back)
  {
    var from := |dict| - back;
    if length <= back {
      CopyBytes(mem, op, dict[from..from + length]);
    } else {
      CopyBytes(mem, op, dict[from..]);
      label Dict:
      var o := op + back;
      var copySize := length - back;
      if copySize > o - lowPrefix {
        var copyFrom := lowPrefix;
        while o < op + length
          invariant op + back <= o <= op + length && copyFrom == lowPrefix + (o - op - back)
          invariant OnlyWithin(mem, op, op + length)
          invariant forall k :: op <= k < o ==> mem[k] == FromDict(mem, dict, lowPrefix, k - op, back)
        {
          mem[o] := mem[copyFrom];
          o, copyFrom := o + 1, copyFrom + 1;
        }
      } else {
        var bytes := mem[lowPrefix..lowPrefix + copySize];
        CopyBytes(mem, o, bytes);
        assert forall k :: 0 <= k < o ==> mem[k] == old@Dict(mem[k]);
      }
    }
  }

  /** A match that has been copied, from the prefix or from the dictionary, is what CopyMatch says. */
  lemma MatchIsCopy(mem: array<byte>, dict: seq<byte>, lowPrefix: nat, op: nat, offset: nat, length: nat)
    requires lowPrefix <= op && op + length <= mem.Length && 1 <= offset <= |dict| + op - lowPrefix
    requires if op - offset >= lowPrefix then Repeats(mem[..], op, op + length, offset)
             else forall j :: op <= j < op + length ==>
               mem[j] == FromDict(mem, dict, lowPrefix, j - op, lowPrefix - (op - offset))
    ensures Output(mem, dict, lowPrefix, op + length) == CopyMatch(Output(mem, dict, lowPrefix, op), offset, length)
  {
    hide CopyMatch;
    var before, after := Output(mem, dict, lowPrefix, op), Output(mem, dict, lowPrefix, op + length);
    assert mem[lowPrefix..op + length] == mem[lowPrefix..op] + mem[op..op + length];
    assert after == before + mem[op..op + length];
    forall k | |before| <= k < |after|
      ensures after[k] == after[k - offset]
    {
      var j := op + (k - |before|);
      assert after[k] == mem[j];
      if op - offset >= lowPrefix { assert mem[..][j] == mem[..][j - offset]; }
    }
    RepeatsIsCopy(before, after, offset);
  }

  /** One match, wherever it starts. The decoder stops at a match that ends in the last literals. */
  method CopyAnyMatch(mem: array<byte>, dict: seq<byte>, lowPrefix: nat, op: nat, offset: nat, length: nat, oend: nat)
    returns (ok: bool)
    requires lowPrefix <= op && op + MFLIMIT <= oend <= mem.Length && MINMATCH <= length
    requires offset <= |dict| + op - lowPrefix
    modifies mem
    ensures ok <==> op + length <= oend - LASTLITERALS
    ensures OnlyWithin(mem, op, oend)
    ensures ok && offset >= 1 ==>
              Output(mem, dict, lowPrefix, op + length)
              == CopyMatch(old(Output(mem, dict, lowPrefix, op)), offset, length)
  {
    hide CopyMatch, Repeats;
    ghost var before := Output(mem, dict, lowPrefix, op);
    if op - offset < lowPrefix {
      if op + length > oend - LASTLITERALS { return false; }
      CopyFromDict(mem, dict, lowPrefix, op, lowPrefix - (op - offset), length);
      ok := true;
    } else {
      ok := CopyMatchFast(mem, op, op - offset, op + length, oend);
    }
    if ok && offset >= 1 {
      assert before == Output(mem, dict, lowPrefix, op);
      MatchIsCopy(mem, dict, lowPrefix, op, offset, length);
    }
  }

  method ReadLiteralsLoop(src: seq<byte>, token: byte, start: nat) returns (length: nat, ip: nat)
    requires start >= 1 && start - 1 < |src| && token == src[start - 1]
    requires token / 16 == RUN_MASK ==> start < |src|
    ensures (length, ip) == ReadLiterals(src, start - 1)
  {
    ip := start;
    length := token / 16;
    if length == RUN_MASK {
      while true
        invariant ip < |src|
        invariant ReadRun(src, ip, length) == ReadRun(src, start, RUN_MASK)
        decreases |src| - ip
      {
        var s := src[ip];
        ip := ip + 1;
        length := length + s;
        if !(ip < |src| - RUN_MASK && s == 255) { break; }
      }
    }
  }

  method ReadMatchLoop(src: seq<byte>, token: byte, start: nat) returns (ok: bool, length: nat, ip: nat)
    requires start <= |src|
    ensures (ok, length, ip) == ReadMatchLength(src, token, start)
  {
    ip := start;
    length := token % 16;
    if length == ML_MASK {
      while true
        invariant ip <= |src|
        invariant ReadMatch(src, ip, length) == ReadMatch(src, start, ML_MASK)
        decreases |src| - ip
      {
        if ip > |src| - LASTLITERALS { return false, length, ip; }
        var s := src[ip];
        ip := ip + 1;
        length := length + s;
        if s != 255 { break; }
      }
    }
    ok := true;
  }

  /** The bytes decoded for the sequences `acc`, when they have a meaning. */
  ghost predicate Holds(mem: array<byte>, dict: seq<byte>, lowPrefix: nat, op: nat, hist: seq<byte>, acc: seq<Sequence>)
    requires lowPrefix <= op <= mem.Length
    reads mem
  {
    var e := Expand(hist, acc);
    e.Some? ==> e.value == Output(mem, dict, lowPrefix, op)
  }

  /** The literals that end the block. */
  method CopyLastLiterals(mem: array<byte>, dict: seq<byte>, lowPrefix: nat, op: nat, lits: seq<byte>)
    requires lowPrefix <= op && op + |lits| <= mem.Length
    modifies mem
    ensures OnlyWithin(mem, op, op + |lits|)
    ensures Output(mem, dict, lowPrefix, op + |lits|) == old(Output(mem, dict, lowPrefix, op)) + lits
  {
    CopyBytes(mem, op, lits);
    assert mem[op..op + |lits|] == lits;
    assert mem[lowPrefix..op] == old(mem[lowPrefix..op]);
    Joined(mem[..], lowPrefix, op, op + |lits|);
  }

  /** Literals src[ip..ip + n], with an over-copy that stays in both buffers. */
  method CopyLiterals(mem: array<byte>, dict: seq<byte>, lowPrefix: nat, op: nat, src: seq<byte>, ip: nat, n: nat)
    requires lowPrefix <= op && op + n + 8 <= mem.Length && ip + n + 8 <= |src|
    modifies mem
    ensures OnlyWithin(mem, op, op + n + 8)
    ensures Output(mem, dict, lowPrefix, op + n) == old(Output(mem, dict, lowPrefix, op)) + src[ip..ip + n]
  {
    WildCopyFrom(mem, op, src, ip, op + n);
    assert mem[op..op + n] == src[ip..ip + n];
    assert mem[lowPrefix..op] == old(mem[lowPrefix..op]);
    Joined(mem[..], lowPrefix, op, op + n);
  }

  /** What a match leaves in the output; nothing is claimed for offset 0, which re-reads old bytes. */
  ghost predicate Matched(before: seq<byte>, after: seq<byte>, s: Sequence) {
    1 <= s.offset <= |before| ==> after == CopyMatch(before, s.offset, s.matchLen)
  }

  /** The second half of a turn: offset, match length and match. */
  method DecodeMatch(src: seq<byte>, mem: array<byte>, dest: nat, l: Limits, lowPrefix: nat, dict: seq<byte>,
                     token: byte, ghost lits: seq<byte>, q: nat, op: nat)
    returns (ok: bool, ip: nat, length: nat)
    requires lowPrefix <= dest <= op <= dest + l.cap - MFLIMIT && dest + l.cap <= mem.Length
    requires l.room == |dict| + dest - lowPrefix && q <= |src| - (2 + 1 + LASTLITERALS)
    modifies mem
    ensures OnlyWithin(mem, op, dest + l.cap)
    ensures match MatchStep(src, token, lits, q, op - dest, l)
            case Take(s, next) => ok && ip == next && length == s.matchLen
              && Matched(old(Output(mem, dict, lowPrefix, op)), Output(mem, dict, lowPrefix, op + length), s)
            case Fail(at) => !ok && ip == at
            case _ => false
  {
    hide ReadMatchLength, CopyMatch;
    length := 0;
    var offset := LE16(src[q], src[q + 1]);
    ip := q + 2;
    if |dict| < 0x1_0000 && op - offset < lowPrefix - |dict| { return false, ip, length; }
    var more, length4, next := ReadMatchLoop(src, token, ip);
    ip, length := next, length4 + MINMATCH;
    if !more { return false, ip, length; }
    ok := CopyAnyMatch(mem, dict, lowPrefix, op, offset, length, dest + l.cap);
  }

  /** One turn of the main loop: literals, then the end of the block or a match. */
  method DecodeTurn(src: seq<byte>, mem: array<byte>, dest: nat, l: Limits, lowPrefix: nat, dict: seq<byte>, ip0: nat,
                    op0: nat)
    returns (more: bool, r: int, ip: nat, op: nat)
    requires lowPrefix <= dest <= op0 <= dest + l.cap <= mem.Length && ip0 <= |src|
    requires l.room == |dict| + dest - lowPrefix && !ReadStep(src, ip0, op0 - dest, l).Beyond?
    modifies mem
    ensures OnlyWithin(mem, op0, dest + l.cap)
    ensures match ReadStep(src, ip0, op0 - dest, l)
            case Last(lits) => !more && r == op0 + |lits| - dest
              && Output(mem, dict, lowPrefix, op0 + |lits|) == old(Output(mem, dict, lowPrefix, op0)) + lits
            case Fail(at) => !more && r == -(at as int) - 1
            case Take(s, next) => more && ip == next && op == op0 + |s.lits| + s.matchLen
              && Matched(old(Output(mem, dict, lowPrefix, op0)) + s.lits, Output(mem, dict, lowPrefix, op), s)
            case Beyond => false
  {
    hide ReadLiterals, MatchStep, Matched;
    var iend, oend := |src|, dest + l.cap;
    var oexit := dest + l.target;
    if l.partial && oexit > oend - MFLIMIT { oexit := oend - MFLIMIT; }
    more, r, ip, op := false, 0, ip0, op0;
    var token := src[ip];
    var length, p := ReadLiteralsLoop(src, token, ip + 1);
    var cpy := op + length;
    if cpy > (if l.partial then oexit else oend - MFLIMIT) || p + length > iend - (2 + 1 + LASTLITERALS) {
      if l.partial {
        if cpy > oend || p + length > iend { r := -p - 1; return; }
      } else {
        if p + length != iend || cpy > oend { r := -p - 1; return; }
      }
      CopyLastLiterals(mem, dict, lowPrefix, op, src[p..p + length]);
      r := cpy - dest;
      return;
    }
    CopyLiterals(mem, dict, lowPrefix, op, src, p, length);
    ip, op := p + length, cpy;
    var matchLen;
    more, ip, matchLen := DecodeMatch(src, mem, dest, l, lowPrefix, dict, token, src[p..p + length], ip, op);
    if more { op := op + matchLen; } else { r := -(ip as int) - 1; }
  }

  /** LZ4_decompress_generic(…, endOnInputSize, …). The prefix is mem[lowPrefix..dest], the output
      buffer mem[dest..dest + l.cap]; `dict` is the external dictionary, empty when there is none. */
  method DecompressGeneric(src: seq<byte>, mem: array<byte>, dest: nat, l: Limits, lowPrefix: nat, dict: seq<byte>)
    returns (r: int)
    requires lowPrefix <= dest && dest + l.cap <= mem.Length
    requires l.room == |dict| + dest - lowPrefix
    requires !Parse(src, l).Overread?
    modifies mem
    ensures OnlyWithin(mem, dest, dest + l.cap)
    ensures r == Code(Parse(src, l)) && r <= l.cap
    ensures r >= 0 ==>
              var d := Decode(old(Output(mem, dict, lowPrefix, dest)), Parse(src, l).block);
              d.Some? ==> d.value == Output(mem, dict, lowPrefix, dest + r)
  {
    hide ReadStep, CopyMatch, Output;
    if l.cap == 0 {
      if |src| == 1 && src[0] == 0 { return 0; }
      return -1;
    }
    ghost var hist := Output(mem, dict, lowPrefix, dest);
    ghost var acc: seq<Sequence> := [];
    var ip, op := 0, dest;
    while true
      invariant ip <= |src| && dest <= op <= dest + l.cap && op - dest == SeqsLength(acc)
      invariant OnlyWithin(mem, dest, dest + l.cap)
      invariant ParseFrom(src, ip, op - dest, l, acc) == Parse(src, l)
      invariant Holds(mem, dict, lowPrefix, op, hist, acc)
      decreases |src| - ip
    {
      ghost var step := ReadStep(src, ip, op - dest, l);
      var more;
      more, r, ip, op := DecodeTurn(src, mem, dest, l, lowPrefix, dict, ip, op);
      if !more { return; }
      ExpandSnoc(hist, acc, step.s);
      LengthSnoc(acc, step.s);
      acc := acc + [step.s];
    }
  }
}
