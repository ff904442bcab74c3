/** Writing a block into the destination buffer, as both encoders do it. */
module Emit {
  import opened Bytes
  import opened BlockFormat
  import opened WildCopy

  /** The bytes written at [from, to). */
  ghost predicate Wrote(dst: array<byte>, from: nat, to: nat, bytes: seq<byte>)
    reads dst
  {
    from <= to <= dst.Length && dst[from..to] == bytes
  }

  /** The length bytes of a literal run: 255 at a time. */
  method EmitRun(dst: array<byte>, op0: nat, length: nat) returns (op: nat)
    requires op0 + |LengthBytes(length)| <= dst.Length
    modifies dst
    ensures Wrote(dst, op0, op, LengthBytes(length))
    ensures OnlyWithin(dst, op0, op)
  {
    op := op0;
    var len := length;
    while len >= 255
      invariant op0 <= op && op + |LengthBytes(len)| == op0 + |LengthBytes(length)|
      invariant dst[op0..op] + LengthBytes(len) == LengthBytes(length)
      invariant OnlyWithin(dst, op0, op)
    {
      ghost var before := dst[op0..op];
      dst[op] := 255;
      assert dst[op0..op] == before;
      op, len := op + 1, len - 255;
      assert dst[op0..op] == before + [255];
    }
    ghost var before := dst[op0..op];
    dst[op] := len;
    assert dst[op0..op] == before;
    op := op + 1;
    assert dst[op0..op] == before + [len];
  }

  /** The length bytes of a match: 510 at a time, then 255. */
  method EmitMatchRun(dst: array<byte>, op0: nat, length: nat) returns (op: nat)
    requires op0 + |LengthBytes(length)| <= dst.Length
    modifies dst
    ensures Wrote(dst, op0, op, LengthBytes(length))
    ensures OnlyWithin(dst, op0, op)
  {
    hide LengthBytes;
    op := op0;
    var len := length;
    while len >= 510
      invariant op0 <= op && op + |LengthBytes(len)| == op0 + |LengthBytes(length)|
      invariant dst[op0..op] + LengthBytes(len) == LengthBytes(length)
      invariant OnlyWithin(dst, op0, op)
    {
      ghost var before := dst[op0..op];
      LengthBytesMore(len);
      LengthBytesMore(len - 255);
      dst[op], dst[op + 1] := 255, 255;
      assert dst[op0..op] == before;
      op, len := op + 2, len - 510;
      assert dst[op0..op] == before + [255, 255];
      assert [255, 255] + LengthBytes(len) == [255] + ([255] + LengthBytes(len));
      Assoc(before, [255, 255], LengthBytes(len));
    }
    if len >= 255 {
      ghost var before := dst[op0..op];
      LengthBytesMore(len);
      dst[op] := 255;
      assert dst[op0..op] == before;
      op, len := op + 1, len - 255;
      assert dst[op0..op] == before + [255];
      Assoc(before, [255], LengthBytes(len));
    }
    ghost var before := dst[op0..op];
    LengthBytesLast(len);
    dst[op] := len;
    assert dst[op0..op] == before;
    op := op + 1;
    assert dst[op0..op] == before + [len];
  }

  lemma LengthBytesMore(x: nat)
    requires x >= 255
    ensures LengthBytes(x) == [255] + LengthBytes(x - 255)
  {
  }

  lemma LengthBytesLast(x: nat)
    requires x < 255
    ensures LengthBytes(x) == [x]
  {
  }

  lemma WroteBoth(dst: array<byte>, from: nat, mid: nat, to: nat, a: seq<byte>, b: seq<byte>)
    requires Wrote(dst, from, mid, a) && Wrote(dst, mid, to, b)
    ensures Wrote(dst, from, to, a + b)
  {
    assert dst[from..to] == dst[from..mid] + dst[mid..to];
  }

  /** Token and literal length; the low nibble of the token is left 0. */
  method EmitHead(dst: array<byte>, token: nat, length: nat) returns (op: nat)
    requires token + 1 + |Extension(length)| <= dst.Length
    modifies dst
    ensures Wrote(dst, token, op, [Token(length, 0)] + Extension(length))
    ensures OnlyWithin(dst, token, op)
  {
    hide LengthBytes;
    op := token + 1;
    if length >= RUN_MASK {
      dst[token] := RUN_MASK * 16;
      op := EmitRun(dst, op, length - RUN_MASK);
    } else {
      dst[token] := length * 16;
    }
    assert dst[token] == Token(length, 0);
    assert dst[token..op] == [dst[token]] + dst[token + 1..op];
  }

  /** Token, literal length and literals buf[anchor..ip], with the over-copy. */
  method EmitLiterals(buf: seq<byte>, anchor: nat, ip: nat, dst: array<byte>, token: nat) returns (op: nat)
    requires anchor <= ip && ip + 8 <= |buf|
    requires token + 1 + |Extension(ip - anchor)| + Chunks(ip - anchor) <= dst.Length
    modifies dst
    ensures Wrote(dst, token, op, HeadBytes(buf[anchor..ip], 0))
            && token < op == token + 1 + |Extension(ip - anchor)| + (ip - anchor)
    ensures var lit := token + 1 + |Extension(ip - anchor)|;
            && OnlyWithin(dst, token, lit + Chunks(ip - anchor))
            && dst[lit + Chunks(ip - anchor) - 1] == buf[anchor + Chunks(ip - anchor) - 1]
  {
    hide Extension, Token;
    var litLength := ip - anchor;
    var lit := EmitHead(dst, token, litLength);
    ghost var head := dst[token..lit];
    op := lit + litLength;
    WildCopyFrom(dst, lit, buf, anchor, op);
    assert dst[token..lit] == head;
    assert dst[lit..op] == buf[anchor..ip];
    WroteBoth(dst, token, lit, op, head, buf[anchor..ip]);
  }

  /** The literals that end a block, copied exactly. */
  method EmitLast(buf: seq<byte>, anchor: nat, iend: nat, dst: array<byte>, token: nat) returns (op: nat)
    requires anchor <= iend <= |buf|
    requires token + |HeadBytes(buf[anchor..iend], 0)| <= dst.Length
    modifies dst
    ensures Wrote(dst, token, op, HeadBytes(buf[anchor..iend], 0))
    ensures OnlyWithin(dst, token, op)
  {
    hide Extension, Token;
    var lastRun := iend - anchor;
    var lit := EmitHead(dst, token, lastRun);
    ghost var head := dst[token..lit];
    op := lit + lastRun;
    var lits := buf[anchor..iend];
    CopyBytes(dst, lit, lits);
    assert dst[token..lit] == head;
    assert dst[lit..op] == lits;
    WroteBoth(dst, token, lit, op, head, lits);
  }

  lemma HeadWith(lits: seq<byte>, match4: nat)
    ensures HeadBytes(lits, match4) == [Token(|lits|, match4)] + HeadBytes(lits, 0)[1..]
    ensures Token(|lits|, match4) == HeadBytes(lits, 0)[0] + Nibble(match4)
  {
  }

  /** The match-length nibble added to the token in place. */
  method AddToToken(dst: array<byte>, token: nat, op: nat, ghost lits: seq<byte>, matchLength: nat)
    requires token < op && Wrote(dst, token, op, HeadBytes(lits, 0))
    modifies dst
    ensures Wrote(dst, token, op, HeadBytes(lits, matchLength))
    ensures OnlyWithin(dst, token, token + 1)
  {
    ghost var head := HeadBytes(lits, 0);
    HeadWith(lits, matchLength);
    hide HeadBytes, Token;
    assert dst[token] == dst[token..op][0] == head[0];
    assert dst[token + 1..op] == dst[token..op][1..];
    dst[token] := dst[token] + (if matchLength >= ML_MASK then ML_MASK else matchLength);
    assert dst[token..op] == [dst[token]] + head[1..];
  }

  method EmitOffset(dst: array<byte>, op: nat, offset: nat)
    requires op + 2 <= dst.Length && offset <= MAX_DISTANCE
    modifies dst
    ensures Wrote(dst, op, op + 2, OffsetBytes(offset))
    ensures OnlyWithin(dst, op, op + 2)
  {
    dst[op] := offset % 256;
    dst[op + 1] := offset / 256;
  }

  /** Match length, after a token, its literals and the offset. */
  method EmitMatchLength(dst: array<byte>, token: nat, op0: nat, ghost lits: seq<byte>, ghost offset: nat,
                         matchLength: nat)
    returns (op: nat)
    requires token + 1 <= op0 - 2 && offset <= MAX_DISTANCE && op0 + |Extension(matchLength)| <= dst.Length
    requires Wrote(dst, token, op0 - 2, HeadBytes(lits, 0)) && Wrote(dst, op0 - 2, op0, OffsetBytes(offset))
    modifies dst
    ensures Wrote(dst, token, op, SequenceBytes(Sequence(lits, offset, matchLength + MINMATCH)))
    ensures op == op0 + |Extension(matchLength)| && OnlyWithin(dst, token, op)
  {
    hide HeadBytes, LengthBytes, Token, OffsetBytes;
    AddToToken(dst, token, op0 - 2, lits, matchLength);
    assert dst[op0 - 2..op0] == OffsetBytes(offset);
    WroteBoth(dst, token, op0 - 2, op0, HeadBytes(lits, matchLength), OffsetBytes(offset));
    ghost var start := dst[token..op0];
    op := op0;
    if matchLength >= ML_MASK {
      op := EmitMatchRun(dst, op, matchLength - ML_MASK);
    }
    assert dst[token..op0] == start;
    WroteBoth(dst, token, op0, op, start, Extension(matchLength));
  }
}
