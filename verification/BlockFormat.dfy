/** The LZ4 block format: sequences of literals and back-references, how they are written as
    bytes, and the byte-at-a-time decoder that gives them their meaning. */
module BlockFormat {
  import opened Bytes

  const MINMATCH := 4
  const LASTLITERALS := 5
  const MFLIMIT := 12
  const RUN_MASK := 15
  const ML_MASK := 15
  const MAX_DISTANCE := 65535
  const WINDOW := 0x1_0000
  const LZ4_MAX_INPUT_SIZE := 0x7E000000
  const LZ4_64K_LIMIT := 65536 + 11

  /** `lits`, then `matchLen` bytes copied from `offset` bytes back. */
  datatype Sequence = Sequence(lits: seq<byte>, offset: nat, matchLen: nat)

  /** A block is a list of sequences closed by a run of literals. */
  datatype Block = Block(seqs: seq<Sequence>, last: seq<byte>)

  // ---------------------------------------------------------------- meaning

  /** `len` one-byte copies from `offset` bytes back; source and target may overlap. */
  function CopyMatch(out: seq<byte>, offset: nat, len: nat): (r: seq<byte>)
    requires 1 <= offset <= |out|
    ensures |r| == |out| + len
    ensures r[..|out|] == out
  {
    if len == 0 then out
    else
      var r := CopyMatch(out, offset, len - 1);
      r + [r[|r| - offset]]
  }

  /** What `seqs` produce after the bytes `hist`; None if some offset is 0 or reaches before `hist`. */
  function Expand(hist: seq<byte>, seqs: seq<Sequence>): (r: Option<seq<byte>>)
    ensures r.Some? ==> |r.value| == |hist| + SeqsLength(seqs) && hist <= r.value
  {
    if seqs == [] then Some(hist)
    else
      var s := seqs[|seqs| - 1];
      match Expand(hist, seqs[..|seqs| - 1])
      case None => None
      case Some(out) =>
        var o := out + s.lits;
        if 1 <= s.offset <= |o| then Some(CopyMatch(o, s.offset, s.matchLen)) else None
  }

  function Decode(hist: seq<byte>, b: Block): (r: Option<seq<byte>>)
    ensures r.Some? ==> |r.value| == |hist| + BlockLength(b)
  {
    match Expand(hist, b.seqs)
    case None => None
    case Some(out) => Some(out + b.last)
  }

  function SeqsLength(seqs: seq<Sequence>): nat {
    if seqs == [] then 0
    else
      var s := seqs[|seqs| - 1];
      SeqsLength(seqs[..|seqs| - 1]) + |s.lits| + s.matchLen
  }

  function BlockLength(b: Block): nat { SeqsLength(b.seqs) + |b.last| }

  /** Every byte of s[lo..hi] repeats the one `offset` before it. */
  ghost predicate Repeats(s: seq<byte>, lo: int, hi: int, offset: nat) {
    offset <= lo <= hi <= |s| && forall k :: lo <= k < hi ==> s[k] == s[k - offset]
  }

  /** A copied match is the one periodic continuation of what precedes it. */
  lemma {:induction false} CopyMatchPeriodic(out: seq<byte>, offset: nat, len: nat, r: seq<byte>)
    requires 1 <= offset <= |out|
    requires |r| == |out| + len && r[..|out|] == out
    ensures r == CopyMatch(out, offset, len)
      <==> forall k :: |out| <= k < |r| ==> r[k] == r[k - offset]
  {
    if len == 0 {
      assert r == out;
    } else {
      var f := r[..|r| - 1];
      CopyMatchPeriodic(out, offset, len - 1, f);
      var c := CopyMatch(out, offset, len - 1);
      assert r == f + [r[|r| - 1]];
      if r == CopyMatch(out, offset, len) {
        assert f == c;
        forall k | |out| <= k < |r| ensures r[k] == r[k - offset] {
          if k < |f| { assert f[k] == f[k - offset]; }
        }
      }
      if forall k :: |out| <= k < |r| ==> r[k] == r[k - offset] {
        forall k | |out| <= k < |f| ensures f[k] == f[k - offset] {
          assert r[k] == r[k - offset];
        }
        assert r[|r| - 1] == r[|r| - 1 - offset];
      }
    }
  }

  /** One more sequence after `acc`. */
  lemma ExpandSnoc(hist: seq<byte>, acc: seq<Sequence>, s: Sequence)
    ensures Expand(hist, acc + [s]) ==
              match Expand(hist, acc)
              case None => None
              case Some(out) =>
                if 1 <= s.offset <= |out| + |s.lits| then Some(CopyMatch(out + s.lits, s.offset, s.matchLen)) else None
  {
    hide CopyMatch;
    var t := acc + [s];
    assert t[..|t| - 1] == acc && t[|t| - 1] == s;
  }

  // ---------------------------------------------------------------- bytes

  function LengthBytes(x: nat): (r: seq<byte>) {
    if x < 255 then [x] else [255] + LengthBytes(x - 255)
  }

  /** The bytes that follow a length nibble. */
  function Extension(x: nat): (r: seq<byte>) { if x < 15 then [] else LengthBytes(x - 15) }

  function Nibble(x: nat): (r: nat) ensures r < 16 { if x < 15 then x else 15 }

  function Token(lits: nat, match4: nat): byte { 16 * Nibble(lits) + Nibble(match4) }

  /** The sequences that have a byte form. Offset 0 has one too, though it has no meaning. */
  predicate Encodable(s: Sequence) { s.offset <= MAX_DISTANCE && MINMATCH <= s.matchLen }

  predicate AllEncodable(seqs: seq<Sequence>) { forall i :: 0 <= i < |seqs| ==> Encodable(seqs[i]) }

  /** Token, literal length and literals of a sequence. */
  function HeadBytes(lits: seq<byte>, match4: nat): seq<byte> {
    [Token(|lits|, match4)] + Extension(|lits|) + lits
  }

  function OffsetBytes(offset: nat): seq<byte>
    requires offset <= MAX_DISTANCE
  {
    [offset % 256, offset / 256]
  }

  function SequenceBytes(s: Sequence): seq<byte>
    requires Encodable(s)
  {
    HeadBytes(s.lits, s.matchLen - MINMATCH) + OffsetBytes(s.offset) + Extension(s.matchLen - MINMATCH)
  }

  function SequencesBytes(seqs: seq<Sequence>): seq<byte>
    requires AllEncodable(seqs)
  {
    if seqs == [] then []
    else SequencesBytes(seqs[..|seqs| - 1]) + SequenceBytes(seqs[|seqs| - 1])
  }

  /** A block whose last token carries `junk` in its unused low nibble. */
  function BlockBytesWith(b: Block, junk: nat): seq<byte>
    requires AllEncodable(b.seqs)
  {
    SequencesBytes(b.seqs) + HeadBytes(b.last, junk)
  }

  function BlockBytes(b: Block): seq<byte>
    requires AllEncodable(b.seqs)
  {
    BlockBytesWith(b, 0)
  }

  // ---------------------------------------------------------------- sizes

  lemma {:induction false} LengthBytesSize(x: nat)
    ensures |LengthBytes(x)| == x / 255 + 1
  {
    if x >= 255 {
      LengthBytesSize(x - 255);
      assert x / 255 == (x - 255) / 255 + 1;
    }
  }

  lemma ExtensionSize(x: nat)
    ensures |Extension(x)| == (x + 240) / 255
    ensures x < 15 ==> |Extension(x)| == 0
    ensures 255 * |Extension(x)| <= x + 240
  {
    if x >= 15 {
      LengthBytesSize(x - 15);
      assert (x + 240) / 255 == (x - 15) / 255 + 1;
    }
  }

  lemma SequenceSize(s: Sequence)
    requires Encodable(s)
    ensures |SequenceBytes(s)| == 3 + |s.lits| + |Extension(|s.lits|)| + |Extension(s.matchLen - MINMATCH)|
    ensures 255 * |SequenceBytes(s)| <= 256 * (|s.lits| + s.matchLen)
  {
    ExtensionSize(|s.lits|);
    ExtensionSize(s.matchLen - MINMATCH);
  }

  lemma SequencesSnoc(a: seq<Sequence>, s: Sequence)
    requires AllEncodable(a) && Encodable(s)
    ensures AllEncodable(a + [s]) && SequencesBytes(a + [s]) == SequencesBytes(a) + SequenceBytes(s)
    ensures SeqsLength(a + [s]) == SeqsLength(a) + |s.lits| + s.matchLen
  {
    var t := a + [s];
    assert t[..|t| - 1] == a && t[|t| - 1] == s;
  }

  lemma {:induction false} SequencesConcat(a: seq<Sequence>, b: seq<Sequence>)
    requires AllEncodable(a) && AllEncodable(b)
    ensures AllEncodable(a + b)
    ensures SequencesBytes(a + b) == SequencesBytes(a) + SequencesBytes(b)
  {
    hide SequenceBytes;
    if b == [] {
      assert a + b == a;
    } else {
      var f, s := b[..|b| - 1], b[|b| - 1];
      assert b == f + [s];
      SequencesConcat(a, f);
      Assoc(a, f, [s]);
      hide SequencesBytes;
      SequencesSnoc(a + f, s);
      SequencesSnoc(f, s);
      Assoc(SequencesBytes(a), SequencesBytes(f), SequenceBytes(s));
    }
  }

  lemma LengthSnoc(acc: seq<Sequence>, s: Sequence)
    ensures SeqsLength(acc + [s]) == SeqsLength(acc) + |s.lits| + s.matchLen
  {
    var t := acc + [s];
    assert t[..|t| - 1] == acc && t[|t| - 1] == s;
  }

  lemma PrefixSize(a: seq<Sequence>, c: seq<Sequence>)
    requires a <= c && AllEncodable(c)
    ensures AllEncodable(a) && |SequencesBytes(a)| <= |SequencesBytes(c)|
  {
    hide SequencesBytes;
    SequencesConcat(a, c[|a|..]);
    assert c == a + c[|a|..];
  }

  lemma {:induction false} SeqsLengthConcat(a: seq<Sequence>, b: seq<Sequence>)
    ensures SeqsLength(a + b) == SeqsLength(a) + SeqsLength(b)
  {
    if b == [] {
      assert a + b == a;
    } else {
      var f := b[..|b| - 1];
      SeqsLengthConcat(a, f);
      assert (a + b)[..|a + b| - 1] == a + f;
      assert (a + b)[|a + b| - 1] == b[|b| - 1];
    }
  }

  function CompressBound(n: nat): nat {
    if n > LZ4_MAX_INPUT_SIZE then 0 else n + n / 255 + 16
  }

  /** A list of sequences is never more than 1/255 longer than what it decodes to. */
  lemma {:induction false} SequencesSize(seqs: seq<Sequence>)
    requires AllEncodable(seqs)
    ensures 255 * |SequencesBytes(seqs)| <= 256 * SeqsLength(seqs)
  {
    if seqs != [] {
      SequencesSize(seqs[..|seqs| - 1]);
      SequenceSize(seqs[|seqs| - 1]);
    }
  }

  lemma BlockSize(b: Block)
    requires AllEncodable(b.seqs)
    ensures |BlockBytes(b)| <= BlockLength(b) + BlockLength(b) / 255 + 2
  {
    SequencesSize(b.seqs);
    ExtensionSize(|b.last|);
  }
}
