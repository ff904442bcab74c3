/** Eight-byte copies that overshoot their target, and the table-driven copy of overlapping matches. */
module WildCopy {
  import opened Bytes
  import opened BlockFormat

  /** Everything outside [lo, hi) keeps its old value. */
  twostate predicate OnlyWithin(mem: array<byte>, lo: int, hi: int)
    reads mem
  {
    forall k :: 0 <= k < mem.Length && (k < lo || k >= hi) ==> mem[k] == old(mem[k])
  }

  /** memcpy of `n` bytes that do not overlap their target. */
  method CopyBytes(mem: array<byte>, d: nat, bytes: seq<byte>)
    requires d + |bytes| <= mem.Length
    modifies mem
    ensures forall k :: d <= k < d + |bytes| ==> mem[k] == bytes[k - d]
    ensures OnlyWithin(mem, d, d + |bytes|)
  {
    forall i | 0 <= i < |bytes| { mem[d + i] := bytes[i]; }
  }

  function Max(a: int, b: int): int { if a >= b then a else b }

  /** How many bytes LZ4_wildCopy writes for `len` bytes: eight at a time, and eight at least. */
  function Chunks(len: nat): (n: nat)
    ensures len <= n <= Max(8, len + 7)
  {
    if len <= 8 then 8 else (len + 7) / 8 * 8
  }

  /** LZ4_wildCopy from a separate buffer. */
  method WildCopyFrom(mem: array<byte>, d: nat, src: seq<byte>, s: nat, e: nat)
    requires d <= e && d + Chunks(e - d) <= mem.Length && s + Chunks(e - d) <= |src|
    modifies mem
    ensures forall k :: d <= k < d + Chunks(e - d) ==> mem[k] == src[s + (k - d)]
    ensures OnlyWithin(mem, d, d + Chunks(e - d))
  {
    var i := 0;
    while true
      invariant 0 <= i <= Chunks(e - d) && i % 8 == 0 && (i == 0 || d + i < e)
      invariant forall k :: d <= k < d + i ==> mem[k] == src[s + (k - d)]
      invariant OnlyWithin(mem, d, d + i)
      decreases e - (d + i)
    {
      ChunkMore(e - d, i);
      var chunk := src[s + i..s + i + 8];
      CopyBytes(mem, d + i, chunk);
      i := i + 8;
      if d + i >= e { break; }
    }
  }

  lemma ChunkMore(len: nat, i: nat)
    requires i % 8 == 0 && (i == 0 || i < len)
    ensures i + 8 <= Chunks(len) && (i + 8 >= len ==> i + 8 == Chunks(len))
  {
  }

  /** LZ4_wildCopy within one buffer. At a distance of 8 or more it repeats the bytes `d - s` back. */
  method WildCopyWithin(mem: array<byte>, d: nat, s: nat, e: nat)
    requires s <= d <= e && Max(d + 8, e + 7) <= mem.Length
    modifies mem
    ensures d - s >= 8 ==> forall k :: d <= k < e ==> mem[k] == mem[k - (d - s)]
    ensures OnlyWithin(mem, d, Max(d + 8, e + 7))
  {
    var i := 0;
    while true
      invariant 0 <= i && (i == 0 || d + i < e)
      invariant d - s >= 8 ==> forall k :: d <= k < d + i ==> mem[k] == mem[k - (d - s)]
      invariant OnlyWithin(mem, d, d + i)
      decreases e - (d + i)
    {
      label L:
      var chunk := mem[s + i..s + i + 8];
      CopyBytes(mem, d + i, chunk);
      assert forall k :: 0 <= k < d + i ==> mem[k] == old@L(mem[k]);
      i := i + 8;
      if d + i >= e { break; }
    }
  }

  const DEC32: seq<nat> := [4, 1, 2, 1, 4, 4, 4, 4]
  const DEC64: seq<int> := [0, 0, 0, -1, 0, 1, 2, 3]

  /** Stepping back `m` periods inside a repeating stretch. */
  lemma {:induction false} StepBack(s: seq<byte>, lo: int, k: int, offset: nat, m: nat)
    requires offset >= 1 && Repeats(s, lo, k, offset) && k <= |s| && k - m * offset >= lo
    ensures m >= 1 ==> k - offset >= 0 && k - m * offset - offset >= 0
                       && s[k - offset] == s[k - offset - m * offset]
    decreases m
  {
    if m >= 1 {
      if m >= 2 {
        assert (m - 1) * offset == m * offset - offset;
        StepBack(s, lo, k, offset, m - 1);
        assert s[k - m * offset] == s[k - m * offset - offset];
      } else {
        assert s[k - offset] == s[k - offset - offset];
      }
    }
  }

  /** Eight bytes that repeat with period `offset`, continued at a distance that is a multiple of
      `offset` and at most 8 more than it, repeat with period `offset` throughout. */
  lemma {:induction false} PeriodOfMultiple(s: seq<byte>, op: nat, hi: nat, offset: nat, m: nat, far: nat)
    requires offset >= 1 && m >= 1 && far == m * offset && far <= offset + 8 && far <= op + 8 && op + 8 <= hi
    requires Repeats(s, op, op + 8, offset) && Repeats(s, op + 8, hi, far)
    ensures Repeats(s, op, hi, offset)
    decreases hi
  {
    if hi > op + 8 {
      PeriodOfMultiple(s, op, hi - 1, offset, m, far);
      var k := hi - 1;
      assert s[k] == s[k - far];
      if m >= 2 {
        assert (m - 1) * offset == far - offset;
        StepBack(s, op, k, offset, m - 1);
      }
      assert s[k - offset] == s[k - far];
    }
  }

  /** The distance at which copying goes on after the first eight bytes. */
  function Far(offset: nat): nat {
    if offset >= 8 then offset else 8 + DEC64[offset] + offset - DEC32[offset]
  }

  lemma FarIsMultiple(offset: nat) returns (m: nat)
    requires offset >= 1
    ensures m >= 1 && Far(offset) == m * offset && 8 <= Far(offset) <= offset + 8
  {
    if offset >= 8 { m := 1; }
    else if offset == 1 { m := 8; }
    else if offset == 2 { m := 4; }
    else if offset == 3 { m := 3; }
    else { m := 2; }
  }

  lemma Dec32Value(offset: nat)
    requires offset < 8
    ensures DEC32[offset] == if offset == 1 || offset == 3 then 1 else if offset == 2 then 2 else 4
    ensures Far(offset) == 8 + DEC64[offset] + offset - DEC32[offset]
  {
  }

  /** The table-driven start of a match fewer than eight bytes back repeats it. */
  lemma NearRepeats(s: seq<byte>, op: nat, offset: nat)
    requires 1 <= offset < 8 && offset <= op && op + 8 <= |s|
    requires var a := op - offset;
             s[op] == s[a] && s[op + 1] == s[a + 1] && s[op + 2] == s[a + 2] && s[op + 3] == s[a + 3]
    requires var b := op - offset + DEC32[offset];
             s[op + 4] == s[b] && s[op + 5] == s[b + 1] && s[op + 6] == s[b + 2] && s[op + 7] == s[b + 3]
    ensures Repeats(s, op, op + 8, offset)
  {
    Dec32Value(offset);
    forall k | op <= k < op + 8
      ensures s[k] == s[k - offset]
    {
      if k >= op + 4 {
        var i := k - op - 4;
        assert s[op + 4 + i] == s[op - offset + DEC32[offset] + i];
        if offset == 1 { assert s[op] == s[op + 1] == s[op + 2] == s[op + 3]; }
        else if offset == 2 { assert s[op + 2 + i] == s[op + 4 + i]; }
        else if offset == 3 { assert s[op + 1] == s[op - 2] && s[op + 2] == s[op - 1] && s[op + 3] == s[op]; }
      }
    }
  }

  /** Four single-byte copies, which may overlap. */
  method CopyFour(mem: array<byte>, op: nat, from: nat)
    requires from <= op && op + 4 <= mem.Length
    modifies mem
    ensures OnlyWithin(mem, op, op + 4)
    ensures mem[op] == mem[from] && mem[op + 1] == mem[from + 1]
    ensures mem[op + 2] == mem[from + 2] && mem[op + 3] == mem[from + 3]
  {
    mem[op] := mem[from];
    mem[op + 1] := mem[from + 1];
    mem[op + 2] := mem[from + 2];
    mem[op + 3] := mem[from + 3];
  }

  method CopyNear(mem: array<byte>, op: nat, from: nat) returns (next: nat)
    requires from <= op < from + 8 && op + 8 <= mem.Length
    modifies mem
    ensures OnlyWithin(mem, op, op + 8)
    ensures from < op ==> Repeats(mem[..], op, op + 8, op - from)
    ensures from < op ==> next == op + 8 - Far(op - from)
    ensures next <= op + 8
  {
    hide Repeats, Far;
    CopyFour(mem, op, from);
    var offset := op - from;
    Dec32Value(offset);
    var start := from + DEC32[offset];
    label Four:
    var four := mem[start..start + 4];
    CopyBytes(mem, op + 4, four);
    if from < op {
      assert mem[start] == four[0] && mem[start + 1] == four[1] && mem[start + 2] == four[2]
             && mem[start + 3] == four[3];
      NearRepeats(mem[..], op, offset);
    }
    next := start - DEC64[offset];
  }

  /** The first eight bytes of a match, and where its source pointer then stands. */
  method CopyFirstEight(mem: array<byte>, op: nat, from: nat) returns (next: nat)
    requires from <= op && op + 8 <= mem.Length
    modifies mem
    ensures OnlyWithin(mem, op, op + 8)
    ensures from < op ==> Repeats(mem[..], op, op + 8, op - from)
    ensures from < op ==> next == op + 8 - Far(op - from)
    ensures next <= op + 8
  {
    if op - from < 8 {
      next := CopyNear(mem, op, from);
    } else {
      var eight := mem[from..from + 8];
      CopyBytes(mem, op, eight);
      next := from + 8;
    }
  }

  /** The careful end of a match near the end of the buffer: wild copies up to oend-8, then bytes. */
  method CopyTail(mem: array<byte>, op: nat, from: nat, cpy: nat, oend: nat)
    requires from <= op <= oend - 4 && cpy <= oend - LASTLITERALS && cpy > oend - 12 && oend <= mem.Length
    modifies mem
    ensures OnlyWithin(mem, op, oend)
    ensures op - from >= 8 ==> Repeats(mem[..], op, Max(op, cpy), op - from)
  {
    var o, next := op, from;
    if o < oend - 8 {
      WildCopyWithin(mem, o, next, oend - 8);
      next := next + (oend - 8 - o);
      o := oend - 8;
    }
    while o < cpy
      invariant op <= o <= oend && o - next == op - from
      invariant OnlyWithin(mem, op, oend)
      invariant op - from >= 8 ==> forall k :: op <= k < o ==> mem[k] == mem[k - (op - from)]
    {
      mem[o] := mem[next];
      o, next := o + 1, next + 1;
    }
  }

  /** A whole match copied to [op, cpy); false when it ends within LASTLITERALS of the buffer's end. */
  method CopyMatchFast(mem: array<byte>, op: nat, from: nat, cpy: nat, oend: nat) returns (ok: bool)
    requires from <= op && op + MINMATCH <= cpy && op + MFLIMIT <= oend <= mem.Length
    modifies mem
    ensures ok <==> cpy <= oend - LASTLITERALS
    ensures OnlyWithin(mem, op, oend)
    ensures ok && from < op ==> Repeats(mem[..], op, cpy, op - from)
  {
    hide Far;
    var next := CopyFirstEight(mem, op, from);
    label First:
    ghost var m := 0;
    if from < op { m := FarIsMultiple(op - from); }
    if cpy > oend - 12 {
      if cpy > oend - LASTLITERALS { return false; }
      CopyTail(mem, op + 8, next, cpy, oend);
    } else {
      WildCopyWithin(mem, op + 8, next, Max(op + 8, cpy));
    }
    ok := true;
    if from < op {
      ghost var s := mem[..];
      assert forall k :: 0 <= k < op + 8 ==> s[k] == old@First(mem[..])[k];
      PeriodOfMultiple(s, op, Max(op + 8, cpy), op - from, m, Far(op - from));
    }
  }
}
