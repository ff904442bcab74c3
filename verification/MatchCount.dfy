/** LZ4_count: how far two positions agree, found a machine word at a time. */
module MatchCount {
  import opened Bytes

  /** The definition: the longest common prefix of buf[p..limit] and what starts at `m`. */
  function CommonLength(buf: seq<byte>, p: nat, m: nat, limit: nat): (n: nat)
    requires m <= p && limit <= |buf|
    ensures p + n <= limit || n == 0
    decreases limit - p
  {
    if p < limit && buf[p] == buf[m] then 1 + CommonLength(buf, p + 1, m + 1, limit) else 0
  }

  /** The little-endian number in buf[p..p + n]. */
  function Word(buf: seq<byte>, p: nat, n: nat): (w: nat)
    requires p + n <= |buf|
    decreases n
  {
    if n == 0 then 0 else buf[p] + 256 * Word(buf, p + 1, n - 1)
  }

  /** Bitwise exclusive or. */
  function Xor(x: nat, y: nat): nat {
    if x == 0 && y == 0 then 0 else (if x % 2 == y % 2 then 0 else 1) + 2 * Xor(x / 2, y / 2)
  }

  /** The number of trailing zero bits. */
  function Ctz(v: nat): nat
    requires v > 0
  {
    if v % 2 == 1 then 0 else 1 + Ctz(v / 2)
  }

  lemma {:induction false} XorIsZero(x: nat, y: nat)
    ensures Xor(x, y) == 0 <==> x == y
  {
    if x > 0 || y > 0 { XorIsZero(x / 2, y / 2); }
  }

  function Shift(a: nat, bits: nat): nat { if bits == 0 then a else 2 * Shift(a, bits - 1) }

  lemma XorStep(x: nat, y: nat)
    ensures Xor(x, y) == (if x % 2 == y % 2 then 0 else 1) + 2 * Xor(x / 2, y / 2)
  {
  }

  lemma CtzStep(bit: nat, v: nat)
    requires bit < 2 && bit + v > 0
    ensures Ctz(bit + 2 * v) == if bit == 1 then 0 else 1 + Ctz(v)
  {
    assert (bit + 2 * v) / 2 == v && (bit + 2 * v) % 2 == bit;
  }

  lemma Halves(a: nat, u: nat, bits: nat)
    requires bits > 0 && u < Shift(1, bits)
    ensures var x := Shift(a, bits) + u; x / 2 == Shift(a, bits - 1) + u / 2 && x % 2 == u % 2
    ensures u / 2 < Shift(1, bits - 1) && u == 2 * (u / 2) + u % 2
  {
  }

  /** Trailing zeros of an exclusive or, when the low `bits` bits are split off. */
  lemma {:induction false} CtzOfXor(a: nat, b: nat, u: nat, v: nat, bits: nat)
    requires u < Shift(1, bits) && v < Shift(1, bits) && (u != v || a != b)
    ensures var x, y := Shift(a, bits) + u, Shift(b, bits) + v;
            && Xor(x, y) > 0
            && (u != v ==> Ctz(Xor(x, y)) < bits)
            && (u == v ==> Xor(a, b) > 0 && Ctz(Xor(x, y)) == bits + Ctz(Xor(a, b)))
  {
    hide Xor;
    if bits == 0 {
      XorIsZero(a, b);
    } else {
      hide Shift, Ctz;
      var x, y := Shift(a, bits) + u, Shift(b, bits) + v;
      var x', y' := Shift(a, bits - 1) + u / 2, Shift(b, bits - 1) + v / 2;
      Halves(a, u, bits);
      Halves(b, v, bits);
      XorStep(x, y);
      if u % 2 == v % 2 {
        CtzOfXor(a, b, u / 2, v / 2, bits - 1);
        CtzStep(0, Xor(x', y'));
      } else {
        CtzStep(1, Xor(x', y'));
      }
    }
  }

  lemma ShiftByte(a: nat)
    ensures Shift(a, 8) == 256 * a
  {
    assert Shift(a, 1) == 2 * Shift(a, 0);
    assert Shift(a, 3) == 2 * Shift(a, 2) == 4 * Shift(a, 1);
    assert Shift(a, 5) == 2 * Shift(a, 4) == 4 * Shift(a, 3);
    assert Shift(a, 7) == 2 * Shift(a, 6) == 4 * Shift(a, 5);
  }

  /** Words are equal when their bytes are, and otherwise the trailing zeros of their exclusive or
      count, in eighths, the bytes that agree. */
  lemma {:induction false} WordsAgree(buf: seq<byte>, p: nat, m: nat, n: nat)
    requires m <= p && p + n <= |buf|
    ensures var x, y := Word(buf, m, n), Word(buf, p, n);
            var c := CommonLength(buf, p, m, p + n);
            if x == y then c == n else Xor(x, y) > 0 && Ctz(Xor(x, y)) / 8 == c && c < n
    decreases n
  {
    hide Xor, Ctz, Shift;
    if n > 0 {
      WordsAgree(buf, p + 1, m + 1, n - 1);
      var a, b := Word(buf, m + 1, n - 1), Word(buf, p + 1, n - 1);
      ShiftByte(a);
      ShiftByte(b);
      ShiftByte(1);
      if a != b || buf[m] != buf[p] { CtzOfXor(a, b, buf[m], buf[p], 8); }
    }
  }

  lemma {:induction false} CommonSplit(buf: seq<byte>, p: nat, m: nat, mid: nat, limit: nat)
    requires m <= p <= mid <= limit <= |buf|
    ensures var c := CommonLength(buf, p, m, mid);
            CommonLength(buf, p, m, limit)
            == if c < mid - p then c else c + CommonLength(buf, mid, m + (mid - p), limit)
    decreases mid - p
  {
    if p < mid && buf[p] == buf[m] { CommonSplit(buf, p + 1, m + 1, mid, limit); }
  }

  /** Behind the common bytes the limit is reached, or two bytes differ. */
  lemma {:induction false} CommonStops(buf: seq<byte>, p: nat, m: nat, limit: nat)
    requires m <= p <= limit <= |buf|
    ensures var n := CommonLength(buf, p, m, limit); p + n == limit || buf[p + n] != buf[m + n]
    decreases limit - p
  {
    if p < limit && buf[p] == buf[m] { CommonStops(buf, p + 1, m + 1, limit); }
  }

  /** LZ4_NbCommonBytes on a little-endian 64-bit machine. */
  function NbCommonBytes(diff: nat): nat
    requires diff > 0
  {
    Ctz(diff) / 8
  }

  /** What comparing one word tells about the common length. */
  lemma WordTells(buf: seq<byte>, p: nat, m: nat, n: nat, limit: nat)
    requires m <= p && p + n <= limit <= |buf|
    ensures var x, y := Word(buf, m, n), Word(buf, p, n);
            var c := CommonLength(buf, p, m, limit);
            && (x == y <==> Xor(x, y) == 0)
            && (if x == y then c == n + CommonLength(buf, p + n, m + n, limit)
                else c < n && c == NbCommonBytes(Xor(x, y)))
  {
    hide Xor, Ctz, Word, CommonLength;
    WordsAgree(buf, p, m, n);
    XorIsZero(Word(buf, m, n), Word(buf, p, n));
    CommonSplit(buf, p, m, p + n, limit);
  }

  /** LZ4_count. */
  method Count(buf: seq<byte>, pIn0: nat, pMatch0: nat, limit: nat) returns (n: nat)
    requires pMatch0 <= pIn0 && limit <= |buf|
    ensures n == CommonLength(buf, pIn0, pMatch0, limit)
  {
    hide Xor, Word, CommonLength, NbCommonBytes;
    var pIn, pMatch := pIn0, pMatch0;
    while pIn < limit - 7
      invariant pIn0 <= pIn && pIn - pMatch == pIn0 - pMatch0
      invariant CommonLength(buf, pIn0, pMatch0, limit) == pIn - pIn0 + CommonLength(buf, pIn, pMatch, limit)
    {
      WordTells(buf, pIn, pMatch, 8, limit);
      var diff := Xor(Word(buf, pMatch, 8), Word(buf, pIn, 8));
      if diff == 0 {
        pIn, pMatch := pIn + 8, pMatch + 8;
      } else {
        pIn := pIn + NbCommonBytes(diff);
        return pIn - pIn0;
      }
    }
    var tail := CountTail(buf, pIn, pMatch, limit);
    return pIn - pIn0 + tail;
  }

  /** The last seven bytes or fewer: a half word, two bytes, one byte. */
  method CountTail(buf: seq<byte>, pIn0: nat, pMatch0: nat, limit: nat) returns (n: nat)
    requires pMatch0 <= pIn0 && limit <= |buf| && pIn0 >= limit - 7
    ensures n == CommonLength(buf, pIn0, pMatch0, limit)
  {
    hide Xor, Word, NbCommonBytes;
    var pIn, pMatch := pIn0, pMatch0;
    if pIn < limit - 3 {
      WordTells(buf, pIn, pMatch, 4, limit);
      if Word(buf, pMatch, 4) == Word(buf, pIn, 4) { pIn, pMatch := pIn + 4, pMatch + 4; }
    }
    if pIn < limit - 1 {
      WordTells(buf, pIn, pMatch, 2, limit);
      if Word(buf, pMatch, 2) == Word(buf, pIn, 2) { pIn, pMatch := pIn + 2, pMatch + 2; }
    }
    if pIn < limit && buf[pMatch] == buf[pIn] { pIn := pIn + 1; }
    return pIn - pIn0;
  }
}
