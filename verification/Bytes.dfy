/** Bytes, optional values, and the few sequence facts the other modules share. */
module Bytes {
  type byte = x: int | 0 <= x < 256

  datatype Option<+T> = None | Some(value: T)

  function Min(a: int, b: int): (m: int)
  {
    if a <= b then a else b
  }

  /** The 16-bit little-endian number with these bytes. */
  function LE16(lo: byte, hi: byte): (r: nat)
    ensures r < 0x1_0000
  {
    var l: int, h: int := lo, hi;
    l + 256 * h
  }

  /** A 32-bit number in little-endian byte order. */
  function ToLE32(n: nat): (s: seq<byte>)
    ensures |s| == 4
  {
    [n % 256, n / 256 % 256, n / 256 / 256 % 256, n / 256 / 256 / 256 % 256]
  }

  function FromLE32(s: seq<byte>): (n: nat)
    requires |s| == 4
    ensures n < 0x1_0000_0000
  {
    var a: int, b: int, c: int, d: int := s[0], s[1], s[2], s[3];
    a + 256 * (b + 256 * (c + 256 * d))
  }

  lemma LERoundTrip(n: nat)
    requires n < 0x1_0000_0000
    ensures FromLE32(ToLE32(n)) == n
  {
  }

  lemma LEExactly(s: seq<byte>)
    requires |s| == 4
    ensures ToLE32(FromLE32(s)) == s
  {
    var a: int, b: int, c: int, d: int := s[0], s[1], s[2], s[3];
    var n := FromLE32(s);
    var m := b + 256 * (c + 256 * d);
    assert n / 256 == m && n % 256 == a;
    assert m / 256 == c + 256 * d && m % 256 == b;
    assert (c + 256 * d) / 256 == d && (c + 256 * d) % 256 == c;
  }

  lemma SplitAt<T>(s: seq<T>, i: nat, j: nat)
    requires i <= j <= |s|
    ensures s[..i] + s[i..j] == s[..j]
    ensures s[i..j] + s[j..] == s[i..]
  {
  }

  lemma Assoc<T>(a: seq<T>, b: seq<T>, c: seq<T>)
    ensures a + b + c == a + (b + c)
  {
  }

  lemma Joined<T>(s: seq<T>, a: nat, b: nat, c: nat)
    requires a <= b <= c <= |s|
    ensures s[a..b] + s[b..c] == s[a..c]
  {
  }

  lemma SubSlice<T>(s: seq<T>, a: nat, b: nat, i: nat, j: nat)
    requires a <= b <= |s| && i <= j <= b - a
    ensures s[a..b][i..j] == s[a + i..a + j]
  {
    var t := s[a..b];
    assert t[i..j] == s[a + i..a + j] by {
      assert forall k :: i <= k < j ==> t[k] == s[a + k];
    }
  }

  /** What a callee is given that takes a 32-bit length. */
  function Narrow(data: seq<byte>): seq<byte> { data[..|data| % 0x1_0000_0000] }

  /** Pieces laid end to end. */
  function Flatten(pieces: seq<seq<byte>>): seq<byte> {
    if pieces == [] then [] else Flatten(pieces[..|pieces| - 1]) + pieces[|pieces| - 1]
  }

  lemma {:induction false} FlattenHead(pieces: seq<seq<byte>>)
    requires pieces != []
    ensures Flatten(pieces) == pieces[0] + Flatten(pieces[1..])
  {
    var n := |pieces| - 1;
    if n > 0 {
      FlattenHead(pieces[..n]);
      assert pieces[..n][1..] == pieces[1..][..n - 1];
    }
  }

  lemma NextBits(w: bv8)
    requires w != 255
    ensures (w + 1) as int == w as int + 1
  {
  }

  lemma BitsBack(w: bv8)
    ensures (w as int) as bv8 == w
  {
  }

  lemma NotTop(w: bv8)
    requires w as int < 255
    ensures w != 255
  {
  }

  lemma ZeroBits()
    ensures (0 as bv8) as int == 0
  {
  }

  /** A byte as eight bits is the same number. */
  lemma {:induction false} ByteBits(x: byte)
    ensures (x as bv8) as int == x
    decreases x
  {
    if x == 0 {
      ZeroBits();
    } else {
      ByteBits(x - 1);
      var w := (x - 1) as bv8;
      NotTop(w);
      NextBits(w);
      BitsBack(w + 1);
    }
  }
}
