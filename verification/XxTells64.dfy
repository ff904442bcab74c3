/** XXH64 tells inputs apart as far as its steps can be undone: the lanes up to where they are merged, and
    everything behind the stripes. And the hash of one input, as it was published. */
module XxTells64 {
  import opened Bytes
  import opened XxStripes
  import opened XxHash64

  // ---------------------------------------------------------------- every step can be undone

  lemma RotlTells(x: bv64, y: bv64)
    ensures Rotl(x, 27) == Rotl(y, 27) ==> x == y
    ensures Rotl(x, 31) == Rotl(y, 31) ==> x == y
  {
  }

  lemma RotlTellsToo(x: bv64, y: bv64)
    ensures Rotl(x, 11) == Rotl(y, 11) ==> x == y
    ensures Rotl(x, 23) == Rotl(y, 23) ==> x == y
  {
  }

  function Over1(a: bv64): bv64 { a * 614540362697595703 }
  function Over2(a: bv64): bv64 { a * 839798700976720815 }
  function Over3(a: bv64): bv64 { a * 16855272203555305545 }
  function Over5(a: bv64): bv64 { a * 14236653164957433613 }

  lemma TimesIs(x: bv64)
    ensures Times1(x) == x * 11400714785074694791 && Times2(x) == x * 14029467366897019727
    ensures Times3(x) == x * 1609587929392839161 && Times5(x) == x * 2870177450012600261
  {
  }

  /** The primes have inverses. */
  lemma PrimesUndone(x: bv64)
    ensures Over1(x * 11400714785074694791) == x && Over2(x * 14029467366897019727) == x
    ensures Over3(x * 1609587929392839161) == x && Over5(x * 2870177450012600261) == x
  {
  }

  lemma TimesUndone(x: bv64)
    ensures Over1(Times1(x)) == x && Over2(Times2(x)) == x && Over3(Times3(x)) == x && Over5(Times5(x)) == x
  {
    hide *;
    TimesIs(x);
    PrimesUndone(x);
  }

  lemma TimesTells(x: bv64, y: bv64)
    ensures Times1(x) == Times1(y) ==> x == y
    ensures Times2(x) == Times2(y) ==> x == y
    ensures Times3(x) == Times3(y) ==> x == y
    ensures Times5(x) == Times5(y) ==> x == y
  {
    hide *;
    TimesUndone(x);
    TimesUndone(y);
  }

  function Undo33(a: bv64): bv64 { a ^ (a >> 33) }
  function Undo29(a: bv64): bv64 { a ^ (a >> 29) ^ (a >> 58) }
  function Undo32(a: bv64): bv64 { a ^ (a >> 32) }

  lemma MixIs(x: bv64)
    ensures Mix33(x) == x ^ (x >> 33) && Mix29(x) == x ^ (x >> 29) && Mix32(x) == x ^ (x >> 32)
  {
  }

  lemma ShiftsUndone(x: bv64)
    ensures Undo33(x ^ (x >> 33)) == x && Undo29(x ^ (x >> 29)) == x && Undo32(x ^ (x >> 32)) == x
  {
  }

  lemma MixUndone(x: bv64)
    ensures Undo33(Mix33(x)) == x && Undo29(Mix29(x)) == x && Undo32(Mix32(x)) == x
  {
    hide *;
    MixIs(x);
    ShiftsUndone(x);
  }

  lemma MixTells(x: bv64, y: bv64)
    ensures Mix33(x) == Mix33(y) ==> x == y
    ensures Mix29(x) == Mix29(y) ==> x == y
    ensures Mix32(x) == Mix32(y) ==> x == y
  {
    hide *;
    MixUndone(x);
    MixUndone(y);
  }

  function Minus(x: bv64, y: bv64): bv64 { x - y }

  lemma AddUndone(x: bv64, k: bv64)
    ensures Minus(Add(x, k), k) == x && Minus(Add(k, x), k) == x
  {
  }

  lemma AddTells(x: bv64, y: bv64, k: bv64)
    ensures Add(x, k) == Add(y, k) ==> x == y
    ensures Add(k, x) == Add(k, y) ==> x == y
  {
    hide *;
    AddUndone(x, k);
    AddUndone(y, k);
  }

  lemma XorUndone(x: bv64, k: bv64)
    ensures Xor(Xor(x, k), k) == x && Xor(k, Xor(k, x)) == x
  {
  }

  lemma XorTells(x: bv64, y: bv64, k: bv64)
    ensures Xor(x, k) == Xor(y, k) ==> x == y
    ensures Xor(k, x) == Xor(k, y) ==> x == y
  {
    hide *;
    XorUndone(x, k);
    XorUndone(y, k);
  }

  lemma AvalancheTells(x: bv64, y: bv64)
    requires Avalanche(x) == Avalanche(y)
    ensures x == y
  {
    hide Mix33, Mix29, Mix32, Times2, Times3;
    var a, b := Mix33(x), Mix33(y);
    var c, d := Mix29(Times2(a)), Mix29(Times2(b));
    MixTells(Times3(c), Times3(d));
    TimesTells(c, d);
    MixTells(Times2(a), Times2(b));
    TimesTells(a, b);
    MixTells(x, y);
  }

  // ---------------------------------------------------------------- so one difference stays one

  /** Of two accumulators, and of two lanes, a round tells the one from the other. */
  lemma RoundTells(a: bv64, b: bv64, x: bv64, y: bv64)
    ensures a == b && x != y ==> Round(a, x) != Round(b, y)
    ensures a != b && x == y ==> Round(a, x) != Round(b, y)
  {
    hide Rotl, Add, Times1, Times2;
    var p, q := Add(a, Times2(x)), Add(b, Times2(y));
    TimesTells(Rotl(p, 31), Rotl(q, 31));
    RotlTells(p, q);
    AddTells(Times2(x), Times2(y), a);
    AddTells(a, b, Times2(x));
    TimesTells(x, y);
  }

  lemma EightTells(a: bv64, b: bv64, x: bv64, y: bv64)
    ensures a == b && x != y ==> Word8(a, x) != Word8(b, y)
    ensures a != b && x == y ==> Word8(a, x) != Word8(b, y)
  {
    hide Rotl, Add, Xor, Times1, Times2;
    var m, n := Times1(Rotl(Times2(x), 31)), Times1(Rotl(Times2(y), 31));
    var p, q := Xor(a, m), Xor(b, n);
    AddTells(Times1(Rotl(p, 27)), Times1(Rotl(q, 27)), PRIME4);
    TimesTells(Rotl(p, 27), Rotl(q, 27));
    RotlTells(p, q);
    XorTells(m, n, a);
    XorTells(a, b, m);
    TimesTells(Rotl(Times2(x), 31), Rotl(Times2(y), 31));
    RotlTells(Times2(x), Times2(y));
    TimesTells(x, y);
  }

  lemma FourTells(a: bv64, b: bv64, x: bv64, y: bv64)
    ensures a == b && x != y ==> Word4(a, x) != Word4(b, y)
    ensures a != b && x == y ==> Word4(a, x) != Word4(b, y)
  {
    hide Rotl, Add, Xor, Times1, Times2;
    var p, q := Xor(a, Times1(x)), Xor(b, Times1(y));
    AddTells(Times2(Rotl(p, 23)), Times2(Rotl(q, 23)), PRIME3);
    TimesTells(Rotl(p, 23), Rotl(q, 23));
    RotlTellsToo(p, q);
    XorTells(Times1(x), Times1(y), a);
    XorTells(a, b, Times1(x));
    TimesTells(x, y);
  }

  lemma ByteTells(a: bv64, b: bv64, x: byte, y: byte)
    ensures a == b && x != y ==> Byte1(a, x) != Byte1(b, y)
    ensures a != b && x == y ==> Byte1(a, x) != Byte1(b, y)
  {
    hide Bits, Rotl, Xor, Times1, Times5;
    BitsTell(x, y);
    var p, q := Xor(a, Times5(Bits(x))), Xor(b, Times5(Bits(y)));
    TimesTells(Rotl(p, 11), Rotl(q, 11));
    RotlTellsToo(p, q);
    XorTells(Times5(Bits(x)), Times5(Bits(y)), a);
    XorTells(a, b, Times5(Bits(x)));
    TimesTells(Bits(x), Bits(y));
  }

  lemma BitsTell(x: byte, y: byte)
    ensures Bits(x) == Bits(y) ==> x == y
  {
    ByteBits(x);
    ByteBits(y);
  }

  function Part(w: bv64, i: nat): bv64 {
    if i == 0 then w & 255 else if i == 1 then (w >> 8) & 255 else if i == 2 then (w >> 16) & 255 else w >> 24
  }

  predicate Small(a: bv64) { a < 256 }

  predicate Half(a: bv64) { a < 0x1_0000_0000 }

  lemma FourUndone(a: bv64, b: bv64, c: bv64, d: bv64)
    requires Small(a) && Small(b) && Small(c) && Small(d)
    ensures var w := Four(a, b, c, d);
            Half(w) && Part(w, 0) == a && Part(w, 1) == b && Part(w, 2) == c && Part(w, 3) == d
  {
  }

  function Low(w: bv64): bv64 { w & 0xFFFF_FFFF }

  function High(w: bv64): bv64 { w >> 32 }

  lemma JoinUndone(a: bv64, b: bv64)
    requires Half(a) && Half(b)
    ensures Low(Join(a, b)) == a && High(Join(a, b)) == b
  {
  }

  lemma BitsSmall(x: byte)
    ensures Small(Bits(x))
  {
  }

  /** The number read tells the four bytes. */
  lemma WordTells(s: seq<byte>, t: seq<byte>)
    requires |s| == |t| == 4
    ensures Half(ReadLE32(s, 0)) && Half(ReadLE32(t, 0)) && (ReadLE32(s, 0) == ReadLE32(t, 0) ==> s == t)
  {
    hide Bits, Small, Four, Part, Half;
    forall i | 0 <= i < 4
      ensures Small(Bits(s[i])) && Small(Bits(t[i])) && (Bits(s[i]) == Bits(t[i]) ==> s[i] == t[i])
    {
      BitsTell(s[i], t[i]);
      BitsSmall(s[i]);
      BitsSmall(t[i]);
    }
    FourUndone(Bits(s[0]), Bits(s[1]), Bits(s[2]), Bits(s[3]));
    FourUndone(Bits(t[0]), Bits(t[1]), Bits(t[2]), Bits(t[3]));
  }

  lemma SameWords(s: seq<byte>, t: seq<byte>, p: nat)
    requires p + 4 <= |s| && p + 4 <= |t|
    ensures Half(ReadLE32(s, p)) && Half(ReadLE32(t, p))
    ensures ReadLE32(s, p) == ReadLE32(t, p) <==> s[p..p + 4] == t[p..p + 4]
  {
    hide LE32, Half;
    var a, b := s[p..p + 4], t[p..p + 4];
    assert ReadLE32(s, p) == ReadLE32(a, 0) && ReadLE32(t, p) == ReadLE32(b, 0);
    WordTells(a, b);
  }

  /** The number read tells the eight bytes. */
  lemma SameLanes(s: seq<byte>, t: seq<byte>, p: nat)
    requires p + 8 <= |s| && p + 8 <= |t|
    ensures ReadLE64(s, p) == ReadLE64(t, p) <==> s[p..p + 8] == t[p..p + 8]
  {
    hide ReadLE32, Join, Half;
    SameWords(s, t, p);
    SameWords(s, t, p + 4);
    JoinUndone(ReadLE32(s, p), ReadLE32(s, p + 4));
    JoinUndone(ReadLE32(t, p), ReadLE32(t, p + 4));
    assert s[p..p + 8] == s[p..p + 4] + s[p + 4..p + 8] && t[p..p + 8] == t[p..p + 4] + t[p + 4..p + 8];
    assert s[p..p + 8][..4] == s[p..p + 4] && s[p..p + 8][4..] == s[p + 4..p + 8];
    assert t[p..p + 8][..4] == t[p..p + 4] && t[p..p + 8][4..] == t[p + 4..p + 8];
  }

  // ---------------------------------------------------------------- in the stripes

  /** The lanes differ in one place. */
  predicate OneLane(v: Lanes, w: Lanes, i: nat) {
    && i < 4 && (v.v1 != w.v1 <==> i == 0) && (v.v2 != w.v2 <==> i == 1) && (v.v3 != w.v3 <==> i == 2)
    && (v.v4 != w.v4 <==> i == 3)
  }

  /** Two stripes differ in the bytes of one lane. */
  predicate OneWord(s: seq<byte>, t: seq<byte>, i: nat) {
    && |s| == |t| == STRIPE && i < 4
    && (s[0..8] != t[0..8] <==> i == 0) && (s[8..16] != t[8..16] <==> i == 1)
    && (s[16..24] != t[16..24] <==> i == 2) && (s[24..32] != t[24..32] <==> i == 3)
  }

  lemma StripeKeeps(v: Lanes, w: Lanes, s: seq<byte>, i: nat)
    requires |s| == STRIPE && OneLane(v, w, i)
    ensures OneLane(Stripe(v, s), Stripe(w, s), i)
  {
    hide Round, ReadLE64;
    RoundTells(v.v1, w.v1, ReadLE64(s, 0), ReadLE64(s, 0));
    RoundTells(v.v2, w.v2, ReadLE64(s, 8), ReadLE64(s, 8));
    RoundTells(v.v3, w.v3, ReadLE64(s, 16), ReadLE64(s, 16));
    RoundTells(v.v4, w.v4, ReadLE64(s, 24), ReadLE64(s, 24));
  }

  lemma StripeTells(v: Lanes, s: seq<byte>, t: seq<byte>, i: nat)
    requires OneWord(s, t, i)
    ensures OneLane(Stripe(v, s), Stripe(v, t), i)
  {
    hide Round, ReadLE64;
    SameLanes(s, t, 0);
    SameLanes(s, t, 8);
    SameLanes(s, t, 16);
    SameLanes(s, t, 24);
    RoundTells(v.v1, v.v1, ReadLE64(s, 0), ReadLE64(t, 0));
    RoundTells(v.v2, v.v2, ReadLE64(s, 8), ReadLE64(t, 8));
    RoundTells(v.v3, v.v3, ReadLE64(s, 16), ReadLE64(t, 16));
    RoundTells(v.v4, v.v4, ReadLE64(s, 24), ReadLE64(t, 24));
  }

  lemma {:induction false} AbsorbKeeps(v: Lanes, w: Lanes, data: seq<byte>, i: nat)
    requires OneLane(v, w, i)
    ensures OneLane(Absorb(Stripe, STRIPE, v, data), Absorb(Stripe, STRIPE, w, data), i)
    decreases |data|
  {
    hide Stripe, OneLane;
    if |data| >= STRIPE {
      StripeKeeps(v, w, data[..STRIPE], i);
      AbsorbKeeps(Stripe(v, data[..STRIPE]), Stripe(w, data[..STRIPE]), data[STRIPE..], i);
    }
  }

  lemma {:induction false} TailKeeps(h: bv64, k: bv64, s: seq<byte>)
    requires h != k
    ensures Tail(h, s) != Tail(k, s)
    decreases |s|
  {
    hide Word8, Word4, Byte1, ReadLE32, ReadLE64;
    if |s| >= 8 {
      EightTells(h, k, ReadLE64(s, 0), ReadLE64(s, 0));
      TailKeeps(Word8(h, ReadLE64(s, 0)), Word8(k, ReadLE64(s, 0)), s[8..]);
    } else if |s| >= 4 {
      FourTells(h, k, ReadLE32(s, 0), ReadLE32(s, 0));
      TailKeeps(Word4(h, ReadLE32(s, 0)), Word4(k, ReadLE32(s, 0)), s[4..]);
    } else if |s| > 0 {
      ByteTells(h, k, s[0], s[0]);
      TailKeeps(Byte1(h, s[0]), Byte1(k, s[0]), s[1..]);
    }
  }

  lemma {:induction false} WholeStripes(data: seq<byte>)
    requires |data| % STRIPE == 0
    ensures Rest(STRIPE, data) == []
    decreases |data|
  {
    if data != [] { WholeStripes(data[STRIPE..]); }
  }

  /** After whole stripes. */
  lemma AfterStripes(before: seq<byte>, rest: seq<byte>, seed: bv64)
    requires |before| % STRIPE == 0
    ensures Absorb(Stripe, STRIPE, Init(seed), before + rest)
            == Absorb(Stripe, STRIPE, Absorb(Stripe, STRIPE, Init(seed), before), rest)
    ensures Rest(STRIPE, before + rest) == Rest(STRIPE, rest)
  {
    hide Stripe, Init;
    AbsorbMore(Stripe, STRIPE, Init(seed), before, rest);
    WholeStripes(before);
    assert [] + rest == rest;
  }

  /** Two inputs that differ in one lane of one stripe have lanes that differ there and nowhere else. Each lane is
      then merged twice, which can undo the difference. */
  lemma StripesTell(before: seq<byte>, s: seq<byte>, t: seq<byte>, after: seq<byte>, i: nat, seed: bv64)
    requires |before| % STRIPE == 0 && OneWord(s, t, i)
    ensures OneLane(Absorb(Stripe, STRIPE, Init(seed), before + s + after),
                    Absorb(Stripe, STRIPE, Init(seed), before + t + after), i)
  {
    hide Stripe, Init, OneWord, OneLane;
    OneWordSize(s, t, i);
    OneStripe(before, s, after, seed);
    OneStripe(before, t, after, seed);
    var v := Absorb(Stripe, STRIPE, Init(seed), before);
    StripeTells(v, s, t, i);
    AbsorbKeeps(Stripe(v, s), Stripe(v, t), after, i);
  }

  lemma OneWordSize(s: seq<byte>, t: seq<byte>, i: nat)
    requires OneWord(s, t, i)
    ensures |s| == |t| == STRIPE && i < 4
  {
  }

  lemma OneStripe(before: seq<byte>, s: seq<byte>, after: seq<byte>, seed: bv64)
    requires |before| % STRIPE == 0 && |s| == STRIPE
    ensures var v := Absorb(Stripe, STRIPE, Init(seed), before);
            Absorb(Stripe, STRIPE, Init(seed), before + s + after) == Absorb(Stripe, STRIPE, Stripe(v, s), after)
  {
    hide Stripe, Init;
    Assoc(before, s, after);
    AfterStripes(before, s + after, seed);
    assert (s + after)[..STRIPE] == s && (s + after)[STRIPE..] == after;
  }

  // ---------------------------------------------------------------- and behind them

  /** The bytes behind the stripes, one of them changed. */
  lemma {:induction false} TailTells(h: bv64, s: seq<byte>, k: nat, b: byte)
    requires k < |s| && s[k] != b
    ensures Tail(h, s) != Tail(h, s[k := b])
    decreases |s|
  {
    hide Word8, Word4, Byte1, ReadLE32, ReadLE64;
    var t := s[k := b];
    if |s| >= 8 {
      EightBytes(h, s, k, b);
      if k >= 8 { TailTells(Word8(h, ReadLE64(s, 0)), s[8..], k - 8, b); }
    } else if |s| >= 4 {
      FourBytes(h, s, k, b);
      if k >= 4 { TailTells(Word4(h, ReadLE32(s, 0)), s[4..], k - 4, b); }
    } else if k == 0 {
      assert s[1..] == t[1..];
      ByteTells(h, h, s[0], b);
      TailKeeps(Byte1(h, s[0]), Byte1(h, b), s[1..]);
    } else {
      assert t[1..] == s[1..][k - 1 := b];
      TailTells(Byte1(h, s[0]), s[1..], k - 1, b);
    }
  }

  lemma EightBytes(h: bv64, s: seq<byte>, k: nat, b: byte)
    requires k < |s| && s[k] != b && |s| >= 8
    ensures var t := s[k := b];
            if k < 8 then Tail(h, s) != Tail(h, t)
            else Tail(h, t) == Tail(Word8(h, ReadLE64(s, 0)), s[8..][k - 8 := b])
  {
    hide Word8, ReadLE64;
    var t := s[k := b];
    SameLanes(s, t, 0);
    var x, y := ReadLE64(s, 0), ReadLE64(t, 0);
    if k < 8 {
      assert s[0..8][k] != t[0..8][k] && s[8..] == t[8..];
      EightTells(h, h, x, y);
      TailKeeps(Word8(h, x), Word8(h, y), s[8..]);
    } else {
      assert t[0..8] == s[0..8] && t[8..] == s[8..][k - 8 := b];
    }
  }

  lemma FourBytes(h: bv64, s: seq<byte>, k: nat, b: byte)
    requires k < |s| && s[k] != b && 4 <= |s| < 8
    ensures var t := s[k := b];
            if k < 4 then Tail(h, s) != Tail(h, t)
            else Tail(h, t) == Tail(Word4(h, ReadLE32(s, 0)), s[4..][k - 4 := b])
  {
    hide Word4, ReadLE32;
    var t := s[k := b];
    SameWords(s, t, 0);
    var x, y := ReadLE32(s, 0), ReadLE32(t, 0);
    if k < 4 {
      assert s[0..4][k] != t[0..4][k] && s[4..] == t[4..];
      FourTells(h, h, x, y);
      TailKeeps(Word4(h, x), Word4(h, y), s[4..]);
    } else {
      assert t[0..4] == s[0..4] && t[4..] == s[4..][k - 4 := b];
    }
  }

  /** If a byte behind the last whole stripe changes, so does the hash. */
  lemma RestTells(data: seq<byte>, k: nat, b: byte, seed: bv64)
    requires |data| / STRIPE * STRIPE <= k < |data| && data[k] != b
    ensures Hash(data, seed) != Hash(data[k := b], seed)
  {
    hide Stripe, Init, Start, Tail, Avalanche;
    var p, other := |data| / STRIPE * STRIPE, data[k := b];
    var rest, change := data[p..], other[p..];
    assert data == data[..p] + rest && other == data[..p] + change && change == rest[k - p := b];
    AfterStripes(data[..p], rest, seed);
    AfterStripes(data[..p], change, seed);
    var h := Start(seed, |data|, Absorb(Stripe, STRIPE, Init(seed), data[..p]));
    TailTells(h, rest, k - p, b);
    if Avalanche(Tail(h, rest)) == Avalanche(Tail(h, change)) { AvalancheTells(Tail(h, rest), Tail(h, change)); }
  }

  // ---------------------------------------------------------------- a published value

  /** "Nobody inspects the spammish repetition". */
  const WHOLE: seq<byte> := [
    78, 111, 98, 111, 100, 121, 32, 105, 110, 115, 112, 101, 99, 116, 115, 32,
    116, 104, 101, 32, 115, 112, 97, 109, 109, 105, 115, 104, 32, 114, 101, 112
  ]
  const ENDING: seq<byte> := [101, 116, 105, 116, 105, 111, 110]

  lemma Halves1()
    ensures LE32(78, 111, 98, 111) == 0x6f626f4e
    ensures LE32(100, 121, 32, 105) == 0x69207964
    ensures LE32(110, 115, 112, 101) == 0x6570736e
    ensures LE32(99, 116, 115, 32) == 0x20737463
  {
  }

  lemma Halves2()
    ensures LE32(116, 104, 101, 32) == 0x20656874
    ensures LE32(115, 112, 97, 109) == 0x6d617073
    ensures LE32(109, 105, 115, 104) == 0x6873696d
    ensures LE32(32, 114, 101, 112) == 0x70657220
  {
  }

  lemma Words1()
    ensures ReadLE64(WHOLE, 0) == 0x692079646f626f4e
    ensures ReadLE64(WHOLE, 8) == 0x207374636570736e
  {
    hide LE32;
    Halves1();
  }

  lemma Words2()
    ensures ReadLE64(WHOLE, 16) == 0x6d61707320656874
    ensures ReadLE64(WHOLE, 24) == 0x706572206873696d
  {
    hide LE32;
    Halves2();
  }

  lemma Rounds()
    ensures Round(0x60ea27eeadc0b5d6, 0x692079646f626f4e) == 0x37245127a4067e4b
    ensures Round(0xc2b2ae3d27d4eb4f, 0x207374636570736e) == 0x1b302b0a818f92cf
    ensures Round(0x0000000000000000, 0x6d61707320656874) == 0xcd62d843d0580fca
    ensures Round(0x61c8864e7a143579, 0x706572206873696d) == 0x1c16e43ef2142a4a
  {
  }

  function Start1(): Lanes {
    Lanes(0x60ea27eeadc0b5d6, 0xc2b2ae3d27d4eb4f,
          0x0000000000000000, 0x61c8864e7a143579)
  }

  function Folded(): Lanes {
    Lanes(0x37245127a4067e4b, 0x1b302b0a818f92cf,
          0xcd62d843d0580fca, 0x1c16e43ef2142a4a)
  }

  lemma Folds()
    ensures Init(0) == Start1() && Stripe(Start1(), WHOLE) == Folded()
  {
    hide Round, ReadLE64;
    Words1();
    Words2();
    Rounds();
  }

  lemma Sums()
    ensures var v := Folded();
            Add(Add(Add(Rotl(v.v1, 1), Rotl(v.v2, 7)), Rotl(v.v3, 12)), Rotl(v.v4, 18)) == 0xc4de2ce639fb8154
  {
  }

  lemma Merges()
    ensures MergeLane(0xc4de2ce639fb8154, 0x37245127a4067e4b) == 0x30d40ddd00aea144
    ensures MergeLane(0x30d40ddd00aea144, 0x1b302b0a818f92cf) == 0xe5a1f095bf498698
  {
  }

  lemma MergesMore()
    ensures MergeLane(0xe5a1f095bf498698, 0xcd62d843d0580fca) == 0xf9cee721e748096d
    ensures MergeLane(0xf9cee721e748096d, 0x1c16e43ef2142a4a) == 0x84f22c421a11a8b5
  {
  }

  lemma Length()
    ensures Low64(39) == 39
  {
    assert 39 % 0x1_0000_0000_0000_0000 == 39;
  }

  lemma WithLength()
    ensures Add(0x84f22c421a11a8b5, Low64(39)) == 0x84f22c421a11a8dc
  {
    hide Low64;
    Length();
  }

  lemma Starts()
    ensures Start(0, 39, Folded()) == 0x84f22c421a11a8dc
  {
    hide Add, Rotl, MergeLane, Low64;
    Sums();
    Merges();
    MergesMore();
    WithLength();
  }

  lemma EndSteps()
    ensures ReadLE32(ENDING, 0) == 0x0000000074697465
    ensures Word4(0x84f22c421a11a8dc, 0x0000000074697465) == 0x9fca0f5d0aaa110f
  {
  }

  lemma ByteSteps()
    ensures Byte1(0x9fca0f5d0aaa110f, 105) == 0x769671546f21ba14
    ensures Byte1(0x769671546f21ba14, 111) == 0xeae9b643c5f94e52
    ensures Byte1(0xeae9b643c5f94e52, 110) == 0x1d0a47483b37cc24
  {
  }

  lemma LastStep()
    ensures Avalanche(0x1d0a47483b37cc24) == 0xfbcea83c8a378bf1
  {
  }

  lemma TailByte(h: bv64, s: seq<byte>)
    requires |s| < 4
    ensures Tail(h, s) == if s == [] then h else Tail(Byte1(h, s[0]), s[1..])
  {
    hide Word4, Byte1, ReadLE32, Word8, ReadLE64;
  }

  lemma TailWord(h: bv64, s: seq<byte>)
    requires 4 <= |s| < 8
    ensures Tail(h, s) == Tail(Word4(h, ReadLE32(s, 0)), s[4..])
  {
    hide Word4, Byte1, ReadLE32, Word8, ReadLE64;
  }

  /** Four bytes and three more. */
  lemma Seven(h: bv64, s: seq<byte>)
    requires |s| == 7
    ensures Tail(h, s) == Byte1(Byte1(Byte1(Word4(h, ReadLE32(s, 0)), s[4]), s[5]), s[6])
  {
    hide Tail, Word4, Byte1, ReadLE32;
    var k := Word4(h, ReadLE32(s, 0));
    var t := s[4..];
    assert t[1..] == [s[5], s[6]] && t[1..][1..] == [s[6]] && t[1..][1..][1..] == [];
    TailWord(h, s);
    TailByte(k, t);
    TailByte(Byte1(k, s[4]), t[1..]);
    TailByte(Byte1(Byte1(k, s[4]), s[5]), t[1..][1..]);
    TailByte(Byte1(Byte1(Byte1(k, s[4]), s[5]), s[6]), t[1..][1..][1..]);
  }

  /** The hash of these 39 bytes, as it is known for XXH64. */
  lemma Published()
    ensures Hash(WHOLE + ENDING, 0) == 0xfbcea83c8a378bf1
  {
    hide Stripe, Init, Start, Tail, Avalanche, Word4, Byte1, ReadLE32;
    var data := WHOLE + ENDING;
    assert data[..32] == WHOLE && data[32..] == ENDING;
    assert Rest(STRIPE, data) == Rest(STRIPE, ENDING) == ENDING;
    assert Absorb(Stripe, STRIPE, Init(0), data) == Stripe(Init(0), WHOLE);
    Folds();
    Starts();
    Seven(0x84f22c421a11a8dc, ENDING);
    EndSteps();
    ByteSteps();
    LastStep();
  }
}
