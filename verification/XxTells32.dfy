/** XXH32 tells inputs apart: every step of it can be undone. And the hash of one input, as it was published. */
module XxTells32 {
  import opened Bytes
  import opened XxStripes
  import opened XxHash32

  // ---------------------------------------------------------------- every step can be undone

  lemma RotlTells(x: bv32, y: bv32)
    ensures Rotl(x, 1) == Rotl(y, 1) ==> x == y
    ensures Rotl(x, 7) == Rotl(y, 7) ==> x == y
    ensures Rotl(x, 11) == Rotl(y, 11) ==> x == y
    ensures Rotl(x, 12) == Rotl(y, 12) ==> x == y
    ensures Rotl(x, 13) == Rotl(y, 13) ==> x == y
    ensures Rotl(x, 17) == Rotl(y, 17) ==> x == y
    ensures Rotl(x, 18) == Rotl(y, 18) ==> x == y
  {
  }

  function Over1(a: bv32): bv32 { a * 244002641 }
  function Over2(a: bv32): bv32 { a * 3066638151 }
  function Over3(a: bv32): bv32 { a * 2828982549 }
  function Over4(a: bv32): bv32 { a * 2701016015 }
  function Over5(a: bv32): bv32 { a * 2923004241 }

  lemma TimesIs(x: bv32)
    ensures Times1(x) == x * 2654435761 && Times2(x) == x * 2246822519 && Times3(x) == x * 3266489917
    ensures Times4(x) == x * 668265263 && Times5(x) == x * 374761393
  {
  }

  /** The primes have inverses. */
  lemma PrimesUndone(x: bv32)
    ensures Over1(x * 2654435761) == x && Over2(x * 2246822519) == x && Over3(x * 3266489917) == x
    ensures Over4(x * 668265263) == x && Over5(x * 374761393) == x
  {
  }

  lemma TimesUndone(x: bv32)
    ensures Over1(Times1(x)) == x && Over2(Times2(x)) == x && Over3(Times3(x)) == x
    ensures Over4(Times4(x)) == x && Over5(Times5(x)) == x
  {
    hide *;
    TimesIs(x);
    PrimesUndone(x);
  }

  lemma TimesTells(x: bv32, y: bv32)
    ensures Times1(x) == Times1(y) ==> x == y
    ensures Times2(x) == Times2(y) ==> x == y
    ensures Times3(x) == Times3(y) ==> x == y
    ensures Times4(x) == Times4(y) ==> x == y
    ensures Times5(x) == Times5(y) ==> x == y
  {
    hide *;
    TimesUndone(x);
    TimesUndone(y);
  }

  function Undo15(a: bv32): bv32 { a ^ (a >> 15) ^ (a >> 30) }
  function Undo13(a: bv32): bv32 { a ^ (a >> 13) ^ (a >> 26) }
  function Undo16(a: bv32): bv32 { a ^ (a >> 16) }

  lemma MixIs(x: bv32)
    ensures Mix15(x) == x ^ (x >> 15) && Mix13(x) == x ^ (x >> 13) && Mix16(x) == x ^ (x >> 16)
  {
  }

  lemma ShiftsUndone(x: bv32)
    ensures Undo15(x ^ (x >> 15)) == x && Undo13(x ^ (x >> 13)) == x && Undo16(x ^ (x >> 16)) == x
  {
  }

  lemma MixUndone(x: bv32)
    ensures Undo15(Mix15(x)) == x && Undo13(Mix13(x)) == x && Undo16(Mix16(x)) == x
  {
    hide *;
    MixIs(x);
    ShiftsUndone(x);
  }

  lemma MixTells(x: bv32, y: bv32)
    ensures Mix15(x) == Mix15(y) ==> x == y
    ensures Mix13(x) == Mix13(y) ==> x == y
    ensures Mix16(x) == Mix16(y) ==> x == y
  {
    hide *;
    MixUndone(x);
    MixUndone(y);
  }

  function Minus(x: bv32, y: bv32): bv32 { x - y }

  lemma AddUndone(x: bv32, k: bv32)
    ensures Minus(Add(x, k), k) == x && Minus(Add(k, x), k) == x
  {
  }

  lemma AddTells(x: bv32, y: bv32, k: bv32)
    ensures Add(x, k) == Add(y, k) ==> x == y
    ensures Add(k, x) == Add(k, y) ==> x == y
  {
    hide *;
    AddUndone(x, k);
    AddUndone(y, k);
  }

  lemma AvalancheTells(x: bv32, y: bv32)
    requires Avalanche(x) == Avalanche(y)
    ensures x == y
  {
    hide Mix15, Mix13, Mix16, Times2, Times3;
    var a, b := Mix15(x), Mix15(y);
    var c, d := Mix13(Times2(a)), Mix13(Times2(b));
    MixTells(Times3(c), Times3(d));
    TimesTells(c, d);
    MixTells(Times2(a), Times2(b));
    TimesTells(a, b);
    MixTells(x, y);
  }

  // ---------------------------------------------------------------- so one difference stays one

  /** Of two accumulators, and of two lanes, a round tells the one from the other. */
  lemma RoundTells(a: bv32, b: bv32, x: bv32, y: bv32)
    ensures a == b && x != y ==> Round(a, x) != Round(b, y)
    ensures a != b && x == y ==> Round(a, x) != Round(b, y)
  {
    hide Rotl, Add, Times1, Times2;
    var p, q := Add(a, Times2(x)), Add(b, Times2(y));
    TimesTells(Rotl(p, 13), Rotl(q, 13));
    RotlTells(p, q);
    AddTells(Times2(x), Times2(y), a);
    AddTells(a, b, Times2(x));
    TimesTells(x, y);
  }

  lemma WordTells(a: bv32, b: bv32, x: bv32, y: bv32)
    ensures a == b && x != y ==> Word4(a, x) != Word4(b, y)
    ensures a != b && x == y ==> Word4(a, x) != Word4(b, y)
  {
    hide Rotl, Add, Times3, Times4;
    var p, q := Add(a, Times3(x)), Add(b, Times3(y));
    TimesTells(Rotl(p, 17), Rotl(q, 17));
    RotlTells(p, q);
    AddTells(Times3(x), Times3(y), a);
    AddTells(a, b, Times3(x));
    TimesTells(x, y);
  }

  lemma ByteTells(a: bv32, b: bv32, x: byte, y: byte)
    ensures a == b && x != y ==> Byte1(a, x) != Byte1(b, y)
    ensures a != b && x == y ==> Byte1(a, x) != Byte1(b, y)
  {
    hide Bits, Rotl, Add, Times1, Times5;
    BitsTell(x, y);
    var p, q := Add(a, Times5(Bits(x))), Add(b, Times5(Bits(y)));
    TimesTells(Rotl(p, 11), Rotl(q, 11));
    RotlTells(p, q);
    AddTells(Times5(Bits(x)), Times5(Bits(y)), a);
    AddTells(a, b, Times5(Bits(x)));
    TimesTells(Bits(x), Bits(y));
  }

  lemma BitsTell(x: byte, y: byte)
    ensures Bits(x) == Bits(y) ==> x == y
  {
    ByteBits(x);
    ByteBits(y);
  }

  function Part(w: bv32, i: nat): bv32 {
    if i == 0 then w & 255 else if i == 1 then (w >> 8) & 255 else if i == 2 then (w >> 16) & 255 else w >> 24
  }

  predicate Small(a: bv32) { a < 256 }

  lemma FourUndone(a: bv32, b: bv32, c: bv32, d: bv32)
    requires Small(a) && Small(b) && Small(c) && Small(d)
    ensures var w := Four(a, b, c, d); Part(w, 0) == a && Part(w, 1) == b && Part(w, 2) == c && Part(w, 3) == d
  {
  }

  lemma BitsSmall(x: byte)
    ensures Small(Bits(x))
  {
  }

  /** The number read tells the four bytes. */
  lemma LaneTells(s: seq<byte>, t: seq<byte>)
    requires |s| == |t| == 4
    ensures ReadLE32(s, 0) == ReadLE32(t, 0) ==> s == t
  {
    hide Bits, Small, Four, Part;
    forall i | 0 <= i < 4
      ensures Small(Bits(s[i])) && Small(Bits(t[i])) && (Bits(s[i]) == Bits(t[i]) ==> s[i] == t[i])
    {
      BitsTell(s[i], t[i]);
      BitsSmall(s[i]);
      BitsSmall(t[i]);
    }
    FourUndone(Bits(s[0]), Bits(s[1]), Bits(s[2]), Bits(s[3]));
    FourUndone(Bits(t[0]), Bits(t[1]), Bits(t[2]), Bits(t[3]));
  }

  // ---------------------------------------------------------------- in the stripes

  /** The lanes differ in one place. */
  predicate OneLane(v: Lanes, w: Lanes, i: nat) {
    && i < 4 && (v.v1 != w.v1 <==> i == 0) && (v.v2 != w.v2 <==> i == 1) && (v.v3 != w.v3 <==> i == 2)
    && (v.v4 != w.v4 <==> i == 3)
  }

  /** Two stripes differ in the bytes of one lane. */
  predicate OneWord(s: seq<byte>, t: seq<byte>, i: nat) {
    && |s| == |t| == STRIPE && i < 4
    && (s[0..4] != t[0..4] <==> i == 0) && (s[4..8] != t[4..8] <==> i == 1)
    && (s[8..12] != t[8..12] <==> i == 2) && (s[12..16] != t[12..16] <==> i == 3)
  }

  lemma StripeKeeps(v: Lanes, w: Lanes, s: seq<byte>, i: nat)
    requires |s| == STRIPE && OneLane(v, w, i)
    ensures OneLane(Stripe(v, s), Stripe(w, s), i)
  {
    hide Round, ReadLE32;
    RoundTells(v.v1, w.v1, ReadLE32(s, 0), ReadLE32(s, 0));
    RoundTells(v.v2, w.v2, ReadLE32(s, 4), ReadLE32(s, 4));
    RoundTells(v.v3, w.v3, ReadLE32(s, 8), ReadLE32(s, 8));
    RoundTells(v.v4, w.v4, ReadLE32(s, 12), ReadLE32(s, 12));
  }

  lemma StripeTells(v: Lanes, s: seq<byte>, t: seq<byte>, i: nat)
    requires OneWord(s, t, i)
    ensures OneLane(Stripe(v, s), Stripe(v, t), i)
  {
    hide Round, ReadLE32;
    SameLanes(s, t, 0);
    SameLanes(s, t, 4);
    SameLanes(s, t, 8);
    SameLanes(s, t, 12);
    RoundTells(v.v1, v.v1, ReadLE32(s, 0), ReadLE32(t, 0));
    RoundTells(v.v2, v.v2, ReadLE32(s, 4), ReadLE32(t, 4));
    RoundTells(v.v3, v.v3, ReadLE32(s, 8), ReadLE32(t, 8));
    RoundTells(v.v4, v.v4, ReadLE32(s, 12), ReadLE32(t, 12));
  }

  lemma SameLanes(s: seq<byte>, t: seq<byte>, p: nat)
    requires p + 4 <= |s| && p + 4 <= |t|
    ensures ReadLE32(s, p) == ReadLE32(t, p) <==> s[p..p + 4] == t[p..p + 4]
  {
    hide LE32;
    var a, b := s[p..p + 4], t[p..p + 4];
    assert ReadLE32(s, p) == ReadLE32(a, 0) && ReadLE32(t, p) == ReadLE32(b, 0);
    LaneTells(a, b);
  }

  lemma {:induction false} AbsorbKeeps(v: Lanes, w: Lanes, data: seq<byte>, i: nat)
    requires OneLane(v, w, i)
    ensures OneLane(Absorb(Stripe, STRIPE, v, data), Absorb(Stripe, STRIPE, w, data), i)
    decreases |data|
  {
    hide Stripe, OneLane;
    if |data| >= STRIPE {
      StripeKeeps(v, w, data[..STRIPE], i);
      AbsorbKeeps(Stripe(v, data[..STRIPE]), Stripe(w, data[..STRIPE]), data[STRIPE..], i);
    }
  }

  lemma MergeTells(v: Lanes, w: Lanes, i: nat)
    requires OneLane(v, w, i)
    ensures Merge(v) != Merge(w)
  {
    hide Add, Rotl;
    RotlTells(v.v1, w.v1);
    RotlTells(v.v2, w.v2);
    RotlTells(v.v3, w.v3);
    RotlTells(v.v4, w.v4);
    var a, b := Rotl(v.v1, 1), Rotl(w.v1, 1);
    var c, d := Add(a, Rotl(v.v2, 7)), Add(b, Rotl(w.v2, 7));
    var e, f := Add(c, Rotl(v.v3, 12)), Add(d, Rotl(w.v3, 12));
    AddTells(a, b, Rotl(v.v2, 7));
    AddTells(Rotl(v.v2, 7), Rotl(w.v2, 7), a);
    AddTells(c, d, Rotl(v.v3, 12));
    AddTells(Rotl(v.v3, 12), Rotl(w.v3, 12), c);
    AddTells(e, f, Rotl(v.v4, 18));
    AddTells(Rotl(v.v4, 18), Rotl(w.v4, 18), e);
  }

  lemma {:induction false} TailKeeps(h: bv32, k: bv32, s: seq<byte>)
    requires h != k
    ensures Tail(h, s) != Tail(k, s)
    decreases |s|
  {
    hide Word4, Byte1, ReadLE32;
    if |s| >= 4 {
      WordTells(h, k, ReadLE32(s, 0), ReadLE32(s, 0));
      TailKeeps(Word4(h, ReadLE32(s, 0)), Word4(k, ReadLE32(s, 0)), s[4..]);
    } else if |s| > 0 {
      ByteTells(h, k, s[0], s[0]);
      TailKeeps(Byte1(h, s[0]), Byte1(k, s[0]), s[1..]);
    }
  }

  lemma {:induction false} WholeStripes(data: seq<byte>)
    requires |data| % STRIPE == 0
    ensures Rest(STRIPE, data) == []
    decreases |data|
  {
    if data != [] { WholeStripes(data[STRIPE..]); }
  }

  /** After whole stripes. */
  lemma AfterStripes(before: seq<byte>, rest: seq<byte>, seed: bv32)
    requires |before| % STRIPE == 0
    ensures Absorb(Stripe, STRIPE, Init(seed), before + rest)
            == Absorb(Stripe, STRIPE, Absorb(Stripe, STRIPE, Init(seed), before), rest)
    ensures Rest(STRIPE, before + rest) == Rest(STRIPE, rest)
  {
    hide Stripe, Init;
    AbsorbMore(Stripe, STRIPE, Init(seed), before, rest);
    WholeStripes(before);
    assert [] + rest == rest;
  }

  /** Two inputs that differ in one lane of one stripe have different hashes. */
  lemma StripesTell(before: seq<byte>, s: seq<byte>, t: seq<byte>, after: seq<byte>, i: nat, seed: bv32)
    requires |before| % STRIPE == 0 && OneWord(s, t, i)
    ensures Hash(before + s + after, seed) != Hash(before + t + after, seed)
  {
    hide Stripe, Init, Merge, Avalanche, Tail, OneWord, OneLane, Add, Low32;
    OneWordSize(s, t, i);
    OneStripe(before, s, after, seed);
    OneStripe(before, t, after, seed);
    var v := Absorb(Stripe, STRIPE, Init(seed), before);
    StripeTells(v, s, t, i);
    AbsorbKeeps(Stripe(v, s), Stripe(v, t), after, i);
    var a, b := Absorb(Stripe, STRIPE, Stripe(v, s), after), Absorb(Stripe, STRIPE, Stripe(v, t), after);
    MergeTells(a, b, i);
    var n := |before + s + after|;
    AddTells(Merge(a), Merge(b), Low32(n));
    FinishTells(Add(Merge(a), Low32(n)), Add(Merge(b), Low32(n)), Rest(STRIPE, after));
  }

  lemma OneWordSize(s: seq<byte>, t: seq<byte>, i: nat)
    requires OneWord(s, t, i)
    ensures |s| == |t| == STRIPE && i < 4
  {
  }

  lemma OneStripe(before: seq<byte>, s: seq<byte>, after: seq<byte>, seed: bv32)
    requires |before| % STRIPE == 0 && |s| == STRIPE
    ensures var v := Absorb(Stripe, STRIPE, Init(seed), before);
            Absorb(Stripe, STRIPE, Init(seed), before + s + after) == Absorb(Stripe, STRIPE, Stripe(v, s), after)
    ensures Rest(STRIPE, before + s + after) == Rest(STRIPE, after)
  {
    hide Stripe, Init;
    Assoc(before, s, after);
    AfterStripes(before, s + after, seed);
    assert (s + after)[..STRIPE] == s && (s + after)[STRIPE..] == after;
  }

  lemma FinishTells(h: bv32, k: bv32, rest: seq<byte>)
    requires h != k
    ensures Avalanche(Tail(h, rest)) != Avalanche(Tail(k, rest))
  {
    hide Tail, Avalanche;
    TailKeeps(h, k, rest);
    if Avalanche(Tail(h, rest)) == Avalanche(Tail(k, rest)) { AvalancheTells(Tail(h, rest), Tail(k, rest)); }
  }

  // ---------------------------------------------------------------- and behind them

  /** The bytes behind the stripes, one of them changed. */
  lemma {:induction false} TailTells(h: bv32, s: seq<byte>, k: nat, b: byte)
    requires k < |s| && s[k] != b
    ensures Tail(h, s) != Tail(h, s[k := b])
    decreases |s|
  {
    hide Word4, Byte1, ReadLE32;
    var t := s[k := b];
    if |s| >= 4 {
      SameLanes(s, t, 0);
      var x, y := ReadLE32(s, 0), ReadLE32(t, 0);
      if k < 4 {
        assert s[0..4][k] != t[0..4][k] && s[4..] == t[4..];
        WordTells(h, h, x, y);
        TailKeeps(Word4(h, x), Word4(h, y), s[4..]);
      } else {
        assert t[0..4] == s[0..4] && t[4..] == s[4..][k - 4 := b];
        TailTells(Word4(h, x), s[4..], k - 4, b);
      }
    } else if k == 0 {
      assert s[1..] == t[1..];
      ByteTells(h, h, s[0], b);
      TailKeeps(Byte1(h, s[0]), Byte1(h, b), s[1..]);
    } else {
      assert t[1..] == s[1..][k - 1 := b];
      TailTells(Byte1(h, s[0]), s[1..], k - 1, b);
    }
  }

  /** Whatever the input, if one byte of it changes, so does the hash. */
  lemma OneByteTells(data: seq<byte>, k: nat, b: byte, seed: bv32)
    requires k < |data| && data[k] != b
    ensures Hash(data, seed) != Hash(data[k := b], seed)
  {
    hide Hash, OneWord;
    var p := k / STRIPE * STRIPE;
    var other := data[k := b];
    if p + STRIPE <= |data| {
      var s, t := data[p..p + STRIPE], other[p..p + STRIPE];
      assert data == data[..p] + s + data[p + STRIPE..] && other == data[..p] + t + data[p + STRIPE..];
      OneChange(s, k - p, b);
      StripesTell(data[..p], s, t, data[p + STRIPE..], (k - p) / 4, seed);
    } else {
      RestTells(data, p, k, b, seed);
    }
  }

  lemma OneChange(s: seq<byte>, k: nat, b: byte)
    requires k < |s| == STRIPE && s[k] != b
    ensures OneWord(s, s[k := b], k / 4)
  {
    var t := s[k := b];
    assert s[0..4][k % 4] != t[0..4][k % 4] || k / 4 != 0;
    assert s[4..8][k % 4] != t[4..8][k % 4] || k / 4 != 1;
    assert s[8..12][k % 4] != t[8..12][k % 4] || k / 4 != 2;
    assert s[12..16][k % 4] != t[12..16][k % 4] || k / 4 != 3;
  }

  lemma RestTells(data: seq<byte>, p: nat, k: nat, b: byte, seed: bv32)
    requires p % STRIPE == 0 && p <= k < |data| < p + STRIPE && data[k] != b
    ensures Hash(data, seed) != Hash(data[k := b], seed)
  {
    hide Stripe, Init, Start, Tail, Avalanche;
    var other := data[k := b];
    var rest, change := data[p..], other[p..];
    assert data == data[..p] + rest && other == data[..p] + change && change == rest[k - p := b];
    AfterStripes(data[..p], rest, seed);
    AfterStripes(data[..p], change, seed);
    var h := Start(seed, |data|, Absorb(Stripe, STRIPE, Init(seed), data[..p]));
    TailTells(h, rest, k - p, b);
    if Avalanche(Tail(h, rest)) == Avalanche(Tail(h, change)) { AvalancheTells(Tail(h, rest), Tail(h, change)); }
  }

  /** Two values of one more byte give two hashes. */
  lemma LastByteTells(data: seq<byte>, seed: bv32)
    ensures Hash(data + [0], seed) != Hash(data + [1], seed)
  {
    hide Hash;
    assert (data + [0])[|data| := 1] == data + [1];
    OneByteTells(data + [0], |data|, 1, seed);
  }

  // ---------------------------------------------------------------- a published value

  /** "Nobody inspects the spammish repetition". */
  const STRIPE1: seq<byte> := [78, 111, 98, 111, 100, 121, 32, 105, 110, 115, 112, 101, 99, 116, 115, 32]
  const STRIPE2: seq<byte> := [116, 104, 101, 32, 115, 112, 97, 109, 109, 105, 115, 104, 32, 114, 101, 112]
  const ENDING: seq<byte> := [101, 116, 105, 116, 105, 111, 110]

  lemma Numbers1()
    ensures LE32(78, 111, 98, 111) == 0x6f626f4e
    ensures LE32(100, 121, 32, 105) == 0x69207964
    ensures LE32(110, 115, 112, 101) == 0x6570736e
    ensures LE32(99, 116, 115, 32) == 0x20737463
  {
  }

  lemma Words1()
    ensures ReadLE32(STRIPE1, 0) == 0x6f626f4e && ReadLE32(STRIPE1, 4) == 0x69207964
    ensures ReadLE32(STRIPE1, 8) == 0x6570736e && ReadLE32(STRIPE1, 12) == 0x20737463
  {
    hide LE32;
    Numbers1();
  }

  lemma Rounds1()
    ensures Round(0x24234428, 0x6f626f4e) == 0x046a700a
    ensures Round(0x85ebca77, 0x69207964) == 0xbfadf8e3
    ensures Round(0x00000000, 0x6570736e) == 0x5b32b4aa
    ensures Round(0x61c8864f, 0x20737463) == 0x137e5555
  {
  }

  lemma Lanes1()
    ensures Stripe(Lanes(0x24234428, 0x85ebca77, 0x00000000, 0x61c8864f), STRIPE1)
            == Lanes(0x046a700a, 0xbfadf8e3, 0x5b32b4aa, 0x137e5555)
  {
    hide Round, ReadLE32;
    Words1();
    Rounds1();
  }

  lemma Numbers2()
    ensures LE32(116, 104, 101, 32) == 0x20656874
    ensures LE32(115, 112, 97, 109) == 0x6d617073
    ensures LE32(109, 105, 115, 104) == 0x6873696d
    ensures LE32(32, 114, 101, 112) == 0x70657220
  {
  }

  lemma Words2()
    ensures ReadLE32(STRIPE2, 0) == 0x20656874 && ReadLE32(STRIPE2, 4) == 0x6d617073
    ensures ReadLE32(STRIPE2, 8) == 0x6873696d && ReadLE32(STRIPE2, 12) == 0x70657220
  {
    hide LE32;
    Numbers2();
  }

  lemma Rounds2()
    ensures Round(0x046a700a, 0x20656874) == 0x719a836e
    ensures Round(0xbfadf8e3, 0x6d617073) == 0x514c1de8
    ensures Round(0x5b32b4aa, 0x6873696d) == 0x97fa4ba2
    ensures Round(0x137e5555, 0x70657220) == 0x242a97a2
  {
  }

  lemma Lanes2()
    ensures Stripe(Lanes(0x046a700a, 0xbfadf8e3, 0x5b32b4aa, 0x137e5555), STRIPE2)
            == Lanes(0x719a836e, 0x514c1de8, 0x97fa4ba2, 0x242a97a2)
  {
    hide Round, ReadLE32;
    Words2();
    Rounds2();
  }

  lemma Merges()
    ensures Init(0) == Lanes(0x24234428, 0x85ebca77, 0x00000000, 0x61c8864f)
    ensures Merge(Lanes(0x719a836e, 0x514c1de8, 0x97fa4ba2, 0x242a97a2)) == 0x8c86b52d
    ensures Add(0x8c86b52d, 39) == 0x8c86b554
  {
  }

  lemma Length()
    ensures Low32(39) == 39
  {
    assert 39 % 0x1_0000_0000 == 39;
  }

  lemma Begins()
    ensures Init(0) == Lanes(0x24234428, 0x85ebca77, 0x00000000, 0x61c8864f)
    ensures Start(0, 39, Lanes(0x719a836e, 0x514c1de8, 0x97fa4ba2, 0x242a97a2)) == 0x8c86b554
  {
    hide Init, Merge, Add, Low32;
    Merges();
    Length();
  }

  lemma EndSteps()
    ensures ReadLE32(ENDING, 0) == 0x74697465 && Word4(0x8c86b554, 0x74697465) == 0x09b51544
    ensures Byte1(0x09b51544, 105) == 0xcdefd3c9
    ensures Byte1(0xcdefd3c9, 111) == 0x3852087b
    ensures Byte1(0x3852087b, 110) == 0xb3a7011b
    ensures Avalanche(0xb3a7011b) == 0xe2293b2f
  {
  }

  lemma TailByte(h: bv32, s: seq<byte>)
    requires |s| < 4
    ensures Tail(h, s) == if s == [] then h else Tail(Byte1(h, s[0]), s[1..])
  {
    hide Word4, Byte1, ReadLE32;
  }

  lemma TailWord(h: bv32, s: seq<byte>)
    requires 4 <= |s| < 8
    ensures Tail(h, s) == Tail(Word4(h, ReadLE32(s, 0)), s[4..])
  {
    hide Word4, Byte1, ReadLE32;
  }

  /** Four bytes and three more. */
  lemma Seven(h: bv32, s: seq<byte>)
    requires |s| == 7
    ensures Tail(h, s) == Byte1(Byte1(Byte1(Word4(h, ReadLE32(s, 0)), s[4]), s[5]), s[6])
  {
    hide Tail, Word4, Byte1, ReadLE32;
    var k := Word4(h, ReadLE32(s, 0));
    var t := s[4..];
    assert t[1..] == [s[5], s[6]] && t[1..][1..] == [s[6]] && t[1..][1..][1..] == [];
    TailWord(h, s);
    TailByte(k, t);
    TailByte(Byte1(k, s[4]), t[1..]);
    TailByte(Byte1(Byte1(k, s[4]), s[5]), t[1..][1..]);
    TailByte(Byte1(Byte1(Byte1(k, s[4]), s[5]), s[6]), t[1..][1..][1..]);
  }

  /** The hash of these 39 bytes, as it is known for XXH32. */
  lemma Published()
    ensures Hash(STRIPE1 + STRIPE2 + ENDING, 0) == 0xe2293b2f
  {
    hide Stripe, Init, Start, Tail, Avalanche, Word4, Byte1, ReadLE32;
    var data, rest := STRIPE1 + STRIPE2 + ENDING, STRIPE2 + ENDING;
    assert data[..16] == STRIPE1 && data[16..] == rest && rest[..16] == STRIPE2 && rest[16..] == ENDING;
    assert Rest(STRIPE, data) == Rest(STRIPE, rest) == ENDING;
    var v := Stripe(Init(0), STRIPE1);
    assert Absorb(Stripe, STRIPE, Init(0), data) == Absorb(Stripe, STRIPE, v, rest) == Stripe(v, STRIPE2);
    Begins();
    Lanes1();
    Lanes2();
    Seven(0x8c86b554, ENDING);
    EndSteps();
  }
}
