/** XXH64: the one-shot function and the streaming state, on a little-endian machine. */
module XxHash64 {
  import opened Bytes
  import opened XxStripes

  const PRIME1: bv64 := 11400714785074694791
  const PRIME2: bv64 := 14029467366897019727
  const PRIME3: bv64 := 1609587929392839161
  const PRIME4: bv64 := 9650029242287828579
  const PRIME5: bv64 := 2870177450012600261
  const STRIPE := 32

  function Rotl(x: bv64, r: bv64): bv64
    requires 0 < r < 64
  {
    (x << r) | (x >> (64 - r))
  }

  // The steps of the computation, each of which can be undone; Times1 to Times5 multiply by primes.
  function Add(x: bv64, y: bv64): bv64 { x + y }
  function Xor(x: bv64, y: bv64): bv64 { x ^ y }
  function Times1(h: bv64): bv64 { h * 11400714785074694791 }
  function Times2(h: bv64): bv64 { h * 14029467366897019727 }
  function Times3(h: bv64): bv64 { h * 1609587929392839161 }
  function Times5(h: bv64): bv64 { h * 2870177450012600261 }
  function Mix33(h: bv64): bv64 { h ^ (h >> 33) }
  function Mix29(h: bv64): bv64 { h ^ (h >> 29) }
  function Mix32(h: bv64): bv64 { h ^ (h >> 32) }

  function Bits(b: byte): bv64 { (b as bv8) as bv64 }

  function Four(a: bv64, b: bv64, c: bv64, d: bv64): bv64 { a | (b << 8) | (c << 16) | (d << 24) }

  function LE32(b0: byte, b1: byte, b2: byte, b3: byte): bv64 { Four(Bits(b0), Bits(b1), Bits(b2), Bits(b3)) }

  function ReadLE32(s: seq<byte>, i: nat): bv64
    requires i + 4 <= |s|
  {
    LE32(s[i], s[i + 1], s[i + 2], s[i + 3])
  }

  function Join(lo: bv64, hi: bv64): bv64 { lo | (hi << 32) }

  function ReadLE64(s: seq<byte>, i: nat): bv64
    requires i + 8 <= |s|
  {
    Join(ReadLE32(s, i), ReadLE32(s, i + 4))
  }

  function Low64(n: nat): bv64 { (n % 0x1_0000_0000_0000_0000) as bv64 }

  function Round(acc: bv64, lane: bv64): bv64 { Times1(Rotl(Add(acc, Times2(lane)), 31)) }

  datatype Lanes = Lanes(v1: bv64, v2: bv64, v3: bv64, v4: bv64)

  function Init(seed: bv64): Lanes { Lanes(seed + PRIME1 + PRIME2, seed + PRIME2, seed + 0, seed - PRIME1) }

  /** One 32-byte stripe, a lane each. */
  function Stripe(v: Lanes, s: seq<byte>): Lanes {
    if |s| < STRIPE then v
    else Lanes(Round(v.v1, ReadLE64(s, 0)), Round(v.v2, ReadLE64(s, 8)), Round(v.v3, ReadLE64(s, 16)),
               Round(v.v4, ReadLE64(s, 24)))
  }

  /** One lane folded into the hash after the stripes. */
  function MergeLane(h: bv64, v: bv64): bv64 { Add(Times1(Xor(h, Times1(Rotl(Times2(v), 31)))), PRIME4) }

  function Merge(v: Lanes): bv64 {
    var h := Add(Add(Add(Rotl(v.v1, 1), Rotl(v.v2, 7)), Rotl(v.v3, 12)), Rotl(v.v4, 18));
    MergeLane(MergeLane(MergeLane(MergeLane(h, v.v1), v.v2), v.v3), v.v4)
  }

  function Word8(h: bv64, k: bv64): bv64 { Add(Times1(Rotl(Xor(h, Times1(Rotl(Times2(k), 31))), 27)), PRIME4) }

  function Word4(h: bv64, lane: bv64): bv64 { Add(Times2(Rotl(Xor(h, Times1(lane)), 23)), PRIME3) }

  function Byte1(h: bv64, b: byte): bv64 { Times1(Rotl(Xor(h, Times5(Bits(b))), 11)) }

  /** The bytes after the last stripe: eight at a time, then four once, then one at a time. */
  function Tail(h: bv64, s: seq<byte>): bv64
    decreases |s|
  {
    if |s| >= 8 then Tail(Word8(h, ReadLE64(s, 0)), s[8..])
    else if |s| >= 4 then Tail(Word4(h, ReadLE32(s, 0)), s[4..])
    else if |s| > 0 then Tail(Byte1(h, s[0]), s[1..])
    else h
  }

  function Avalanche(h: bv64): bv64 { Mix32(Times3(Mix29(Times2(Mix33(h))))) }

  /** The merged lanes, or the short-input start, plus the length. */
  function Start(seed: bv64, length: nat, v: Lanes): bv64 {
    Add(if length >= STRIPE then Merge(v) else seed + PRIME5, Low64(length))
  }

  /** The end of the computation, from the folded lanes and what was left over. */
  function Finish(seed: bv64, length: nat, v: Lanes, rest: seq<byte>): bv64 {
    Avalanche(Tail(Start(seed, length, v), rest))
  }

  /** The hash of `data`. */
  function Hash(data: seq<byte>, seed: bv64): bv64 {
    Finish(seed, |data|, Absorb(Stripe, STRIPE, Init(seed), data), Rest(STRIPE, data))
  }

  /** The tail loops. */
  method TailLoop(h0: bv64, s: seq<byte>, from: nat) returns (h: bv64)
    requires from <= |s|
    ensures h == Tail(h0, s[from..])
  {
    hide Word8, Word4, Byte1, ReadLE32, ReadLE64;
    h := h0;
    var p := from;
    while p + 8 <= |s|
      invariant from <= p <= |s| && Tail(h, s[p..]) == Tail(h0, s[from..])
    {
      assert s[p..][8..] == s[p + 8..];
      SameWords(s, p);
      h := Word8(h, ReadLE64(s, p));
      p := p + 8;
    }
    if p + 4 <= |s| {
      assert s[p..][4..] == s[p + 4..];
      SameWords(s, p);
      h := Word4(h, ReadLE32(s, p));
      p := p + 4;
    }
    while p < |s|
      invariant |s| - 4 < p <= |s| && Tail(h, s[p..]) == Tail(h0, s[from..])
    {
      assert s[p..][1..] == s[p + 1..];
      h := Byte1(h, s[p]);
      p := p + 1;
    }
  }

  lemma SameWords(s: seq<byte>, p: nat)
    requires p + 4 <= |s|
    ensures ReadLE32(s[p..], 0) == ReadLE32(s, p)
    ensures p + 8 <= |s| ==> ReadLE64(s[p..], 0) == ReadLE64(s, p)
  {
    hide ReadLE32, Join;
    SameWord(s, p, 0);
    if p + 8 <= |s| { SameWord(s, p, 4); }
  }

  lemma SameWord(s: seq<byte>, p: nat, i: nat)
    requires p + i + 4 <= |s|
    ensures ReadLE32(s[p..], i) == ReadLE32(s, p + i)
  {
    hide LE32;
  }

  /** One stripe read in place. */
  function StripeAt(v: Lanes, s: seq<byte>, p: nat): Lanes
    requires p + STRIPE <= |s|
  {
    Lanes(Round(v.v1, ReadLE64(s, p)), Round(v.v2, ReadLE64(s, p + 8)), Round(v.v3, ReadLE64(s, p + 16)),
          Round(v.v4, ReadLE64(s, p + 24)))
  }

  lemma SameStripe(v: Lanes, s: seq<byte>, p: nat)
    requires p + STRIPE <= |s|
    ensures StripeAt(v, s, p) == Stripe(v, s[p..p + STRIPE])
  {
    hide Round, ReadLE64;
    SameLane(s, p, 0);
    SameLane(s, p, 8);
    SameLane(s, p, 16);
    SameLane(s, p, 24);
  }

  lemma SameLane(s: seq<byte>, p: nat, i: nat)
    requires p + STRIPE <= |s| && i + 8 <= STRIPE
    ensures ReadLE64(s[p..p + STRIPE], i) == ReadLE64(s, p + i)
  {
    hide ReadLE32, Join;
    SameHalf(s, p, i);
    SameHalf(s, p, i + 4);
  }

  lemma SameHalf(s: seq<byte>, p: nat, i: nat)
    requires p + STRIPE <= |s| && i + 4 <= STRIPE
    ensures ReadLE32(s[p..p + STRIPE], i) == ReadLE32(s, p + i)
  {
    hide LE32;
  }

  /** The stripe loop, from `from` on. */
  method StripeLoop(v0: Lanes, s: seq<byte>, from: nat) returns (v: Lanes, p: nat)
    requires from <= |s|
    ensures from <= p <= |s| && v == Absorb(Stripe, STRIPE, v0, s[from..]) && s[p..] == Rest(STRIPE, s[from..])
  {
    hide Stripe, StripeAt;
    v, p := v0, from;
    while p + STRIPE <= |s|
      invariant from <= p <= |s|
      invariant Absorb(Stripe, STRIPE, v, s[p..]) == Absorb(Stripe, STRIPE, v0, s[from..])
      invariant Rest(STRIPE, s[p..]) == Rest(STRIPE, s[from..])
    {
      assert s[p..][..STRIPE] == s[p..p + STRIPE] && s[p..][STRIPE..] == s[p + STRIPE..];
      SameStripe(v, s, p);
      v := StripeAt(v, s, p);
      p := p + STRIPE;
    }
  }

  /** From the lanes to the hash: merge or short start, length, tail bytes, avalanche. */
  method Finalize(seed: bv64, length: nat, v: Lanes, s: seq<byte>, from: nat) returns (h: bv64)
    requires from <= |s|
    ensures h == Finish(seed, length, v, s[from..])
  {
    hide Start, Tail, Avalanche;
    h := Start(seed, length, v);
    h := TailLoop(h, s, from);
    h := Avalanche(h);
  }

  /** XXH64. */
  method XXH64(input: seq<byte>, seed: bv64) returns (h: bv64)
    ensures h == Hash(input, seed)
  {
    hide Stripe, Init, Finish;
    assert input[0..] == input;
    var v, p := Init(seed), 0;
    if |input| >= STRIPE { v, p := StripeLoop(v, input, 0); }
    h := Finalize(seed, |input|, v, input, p);
  }

  /** XXH64_state_t. */
  class State {
    var totalLen: nat
    var seed: bv64
    var v: Lanes
    const mem: array<byte>
    var memsize: nat

    /** The state stands for `data`. */
    ghost predicate Saw(data: seq<byte>)
      reads this, mem
    {
      && mem.Length == STRIPE && memsize < STRIPE && totalLen == |data|
      && HasSeen(Stripe, STRIPE, Init(seed), data, v, mem[..memsize])
    }

    constructor ()
      ensures fresh(mem) && mem.Length == STRIPE
    {
      mem := new byte[STRIPE];
      totalLen, seed, v, memsize := 0, 0, Lanes(0, 0, 0, 0), 0;
    }

    /** XXH64_reset. */
    method Reset(seed: bv64)
      requires mem.Length == STRIPE
      modifies this
      ensures Saw([]) && this.seed == seed
    {
      hide Stripe;
      this.seed := seed;
      v := Init(seed);
      totalLen := 0;
      memsize := 0;
      assert mem[..0] == [];
    }

    /** memcpy of input[from..from + n] to the buffer. */
    method Buffer(at: nat, input: seq<byte>, from: nat, n: nat)
      requires at + n <= mem.Length && from + n <= |input|
      modifies mem
      ensures mem[..at + n] == old(mem[..at]) + input[from..from + n]
    {
      forall i | 0 <= i < n { mem[at + i] := input[from + i]; }
    }

    /** The input completes the stripe that has been buffered. */
    method FinishStripe(input: seq<byte>) returns (p: nat)
      requires mem.Length == STRIPE && 0 < memsize < STRIPE <= memsize + |input|
      modifies this`v, this`memsize, mem
      ensures p == STRIPE - old(memsize) && memsize == 0 && v == Stripe(old(v), old(mem[..memsize]) + input[..p])
    {
      hide Stripe, StripeAt;
      p := STRIPE - memsize;
      Buffer(memsize, input, 0, p);
      assert mem[..STRIPE] == mem[..] == mem[..][0..STRIPE];
      SameStripe(v, mem[..], 0);
      v := StripeAt(v, mem[..], 0);
      memsize := 0;
    }

    /** What does not fill a stripe is buffered. */
    method KeepRest(input: seq<byte>, rest: nat)
      requires mem.Length == STRIPE && rest <= |input| < rest + STRIPE
      modifies this`memsize, mem
      ensures memsize == |input| - rest && mem[..memsize] == input[rest..]
    {
      if rest < |input| { Buffer(0, input, rest, |input| - rest); }
      memsize := |input| - rest;
    }

    /** XXH64_update: afterwards the state stands for the data followed by the input. */
    method Update(input: seq<byte>, ghost data: seq<byte>)
      requires Saw(data)
      modifies this, mem
      ensures Saw(data + input) && seed == old(seed)
    {
      hide Stripe, StripeAt, Init, HasSeen, Absorb, Rest;
      SeeMore(Stripe, STRIPE, Init(seed), data, v, mem[..memsize], input);
      totalLen := totalLen + |input|;
      var p := 0;
      if memsize + |input| < STRIPE {
        Buffer(memsize, input, 0, |input|);
        assert input[0..|input|] == input;
        memsize := memsize + |input|;
        return;
      }
      if memsize > 0 { p := FinishStripe(input); }
      assert input[0..] == input;
      var rest := p;
      v, rest := StripeLoop(v, input, p);
      KeepRest(input, rest);
    }

    /** XXH64_digest: the hash of everything seen so far; the state does not change. */
    method Digest(ghost data: seq<byte>) returns (h: bv64)
      requires Saw(data)
      ensures h == Hash(data, seed)
    {
      hide Stripe, Init, Finish;
      assert mem[..memsize][0..] == mem[..memsize];
      h := Finalize(seed, totalLen, v, mem[..memsize], 0);
    }
  }

  /** Any split of the input gives the one-shot hash, and so does every digest on the way. */
  method HashPieces(pieces: seq<seq<byte>>, seed: bv64) returns (digests: seq<bv64>)
    ensures |digests| == |pieces| + 1
    ensures forall k :: 0 <= k <= |pieces| ==> digests[k] == Hash(Flatten(pieces[..k]), seed)
  {
    hide Hash, HasSeen;
    var s := new State();
    s.Reset(seed);
    ghost var data: seq<byte> := [];
    var h := s.Digest([]);
    digests := [h];
    var i := 0;
    assert pieces[..0] == [];
    while i < |pieces|
      invariant i <= |pieces| && fresh(s) && fresh(s.mem) && s.Saw(Flatten(pieces[..i])) && s.seed == seed
      invariant |digests| == i + 1
      invariant forall k :: 0 <= k <= i ==> digests[k] == Hash(Flatten(pieces[..k]), seed)
    {
      ghost var before := Flatten(pieces[..i]);
      s.Update(pieces[i], before);
      assert pieces[..i + 1][..i] == pieces[..i];
      h := s.Digest(Flatten(pieces[..i + 1]));
      digests := digests + [h];
      i := i + 1;
    }
  }
}
