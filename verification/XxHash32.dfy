/** XXH32: the one-shot function and the streaming state, on a little-endian machine. */
module XxHash32 {
  import opened Bytes
  import opened XxStripes

  const PRIME1: bv32 := 2654435761
  const PRIME2: bv32 := 2246822519
  const PRIME5: bv32 := 374761393
  const STRIPE := 16

  function Rotl(x: bv32, r: bv32): bv32
    requires 0 < r < 32
  {
    (x << r) | (x >> (32 - r))
  }

  // The steps of the computation, each of which can be undone; Times1 to Times5 multiply by the primes.
  function Add(x: bv32, y: bv32): bv32 { x + y }
  function Times1(h: bv32): bv32 { h * 2654435761 }
  function Times2(h: bv32): bv32 { h * 2246822519 }
  function Times3(h: bv32): bv32 { h * 3266489917 }
  function Times4(h: bv32): bv32 { h * 668265263 }
  function Times5(h: bv32): bv32 { h * 374761393 }
  function Mix15(h: bv32): bv32 { h ^ (h >> 15) }
  function Mix13(h: bv32): bv32 { h ^ (h >> 13) }
  function Mix16(h: bv32): bv32 { h ^ (h >> 16) }

  function Bits(b: byte): bv32 { (b as bv8) as bv32 }

  function Four(a: bv32, b: bv32, c: bv32, d: bv32): bv32 { a | (b << 8) | (c << 16) | (d << 24) }

  function LE32(b0: byte, b1: byte, b2: byte, b3: byte): bv32 { Four(Bits(b0), Bits(b1), Bits(b2), Bits(b3)) }

  function ReadLE32(s: seq<byte>, i: nat): bv32
    requires i + 4 <= |s|
  {
    LE32(s[i], s[i + 1], s[i + 2], s[i + 3])
  }

  function Low32(n: nat): bv32 { (n % 0x1_0000_0000) as bv32 }

  function Round(acc: bv32, lane: bv32): bv32 { Times1(Rotl(Add(acc, Times2(lane)), 13)) }

  datatype Lanes = Lanes(v1: bv32, v2: bv32, v3: bv32, v4: bv32)

  function Init(seed: bv32): Lanes { Lanes(seed + PRIME1 + PRIME2, seed + PRIME2, seed + 0, seed - PRIME1) }

  /** One 16-byte stripe, a lane each. */
  function Stripe(v: Lanes, s: seq<byte>): Lanes {
    if |s| < STRIPE then v
    else Lanes(Round(v.v1, ReadLE32(s, 0)), Round(v.v2, ReadLE32(s, 4)), Round(v.v3, ReadLE32(s, 8)),
               Round(v.v4, ReadLE32(s, 12)))
  }

  function Merge(v: Lanes): bv32 { Add(Add(Add(Rotl(v.v1, 1), Rotl(v.v2, 7)), Rotl(v.v3, 12)), Rotl(v.v4, 18)) }

  function Word4(h: bv32, lane: bv32): bv32 { Times4(Rotl(Add(h, Times3(lane)), 17)) }

  function Byte1(h: bv32, b: byte): bv32 { Times1(Rotl(Add(h, Times5(Bits(b))), 11)) }

  /** The bytes after the last stripe: four at a time, then one at a time. */
  function Tail(h: bv32, s: seq<byte>): bv32
    decreases |s|
  {
    if |s| >= 4 then Tail(Word4(h, ReadLE32(s, 0)), s[4..])
    else if |s| > 0 then Tail(Byte1(h, s[0]), s[1..])
    else h
  }

  function Avalanche(h: bv32): bv32 { Mix16(Times3(Mix13(Times2(Mix15(h))))) }

  /** The merged lanes, or the short-input start, plus the length. */
  function Start(seed: bv32, length: nat, v: Lanes): bv32 {
    Add(if length >= STRIPE then Merge(v) else seed + PRIME5, Low32(length))
  }

  /** The end of the computation, from the folded lanes and what was left over. */
  function Finish(seed: bv32, length: nat, v: Lanes, rest: seq<byte>): bv32 {
    Avalanche(Tail(Start(seed, length, v), rest))
  }

  /** The hash of `data`. */
  function Hash(data: seq<byte>, seed: bv32): bv32 {
    Finish(seed, |data|, Absorb(Stripe, STRIPE, Init(seed), data), Rest(STRIPE, data))
  }

  /** The two tail loops. */
  method TailLoop(h0: bv32, s: seq<byte>, from: nat) returns (h: bv32)
    requires from <= |s|
    ensures h == Tail(h0, s[from..])
  {
    hide Word4, Byte1, ReadLE32;
    h := h0;
    var p := from;
    while p + 4 <= |s|
      invariant from <= p <= |s| && Tail(h, s[p..]) == Tail(h0, s[from..])
    {
      assert s[p..][..4] == s[p..p + 4] && s[p..][4..] == s[p + 4..];
      SameWord(s, p);
      h := Word4(h, ReadLE32(s, p));
      p := p + 4;
    }
    while p < |s|
      invariant |s| - 4 < p <= |s| && Tail(h, s[p..]) == Tail(h0, s[from..])
    {
      assert s[p..][1..] == s[p + 1..];
      h := Byte1(h, s[p]);
      p := p + 1;
    }
  }

  lemma SameWord(s: seq<byte>, p: nat)
    requires p + 4 <= |s|
    ensures ReadLE32(s[p..], 0) == ReadLE32(s, p)
  {
    hide LE32;
  }

  /** One stripe read in place. */
  function StripeAt(v: Lanes, s: seq<byte>, p: nat): Lanes
    requires p + STRIPE <= |s|
  {
    Lanes(Round(v.v1, ReadLE32(s, p)), Round(v.v2, ReadLE32(s, p + 4)), Round(v.v3, ReadLE32(s, p + 8)),
          Round(v.v4, ReadLE32(s, p + 12)))
  }

  lemma SameStripe(v: Lanes, s: seq<byte>, p: nat)
    requires p + STRIPE <= |s|
    ensures StripeAt(v, s, p) == Stripe(v, s[p..p + STRIPE])
  {
    hide Round, ReadLE32;
    SameLane(s, p, 0);
    SameLane(s, p, 4);
    SameLane(s, p, 8);
    SameLane(s, p, 12);
  }

  lemma SameLane(s: seq<byte>, p: nat, i: nat)
    requires p + STRIPE <= |s| && i + 4 <= STRIPE
    ensures ReadLE32(s[p..p + STRIPE], i) == ReadLE32(s, p + i)
  {
    hide LE32;
  }

  /** The stripe loop, from `from` on. */
  method StripeLoop(v0: Lanes, s: seq<byte>, from: nat) returns (v: Lanes, p: nat)
    requires from <= |s|
    ensures from <= p <= |s| && v == Absorb(Stripe, STRIPE, v0, s[from..]) && s[p..] == Rest(STRIPE, s[from..])
  {
    hide Stripe, StripeAt;
    v, p := v0, from;
    while p + STRIPE <= |s|
      invariant from <= p <= |s|
      invariant Absorb(Stripe, STRIPE, v, s[p..]) == Absorb(Stripe, STRIPE, v0, s[from..])
      invariant Rest(STRIPE, s[p..]) == Rest(STRIPE, s[from..])
    {
      assert s[p..][..STRIPE] == s[p..p + STRIPE] && s[p..][STRIPE..] == s[p + STRIPE..];
      SameStripe(v, s, p);
      v := StripeAt(v, s, p);
      p := p + STRIPE;
    }
  }

  /** From the lanes to the hash: merge or short start, length, tail bytes, avalanche. */
  method Finalize(seed: bv32, length: nat, v: Lanes, s: seq<byte>, from: nat) returns (h: bv32)
    requires from <= |s|
    ensures h == Finish(seed, length, v, s[from..])
  {
    hide Start, Tail, Avalanche;
    h := Start(seed, length, v);
    h := TailLoop(h, s, from);
    h := Avalanche(h);
  }

  /** XXH32. */
  method XXH32(input: seq<byte>, seed: bv32) returns (h: bv32)
    ensures h == Hash(input, seed)
  {
    hide Stripe, Init, Finish;
    assert input[0..] == input;
    var v, p := Init(seed), 0;
    if |input| >= STRIPE { v, p := StripeLoop(v, input, 0); }
    h := Finalize(seed, |input|, v, input, p);
  }

  /** XXH32_state_t. */
  class State {
    var totalLen: nat
    var seed: bv32
    var v: Lanes
    const mem: array<byte>
    var memsize: nat

    /** The state stands for `data`. */
    ghost predicate Saw(data: seq<byte>)
      reads this, mem
    {
      && mem.Length == STRIPE && memsize < STRIPE && totalLen == |data|
      && HasSeen(Stripe, STRIPE, Init(seed), data, v, mem[..memsize])
    }

    constructor ()
      ensures fresh(mem) && mem.Length == STRIPE
    {
      mem := new byte[STRIPE];
      totalLen, seed, v, memsize := 0, 0, Lanes(0, 0, 0, 0), 0;
    }

    /** XXH32_reset. */
    method Reset(seed: bv32)
      requires mem.Length == STRIPE
      modifies this
      ensures Saw([]) && this.seed == seed
    {
      hide Stripe;
      this.seed := seed;
      v := Init(seed);
      totalLen := 0;
      memsize := 0;
      assert mem[..0] == [];
    }

    /** memcpy of input[from..from + n] to the buffer. */
    method Buffer(at: nat, input: seq<byte>, from: nat, n: nat)
      requires at + n <= mem.Length && from + n <= |input|
      modifies mem
      ensures mem[..at + n] == old(mem[..at]) + input[from..from + n]
    {
      forall i | 0 <= i < n { mem[at + i] := input[from + i]; }
    }

    /** The input completes the stripe that has been buffered. */
    method FinishStripe(input: seq<byte>) returns (p: nat)
      requires mem.Length == STRIPE && 0 < memsize < STRIPE <= memsize + |input|
      modifies this`v, this`memsize, mem
      ensures p == STRIPE - old(memsize) && memsize == 0 && v == Stripe(old(v), old(mem[..memsize]) + input[..p])
    {
      hide Stripe, StripeAt;
      p := STRIPE - memsize;
      Buffer(memsize, input, 0, p);
      assert mem[..STRIPE] == mem[..] == mem[..][0..STRIPE];
      SameStripe(v, mem[..], 0);
      v := StripeAt(v, mem[..], 0);
      memsize := 0;
    }

    /** What does not fill a stripe is buffered. */
    method KeepRest(input: seq<byte>, rest: nat)
      requires mem.Length == STRIPE && rest <= |input| < rest + STRIPE
      modifies this`memsize, mem
      ensures memsize == |input| - rest && mem[..memsize] == input[rest..]
    {
      if rest < |input| { Buffer(0, input, rest, |input| - rest); }
      memsize := |input| - rest;
    }

    /** XXH32_update: afterwards the state stands for the data followed by the input. */
    method Update(input: seq<byte>, ghost data: seq<byte>)
      requires Saw(data)
      modifies this, mem
      ensures Saw(data + input) && seed == old(seed)
    {
      hide Stripe, StripeAt, Init, HasSeen, Absorb, Rest;
      SeeMore(Stripe, STRIPE, Init(seed), data, v, mem[..memsize], input);
      totalLen := totalLen + |input|;
      var p := 0;
      if memsize + |input| < STRIPE {
        Buffer(memsize, input, 0, |input|);
        assert input[0..|input|] == input;
        memsize := memsize + |input|;
        return;
      }
      if memsize > 0 { p := FinishStripe(input); }
      assert input[0..] == input;
      var rest := p;
      v, rest := StripeLoop(v, input, p);
      KeepRest(input, rest);
    }

    /** XXH32_digest: the hash of everything seen so far; the state does not change. */
    method Digest(ghost data: seq<byte>) returns (h: bv32)
      requires Saw(data)
      ensures h == Hash(data, seed)
    {
      hide Stripe, Init, Finish;
      assert mem[..memsize][0..] == mem[..memsize];
      h := Finalize(seed, totalLen, v, mem[..memsize], 0);
    }
  }

  /** Any split of the input gives the one-shot hash, and so does every digest on the way. */
  method HashPieces(pieces: seq<seq<byte>>, seed: bv32) returns (digests: seq<bv32>)
    ensures |digests| == |pieces| + 1
    ensures forall k :: 0 <= k <= |pieces| ==> digests[k] == Hash(Flatten(pieces[..k]), seed)
  {
    hide Hash, HasSeen;
    var s := new State();
    s.Reset(seed);
    ghost var data: seq<byte> := [];
    var h := s.Digest([]);
    digests := [h];
    var i := 0;
    assert pieces[..0] == [];
    while i < |pieces|
      invariant i <= |pieces| && fresh(s) && fresh(s.mem) && s.Saw(Flatten(pieces[..i])) && s.seed == seed
      invariant |digests| == i + 1
      invariant forall k :: 0 <= k <= i ==> digests[k] == Hash(Flatten(pieces[..k]), seed)
    {
      ghost var before := Flatten(pieces[..i]);
      s.Update(pieces[i], before);
      assert pieces[..i + 1][..i] == pieces[..i];
      h := s.Digest(Flatten(pieces[..i + 1]));
      digests := digests + [h];
      i := i + 1;
    }
  }
}
