/** Folding data into an accumulator one fixed-size stripe at a time, and how a buffer makes the fold
    independent of where the data is cut. */
module XxStripes {
  import opened Bytes

  /** The whole stripes of `data`, folded from the left. */
  function Absorb<A>(step: (A, seq<byte>) -> A, w: nat, acc: A, data: seq<byte>): A
    requires w > 0
    decreases |data|
  {
    if |data| < w then acc else Absorb(step, w, step(acc, data[..w]), data[w..])
  }

  /** The bytes after the last whole stripe. */
  function Rest(w: nat, data: seq<byte>): (r: seq<byte>)
    requires w > 0
    ensures |r| < w
    decreases |data|
  {
    if |data| < w then data else Rest(w, data[w..])
  }

  lemma {:induction false} AbsorbMore<A>(step: (A, seq<byte>) -> A, w: nat, acc: A, a: seq<byte>, b: seq<byte>)
    requires w > 0
    ensures Absorb(step, w, acc, a + b) == Absorb(step, w, Absorb(step, w, acc, a), Rest(w, a) + b)
    ensures Rest(w, a + b) == Rest(w, Rest(w, a) + b)
    decreases |a|
  {
    if |a| >= w {
      assert (a + b)[..w] == a[..w] && (a + b)[w..] == a[w..] + b;
      AbsorbMore(step, w, step(acc, a[..w]), a[w..], b);
    }
  }

  /** A state that has seen `data`: folded accumulators and the buffered rest. */
  ghost predicate HasSeen<A(!new)>(step: (A, seq<byte>) -> A, w: nat, init: A, data: seq<byte>, acc: A,
                                        buffered: seq<byte>)
    requires w > 0
  {
    acc == Absorb(step, w, init, data) && buffered == Rest(w, data)
  }

  /** New input either stays in the buffer, or completes it to a stripe and goes on from there. */
  lemma SeeMore<A(!new)>(step: (A, seq<byte>) -> A, w: nat, init: A, data: seq<byte>, acc: A, buffered: seq<byte>,
                            input: seq<byte>)
    requires w > 0 && HasSeen(step, w, init, data, acc, buffered)
    ensures |buffered| + |input| < w ==> HasSeen(step, w, init, data + input, acc, buffered + input)
    ensures |buffered| + |input| >= w ==>
              var fill := w - |buffered|;
              var rest := input[fill..];
              var acc' := step(acc, buffered + input[..fill]);
              HasSeen(step, w, init, data + input, Absorb(step, w, acc', rest), Rest(w, rest))
    ensures buffered == [] ==> HasSeen(step, w, init, data + input, Absorb(step, w, acc, input), Rest(w, input))
  {
    AbsorbMore(step, w, init, data, input);
    var all := buffered + input;
    if |all| >= w {
      var fill := w - |buffered|;
      assert all[..w] == buffered + input[..fill] && all[w..] == input[fill..];
    }
    if buffered == [] { assert all == input; }
  }
}
