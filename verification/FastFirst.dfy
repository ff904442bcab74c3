/** Which match the greedy search takes: the first usable one among the positions it probes, extended backwards as
    far as it goes. */
module FastFirst {
  import opened Bytes
  import opened BlockFormat
  import opened MatchCount
  import opened FastSound
  import opened FastParse

  // ---------------------------------------------------------------- the positions that are probed

  /** The position probed after `k` failures: every one up to the 64th, every second up to the 128th, and so on. */
  function Probe(ip: nat, k: nat): (p: nat)
    ensures p >= ip
  {
    if k == 0 then ip
    else
      var q, r := (k - 1) / SKIP_TRIGGER, (k - 1) % SKIP_TRIGGER;
      ip + 1 + 32 * q * (q + 1) + r * (q + 1)
  }

  function StepAt(k: nat): (n: nat)
    ensures n >= 1
  {
    if k == 0 then 1 else (SKIP_TRIGGER + k - 1) / SKIP_TRIGGER
  }

  lemma ProbeStep(ip: nat, k: nat)
    ensures Probe(ip, k + 1) == Probe(ip, k) + StepAt(k)
  {
    if k > 0 {
      var q, r := (k - 1) / SKIP_TRIGGER, (k - 1) % SKIP_TRIGGER;
      assert StepAt(k) == q + 1;
      if r < SKIP_TRIGGER - 1 {
        assert k / SKIP_TRIGGER == q && k % SKIP_TRIGGER == r + 1;
      } else {
        assert k / SKIP_TRIGGER == q + 1 && k % SKIP_TRIGGER == 0;
        assert 32 * (q + 1) * (q + 2) == 32 * q * (q + 1) + 64 * (q + 1);
      }
    }
  }

  /** The table after so many positions have been probed and put. */
  ghost function TableAt(v: View, table: seq<nat>, ip: nat, k: nat): (t: seq<nat>)
    requires v.Valid() && v.start < ip && TableOk(v, table, ip) && (k == 0 || Probe(ip, k) <= v.MfLimit())
    ensures TableOk(v, t, Probe(ip, k))
  {
    if k == 0 then table
    else
      ProbeStep(ip, k - 1);
      var t, p := TableAt(v, table, ip, k - 1), Probe(ip, k - 1);
      PutKeeps(v, t, Hash(v, p), p, p + 1);
      Put(v, t, Hash(v, p), p)
  }

  /** The candidate for the position probed after `k` failures. */
  ghost function CandidateAt(v: View, table: seq<nat>, ip: nat, k: nat): (m: int)
    requires v.Valid() && v.start < ip && TableOk(v, table, ip) && Probe(ip, k) <= v.MfLimit()
    ensures v.base <= m < Probe(ip, k)
  {
    v.base + TableAt(v, table, ip, k)[Hash(v, Probe(ip, k))]
  }

  // ---------------------------------------------------------------- the search takes the first one

  /** One turn of the search. */
  lemma SearchTurn(v: View, table: seq<nat>, ip: nat, k: nat)
    requires v.Valid() && v.start < ip && TableOk(v, table, ip) && (k == 0 || Probe(ip, k) <= v.MfLimit())
    ensures var f := Search(v, TableAt(v, table, ip, k), Probe(ip, k), StepAt(k), SKIP_TRIGGER + k);
            if Probe(ip, k + 1) > v.MfLimit() then f == NoMatch(TableAt(v, table, ip, k))
            else if Usable(v, CandidateAt(v, table, ip, k), Probe(ip, k))
            then f == Hit(Probe(ip, k), CandidateAt(v, table, ip, k), TableAt(v, table, ip, k + 1))
            else f == Search(v, TableAt(v, table, ip, k + 1), Probe(ip, k + 1), StepAt(k + 1), SKIP_TRIGGER + k + 1)
  {
    hide Hash, Usable, Probe, Put;
    ProbeStep(ip, k);
    if Probe(ip, k + 1) <= v.MfLimit() {
      var t, p := TableAt(v, table, ip, k), Probe(ip, k);
      assert TableAt(v, table, ip, k + 1) == Put(v, t, Hash(v, p), p);
    }
  }

  /** The search with its growing step takes the first usable position among those it probes, and looks no further
      when the next one comes too late. */
  lemma {:induction false} SearchFrom(v: View, table: seq<nat>, ip: nat, k: nat) returns (n: nat)
    requires v.Valid() && v.start < ip && TableOk(v, table, ip) && (k == 0 || Probe(ip, k) <= v.MfLimit())
    ensures k <= n && (n == k || Probe(ip, n) <= v.MfLimit())
    ensures forall j :: k <= j < n ==> Passed(v, table, ip, j)
    ensures var f := Search(v, TableAt(v, table, ip, k), Probe(ip, k), StepAt(k), SKIP_TRIGGER + k);
            if Probe(ip, n + 1) > v.MfLimit() then f == NoMatch(TableAt(v, table, ip, n))
            else
              && Usable(v, CandidateAt(v, table, ip, n), Probe(ip, n))
              && f == Hit(Probe(ip, n), CandidateAt(v, table, ip, n), TableAt(v, table, ip, n + 1))
    decreases v.end - Probe(ip, k)
  {
    hide Hash, Usable, Probe, Put, Search, TableAt, StepAt;
    n := k;
    ProbeStep(ip, k);
    SearchTurn(v, table, ip, k);
    if Probe(ip, k + 1) <= v.MfLimit() && !Usable(v, CandidateAt(v, table, ip, k), Probe(ip, k)) {
      n := SearchFrom(v, table, ip, k + 1);
    }
  }

  /** The position probed after `k` failures was not usable either. */
  ghost predicate Passed(v: View, table: seq<nat>, ip: nat, k: nat)
    requires v.Valid() && v.start < ip && TableOk(v, table, ip)
  {
    Probe(ip, k) <= v.MfLimit() && !Usable(v, CandidateAt(v, table, ip, k), Probe(ip, k))
  }

  /** So does the search of the main loop. */
  lemma SearchFirst(v: View, table: seq<nat>, ip: nat) returns (n: nat)
    requires v.Valid() && v.start < ip && TableOk(v, table, ip)
    ensures n == 0 || Probe(ip, n) <= v.MfLimit()
    ensures forall j :: 0 <= j < n ==> Passed(v, table, ip, j)
    ensures var f := Search(v, table, ip, 1, SKIP_TRIGGER);
            if Probe(ip, n + 1) > v.MfLimit() then f == NoMatch(TableAt(v, table, ip, n))
            else
              && Usable(v, CandidateAt(v, table, ip, n), Probe(ip, n))
              && f == Hit(Probe(ip, n), CandidateAt(v, table, ip, n), TableAt(v, table, ip, n + 1))
  {
    hide Usable, Passed, Search;
    n := SearchFrom(v, table, ip, 0);
  }

  // ---------------------------------------------------------------- the match is extended backwards

  /** It stops at the first byte not yet coded, at the start of what may be referenced, or where the bytes differ. */
  lemma {:induction false} CatchUpStops(v: View, ip: nat, m: nat, anchor: nat)
    requires v.Valid() && anchor <= ip && IsMatch(v, ip, m)
    ensures var r := CatchUp(v, ip, m, anchor);
            r.0 == anchor || r.1 == v.low || v.buf[r.0 - 1] != v.buf[r.1 - 1]
    decreases ip
  {
    hide CommonLength;
    if ip > anchor && m > v.low && v.buf[ip - 1] == v.buf[m - 1] {
      OneBack(v, ip, m);
      CatchUpStops(v, ip - 1, m - 1, anchor);
    }
  }

  lemma OneBack(v: View, ip: nat, m: nat)
    requires v.Valid() && IsMatch(v, ip, m) && 0 < m && m > v.low && v.buf[ip - 1] == v.buf[m - 1]
    ensures IsMatch(v, ip - 1, m - 1)
  {
  }

  /** And not before that. */
  lemma {:induction false} CatchUpFar(v: View, ip: nat, m: nat, anchor: nat, b: nat)
    requires v.Valid() && anchor + b <= ip && v.low + b <= m && IsMatch(v, ip, m)
    requires Repeats(v.buf, ip - b, ip, ip - m)
    ensures CatchUp(v, ip, m, anchor).0 <= ip - b
    decreases b
  {
    hide CommonLength;
    if b > 0 {
      assert v.buf[ip - 1] == v.buf[ip - 1 - (ip - m)];
      OneBack(v, ip, m);
      CatchUpFar(v, ip - 1, m - 1, anchor, b - 1);
    }
  }

  // ---------------------------------------------------------------- right after a match

  /** The table when the position right behind a match is looked at, and after that. */
  ghost function TableBehind(v: View, table: seq<nat>, end: nat): (t: seq<nat>)
    requires v.Valid() && v.start + 4 <= end <= v.MfLimit() && TableOk(v, table, end)
    ensures TableOk(v, t, end + 1)
  {
    AtMatch(v, AfterMatch(v, table, end), end)
  }

  /** The position two before the end of a match, and then the end itself, are put in the table; nothing else is. */
  lemma Remembers(v: View, table: seq<nat>, end: nat)
    requires v.Valid() && v.start + 4 <= end <= v.MfLimit() && TableOk(v, table, end)
    ensures var t, h, g := TableBehind(v, table, end), Hash(v, end), Hash(v, end - 2);
            && v.base + t[h] == end && (g != h ==> v.base + t[g] == end - 2)
            && forall i :: 0 <= i < |t| && i != h && i != g ==> t[i] == table[i]
  {
    hide Hash;
    PutKeeps(v, table, Hash(v, end - 2), end - 2, end);
    PutKeeps(v, AfterMatch(v, table, end), Hash(v, end), end, end + 1);
  }

  /** If the candidate found there is usable, the next sequence has no literals. */
  lemma RightAfter(v: View, table: seq<nat>, ip: nat, m: nat, anchor: nat, acc: seq<Sequence>)
    requires v.Valid() && v.start <= anchor <= ip && IsMatch(v, ip, m) && TableOk(v, table, MatchEnd(v, ip, m))
    requires Codes(v, acc, anchor) && MatchEnd(v, ip, m) <= v.MfLimit()
    requires var end := MatchEnd(v, ip, m);
             var next := v.base + AfterMatch(v, table, end)[Hash(v, end)];
             next + MAX_DISTANCE >= end && Usable(v, next, end)
    ensures var end := MatchEnd(v, ip, m);
            var next := v.base + AfterMatch(v, table, end)[Hash(v, end)];
            var seqs := TakeMatch(v, table, ip, m, anchor, acc).seqs;
            |seqs| >= |acc| + 2 && seqs[|acc| + 1].lits == [] && seqs[|acc| + 1].offset == end - next
  {
    hide Codes, CommonLength, Hash, Usable, Put, ParseFrom, AfterMatch, AtMatch;
    var end := MatchEnd(v, ip, m);
    var acc' := acc + [Sequence(v.buf[anchor..ip], ip - m, end - ip)];
    CodesMore(v, acc, anchor, ip, m, end - ip);
    var t1 := AfterMatch(v, table, end);
    var next := v.base + t1[Hash(v, end)];
    UsableIsMatch(v, next, end);
    TakeMatchCodes(v, AtMatch(v, t1, end), end, next, end, acc');
    var s := Sequence(v.buf[end..end], end - next, MatchEnd(v, end, next) - end);
    assert acc' + [s] <= TakeMatch(v, table, ip, m, anchor, acc).seqs;
    assert (acc' + [s])[|acc| + 1] == s;
  }
}
