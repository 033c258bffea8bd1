/** Fairness of the stride scheduler (proc.c) on one CPU, for a fixed set of processes that are always
    runnable: each pick runs for a while and is runnable again at the next decision. */
module Stride {
  import opened Processes

  /** Nobody runs while the scheduler decides. */
  predicate Waiting(ps: seq<Proc>) {
    |ps| <= NPROC && forall c | 0 <= c < |ps| :: ps[c].state != Running
  }

  /** How far one turn moves a process when n compete. */
  function StrideOf(n: nat): (s: nat)
    requires 0 < n <= NPROC
    ensures s > 0
  {
    1000 / Share(n)
  }

  /** The pick c, and its way back to being runnable. */
  function Turn(ps: seq<Proc>, c: nat): (r: seq<Proc>)
    requires Waiting(ps) && IsMin(ps, c)
  {
    var ps2 := Picked(Ticketed(ps), c);
    ps2[c := ps2[c].(state := Runnable)]
  }

  /** The table after these picks, as long as each was the one the scheduler makes. */
  function After(ps: seq<Proc>, picks: seq<nat>): (r: seq<Proc>)
    requires Waiting(ps)
    ensures Waiting(r) && |r| == |ps|
  {
    if picks == [] then ps
    else
      var before, c := After(ps, picks[..|picks| - 1]), picks[|picks| - 1];
      if IsMin(before, c) then Turn(before, c) else before
  }

  predicate Legal(ps: seq<Proc>, picks: seq<nat>)
    requires Waiting(ps)
  {
    picks == [] || (Legal(ps, picks[..|picks| - 1]) && IsMin(After(ps, picks[..|picks| - 1]), picks[|picks| - 1]))
  }

  /** How often c has been picked. */
  function Turns(picks: seq<nat>, c: nat): (n: nat)
    ensures n <= |picks|
  {
    if picks == [] then 0 else Turns(picks[..|picks| - 1], c) + if picks[|picks| - 1] == c then 1 else 0
  }

  predicate Ready(ps: seq<Proc>, c: nat) { c < |ps| && ps[c].state == Runnable }

  // ----- one turn -----

  lemma {:induction false} SameCompetitors(ps: seq<Proc>, ps2: seq<Proc>)
    requires |ps2| == |ps| && forall c | 0 <= c < |ps| :: ps2[c].state == ps[c].state
    ensures Competitors(ps2) == Competitors(ps)
  {
    if ps != [] { SameCompetitors(ps[..|ps| - 1], ps2[..|ps| - 1]); }
  }

  lemma TurnFacts(ps: seq<Proc>, c: nat)
    requires Waiting(ps) && IsMin(ps, c)
    ensures 0 < Competitors(ps) <= NPROC && |Turn(ps, c)| == |ps|
    ensures forall d | 0 <= d < |ps| :: Turn(ps, c)[d].state == ps[d].state
    ensures forall d | 0 <= d < |ps| ::
      Turn(ps, c)[d].pass == ps[d].pass + if d == c then StrideOf(Competitors(ps)) else 0
  {
    assert Competes(ps[c]);
  }

  // ----- runs -----

  /** States and the number of competitors never change, and a pass is where it started plus one stride a turn. */
  lemma {:induction false} Tally(ps: seq<Proc>, picks: seq<nat>)
    requires Waiting(ps) && Legal(ps, picks)
    ensures forall c | 0 <= c < |ps| :: After(ps, picks)[c].state == ps[c].state
    ensures Competitors(After(ps, picks)) == Competitors(ps)
    ensures picks != [] ==> 0 < Competitors(ps) <= NPROC
    ensures picks != [] ==> forall c | 0 <= c < |ps| ::
      After(ps, picks)[c].pass == ps[c].pass + StrideOf(Competitors(ps)) * Turns(picks, c)
    decreases |picks|
  {
    hide Turn, IsMin, StrideOf, Competitors, Waiting;
    if picks != [] {
      var less, c := picks[..|picks| - 1], picks[|picks| - 1];
      Tally(ps, less);
      var before := After(ps, less);
      TurnFacts(before, c);
      SameCompetitors(before, After(ps, picks));
      var s := StrideOf(Competitors(ps));
      forall d | 0 <= d < |ps| ensures After(ps, picks)[d].pass == ps[d].pass + s * Turns(picks, d) {
        Distribute(s, Turns(less, d));
      }
    }
  }

  ghost predicate SpreadAtMost(ps: seq<Proc>, m: nat) {
    forall c: nat, d: nat | Ready(ps, c) && Ready(ps, d) :: ps[c].pass <= ps[d].pass + m
  }

  /** From any passes the spread never exceeds the larger of the first spread and one stride. */
  lemma {:induction false} Spread(ps: seq<Proc>, picks: seq<nat>, m: nat)
    requires Waiting(ps) && Legal(ps, picks) && SpreadAtMost(ps, m)
    requires 0 < Competitors(ps) <= NPROC && StrideOf(Competitors(ps)) <= m
    ensures SpreadAtMost(After(ps, picks), m)
    decreases |picks|
  {
    hide Turn, StrideOf, Competitors, Waiting;
    if picks != [] {
      var less, c := picks[..|picks| - 1], picks[|picks| - 1];
      Spread(ps, less, m);
      Tally(ps, less);
      TurnFacts(After(ps, less), c);
    }
  }

  /** Nobody is starved: from any passes, turns differ by a bound that does not grow with the run. */
  lemma NoStarvation(ps: seq<Proc>, picks: seq<nat>, m: nat, c: nat, d: nat)
    requires Waiting(ps) && Legal(ps, picks) && SpreadAtMost(ps, m) && Ready(ps, c) && Ready(ps, d)
    requires 0 < Competitors(ps) <= NPROC
    ensures var s := StrideOf(Competitors(ps)); s * Turns(picks, c) <= s * Turns(picks, d) + m + if m > s then m else s
  {
    var s := StrideOf(Competitors(ps));
    var most := if m > s then m else s;
    Spread(ps, picks, most);
    Tally(ps, picks);
    if picks != [] { assert Ready(After(ps, picks), c) && Ready(After(ps, picks), d); }
  }

  // ----- equal shares -----

  /** The turns of the ready slots below n, added up. */
  function Total(ps: seq<Proc>, picks: seq<nat>, n: nat): nat
    requires n <= |ps|
  {
    if n == 0 then 0 else Total(ps, picks, n - 1) + if Ready(ps, n - 1) then Turns(picks, n - 1) else 0
  }

  lemma {:induction false} TotalGrows(ps: seq<Proc>, picks: seq<nat>, n: nat)
    requires n <= |ps| && picks != [] && Ready(ps, picks[|picks| - 1])
    ensures Total(ps, picks, n) == Total(ps, picks[..|picks| - 1], n) + if picks[|picks| - 1] < n then 1 else 0
  {
    if n > 0 { TotalGrows(ps, picks, n - 1); }
  }

  lemma {:induction false} TotalNone(ps: seq<Proc>, n: nat)
    requires n <= |ps|
    ensures Total(ps, [], n) == 0
  {
    if n > 0 { TotalNone(ps, n - 1); }
  }

  /** Every pick is some ready process's turn. */
  lemma {:induction false} TotalIs(ps: seq<Proc>, picks: seq<nat>)
    requires Waiting(ps) && Legal(ps, picks)
    ensures Total(ps, picks, |ps|) == |picks|
    decreases |picks|
  {
    if picks == [] { TotalNone(ps, |ps|); } else {
      TotalIs(ps, picks[..|picks| - 1]);
      Tally(ps, picks[..|picks| - 1]);
      TotalGrows(ps, picks, |ps|);
    }
  }

  lemma CompetitorsStep(ps: seq<Proc>, n: nat)
    requires Waiting(ps) && 0 < n <= |ps|
    ensures Competitors(ps[..n]) == Competitors(ps[..n - 1]) + if Ready(ps, n - 1) then 1 else 0
  {
    assert ps[..n][..n - 1] == ps[..n - 1];
  }

  /** The total lies between lo and hi turns for each ready slot, and slot i's share of that is its own. */
  lemma {:induction false} TotalBounds(ps: seq<Proc>, picks: seq<nat>, n: nat, lo: int, hi: int, i: nat)
    requires Waiting(ps) && n <= |ps| && Ready(ps, i)
    requires forall c: nat | Ready(ps, c) :: lo <= Turns(picks, c) <= hi
    ensures var k := Competitors(ps[..n]); var t := Turns(picks, i);
      lo * k + (if i < n then t - lo else 0) <= Total(ps, picks, n) <= hi * k - (if i < n then hi - t else 0)
  {
    hide Turns, Ready, Waiting, Competitors;
    if n > 0 {
      TotalBounds(ps, picks, n - 1, lo, hi, i);
      CompetitorsStep(ps, n);
      Distribute(lo, Competitors(ps[..n - 1]));
      Distribute(hi, Competitors(ps[..n - 1]));
    } else {
      NoCompetitors(ps[..0]);
    }
  }

  lemma NoCompetitors(ps: seq<Proc>)
    requires ps == []
    ensures Competitors(ps) == 0
  {
  }

  /** Starting level, after k decisions each of the n processes has run k/n times, rounded down or up. */
  lemma Fair(ps: seq<Proc>, picks: seq<nat>, i: nat)
    requires Waiting(ps) && Legal(ps, picks) && SpreadAtMost(ps, 0) && Ready(ps, i)
    ensures var n := Competitors(ps);
      n > 0 && |picks| / n <= Turns(picks, i) <= (|picks| + n - 1) / n
  {
    hide Turns, Legal, After, SpreadAtMost, Waiting, Competitors, Total;
    var n, t := Competitors(ps), Turns(picks, i);
    SomeCompete(ps, i);
    forall c: nat | Ready(ps, c) ensures t - 1 <= Turns(picks, c) <= t + 1 {
      WithinOne(ps, picks, c, i);
      WithinOne(ps, picks, i, c);
    }
    TotalIs(ps, picks);
    TotalBounds(ps, picks, |ps|, t - 1, t + 1, i);
    assert ps[..|ps|] == ps;
    Swap(t - 1, n);
    Swap(t + 1, n);
    Rounding(|picks|, n, t);
  }

  lemma SomeCompete(ps: seq<Proc>, i: nat)
    requires Ready(ps, i)
    ensures Competitors(ps) > 0
  {
    assert Competes(ps[i]);
  }

  lemma WithinOne(ps: seq<Proc>, picks: seq<nat>, c: nat, d: nat)
    requires Waiting(ps) && Legal(ps, picks) && SpreadAtMost(ps, 0) && Ready(ps, c) && Ready(ps, d)
    ensures Turns(picks, c) <= Turns(picks, d) + 1
  {
    assert Competes(ps[c]);
    var s := StrideOf(Competitors(ps));
    NoStarvation(ps, picks, 0, c, d);
    Distribute(s, Turns(picks, d));
    Cancel(s, Turns(picks, c), Turns(picks, d) + 1);
  }

  lemma Swap(a: int, b: int)
    ensures a * b == b * a
  {
  }

  lemma Distribute(s: int, a: int)
    ensures s * (a + 1) == s * a + s
  {
  }

  lemma Cancel(s: int, a: int, b: int)
    requires s > 0 && s * a <= s * b
    ensures a <= b
  {
    if a > b { Monotone(s, b + 1, a); Distribute(s, b); }
  }

  lemma Monotone(s: int, a: int, b: int)
    requires s > 0 && a <= b
    ensures s * a <= s * b
  {
  }

  lemma Rounding(k: nat, n: nat, t: nat)
    requires n > 0 && n * (t - 1) + 1 <= k <= n * (t + 1) - 1
    ensures k / n <= t <= (k + n - 1) / n
  {
    var q, q2 := k / n, (k + n - 1) / n;
    assert n * q <= k && k + n - 1 < n * q2 + n;
    Distribute(n, t);
    Distribute(n, t - 1);
    Distribute(n, q2);
    if q > t { Monotone(n, t + 1, q); }
    if q2 < t { Monotone(n, q2 + 1, t); }
  }
}
