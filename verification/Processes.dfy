/** The process table and the calls that move processes through their states (proc.c). Each method is what
    one process does while it holds ptable.lock, so every interleaving is a sequence of calls. */
module Processes {
  import opened Common

  const NPROC := 64

  datatype State = Unused | Embryo | Sleeping | Runnable | Running | Zombie

  /** What a process sleeps on: another process's slot (wait sleeps on its own), or something else. */
  datatype Chan = NoChan | OnProc(slot: nat) | Other(id: nat)

  datatype Proc = Proc(state: State, pid: nat, parent: Option<nat>, chan: Chan, killed: bool, pass: nat, tickets: nat)

  datatype WaitResult = Reaped(pid: nat) | NoChildren | Sleeps

  predicate InUse(s: State) { s != Unused && s != Embryo }

  /** Can still run: neither gone nor on its way in. */
  predicate Alive(s: State) { InUse(s) && s != Zombie }

  // ----- the invariant -----

  /** A slot in use has a parent that is alive, except init, which has none; any other slot has none. */
  predicate ParentFine(ps: seq<Proc>, init: nat, c: nat)
    requires c < |ps|
  {
    match ps[c].parent
    case Some(q) => c != init && InUse(ps[c].state) && q < |ps| && Alive(ps[q].state) && q != c
    case None => c == init || !InUse(ps[c].state)
  }

  predicate ChildOf(ps: seq<Proc>, c: nat, q: nat) {
    c < |ps| && ps[c].parent == Some(q)
  }

  predicate WaitsForChild(ps: seq<Proc>, q: nat)
    requires q < |ps|
  {
    ps[q].state == Sleeping && ps[q].chan == OnProc(q)
  }

  /** Whoever sleeps in wait has a child, and no zombie among its children. */
  ghost predicate WaitFine(ps: seq<Proc>, q: nat)
    requires q < |ps|
  {
    WaitsForChild(ps, q) ==>
      && (exists c: nat :: ChildOf(ps, c, q))
      && (forall c: nat | ChildOf(ps, c, q) :: ps[c].state != Zombie)
  }

  predicate PidsDiffer(ps: seq<Proc>, nextpid: nat) {
    && (forall c | 0 <= c < |ps| :: ps[c].pid < nextpid && (ps[c].state != Unused ==> ps[c].pid > 0))
    && (forall c, d | 0 <= c < d < |ps| :: ps[c].pid == ps[d].pid ==> ps[c].pid == 0)
  }

  ghost predicate Inv(ps: seq<Proc>, init: nat, nextpid: nat) {
    && init < |ps| && Alive(ps[init].state) && nextpid > 0
    && (forall c | 0 <= c < |ps| :: ParentFine(ps, init, c))
    && (forall q | 0 <= q < |ps| :: WaitFine(ps, q))
    && PidsDiffer(ps, nextpid)
  }

  // ----- what the calls do to the table -----

  function First(ps: seq<Proc>, P: Proc -> bool): (c: nat)
    ensures c <= |ps| && (c < |ps| ==> P(ps[c])) && forall d | 0 <= d < c :: !P(ps[d])
  {
    if ps == [] || P(ps[0]) then 0 else
      var c := First(ps[1..], P);
      assert forall d | 0 < d < c + 1 :: ps[d] == ps[1..][d - 1];
      c + 1
  }

  function SlotWithPid(ps: seq<Proc>, pid: nat): (c: nat)
    ensures c <= |ps| && (c < |ps| ==> ps[c].pid == pid) && forall d | 0 <= d < c :: ps[d].pid != pid
  {
    First(ps, (x: Proc) => x.pid == pid)
  }

  function UnusedSlot(ps: seq<Proc>): (c: nat)
    ensures c <= |ps| && (c < |ps| ==> ps[c].state == Unused) && forall d | 0 <= d < c :: ps[d].state != Unused
  {
    First(ps, (x: Proc) => x.state == Unused)
  }

  function ZombieChild(ps: seq<Proc>, q: nat): (c: nat)
    ensures c <= |ps| && (c < |ps| ==> ps[c].state == Zombie && ps[c].parent == Some(q))
    ensures forall d | 0 <= d < c :: !(ps[d].state == Zombie && ps[d].parent == Some(q))
  {
    First(ps, (x: Proc) => x.state == Zombie && x.parent == Some(q))
  }

  function Wake(p: Proc): Proc {
    if p.state == Sleeping then p.(state := Runnable) else p
  }

  function WokenUp(ps: seq<Proc>, chan: Chan): (r: seq<Proc>)
    ensures |r| == |ps| && forall i | 0 <= i < |ps| :: r[i] == if ps[i].chan == chan then Wake(ps[i]) else ps[i]
  {
    seq(|ps|, i requires 0 <= i < |ps| => if ps[i].chan == chan then Wake(ps[i]) else ps[i])
  }

  function KillTable(ps: seq<Proc>, pid: nat): seq<Proc> {
    var c := SlotWithPid(ps, pid);
    if c < |ps| then ps[c := Wake(ps[c]).(killed := true)] else ps
  }

  function Allocated(ps: seq<Proc>, c: nat, pid: nat): seq<Proc>
    requires c < |ps|
  {
    ps[c := ps[c].(state := Embryo, pid := pid, pass := 0, tickets := 25)]
  }

  function Forked(ps: seq<Proc>, c: nat, cur: nat): seq<Proc>
    requires c < |ps|
  {
    ps[c := ps[c].(parent := Some(cur), state := Runnable)]
  }

  function Freed(ps: seq<Proc>, c: nat): seq<Proc>
    requires c < |ps|
  {
    ps[c := ps[c].(pid := 0, parent := None, killed := false, state := Unused)]
  }

  function Slept(ps: seq<Proc>, c: nat, chan: Chan): seq<Proc>
    requires c < |ps|
  {
    ps[c := ps[c].(chan := chan, state := Sleeping)]
  }

  /** Slot i when exit has gone through the first n slots: whoever slept in wait for cur, or for a zombie
      that passed to init, is awake, and cur's children among those slots have passed to init. */
  function ExitingProc(ps: seq<Proc>, cur: nat, init: nat, n: nat, i: nat): Proc
    requires cur < |ps| && i < |ps|
  {
    var p := ps[i];
    var woken := ps[cur].parent.Some? && p.chan == OnProc(ps[cur].parent.value);
    var woken2 := ZombieChild(ps, cur) < n && p.chan == OnProc(init);
    p.(state := if p.state == Sleeping && (woken || woken2) then Runnable else p.state,
       parent := if i < n && p.parent == Some(cur) then Some(init) else p.parent)
  }

  /** In the end cur is a zombie. */
  function ExitedProc(ps: seq<Proc>, cur: nat, init: nat, i: nat): Proc
    requires cur < |ps| && i < |ps|
  {
    var p := ExitingProc(ps, cur, init, |ps|, i);
    if i == cur then p.(state := Zombie) else p
  }

  function Exited(ps: seq<Proc>, cur: nat, init: nat): (r: seq<Proc>)
    requires cur < |ps|
    ensures |r| == |ps| && forall i | 0 <= i < |ps| :: r[i] == ExitedProc(ps, cur, init, i)
  {
    seq(|ps|, i requires 0 <= i < |ps| => ExitedProc(ps, cur, init, i))
  }

  // ----- stride scheduling -----

  predicate Competes(p: Proc) { p.state == Runnable || p.state == Running }

  function Competitors(ps: seq<Proc>): (n: nat)
    ensures n <= |ps| && (forall c | 0 <= c < |ps| && Competes(ps[c]) :: n > 0)
  {
    if ps == [] then 0
    else
      var n := Competitors(ps[..|ps| - 1]);
      assert forall c | 0 <= c < |ps| - 1 :: ps[c] == ps[..|ps| - 1][c];
      n + if Competes(ps[|ps| - 1]) then 1 else 0
  }

  ghost function Runners(ps: seq<Proc>): set<nat> {
    set c: nat | c < |ps| && (ps[c].state == Runnable || ps[c].state == Running)
  }

  /** Competitors counts them. */
  lemma {:induction false} RunnersCount(ps: seq<Proc>)
    ensures |Runners(ps)| == Competitors(ps)
    ensures forall c: nat :: c in Runners(ps) <==>
              c < |ps| && (ps[c].state == Runnable || ps[c].state == Running)
  {
    if ps != [] {
      var n := |ps| - 1;
      RunnersCount(ps[..n]);
      assert Runners(ps) == Runners(ps[..n]) + if Competes(ps[n]) then {n} else {};
    }
  }

  /** What every competitor owns when n compete: something, as long as the table has at most 100 slots. */
  function Share(n: nat): (t: nat)
    requires 0 < n
    ensures n <= 100 ==> t > 0
  {
    100 / n
  }

  function Ticketed(ps: seq<Proc>): (r: seq<Proc>)
    ensures |r| == |ps|
    ensures forall c | 0 <= c < |ps| ::
              r[c] == if Competes(ps[c]) then ps[c].(tickets := Share(Competitors(ps))) else ps[c]
  {
    seq(|ps|, c requires 0 <= c < |ps| =>
      if Competes(ps[c]) then ps[c].(tickets := Share(Competitors(ps))) else ps[c])
  }

  /** The first runnable slot with the least pass. */
  predicate IsMin(ps: seq<Proc>, c: nat) {
    c < |ps| && ps[c].state == Runnable &&
    forall d | 0 <= d < |ps| && ps[d].state == Runnable && d != c ::
        ps[c].pass <= ps[d].pass && (d < c ==> ps[c].pass < ps[d].pass)
  }

  /** There is only one. */
  lemma OneMin(ps: seq<Proc>, c: nat, d: nat)
    requires IsMin(ps, c) && IsMin(ps, d)
    ensures c == d
  {
  }

  /** c has been picked: its pass grows in inverse proportion to its tickets. */
  function Picked(ps: seq<Proc>, c: nat): seq<Proc>
    requires c < |ps| && ps[c].tickets > 0
  {
    ps[c := ps[c].(pass := ps[c].pass + 1000 / ps[c].tickets, state := Running)]
  }

  // ----- every call keeps the invariant -----

  /** States move only within Sleeping, Runnable and Running, and nobody goes to sleep in wait. */
  ghost predicate Quiet(ps: seq<Proc>, ps2: seq<Proc>) {
    |ps2| == |ps| && forall i | 0 <= i < |ps| ::
      && ps2[i].parent == ps[i].parent && ps2[i].pid == ps[i].pid
      && (ps2[i].state == ps[i].state || (Alive(ps[i].state) && Alive(ps2[i].state)))
      && (WaitsForChild(ps2, i) ==> WaitsForChild(ps, i))
  }

  lemma QuietKeeps(ps: seq<Proc>, ps2: seq<Proc>, init: nat, nextpid: nat)
    requires Inv(ps, init, nextpid) && Quiet(ps, ps2)
    ensures Inv(ps2, init, nextpid)
  {
    forall c | 0 <= c < |ps| ensures ParentFine(ps2, init, c) { assert ParentFine(ps, init, c); }
    forall q | 0 <= q < |ps| ensures WaitFine(ps2, q) { QuietWait(ps, ps2, q); }
  }

  /** Letting a runnable process run is such a move. */
  lemma PickKeeps(ps: seq<Proc>, c: nat, init: nat, nextpid: nat)
    requires Inv(ps, init, nextpid) && c < |ps| && ps[c].state == Runnable && ps[c].tickets > 0
    ensures Inv(Picked(ps, c), init, nextpid)
  {
    hide Inv;
    QuietKeeps(ps, Picked(ps, c), init, nextpid);
  }

  lemma QuietWait(ps: seq<Proc>, ps2: seq<Proc>, q: nat)
    requires Quiet(ps, ps2) && q < |ps| && WaitFine(ps, q)
    ensures WaitFine(ps2, q)
  {
    if WaitsForChild(ps2, q) {
      var c: nat :| ChildOf(ps, c, q);
      assert ChildOf(ps2, c, q);
      forall d: nat | ChildOf(ps2, d, q) ensures ps2[d].state != Zombie { assert ChildOf(ps, d, q); }
    }
  }

  /** Slots outside use may change in every way that keeps pids apart. */
  lemma AllocKeeps(ps: seq<Proc>, c: nat, init: nat, nextpid: nat)
    requires Inv(ps, init, nextpid) && c < |ps| && ps[c].state == Unused
    ensures Inv(Allocated(ps, c, nextpid), init, nextpid + 1)
  {
    var ps2 := Allocated(ps, c, nextpid);
    assert ParentFine(ps, init, c);
    OutOfUseKeeps(ps, ps2, c, init);
  }

  lemma OutOfUseKeeps(ps: seq<Proc>, ps2: seq<Proc>, c: nat, init: nat)
    requires c < |ps| && init < |ps| && Alive(ps[init].state)
    requires forall d | 0 <= d < |ps| :: ParentFine(ps, init, d)
    requires forall q | 0 <= q < |ps| :: WaitFine(ps, q)
    requires !InUse(ps[c].state) && |ps2| == |ps| && !InUse(ps2[c].state) && ps2[c].parent == None
    requires forall i | 0 <= i < |ps| && i != c :: ps2[i] == ps[i]
    ensures Alive(ps2[init].state) && (forall d | 0 <= d < |ps| :: ParentFine(ps2, init, d))
    ensures forall q | 0 <= q < |ps| :: WaitFine(ps2, q)
  {
    assert ParentFine(ps, init, c);
    forall d | 0 <= d < |ps| ensures ParentFine(ps2, init, d) { assert ParentFine(ps, init, d); }
    forall q | 0 <= q < |ps| ensures WaitFine(ps2, q) {
      if WaitsForChild(ps2, q) {
        assert WaitFine(ps, q);
        var k: nat :| ChildOf(ps, k, q);
        assert ChildOf(ps2, k, q);
        forall d: nat | ChildOf(ps2, d, q) ensures ps2[d].state != Zombie { assert ChildOf(ps, d, q); }
      }
    }
  }

  lemma AbortKeeps(ps: seq<Proc>, c: nat, init: nat, nextpid: nat)
    requires Inv(ps, init, nextpid) && c < |ps| && ps[c].state == Embryo
    ensures Inv(ps[c := ps[c].(state := Unused)], init, nextpid)
  {
    assert ParentFine(ps, init, c);
    OutOfUseKeeps(ps, ps[c := ps[c].(state := Unused)], c, init);
  }

  lemma ForkKeeps(ps: seq<Proc>, c: nat, cur: nat, init: nat, nextpid: nat)
    requires Inv(ps, init, nextpid) && c < |ps| && ps[c].state == Embryo && cur < |ps| && ps[cur].state == Running
    ensures Inv(Forked(ps, c, cur), init, nextpid)
  {
    var ps2 := Forked(ps, c, cur);
    forall d | 0 <= d < |ps| ensures ParentFine(ps2, init, d) { assert ParentFine(ps, init, d); }
    forall q | 0 <= q < |ps| ensures WaitFine(ps2, q) {
      if WaitsForChild(ps2, q) {
        assert WaitFine(ps, q);
        var k: nat :| ChildOf(ps, k, q);
        assert ParentFine(ps, init, c) && ChildOf(ps2, k, q);
        forall d: nat | ChildOf(ps2, d, q) ensures ps2[d].state != Zombie { assert d != c ==> ChildOf(ps, d, q); }
      }
    }
  }

  lemma ReapKeeps(ps: seq<Proc>, c: nat, cur: nat, init: nat, nextpid: nat)
    requires Inv(ps, init, nextpid) && cur < |ps| && ps[cur].state == Running
    requires c < |ps| && ps[c].state == Zombie && ps[c].parent == Some(cur)
    ensures Inv(Freed(ps, c), init, nextpid)
  {
    var ps2 := Freed(ps, c);
    forall d | 0 <= d < |ps| ensures ParentFine(ps2, init, d) { assert ParentFine(ps, init, d); }
    forall q | 0 <= q < |ps| ensures WaitFine(ps2, q) {
      if WaitsForChild(ps2, q) {
        assert WaitFine(ps, q);
        var k: nat :| ChildOf(ps, k, q);
        assert ChildOf(ps2, k, q);
        forall d: nat | ChildOf(ps2, d, q) ensures ps2[d].state != Zombie { assert ChildOf(ps, d, q); }
      }
    }
  }

  lemma WaitKeeps(ps: seq<Proc>, cur: nat, init: nat, nextpid: nat)
    requires Inv(ps, init, nextpid) && cur < |ps| && ps[cur].state == Running
    requires ZombieChild(ps, cur) == |ps| && exists c: nat :: ChildOf(ps, c, cur)
    ensures Inv(Slept(ps, cur, OnProc(cur)), init, nextpid)
  {
    var ps2 := Slept(ps, cur, OnProc(cur));
    forall d | 0 <= d < |ps| ensures ParentFine(ps2, init, d) { assert ParentFine(ps, init, d); }
    forall q | 0 <= q < |ps| ensures WaitFine(ps2, q) {
      if WaitsForChild(ps2, q) {
        assert WaitFine(ps, q);
        var k: nat :| ChildOf(ps, k, q);
        assert ChildOf(ps2, k, q);
        forall d: nat | ChildOf(ps2, d, q) ensures ps2[d].state != Zombie { assert ChildOf(ps, d, q); }
      }
    }
  }

  lemma ExitedAt(ps: seq<Proc>, cur: nat, init: nat, i: nat)
    requires cur < |ps| && i < |ps|
    ensures var r := Exited(ps, cur, init)[i];
      && r.pid == ps[i].pid && r.chan == ps[i].chan
      && r.parent == (if ps[i].parent == Some(cur) then Some(init) else ps[i].parent)
      && (i == cur ==> r.state == Zombie)
      && (i != cur ==> r.state == ps[i].state || (ps[i].state == Sleeping && r.state == Runnable))
      && (i != cur && ps[cur].parent == Some(i) ==> !(r.state == Sleeping && r.chan == OnProc(i)))
      && (i == init && i != cur && ZombieChild(ps, cur) < |ps| ==> !(r.state == Sleeping && r.chan == OnProc(i)))
  {
  }

  lemma ExitKeeps(ps: seq<Proc>, cur: nat, init: nat, nextpid: nat)
    requires Inv(ps, init, nextpid) && cur < |ps| && ps[cur].state == Running && cur != init
    ensures Inv(Exited(ps, cur, init), init, nextpid)
  {
    hide Exited;
    var ps2 := Exited(ps, cur, init);
    forall i | 0 <= i < |ps|
      ensures ps2[i].pid == ps[i].pid && (ps2[i].state == Unused <==> ps[i].state == Unused)
    {
      ExitedAt(ps, cur, init, i);
    }
    ExitedAt(ps, cur, init, init);
    forall c | 0 <= c < |ps| ensures ParentFine(ps2, init, c) {
      assert ParentFine(ps, init, c);
      ExitedAt(ps, cur, init, c);
      if ps2[c].parent.Some? { ExitedAt(ps, cur, init, ps2[c].parent.value); }
    }
    forall q | 0 <= q < |ps| ensures WaitFine(ps2, q) { ExitWait(ps, cur, init, nextpid, q); }
  }

  lemma ExitWait(ps: seq<Proc>, cur: nat, init: nat, nextpid: nat, q: nat)
    requires Inv(ps, init, nextpid) && cur < |ps| && ps[cur].state == Running && cur != init && q < |ps|
    ensures WaitFine(Exited(ps, cur, init), q)
  {
    hide Exited;
    var ps2 := Exited(ps, cur, init);
    ExitedAt(ps, cur, init, q);
    if WaitsForChild(ps2, q) {
      assert WaitFine(ps, q);
      var k: nat :| ChildOf(ps, k, q);
      ExitedAt(ps, cur, init, k);
      assert ChildOf(ps2, k, q);
      forall d: nat | ChildOf(ps2, d, q) ensures ps2[d].state != Zombie {
        ExitedAt(ps, cur, init, d);
        assert ParentFine(ps, init, d);
        if ps[d].parent == Some(cur) {
          assert q == init && d != cur && (ps[d].state == Zombie ==> ZombieChild(ps, cur) <= d);
        } else {
          assert ChildOf(ps, d, q);
        }
      }
    }
  }

  /** exit wakes those who wait for the process's parent, and for init when a zombie passes to it. */
  predicate ExitWakes(ps: seq<Proc>, cur: nat, init: nat, chan: Chan)
    requires cur < |ps|
  {
    || (ps[cur].parent.Some? && chan == OnProc(ps[cur].parent.value))
    || ((exists c :: 0 <= c < |ps| && ps[c].state == Zombie && ps[c].parent == Some(cur)) && chan == OnProc(init))
  }

  /** With all slots seen to, the process itself becomes a zombie. */
  lemma ExitEnds(ps: seq<Proc>, ps2: seq<Proc>, cur: nat, init: nat)
    requires cur < |ps| == |ps2| && forall k | 0 <= k < |ps| :: ps2[k] == ExitingProc(ps, cur, init, |ps|, k)
    ensures var r := ps2[cur := ps2[cur].(state := Zombie)];
      && r == Exited(ps, cur, init)
      && forall i | 0 <= i < |ps| :: r[i] == ps[i].(
           state := if i == cur then Zombie
                    else if ps[i].state == Sleeping && ExitWakes(ps, cur, init, ps[i].chan) then Runnable
                      else ps[i].state,
           parent := if ps[i].parent == Some(cur) then Some(init) else ps[i].parent)
  {
    var z := ZombieChild(ps, cur);
    assert z < |ps| <==> exists c :: 0 <= c < |ps| && ps[c].state == Zombie && ps[c].parent == Some(cur);
  }

  // ----- the killed flag of slots not in use -----

  /** No process about to be created has been killed already. */
  predicate CleanSlots(ps: seq<Proc>) {
    forall c | 0 <= c < |ps| && !InUse(ps[c].state) :: !ps[c].killed
  }

  /** Whoever is killed does not stay asleep, and nobody else changes. */
  lemma KillWakes(ps: seq<Proc>, pid: nat)
    ensures var c, ps2 := SlotWithPid(ps, pid), KillTable(ps, pid);
      && |ps2| == |ps| && (forall d | 0 <= d < |ps| && d != c :: ps2[d] == ps[d])
      && (c < |ps| ==> ps2[c].killed && ps2[c].state != Sleeping)
  {
  }

  /** A slot given back by wait is clean for the next child. */
  lemma ReapedClean(ps: seq<Proc>, c: nat)
    requires CleanSlots(ps) && c < |ps|
    ensures CleanSlots(Freed(ps, c))
  {
  }

  /** kill does not look at the state of the slot it finds: a slot out of use is marked too. */
  lemma KillClean(ps: seq<Proc>, pid: nat)
    requires CleanSlots(ps)
    ensures CleanSlots(KillTable(ps, pid)) <==>
      (SlotWithPid(ps, pid) < |ps| ==> InUse(ps[SlotWithPid(ps, pid)].state))
  {
    var c := SlotWithPid(ps, pid);
    var ps2 := KillTable(ps, pid);
    if c < |ps| && !InUse(ps[c].state) { assert ps2[c].killed && !InUse(ps2[c].state); }
  }

  /** kill(0) succeeds as long as there is a slot nobody ever used or that was reaped, and unless the first
      free slot is left over from a failed fork, the next child is born killed. */
  lemma KillZero(ps: seq<Proc>, init: nat, nextpid: nat, cur: nat)
    requires Inv(ps, init, nextpid) && UnusedSlot(ps) < |ps| && ps[UnusedSlot(ps)].pid == 0
    requires forall c | 0 <= c < UnusedSlot(ps) :: ps[c].pid != 0
    ensures var ps1 := KillTable(ps, 0); var c := UnusedSlot(ps1);
      c < |ps1| && Forked(Allocated(ps1, c, nextpid), c, cur)[c].killed
  {
    var c := UnusedSlot(ps);
    assert SlotWithPid(ps, 0) == c;
    var ps1 := KillTable(ps, 0);
    assert ps1[c].state == Unused;
    assert UnusedSlot(ps1) == c;
  }

  lemma PidPositive(ps: seq<Proc>, c: nat, init: nat, nextpid: nat)
    requires Inv(ps, init, nextpid) && c < |ps| && ps[c].state != Unused
    ensures ps[c].pid > 0
  {
  }

  class Table {
    var procs: seq<Proc>
    var nextpid: nat
    const init: nat

    ghost predicate Valid()
      reads this
    {
      |procs| == NPROC && Inv(procs, init, nextpid)
    }

    /** The table once the first process is set up. */
    constructor ()
      ensures Valid() && CleanSlots(procs) && nextpid == 2 && init == 0
      ensures procs[0] == Proc(Runnable, 1, None, NoChan, false, 0, 25)
      ensures forall c | 0 < c < NPROC :: procs[c] == Proc(Unused, 0, None, NoChan, false, 0, 0)
    {
      var free := Proc(Unused, 0, None, NoChan, false, 0, 0);
      procs := seq(NPROC, i => if i == 0 then free.(state := Runnable, pid := 1, tickets := 25) else free);
      nextpid, init := 2, 0;
    }

    method Wakeup1(chan: Chan)
      modifies this`procs
      ensures procs == WokenUp(old(procs), chan) && (old(Valid()) ==> Valid())
      ensures |procs| == |old(procs)| && forall i | 0 <= i < |procs| ::
                procs[i] == if old(procs)[i].state == Sleeping && old(procs)[i].chan == chan
                            then old(procs)[i].(state := Runnable) else old(procs)[i]
    {
      hide Inv;
      ghost var ps := procs;
      var i := 0;
      while i < |procs|
        invariant i <= |procs| == |ps|
        invariant forall k | 0 <= k < |ps| :: procs[k] == if k < i && ps[k].chan == chan then Wake(ps[k]) else ps[k]
      {
        if procs[i].state == Sleeping && procs[i].chan == chan {
          procs := procs[i := procs[i].(state := Runnable)];
        }
        i := i + 1;
      }
      assert procs == WokenUp(ps, chan);
      if old(Valid()) { QuietKeeps(ps, procs, init, nextpid); }
    }

    /** The running process cur sleeps on a channel that is not a process. */
    method Sleep(cur: nat, chan: Chan)
      requires Valid() && cur < NPROC && procs[cur].state == Running && !chan.OnProc?
      modifies this`procs
      ensures Valid() && procs == Slept(old(procs), cur, chan)
      ensures procs == old(procs)[cur := old(procs)[cur].(chan := chan, state := Sleeping)]
    {
      procs := procs[cur := procs[cur].(chan := chan)];
      procs := procs[cur := procs[cur].(state := Sleeping)];
      QuietKeeps(old(procs), procs, init, nextpid);
    }

    /** The scheduler hands the CPU to a runnable process; one that slept clears its channel. */
    method Resume(p: nat)
      requires Valid() && p < NPROC && procs[p].state == Runnable
      modifies this`procs
      ensures Valid() && procs == old(procs)[p := old(procs)[p].(state := Running, chan := NoChan)]
    {
      procs := procs[p := procs[p].(state := Running)];
      procs := procs[p := procs[p].(chan := NoChan)];
      QuietKeeps(old(procs), procs, init, nextpid);
    }

    method Yield(cur: nat)
      requires Valid() && cur < NPROC && procs[cur].state == Running
      modifies this`procs
      ensures Valid() && procs == old(procs)[cur := old(procs)[cur].(state := Runnable)]
    {
      procs := procs[cur := procs[cur].(state := Runnable)];
      QuietKeeps(old(procs), procs, init, nextpid);
    }

    /** The first slot with the pid is marked, and woken if it sleeps; no other slot changes. */
    method Kill(pid: nat) returns (found: bool)
      requires Valid()
      modifies this`procs
      ensures Valid() && procs == KillTable(old(procs), pid)
      ensures found <==> SlotWithPid(old(procs), pid) < NPROC
      ensures found <==> exists c :: 0 <= c < NPROC && old(procs)[c].pid == pid
      ensures !found ==> procs == old(procs)
      ensures found ==>
                var c := SlotWithPid(old(procs), pid);
                var p := old(procs)[c];
                procs == old(procs)[c := p.(killed := true, state := if p.state == Sleeping then Runnable else p.state)]
    {
      hide Inv;
      var i := 0;
      while i < |procs|
        invariant i <= |procs| && procs == old(procs) && forall k | 0 <= k < i :: procs[k].pid != pid
      {
        if procs[i].pid == pid {
          procs := procs[i := procs[i].(killed := true)];
          if procs[i].state == Sleeping {
            procs := procs[i := procs[i].(state := Runnable)];
          }
          assert procs == KillTable(old(procs), pid);
          QuietKeeps(old(procs), procs, init, nextpid);
          return true;
        }
        i := i + 1;
      }
      return false;
    }

    /** Reserves the first unused slot, with a pid no other slot has. */
    method AllocProc() returns (slot: Option<nat>)
      requires Valid()
      modifies this
      ensures Valid()
      ensures slot == None ==> UnusedSlot(old(procs)) == NPROC && procs == old(procs) && nextpid == old(nextpid)
      ensures slot.Some? ==> slot.value == UnusedSlot(old(procs)) < NPROC && nextpid == old(nextpid) + 1
                             && procs == Allocated(old(procs), slot.value, old(nextpid))
      ensures slot.Some? ==> procs == old(procs)[slot.value := old(procs)[slot.value].(
                state := Embryo, pid := old(nextpid), pass := 0, tickets := 25)]
    {
      hide Inv;
      var i := 0;
      while i < |procs|
        invariant i <= |procs| && procs == old(procs) && forall k | 0 <= k < i :: procs[k].state != Unused
      {
        if procs[i].state == Unused {
          AllocKeeps(procs, i, init, nextpid);
          procs := procs[i := procs[i].(state := Embryo, pid := nextpid)];
          nextpid := nextpid + 1;
          procs := procs[i := procs[i].(pass := 0, tickets := 100 / 4)];
          assert procs == Allocated(old(procs), i, old(nextpid));
          return Some(i);
        }
        i := i + 1;
      }
      return None;
    }

    /** Memory ran out: the slot is given back, its pid still in it. */
    method Abort(np: nat)
      requires Valid() && np < NPROC && procs[np].state == Embryo
      modifies this`procs
      ensures Valid() && procs == old(procs)[np := old(procs)[np].(state := Unused)]
    {
      hide Inv;
      AbortKeeps(procs, np, init, nextpid);
      procs := procs[np := procs[np].(state := Unused)];
    }

    method FinishFork(np: nat, cur: nat)
      requires Valid() && np < NPROC && procs[np].state == Embryo && cur < NPROC && procs[cur].state == Running
      modifies this`procs
      ensures Valid() && procs == Forked(old(procs), np, cur)
      ensures procs == old(procs)[np := old(procs)[np].(parent := Some(cur), state := Runnable)]
    {
      hide Inv;
      ForkKeeps(procs, np, cur, init, nextpid);
      procs := procs[np := procs[np].(parent := Some(cur))];
      procs := procs[np := procs[np].(state := Runnable)];
      assert procs == Forked(old(procs), np, cur);
    }

    /** The 100 tickets are dealt out among those who run or could. */
    method UpdateTickets()
      requires Valid()
      modifies this`procs
      ensures Valid() && procs == Ticketed(old(procs))
      ensures forall c | 0 <= c < NPROC && c !in Runners(old(procs)) :: procs[c] == old(procs)[c]
      ensures forall c | 0 <= c < NPROC && c in Runners(old(procs)) ::
                |Runners(old(procs))| > 0 && procs[c] == old(procs)[c].(tickets := 100 / |Runners(old(procs))|)
    {
      hide Inv;
      RunnersCount(procs);
      ghost var ps := procs;
      var count, i := 0, 0;
      while i < |procs|
        invariant i <= |procs| && procs == ps && count == Competitors(ps[..i])
      {
        assert ps[..i + 1][..i] == ps[..i];
        if procs[i].state == Runnable || procs[i].state == Running {
          count := count + 1;
        }
        i := i + 1;
      }
      assert ps[..i] == ps;
      i := 0;
      while i < |procs|
        invariant i <= |procs| == |ps|
        invariant forall k | 0 <= k < |ps| ::
          procs[k] == if k < i && Competes(ps[k]) then ps[k].(tickets := Share(count)) else ps[k]
      {
        if procs[i].state == Runnable || procs[i].state == Running {
          procs := procs[i := procs[i].(tickets := 100 / count)];
        }
        i := i + 1;
      }
      assert procs == Ticketed(ps);
      QuietKeeps(ps, procs, init, nextpid);
    }

    method GetMinProc() returns (r: Option<nat>)
      requires Valid()
      ensures r.Some? ==> IsMin(procs, r.value)
      ensures r.Some? ==> r.value < NPROC && procs[r.value].state == Runnable
      ensures r.Some? ==> forall d | 0 <= d < NPROC && procs[d].state == Runnable ::
                if d < r.value then procs[r.value].pass < procs[d].pass else procs[r.value].pass <= procs[d].pass
      ensures r == None ==> forall c | 0 <= c < NPROC :: procs[c].state != Runnable
    {
      var curMin := 0;
      r := None;
      var i := 0;
      while i < |procs|
        invariant i <= |procs|
        invariant r == None ==> forall k | 0 <= k < i :: procs[k].state != Runnable
        invariant r.Some? ==> r.value < i && curMin == procs[r.value].pass && IsMin(procs[..i], r.value)
      {
        if procs[i].state == Runnable {
          if r == None {
            curMin, r := procs[i].pass, Some(i);
          } else if procs[i].pass < curMin {
            curMin, r := procs[i].pass, Some(i);
          }
        }
        i := i + 1;
      }
      assert procs[..i] == procs;
    }

    /** One decision of the scheduler in stride mode. */
    method Schedule() returns (ran: Option<nat>)
      requires Valid()
      modifies this`procs
      ensures Valid()
      ensures match ran
        case None => procs == Ticketed(old(procs)) && forall c | 0 <= c < NPROC :: procs[c].state != Runnable
        case Some(c) =>
          && IsMin(old(procs), c) && Ticketed(old(procs))[c].tickets > 0 && procs == Picked(Ticketed(old(procs)), c)
          && procs[c].state == Running && Runners(old(procs)) != {}
          && procs[c].tickets == 100 / |Runners(old(procs))| > 0
          && procs[c].pass == old(procs)[c].pass + 1000 / procs[c].tickets
          && forall d | 0 <= d < NPROC && d != c :: procs[d] == old(procs)[d].(tickets := procs[d].tickets)
    {
      hide Inv, Runners;
      UpdateTickets();
      ran := GetMinProc();
      if ran.Some? {
        var p := ran.value;
        RunnersCount(old(procs));
        ghost var ps := procs;
        procs := procs[p := procs[p].(pass := procs[p].pass + 1000 / procs[p].tickets)];
        procs := procs[p := procs[p].(state := Running)];
        assert procs == Picked(ps, p);
        PickKeeps(ps, p, init, nextpid);
      }
    }

    /** init does not exit; any other process becomes a zombie and leaves its children to init. */
    method Exit(cur: nat) returns (panicked: bool)
      requires Valid() && cur < NPROC && procs[cur].state == Running
      modifies this`procs
      ensures Valid() && (panicked <==> cur == init)
      ensures procs == if panicked then old(procs) else Exited(old(procs), cur, init)
      ensures !panicked ==> forall i | 0 <= i < NPROC :: procs[i] == old(procs)[i].(
                state := if i == cur then Zombie
                         else if old(procs)[i].state == Sleeping && ExitWakes(old(procs), cur, init, old(procs)[i].chan)
                         then Runnable else old(procs)[i].state,
                parent := if old(procs)[i].parent == Some(cur) then Some(init) else old(procs)[i].parent)
    {
      hide Inv, ParentFine, WaitFine, Exited, ExitedProc;
      if cur == init { return true; }
      ghost var ps := procs;
      ExitKeeps(ps, cur, init, nextpid);
      if procs[cur].parent.Some? {
        Wakeup1(OnProc(procs[cur].parent.value));
      }
      var i := 0;
      while i < |procs|
        invariant i <= |procs| == |ps|
        invariant forall k | 0 <= k < |ps| :: procs[k] == ExitingProc(ps, cur, init, i, k)
      {
        if procs[i].parent == Some(cur) {
          procs := procs[i := procs[i].(parent := Some(init))];
          if procs[i].state == Zombie {
            Wakeup1(OnProc(init));
          }
        }
        i := i + 1;
      }
      ExitEnds(ps, procs, cur, init);
      procs := procs[cur := procs[cur].(state := Zombie)];
      return false;
    }

    /** One pass of wait: the first zombie child is reaped; else there is no point in waiting, or cur sleeps. */
    method Wait(cur: nat) returns (r: WaitResult)
      requires Valid() && cur < NPROC && procs[cur].state == Running
      modifies this`procs
      ensures Valid()
      ensures match r
        case Reaped(pid) =>
          var c := ZombieChild(old(procs), cur);
          && c < NPROC && pid == old(procs)[c].pid > 0 && procs == Freed(old(procs), c)
          && procs == old(procs)[c := old(procs)[c].(state := Unused, pid := 0, parent := None, killed := false)]
        case NoChildren =>
          && ZombieChild(old(procs), cur) == NPROC && procs == old(procs)
          && (procs[cur].killed || forall c: nat :: !ChildOf(procs, c, cur))
        case Sleeps =>
          && ZombieChild(old(procs), cur) == NPROC && !old(procs)[cur].killed
          && procs == Slept(old(procs), cur, OnProc(cur)) && WaitsForChild(procs, cur)
          && procs == old(procs)[cur := old(procs)[cur].(state := Sleeping, chan := OnProc(cur))]
          && exists c: nat :: ChildOf(old(procs), c, cur)
    {
      hide Inv;
      var havekids := false;
      var i := 0;
      while i < |procs|
        invariant i <= |procs| && procs == old(procs)
        invariant forall k | 0 <= k < i :: !(procs[k].state == Zombie && procs[k].parent == Some(cur))
        invariant havekids <==> exists c: nat :: c < i && ChildOf(procs, c, cur)
      {
        if procs[i].parent == Some(cur) {
          assert ChildOf(procs, i, cur);
          havekids := true;
          if procs[i].state == Zombie {
            ReapKeeps(procs, i, cur, init, nextpid);
            PidPositive(procs, i, init, nextpid);
            var pid := procs[i].pid;
            procs := procs[i := procs[i].(pid := 0, parent := None)];
            procs := procs[i := procs[i].(killed := false, state := Unused)];
            assert procs == Freed(old(procs), i);
            return Reaped(pid);
          }
        }
        i := i + 1;
      }
      if !havekids || procs[cur].killed {
        return NoChildren;
      }
      WaitKeeps(procs, cur, init, nextpid);
      procs := procs[cur := procs[cur].(chan := OnProc(cur))];
      procs := procs[cur := procs[cur].(state := Sleeping)];
      assert procs == Slept(old(procs), cur, OnProc(cur));
      return Sleeps;
    }
  }
}
