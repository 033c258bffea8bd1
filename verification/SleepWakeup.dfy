/** The sleep/wakeup protocol (proc.c) between any number of consumers, which sleep until a count protected by
    `lk` is positive, and producers, which raise it under `lk` and then call wakeup. One step is what one
    process does between two points where another can interleave. */
module SleepWakeup {
  import opened Common

  datatype Pc =
    | Outside
    // consumer
    | WantLk           // about to acquire lk
    | Testing          // holds lk
    | WantTable        // holds lk, saw 0, in sleep before acquire(&ptable.lock)
    | BothLocks        // in sleep before release(lk)
    | TableOnly        // in sleep, about to set SLEEPING
    | Asleep           // SLEEPING on the channel
    | Woken            // made RUNNABLE, about to retake its locks
    | Used             // took one, still holds lk
    // producer
    | PWantLk
    | PHolds           // holds lk, about to raise the count
    | PRaised(first: bool)   // holds lk; `first`: calls wakeup before it releases lk
    | PWake(holding: bool)   // in wakeup before acquire(&ptable.lock)
    | PScan(i: nat, holding: bool)  // in wakeup1, at slot i of the table
    | PDone            // wakeup is over, lk still held

  datatype World = World(count: nat, lk: Option<nat>, table: Option<nat>, pcs: seq<Pc>)

  /** `Run(p, choice)`: p takes its next step; Kill(p) makes a sleeping process runnable. */
  datatype Event = Run(p: nat, choice: bool) | Kill(p: nat)

  function At(w: World, p: nat, pc: Pc): World
    requires p < |w.pcs|
  {
    w.(pcs := w.pcs[p := pc])
  }

  /** The next state, or None while p has to wait for a lock or is asleep. */
  function Next(w: World, e: Event): (r: Option<World>) {
    if e.p >= |w.pcs| then None
    else
      match e
      case Kill(p) => if w.table == None && w.pcs[p] == Asleep then Some(At(w, p, Woken)) else None
      case Run(p, choice) => RunOne(w, p, choice)
  }

  function RunOne(w: World, p: nat, choice: bool): (r: Option<World>)
    requires p < |w.pcs|
  {
    match w.pcs[p]
    case Outside => Some(At(w, p, if choice then WantLk else PWantLk))
    case WantLk => if w.lk == None then Some(At(w, p, Testing).(lk := Some(p))) else None
    case Testing => if w.count > 0 then Some(At(w, p, Used).(count := w.count - 1)) else Some(At(w, p, WantTable))
    case WantTable => if w.table == None then Some(At(w, p, BothLocks).(table := Some(p))) else None
    case BothLocks => Some(At(w, p, TableOnly).(lk := None))
    case TableOnly => Some(At(w, p, Asleep).(table := None))
    case Asleep => None
    case Woken => if w.table == None then Some(At(w, p, WantLk)) else None
    case Used => Some(At(w, p, Outside).(lk := None))
    case PWantLk => if w.lk == None then Some(At(w, p, PHolds).(lk := Some(p))) else None
    case PHolds => Some(At(w, p, PRaised(choice)).(count := w.count + 1))
    case PRaised(first) => Some(if first then At(w, p, PWake(true)) else At(w, p, PWake(false)).(lk := None))
    case PWake(holding) => if w.table == None then Some(At(w, p, PScan(0, holding)).(table := Some(p))) else None
    case PScan(i, holding) =>
      if i < |w.pcs| then
        var w2 := At(w, p, PScan(i + 1, holding));
        Some(if w.pcs[i] == Asleep then At(w2, i, Woken) else w2)
      else Some(At(w, p, if holding then PDone else Outside).(table := None))
    case PDone => Some(At(w, p, Outside).(lk := None))
  }

  // ----- invariant -----

  predicate HoldsLk(pc: Pc) {
    pc.Testing? || pc.WantTable? || pc.BothLocks? || pc.Used? || pc.PHolds? || pc.PRaised? || pc.PDone?
    || pc == PWake(true) || (pc.PScan? && pc.holding)
  }

  predicate HoldsTable(pc: Pc) {
    pc.BothLocks? || pc.TableOnly? || pc.PScan?
  }

  /** A wakeup is on its way that will still look at slot p. */
  predicate Pending(pc: Pc, p: nat) {
    pc.PRaised? || pc.PWake? || (pc.PScan? && pc.i <= p)
  }

  predicate PendingAt(w: World, q: nat, p: nat) {
    q < |w.pcs| && Pending(w.pcs[q], p)
  }

  predicate LocksAt(w: World, p: nat)
    requires p < |w.pcs|
  {
    (HoldsLk(w.pcs[p]) <==> w.lk == Some(p)) && (HoldsTable(w.pcs[p]) <==> w.table == Some(p))
  }

  /** The locks are held by who thinks so, and nobody else. */
  predicate Locks(w: World) {
    && (forall p | 0 <= p < |w.pcs| :: LocksAt(w, p))
    && (w.lk.Some? ==> w.lk.value < |w.pcs|) && (w.table.Some? ==> w.table.value < |w.pcs|)
  }

  /** p has decided to sleep, or sleeps. */
  predicate Sleepy(pc: Pc) { pc.TableOnly? || pc.Asleep? }

  ghost predicate Covered(w: World, p: nat) {
    p < |w.pcs| && Sleepy(w.pcs[p]) && w.count > 0 ==> exists q: nat :: PendingAt(w, q, p)
  }

  ghost predicate Inv(w: World) {
    && Locks(w)
    && (forall p | 0 <= p < |w.pcs| && (w.pcs[p].WantTable? || w.pcs[p].BothLocks?) :: w.count == 0)
    && (forall p: nat :: Covered(w, p))
  }

  predicate Initial(w: World) {
    w.count == 0 && w.lk == None && w.table == None && forall p | 0 <= p < |w.pcs| :: w.pcs[p] == Outside
  }

  lemma LocksKeepAt(w: World, e: Event, p: nat)
    requires e.p < |w.pcs| && Next(w, e).Some? && p < |w.pcs| && LocksAt(w, p) && LocksAt(w, e.p)
    ensures |Next(w, e).value.pcs| == |w.pcs| && LocksAt(Next(w, e).value, p)
    ensures var w2 := Next(w, e).value;
      (w2.lk == w.lk || w2.lk == None || w2.lk == Some(e.p))
        && (w2.table == w.table || w2.table == None || w2.table == Some(e.p))
  {
  }

  lemma LocksKeep(w: World, e: Event)
    requires Locks(w) && Next(w, e).Some?
    ensures Locks(Next(w, e).value)
  {
    hide Next, LocksAt;
    InRange(w, e);
    LocksKeepAt(w, e, e.p);
    forall p | 0 <= p < |w.pcs| ensures LocksAt(Next(w, e).value, p) { LocksKeepAt(w, e, p); }
  }

  lemma InRange(w: World, e: Event)
    requires Next(w, e).Some?
    ensures e.p < |w.pcs|
  {
  }

  /** One step of one process, from the slot of another or its own. */
  lemma CoveredStep(w: World, e: Event, p: nat, q: nat)
    requires e.p < |w.pcs| && p < |w.pcs| && Next(w, e).Some? && LocksAt(w, e.p) && LocksAt(w, p)
    requires Sleepy(Next(w, e).value.pcs[p]) && PendingAt(w, q, p)
    ensures PendingAt(Next(w, e).value, q, p)
  {
  }

  /** Who is sleepy now was so before, or saw the count at 0; and a count that turns positive is announced. */
  lemma SleepyBefore(w: World, e: Event, p: nat)
    requires e.p < |w.pcs| && p < |w.pcs| && Next(w, e).Some? && Sleepy(Next(w, e).value.pcs[p])
    requires Next(w, e).value.count > 0 && (w.pcs[p].BothLocks? ==> w.count == 0)
    ensures PendingAt(Next(w, e).value, e.p, p) || (Sleepy(w.pcs[p]) && w.count > 0)
  {
  }

  lemma CoveredKeep(w: World, e: Event, p: nat)
    requires Inv(w) && Next(w, e).Some?
    ensures Covered(Next(w, e).value, p)
  {
    hide Next, LocksAt;
    InRange(w, e);
    LocksKeepAt(w, e, e.p);
    var w2 := Next(w, e).value;
    if p < |w2.pcs| && Sleepy(w2.pcs[p]) && w2.count > 0 {
      SleepyBefore(w, e, p);
      if !PendingAt(w2, e.p, p) {
        assert Covered(w, p);
        var q: nat :| PendingAt(w, q, p);
        CoveredStep(w, e, p, q);
      }
    }
  }

  lemma StuckKeep(w: World, e: Event, p: nat)
    requires Inv(w) && Next(w, e).Some? && p < |w.pcs| && |Next(w, e).value.pcs| == |w.pcs|
    requires Next(w, e).value.pcs[p].WantTable? || Next(w, e).value.pcs[p].BothLocks?
    ensures Next(w, e).value.count == 0
  {
    InRange(w, e);
    assert LocksAt(w, p) && LocksAt(w, e.p);
  }

  lemma Keep(w: World, e: Event)
    requires Inv(w) && Next(w, e).Some?
    ensures Inv(Next(w, e).value)
  {
    hide Next, LocksAt, Covered;
    InRange(w, e);
    assert LocksAt(w, e.p);
    LocksKeepAt(w, e, e.p);
    LocksKeep(w, e);
    var w2 := Next(w, e).value;
    forall p | 0 <= p < |w2.pcs| && (w2.pcs[p].WantTable? || w2.pcs[p].BothLocks?)
      ensures w2.count == 0
    {
      StuckKeep(w, e, p);
    }
    forall p: nat ensures Covered(w2, p) { CoveredKeep(w, e, p); }
  }

  // ----- runs -----

  /** The state after the events, or None when one of them was not possible. */
  function Run(w: World, es: seq<Event>): Option<World> {
    if es == [] then Some(w)
    else
      var before := Run(w, es[..|es| - 1]);
      if before == None then None else Next(before.value, es[|es| - 1])
  }

  lemma {:induction false} RunKeeps(w: World, es: seq<Event>)
    requires Initial(w) && Run(w, es).Some?
    ensures Inv(Run(w, es).value)
    decreases |es|
  {
    if es != [] {
      RunKeeps(w, es[..|es| - 1]);
      Keep(Run(w, es[..|es| - 1]).value, es[|es| - 1]);
    }
  }

  /** No interleaving of any number of processes leaves one asleep with the count positive and no wakeup on
      its way to it. */
  lemma NoLostWakeup(w: World, es: seq<Event>, p: nat)
    requires Initial(w) && Run(w, es).Some?
    requires var v := Run(w, es).value; p < |v.pcs| && v.pcs[p] == Asleep && v.count > 0
    ensures exists q: nat :: PendingAt(Run(w, es).value, q, p)
  {
    RunKeeps(w, es);
    assert Covered(Run(w, es).value, p);
  }

  // ----- the wakeup arrives -----

  function StepsLeft(pc: Pc, n: nat): nat {
    match pc
    case BothLocks => 2
    case TableOnly => 1
    case PRaised(_) => n + 3
    case PWake(_) => n + 2
    case PScan(i, _) => if i <= n then n - i + 1 else 1
    case _ => 0
  }

  function HolderSteps(w: World): nat {
    if w.table.Some? && w.table.value < |w.pcs| then StepsLeft(w.pcs[w.table.value], |w.pcs|) else 0
  }

  /** Who is to move so that q's wakeup gets on: q, or the process that holds ptable.lock. */
  function Mover(w: World, q: nat): nat
    requires q < |w.pcs|
  {
    if w.pcs[q].PWake? && w.table.Some? then w.table.value else q
  }

  lemma MoverMoves(w: World, q: nat, p: nat)
    requires Inv(w) && p < |w.pcs| && w.pcs[p] == Asleep && PendingAt(w, q, p)
    ensures var m := Mover(w, q); var r := Next(w, Event.Run(m, true));
      && m != p && r.Some? && |r.value.pcs| == |w.pcs|
      && (r.value.pcs[p] == Asleep ==> PendingAt(r.value, q, p))
      && var before, after := StepsLeft(w.pcs[q], |w.pcs|), StepsLeft(r.value.pcs[q], |w.pcs|);
         after < before || (after == before && HolderSteps(r.value) < HolderSteps(w))
  {
    assert LocksAt(w, Mover(w, q)) && LocksAt(w, p) && LocksAt(w, q);
  }

  predicate ByOthers(es: seq<Event>, k: nat, p: nat) {
    forall j | k <= j < |es| :: es[j].Run? && es[j].p != p
  }

  /** However things stand, the others can go on, without killing anybody, until a process to which a wakeup
      is on its way has been woken. */
  lemma {:induction false} WakeupArrives(w: World, es: seq<Event>, p: nat, q: nat) returns (es2: seq<Event>)
    requires Initial(w) && Run(w, es).Some?
    requires var v := Run(w, es).value; p < |v.pcs| && v.pcs[p] == Asleep && PendingAt(v, q, p)
    ensures es <= es2 && ByOthers(es2, |es|, p) && Run(w, es2).Some?
    ensures var v := Run(w, es2).value; p < |v.pcs| && v.pcs[p] == Woken
    decreases var v := Run(w, es).value; StepsLeft(v.pcs[q], |v.pcs|), HolderSteps(Run(w, es).value)
  {
    hide Next, Inv, Mover, StepsLeft, HolderSteps, Pending;
    var v := Run(w, es).value;
    RunKeeps(w, es);
    MoverMoves(v, q, p);
    var e := Event.Run(Mover(v, q), true);
    var es1 := es + [e];
    assert es1[..|es|] == es;
    assert Run(w, es1) == Next(v, e);
    AwakeIsWoken(v, e, p);
    if Next(v, e).value.pcs[p] == Asleep {
      es2 := WakeupArrives(w, es1, p, q);
    } else {
      es2 := es1;
    }
  }

  lemma AwakeIsWoken(w: World, e: Event, p: nat)
    requires Next(w, e).Some? && p < |w.pcs| && w.pcs[p] == Asleep
    ensures p < |Next(w, e).value.pcs| && Next(w, e).value.pcs[p] in {Asleep, Woken}
  {
  }

  /** A process asleep with the count positive can always still be woken by steps of the others. */
  lemma NeverStuck(w: World, es: seq<Event>, p: nat) returns (es2: seq<Event>)
    requires Initial(w) && Run(w, es).Some?
    requires var v := Run(w, es).value; p < |v.pcs| && v.pcs[p] == Asleep && v.count > 0
    ensures es <= es2 && ByOthers(es2, |es|, p) && Run(w, es2).Some?
    ensures var v := Run(w, es2).value; p < |v.pcs| && v.pcs[p] == Woken
  {
    NoLostWakeup(w, es, p);
    var q: nat :| PendingAt(Run(w, es).value, q, p);
    es2 := WakeupArrives(w, es, p, q);
  }
}
