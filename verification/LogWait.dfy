/** Waiting for the log: the processes asleep on &log in begin_op, and the two wakeups of end_op, over the log
    machine. Testing and going to sleep are one step under log.lock, as SleepWakeup has it, and so are the end of a
    commit and its wakeup. */
module LogWait {
  import opened Blocks
  import M = LogMachine

  type Pid = nat

  datatype State = State(m: M.State, asleep: set<Pid>)

  /** A turn of begin_op's loop by a process, or any other step of the log. */
  datatype Step = Try(pid: Pid, op: M.OpId) | By(a: M.Action)

  /** Where the kernel calls wakeup(&log), and where a crash ends all processes. */
  predicate Wakes(m: M.State, a: M.Action) {
    (a.EndOp? && |m.ops| > 1) || a == M.CommitNothing || a == M.ClearHead || a == M.Crash
  }

  ghost predicate Takes(g: M.Geometry, w: State, step: Step, w': State) {
    match step
    case Try(pid, op) =>
      && M.InRange(g, w.m) && !w.m.phase.Boot? && !w.m.phase.Recover? && pid !in w.asleep && op !in w.m.ops
      && w' == if M.MustWait(w.m) then State(w.m, w.asleep + {pid}) else State(M.BeginStep(w.m, op), w.asleep)
    case By(a) =>
      && !a.BeginOp? && M.Takes(g, w.m, a, w'.m)
      && w'.asleep == if Wakes(w.m, a) then {} else w.asleep
  }

  ghost predicate Runs(g: M.Geometry, w0: State, steps: seq<Step>, w: State)
    decreases |steps|
  {
    if steps == [] then w == w0
    else
      var last := |steps| - 1;
      exists v :: Runs(g, w0, steps[..last], v) && Takes(g, v, steps[last], w)
  }

  /** Somebody is at work who will call wakeup: an operation that has yet to end, or a commit. */
  predicate WakerAtWork(m: M.State) {
    (m.phase == M.Active && m.ops != map[]) || m.phase.CopyToLog? || m.phase.Install?
  }

  ghost predicate Inv(g: M.Geometry, init: seq<Block>, w: State) {
    M.Inv(g, init, w.m) && (w.asleep != {} ==> WakerAtWork(w.m))
  }

  lemma Keep(g: M.Geometry, init: seq<Block>, w: State, step: Step, w': State)
    requires Inv(g, init, w) && Takes(g, w, step, w')
    ensures Inv(g, init, w')
  {
    hide M.Inv;
    match step
    case Try(pid, op) =>
      IdleNeedNotWait(g, init, w.m);
      if !M.MustWait(w.m) {
        M.Keep(g, init, w.m, M.BeginOp(op));
      }
    case By(a) =>
      M.Keep(g, init, w.m, a);
  }

  lemma IdleNeedNotWait(g: M.Geometry, init: seq<Block>, m: M.State)
    requires M.Inv(g, init, m)
    ensures m.phase == M.Active && m.ops == map[] ==> m.lh == [] && !M.MustWait(m)
  {
  }

  /** No lost wakeup: in every run, while a process sleeps in begin_op there is one at work that will wake it. */
  lemma {:induction false} NoLostBegin(g: M.Geometry, init: seq<Block>, w0: State, steps: seq<Step>, w: State)
    requires M.Initial(g, w0.m) && M.RecoversTo(g, w0.m.disk, init) && w0.asleep == {} && Runs(g, w0, steps, w)
    ensures Inv(g, init, w) && (w.asleep != {} ==> WakerAtWork(w.m))
    decreases |steps|
  {
    hide M.Inv, Takes;
    if steps == [] {
      M.RunKeeps(g, init, w0.m, [], w0.m);
    } else {
      var last := |steps| - 1;
      var v :| Runs(g, w0, steps[..last], v) && Takes(g, v, steps[last], w);
      NoLostBegin(g, init, w0, steps[..last], v);
      Keep(g, init, v, steps[last], w);
    }
  }

  // ----- the sleepers can always be woken -----

  /** Steps of the log alone, none of them by a process that calls begin_op. */
  ghost predicate Works(g: M.Geometry, w: State, acts: seq<M.Action>, w': State)
    decreases |acts|
  {
    if acts == [] then w' == w
    else exists v :: Takes(g, w, By(acts[0]), v) && Works(g, v, acts[1..], w')
  }

  /** The rest of a commit. */
  function Rank(m: M.State): int {
    match m.phase
    case CopyToLog(t) => 2 * |m.lh| - t + 2
    case Install(t) => |m.lh| - t + 1
    case _ => 0
  }

  /** The state after one more step of the log. */
  ghost function Next(g: M.Geometry, w: State, a: M.Action): State
    requires M.InRange(g, w.m) && M.Enabled(g, w.m, a)
  {
    State(M.Do(g, w.m, a), if Wakes(w.m, a) then {} else w.asleep)
  }

  lemma WorkOne(g: M.Geometry, w: State, a: M.Action, acts: seq<M.Action>, w': State)
    requires M.InRange(g, w.m) && M.Enabled(g, w.m, a) && !a.BeginOp? && Works(g, Next(g, w, a), acts, w')
    ensures Works(g, w, [a] + acts, w')
  {
    assert ([a] + acts)[1..] == acts;
    assert Takes(g, w, By(a), Next(g, w, a));
  }

  /** What a commit does next. */
  function CommitAction(m: M.State): M.Action {
    match m.phase
    case CopyToLog(t) => if m.lh == [] then M.CommitNothing else if t < |m.lh| then M.CopyBlock else M.WriteHead
    case Install(t) => if t < |m.lh| then M.InstallBlock else M.ClearHead
    case _ => M.Crash
  }

  lemma CommitGoesOn(g: M.Geometry, init: seq<Block>, m: M.State)
    requires M.Inv(g, init, m) && (m.phase.CopyToLog? || m.phase.Install?)
    ensures M.InRange(g, m) && M.Enabled(g, m, CommitAction(m))
    ensures var a, m' := CommitAction(m), M.Do(g, m, CommitAction(m));
      if a == M.CommitNothing || a == M.ClearHead then m'.phase == M.Active && m'.ops == map[]
      else (m'.phase.CopyToLog? || m'.phase.Install?) && 0 <= Rank(m') < Rank(m)
  {
  }

  lemma {:induction false} CommitEnds(g: M.Geometry, init: seq<Block>, w: State)
    returns (acts: seq<M.Action>, w': State)
    requires Inv(g, init, w) && (w.m.phase.CopyToLog? || w.m.phase.Install?) && 0 <= Rank(w.m)
    ensures Works(g, w, acts, w') && w'.asleep == {} && !M.MustWait(w'.m)
    decreases Rank(w.m)
  {
    hide M.Inv, M.InRange, M.Enabled, M.Do, Takes, Works;
    CommitGoesOn(g, init, w.m);
    var a := CommitAction(w.m);
    var v := Next(g, w, a);
    NextKeeps(g, init, w, a);
    if a == M.CommitNothing || a == M.ClearHead {
      IdleNeedNotWait(g, init, v.m);
      acts, w' := [], v;
      WorkNone(g, v);
    } else {
      acts, w' := CommitEnds(g, init, v);
    }
    WorkOne(g, w, a, acts, w');
    acts := [a] + acts;
  }

  lemma WorkNone(g: M.Geometry, w: State)
    ensures Works(g, w, [], w)
  {
  }

  lemma NextKeeps(g: M.Geometry, init: seq<Block>, w: State, a: M.Action)
    requires Inv(g, init, w) && M.InRange(g, w.m) && M.Enabled(g, w.m, a) && !a.BeginOp?
    ensures Inv(g, init, Next(g, w, a))
  {
    hide M.Inv, M.InRange, M.Enabled, M.Do;
    Keep(g, init, w, By(a), Next(g, w, a));
  }

  /** Operations that run can end one by one; the last one commits. */
  lemma {:induction false} OperationsEnd(g: M.Geometry, init: seq<Block>, w: State)
    returns (acts: seq<M.Action>, w': State)
    requires Inv(g, init, w) && w.m.phase == M.Active && w.m.ops != map[]
    ensures Works(g, w, acts, w') && w'.asleep == {} && !M.MustWait(w'.m)
    decreases |w.m.ops|
  {
    hide M.Inv, M.InRange, Takes, Works;
    var op :| op in w.m.ops;
    InRangeNow(g, init, w.m);
    var v := Next(g, w, M.EndOp(op));
    NextKeeps(g, init, w, M.EndOp(op));
    assert w.m.ops.Keys == (w.m.ops - {op}).Keys + {op};
    if |w.m.ops| == 1 {
      acts, w' := CommitEnds(g, init, v);
    } else {
      acts, w' := OperationsEnd(g, init, v);
    }
    WorkOne(g, w, M.EndOp(op), acts, w');
    acts := [M.EndOp(op)] + acts;
  }

  lemma InRangeNow(g: M.Geometry, init: seq<Block>, m: M.State)
    requires M.Inv(g, init, m)
    ensures M.InRange(g, m)
  {
  }

  /** From every state of every run the others can go on, by steps of the log alone, until nobody sleeps in begin_op
      and the next one to try gets in. */
  lemma NeverStuck(g: M.Geometry, init: seq<Block>, w0: State, steps: seq<Step>, w: State)
    returns (acts: seq<M.Action>, w': State)
    requires M.Initial(g, w0.m) && M.RecoversTo(g, w0.m.disk, init) && w0.asleep == {} && Runs(g, w0, steps, w)
    requires w.asleep != {}
    ensures Works(g, w, acts, w') && w'.asleep == {} && !M.MustWait(w'.m)
  {
    hide M.Inv, Takes, Works, Runs;
    NoLostBegin(g, init, w0, steps, w);
    if w.m.phase == M.Active {
      acts, w' := OperationsEnd(g, init, w);
    } else {
      RankBound(g, init, w.m);
      acts, w' := CommitEnds(g, init, w);
    }
  }

  lemma RankBound(g: M.Geometry, init: seq<Block>, m: M.State)
    requires M.Inv(g, init, m)
    ensures 0 <= Rank(m)
  {
  }
}
