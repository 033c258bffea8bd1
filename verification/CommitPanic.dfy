/** Two runs of the log over its cache. In one an operation begins while another has logged a block; in the other the
    commit panics for want of a buffer: on the log that mkfs makes, three operations log 29 blocks
    between them, each within its ten, and one process that only reads holds the last buffer of the cache. */
module CommitPanic {
  import opened Blocks
  import opened BufferCache
  import opened RedoLog
  import opened MkfsLog
  import M = LogMachine

  /** The last block of the disk. */
  const FAR: word := 999

  /** Nobody holds a buffer, and every change has been logged. */
  ghost predicate Resting(log: Log)
    reads log, log.block, log.bc, log.bc.head, log.bc.bufs, log.bc.order
  {
    log.Valid() && log.bc.HeldBy({}) && log.editing == {} && log.g == MKFS && log.start == 2 && log.size == 30
  }

  /** What an operation does to a block: bread, change, log_write, brelse. */
  method Update(log: Log, ghost op: M.OpId, no: word, data: Block)
    requires Resting(log) && op in log.st.ops && MKFS.Home(no) && no < |log.bc.disk|
    requires !M.TooBig(MKFS, log.st) && |log.st.ops[op] + {no}| <= MAXOPBLOCKS && log.bc.Available(no)
    modifies log, log.block, log.bc.Repr()
    ensures Resting(log) && no < |old(log.st.mem)| && log.st == M.WriteStep(old(log.st), op, no, data)
    ensures |log.bc.disk| == |old(log.bc.disk)|
  {
    hide Log.Valid, Bcache.Valid, M.TooBig, Bcache.Pinned, Bcache.Available, Bcache.HeldBy, M.Absorb, M.WriteStep;
    var b := log.Fetch(no);
    log.Edit(b, data);
    var panicked := log.LogWrite(b, op);
    log.Drop(b);
  }

  /** While fewer blocks are pinned than there are buffers, and nobody holds one, bread gets a buffer. */
  lemma HasBuffer(log: Log, no: word)
    requires Resting(log) && |log.st.lh| < NBUF && no !in log.st.lh
    ensures log.bc.Available(no)
  {
    hide Log.Valid, Bcache.Valid, Bcache.Pinned;
    log.Parts();
    log.NobodyApart(no);
    NosCount(log.st.lh);
    assert log.bc.CleanHeld() == {};
    log.bc.BreadPanics(no, {});
  }

  /** The log after the boot, with three operations begun. */
  method Begin(image: seq<Block>, ghost init: seq<Block>, ghost s0: M.State) returns (log: Log)
    requires M.Initial(MKFS, s0) && M.RecoversTo(MKFS, s0.disk, init) && s0.disk == image
    ensures Resting(log) && fresh(log) && fresh(log.block) && fresh(log.bc.Repr()) && log.start == 2 && log.size == 30
    ensures log.st.ops.Keys == {0, 1, 2} && Filling(MKFS, log.st, 0) && |log.bc.disk| == 1000
  {
    hide Log.Valid, Bcache.Valid, M.RecoversTo, M.SameHome, M.Initial, Resting, Filling;
    BootImage(image, s0);
    log := new Log(image, 2, 30, init, s0, [], s0);
    Booted(log);
    BeginThree(log);
  }

  lemma BootImage(image: seq<Block>, s0: M.State)
    requires M.Initial(MKFS, s0) && s0.disk == image
    ensures M.Geometry(2, 30, |image|) == MKFS && s0.phase == M.Boot && M.Reaches(MKFS, s0, [], s0)
  {
  }

  method BeginThree(log: Log)
    requires Resting(log) && log.st.ops == map[] && log.st.lh == [] && |log.bc.disk| == 1000
    modifies log`outstanding, log`st, log`acts
    ensures Resting(log) && log.st.ops.Keys == {0, 1, 2} && Filling(MKFS, log.st, 0)
  {
    hide Log.Valid, Bcache.Valid, Log.Run, M.InRange, Bcache.HeldBy, M.MustWait;
    log.ValidCounts();
    log.Parts();
    var begun := log.TryBeginOp(0);
    begun := log.TryBeginOp(1);
    begun := log.TryBeginOp(2);
    log.Parts();
    log.RunFacts();
  }

  lemma Booted(log: Log)
    requires log.Valid() && log.bc.Quiet() && log.editing == {} && log.g == MKFS && log.st.ops == map[]
    ensures Resting(log) && log.st.lh == [] && |log.bc.disk| == 1000 && log.start == 2 && log.size == 30
  {
    hide Log.Valid, Bcache.Valid, Log.Run, M.InRange, Bcache.HeldBy;
    IdleLog(log);
    log.Parts();
    log.RunFacts();
    DiskSize(log);
  }

  lemma DiskSize(log: Log)
    requires log.Run() && log.g == MKFS
    ensures |log.st.disk| == 1000 && log.start == 2 && log.size == 30
  {
    hide M.Reaches, M.RecoversTo, M.Initial;
    M.RunKeeps(log.g, log.init, log.s0, log.acts, log.st);
  }

  lemma IdleLog(log: Log)
    requires log.Valid() && log.st.ops == map[]
    ensures log.st.lh == []
  {
    hide Log.Valid, M.RecoversTo, M.Initial, M.Reaches;
    log.Parts();
    M.Reservation(log.g, log.init, log.s0, log.acts, log.st);
  }

  /** The reader's block is none that the operations log. */
  lemma FarAway()
    ensures FAR !in Victims(MKFS, 29) && |Victims(MKFS, 29)| == 29
  {
  }

  /** The run: the last end_op panics. */
  method ReaderStopsCommit(image: seq<Block>, ghost init: seq<Block>, ghost s0: M.State) returns (panicked: bool)
    requires M.Initial(MKFS, s0) && M.RecoversTo(MKFS, s0.disk, init) && s0.disk == image
    ensures panicked
  {
    hide Resting, Filling, Log.Valid, Bcache.Valid, Log.Run, M.RecoversTo, M.Initial;
    var log := Begin(image, init, s0);
    LogAll(log);
    panicked := EndAll(log);
  }

  /** 29 blocks, ten for each of the first two operations and nine for the third. */
  method LogAll(log: Log)
    requires Resting(log) && log.st.ops.Keys == {0, 1, 2} && Filling(MKFS, log.st, 0) && |log.bc.disk| == 1000
    modifies log, log.block, log.bc.Repr()
    ensures Resting(log) && log.st.ops.Keys == {0, 1, 2} && Filling(MKFS, log.st, 29) && |log.bc.disk| == 1000
  {
    hide Resting, Filling, M.TooBig, M.WriteStep, M.Geometry.Home;
    for k := 0 to 29
      invariant Resting(log) && log.st.ops.Keys == {0, 1, 2} && Filling(MKFS, log.st, k) && |log.bc.disk| == 1000
    {
      FillOne(MKFS, log.st, k);
      ListSize(log.st, k);
      var no: word := Victim(MKFS, k);
      HasBuffer(log, no);
      ghost var p := log.st;
      Update(log, k / 10, no, Zeros());
      SameOps(p, k / 10, no, Zeros());
    }
  }

  lemma ListSize(s: M.State, k: nat)
    requires Filling(MKFS, s, k)
    ensures |s.lh| == k && s.phase == M.Active && forall op: nat | op < 3 :: op in s.ops
  {
  }

  lemma SameOps(s: M.State, op: M.OpId, no: word, data: Block)
    requires op in s.ops && no < |s.mem|
    ensures M.WriteStep(s, op, no, data).ops.Keys == s.ops.Keys
  {
  }

  /** Two operations end; a reader takes the last buffer; the third operation ends. */
  method EndAll(log: Log) returns (panicked: bool)
    requires Resting(log) && log.st.ops.Keys == {0, 1, 2} && Filling(MKFS, log.st, 29) && |log.bc.disk| == 1000
    modifies log, log.block, log.bc.Repr()
    ensures panicked
  {
    hide Resting, Log.Valid, Bcache.Valid, Victims, Log.Reading, Bcache.HeldBy, Bcache.Snapshot, Bcache.Got,
      Bcache.Cached;
    ListSize(log.st, 29);
    EndOne(log, 0);
    EndOne(log, 1);
    panicked := EndLast(log);
  }

  /** An operation ends while others run. */
  method EndOne(log: Log, ghost op: M.OpId)
    requires Resting(log) && op in log.st.ops && |log.st.ops| > 1
    modifies log, log.block, log.bc.Repr()
    ensures Resting(log) && log.st == M.EndStep(old(log.st), op) && log.st.phase == M.Active
    ensures |log.bc.disk| == |old(log.bc.disk)| && log.st.lh == old(log.st.lh)
  {
    hide Log.Valid, Bcache.Valid, Log.Run;
    log.Parts();
    var panicked := log.EndOp(op, {});
    log.Parts();
  }

  method EndLast(log: Log) returns (panicked: bool)
    requires Resting(log) && log.st.ops.Keys == {2} && log.st.lh == Victims(MKFS, 29) && |log.bc.disk| == 1000
    modifies log, log.block, log.bc.Repr()
    ensures panicked
  {
    hide Log.Valid, Bcache.Valid, Log.Run, Log.Reading, Bcache.HeldBy, Bcache.Snapshot, Bcache.Available, Bcache.Got,
      Victims;
    log.Parts();
    FarAway();
    HasBuffer(log, FAR);
    var b := log.Fetch(FAR);
    ReaderReads(log, b);
    log.Parts();
    panicked := log.EndOp(2, {b});
  }

  lemma ReaderReads(log: Log, b: Buf)
    requires log.Valid() && log.bc.Got(b, FAR) && log.bc.Cached(b, DISKDEV, FAR) && FAR !in log.st.lh && log.start == 2
               && log.size == 30
    ensures log.Reading({b}, log.bc.Snapshot({b}), log.st.lh)
  {
    hide Log.Valid, Bcache.Valid;
    log.Parts();
    assert forall c | c in log.bc.bufs && c.dirty :: c.blockno in log.bc.Pinned();
    assert !b.dirty;
  }

  // ----- operations that overlap -----

  /** An operation begins, logs a block, and a second one gets in before the first has ended. */
  method Overlap(image: seq<Block>, ghost init: seq<Block>, ghost s0: M.State) returns (begun: bool, logged: nat)
    requires M.Initial(MKFS, s0) && M.RecoversTo(MKFS, s0.disk, init) && s0.disk == image
    ensures begun && logged == 1
  {
    hide Resting, Log.Valid, Bcache.Valid, M.RecoversTo, M.SameHome, M.Initial, Log.Run, M.InRange, Filling;
    BootImage(image, s0);
    var log := new Log(image, 2, 30, init, s0, [], s0);
    Booted(log);
    FirstOperation(log);
    log.ValidCounts();
    begun := log.TryBeginOp(1);
    logged := log.n;
  }

  method FirstOperation(log: Log)
    requires Resting(log) && log.st.ops == map[] && log.st.lh == [] && |log.bc.disk| == 1000
    modifies log, log.block, log.bc.Repr()
    ensures log.Valid() && log.n == 1 && log.outstanding == 1 && !log.committing && 1 !in log.st.ops
  {
    hide Log.Valid, Bcache.Valid, Log.Run, M.InRange, Bcache.HeldBy, Bcache.Available;
    log.ValidCounts();
    log.Parts();
    var begun := log.TryBeginOp(0);
    HasBuffer(log, FAR);
    Update(log, 0, FAR, Zeros());
    log.Parts();
  }
}
