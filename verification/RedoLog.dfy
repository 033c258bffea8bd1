/** log.c over the buffer cache. Each disk write of these methods is one step of the log machine:
    a ghost run grows with every step, so whatever holds of every state of every run holds at
    every moment between two disk writes of the loops below. */
module RedoLog {
  import opened Blocks
  import opened BufferCache
  import M = LogMachine

  /** The block numbers of a list. */
  ghost function Nos(lh: seq<word>): set<word> {
    set b | b in lh
  }

  lemma NosAbsorb(lh: seq<word>, b: word)
    ensures Nos(M.Absorb(lh, b)) == Nos(lh) + {b}
  {
  }

  lemma NosTail(lh: seq<word>, t: nat)
    requires t < |lh| && forall i, j | 0 <= i < j < |lh| :: lh[i] != lh[j]
    ensures Nos(lh[t..]) - {lh[t]} == Nos(lh[t+1..]) && lh[t] in Nos(lh[t..])
  {
    assert lh[t..] == [lh[t]] + lh[t+1..];
    assert lh[t] !in lh[t+1..];
  }

  lemma NosHas(lh: seq<word>, t: nat)
    requires t < |lh|
    ensures lh[t] in Nos(lh)
  {
  }

  lemma NosCount(lh: seq<word>)
    ensures |Nos(lh)| <= |lh|
  {
    if lh != [] {
      NosCount(lh[1..]);
      assert lh == [lh[0]] + lh[1..];
      assert Nos(lh) == Nos(lh[1..]) + {lh[0]};
    } else {
      assert Nos(lh) == {};
    }
  }

  lemma {:induction false} NosSize(lh: seq<word>)
    requires forall i, j | 0 <= i < j < |lh| :: lh[i] != lh[j]
    ensures |Nos(lh)| == |lh|
  {
    if lh != [] {
      NosSize(lh[1..]);
      assert lh == [lh[0]] + lh[1..];
      assert Nos(lh) == Nos(lh[1..]) + {lh[0]};
    } else {
      assert Nos(lh) == {};
    }
  }

  lemma NosParts(lh: seq<word>, t: nat)
    requires t < |lh|
    ensures Nos(lh[t..]) <= Nos(lh) && lh[t] in Nos(lh[t..])
  {
    assert lh[t..][0] == lh[t];
  }

  lemma SameCount(ops: map<M.OpId, set<word>>, op: M.OpId, bs: set<word>)
    requires op in ops
    ensures |ops[op := bs]| == |ops|
  {
    assert ops[op := bs].Keys == ops.Keys;
  }

  class Log {
    const bc: Bcache
    const start: nat
    const size: nat
    const block: array<word>     // lh.block
    var n: nat                   // lh.n
    var outstanding: nat
    var committing: bool

    ghost const g: M.Geometry
    ghost const init: seq<Block> // what the disk recovered to when the run began
    ghost const s0: M.State
    ghost var acts: seq<M.Action>
    ghost var st: M.State
    ghost var editing: set<word>  // blocks whose holder has changed them and not yet logged them
    ghost var readers: set<Buf>   // buffers that processes outside transactions hold during a commit
    ghost var snap: map<Buf, Snap>

    /** The ghost run is a run of the log machine that ends in `st`. */
    ghost predicate Run()
      reads this`acts, this`st
    {
      && g.start == start && g.size == size
      && M.Initial(g, s0) && M.RecoversTo(g, s0.disk, init)
      && M.Reaches(g, s0, acts, st)
    }

    /** The log in memory is the machine's state, and `pins` are the blocks pinned in the cache. */
    ghost predicate Matches(pins: set<word>)
      reads this`st, this`n, this`outstanding, block, bc, bc.head, bc.bufs, bc.order
    {
      && bc.Valid() && bc.Pinned() == pins
      && InMemory() && Listed()
    }

    /** block[0..n] is the machine's list. */
    ghost predicate Listed()
      reads this`n, this`st, block
    {
      block.Length == LOGSIZE && n <= LOGSIZE && st.lh == block[..n]
    }

    ghost predicate InMemory()
      reads this`st, this`outstanding, bc`disk, bc`view
    {
      && |st.ops| == outstanding && st.disk == bc.disk && |st.mem| == |bc.view|
    }

    /** Operations may run. */
    ghost predicate Valid()
      reads this, block, bc, bc.head, bc.bufs, bc.order
    {
      && Run() && Matches(Nos(st.lh)) && st.phase == M.Active && !committing
      && forall k | 0 <= k < |bc.view| && k !in editing :: st.mem[k] == bc.view[k]
    }

    /** One more step of the run. */
    ghost method Advance(a: M.Action)
      requires Run() && M.InRange(g, st) && M.Enabled(g, st, a)
      modifies this`st, this`acts
      ensures Run() && st == M.Do(g, old(st), a) && acts == old(acts) + [a]
    {
      var p := st;
      st := M.Do(g, st, a);
      M.Extend(g, s0, acts, p, a, st);
      acts := acts + [a];
    }

    /** What the invariant of the run says about the blocks the loops touch. */
    lemma RunFacts()
      requires Run()
      ensures g.start == start && g.size == size && M.InRange(g, st)
      ensures start + size <= |st.disk| == |st.mem| <= WORDLIMIT
      ensures forall i | 0 <= i < |st.lh| :: st.lh[i] < |st.disk| && g.Home(st.lh[i])
      ensures forall i, j | 0 <= i < j < |st.lh| :: st.lh[i] != st.lh[j]
      ensures forall b | g.start <= b < g.start + g.size :: !g.Home(b)
      ensures !st.phase.Active? ==> st.ops == map[]
      ensures |st.lh| < size && (st.phase.Boot? ==> st.lh == [])
    {
      M.RunKeeps(g, init, s0, acts, st);
    }

    /** initlog after a boot: `image` is what the last crash left on the disk. */
    constructor (image: seq<Block>, start: nat, size: nat, ghost init: seq<Block>,
                 ghost s0: M.State, ghost acts: seq<M.Action>, ghost st: M.State)
      requires M.Initial(M.Geometry(start, size, |image|), s0)
      requires M.RecoversTo(M.Geometry(start, size, |image|), s0.disk, init)
      requires M.Reaches(M.Geometry(start, size, |image|), s0, acts, st)
      requires st.phase == M.Boot && st.disk == image
      ensures Valid() && bc.Quiet() && editing == {} && fresh(bc.Repr()) && fresh(block)
      ensures this.init == init && this.s0 == s0 && g == M.Geometry(start, size, |image|)
      ensures this.st.groups == st.groups && this.st.ops == map[]
                && M.SameHome(g, bc.disk, M.ApplyGroups(init, st.groups))
    {
      hide Bcache.Valid, Bcache.Pinned, Bcache.Quiet, M.Initial, M.RecoversTo, M.Reaches, M.SameHome, Log.Valid;
      this.start, this.size, n, outstanding, committing := start, size, 0, 0, false;
      this.init, this.s0, this.acts, this.st, editing, readers, snap := init, s0, acts, st, {}, {}, map[];
      g := M.Geometry(start, size, |image|);
      bc := new Bcache(image);
      block := new word[LOGSIZE](_ => 0);
      new;
      InitLog();
    }

    /** initlog's work: replay the log and clear it. */
    method InitLog()
      requires Run() && st.phase == M.Boot && st.disk == bc.disk == bc.view && readers == {} && snap == map[]
      requires bc.Valid() && bc.Quiet() && bc.Pinned() == {}
      requires block.Length == LOGSIZE && n == 0 && outstanding == 0 && !committing && editing == {}
      modifies this`n, block, this`st, this`acts, bc.Repr()
      ensures Valid() && bc.Quiet() && st.groups == old(st.groups) && st.ops == map[]
      ensures M.SameHome(g, bc.disk, M.ApplyGroups(init, st.groups))
    {
      hide Bcache.Valid, Bcache.Pinned, Bcache.HeldBy, Bcache.Snapshot, Log.Aside, Log.Valid, Log.Committing, Log.Run,
        Nos, M.InRange, M.Geometry.Home;
      BootFacts();
      AsideNone();
      RecoverFromLog();
      Unfold({});
      BootFacts();
      CommitEnds();
      AsideEnds();
    }

    lemma BootFacts()
      requires Run()
      ensures st.phase == M.Boot ==> st.lh == [] && st.ops == map[] && st.mem == st.disk
      ensures st.phase == M.Active ==> M.SameHome(g, st.disk, M.ApplyGroups(init, st.groups))
    {
      M.RunKeeps(g, init, s0, acts, st);
    }

    /** A crash now leaves a disk from which the constructor can start the next boot. */
    lemma AfterCrash() returns (acts': seq<M.Action>, st': M.State)
      requires Run()
      ensures M.Reaches(g, s0, acts', st') && st'.phase == M.Boot
      ensures st'.disk == st.disk && st'.groups == st.groups
    {
      RunFacts();
      st' := M.CrashStep(st);
      M.Extend(g, s0, acts, st, M.Crash, st');
      acts' := acts + [M.Crash];
    }

    // ----- begin_op and log_write -----

    /** What begin_op looks at, at any moment after the boot, also while a commit runs. */
    ghost predicate Counted()
      reads this`acts, this`st, this`n, this`outstanding, this`committing
    {
      Run() && n == |st.lh| && outstanding == |st.ops| && (!committing ==> st.phase == M.Active)
    }

    /** One turn of begin_op's loop: false where it sleeps, to try again when woken. */
    method TryBeginOp(ghost op: M.OpId) returns (begun: bool)
      requires Counted() && op !in st.ops
      modifies this`outstanding, this`st, this`acts
      ensures Counted() && (old(Valid()) ==> Valid())
      ensures begun <==> !committing && old(n) + (old(outstanding) + 1) * MAXOPBLOCKS <= LOGSIZE
      ensures begun == !(committing || M.MustWait(old(st)))
      ensures begun ==> st == M.BeginStep(old(st), op) && acts == old(acts) + [M.BeginOp(op)]
      ensures !begun ==> st == old(st) && acts == old(acts)
    {
      hide Bcache.Linked, Bcache.Contents, Log.Run;
      RunFacts();
      if committing {
        return false;
      } else if n + (outstanding + 1) * MAXOPBLOCKS > LOGSIZE {
        return false;
      } else {
        Advance(M.BeginOp(op));
        outstanding := outstanding + 1;
        return true;
      }
    }

    lemma ValidCounts()
      requires Valid()
      ensures Counted()
    {
      hide Bcache.Linked, Bcache.Contents, Log.Run;
    }

    /** The holder of a buffer changes its contents, before telling the log. */
    method Edit(b: Buf, data: Block)
      requires Valid() && bc.Held(b)
      modifies this`editing, bc`view, b`data
      ensures Valid() && b.data == data && editing == old(editing) + {b.blockno} && acts == old(acts)
    {
      hide Bcache.Linked, Bcache.Contents, Log.Run;
      bc.HeldInRange(b);
      bc.Modify(b, data);
      editing := editing + {b.blockno};
    }

    /** The holder of b has changed it and tells the log, for its operation. */
    method LogWrite(b: Buf, ghost op: M.OpId) returns (panicked: bool)
      requires Valid() && bc.Held(b) && op in st.ops
      requires g.Home(b.blockno) && |st.ops[op] + {b.blockno}| <= MAXOPBLOCKS
      modifies this`n, block, this`st, this`acts, this`editing, b`dirty
      ensures panicked == M.TooBig(g, old(st)) == (old(n) >= LOGSIZE || old(n) >= size - 1)
      ensures !panicked ==> Valid() && acts == old(acts) + [M.LogWrite(op, b.blockno, b.data)]
      ensures !panicked ==> b.blockno < |old(st.mem)| && st == M.WriteStep(old(st), op, b.blockno, b.data)
      ensures !panicked ==>
                editing == old(editing) - {b.blockno} && bc.Pinned() == old(bc.Pinned()) + {b.blockno} && b.dirty
    {
      hide Bcache.Linked, Bcache.Contents, Log.Run;
      RunFacts();
      if n >= LOGSIZE || n >= size - 1 {
        return true;
      }
      if outstanding < 1 {
        assert false;   // "log_write outside of trans" cannot happen: op is running
      }
      Record(b, op);
      return false;
    }

    /** Traffic in the cache that leaves disk, contents and pins alone. */
    twostate lemma CacheMoved()
      requires old(Valid()) && bc.Valid() && bc.Pinned() == old(bc.Pinned()) && bc.disk == old(bc.disk)
                 && bc.view == old(bc.view)
      requires unchanged(this) && unchanged(block)
      ensures Valid()
    {
      hide Bcache.Linked, Bcache.Contents, Log.Run;
    }

    /** bread by an operation while nobody else holds a buffer. */
    method Fetch(no: word) returns (b: Buf)
      requires Valid() && bc.HeldBy({}) && no < |bc.disk| && bc.Available(no)
      modifies bc`disk, bc.bufs`refcnt, bc.bufs`dev, bc.bufs`blockno, bc.bufs`valid, bc.bufs`dirty, bc.bufs`locked,
        bc.bufs`data
      ensures Valid() && bc.Got(b, no) && bc.HeldBy({b}) && bc.disk == old(bc.disk) && bc.Pinned() == old(bc.Pinned())
      ensures bc.Cached(b, DISKDEV, no)
    {
      hide Log.Valid, Bcache.Valid, Bcache.Pinned, Bcache.Available, Bcache.Got;
      Parts();
      NobodyApart(no);
      b := bc.BreadApart(no, {}, {});
      CacheMoved();
      assert {} + {b} == {b};
    }

    lemma Parts()
      requires Valid()
      ensures bc.Valid() && bc.Pinned() == Nos(st.lh) && |bc.disk| == |st.disk| && st.phase == M.Active && Run()
      ensures outstanding == |st.ops| && n == |st.lh| && !committing
    {
      hide Bcache.Linked, Bcache.Contents, Log.Run;
    }

    lemma NobodyApart(no: word)
      ensures bc.Apart({}, no)
    {
    }

    /** brelse of the one buffer held. */
    method Drop(b: Buf)
      requires Valid() && bc.HeldBy({b}) && b in bc.bufs && b.locked && b.refcnt == 1
      requires b.valid && !b.dirty ==> b.blockno < |bc.disk| && b.data == bc.disk[b.blockno]
      modifies b`locked, b`refcnt, bc.bufs`prev, bc.bufs`next, bc.bufs`released, bc.head`prev, bc.head`next, bc`order,
        bc`clock
      ensures Valid() && bc.HeldBy({})
    {
      hide Log.Valid, Bcache.Linked, Bcache.Contents;
      Parts();
      bc.ReleaseOne(b);
      CacheMoved();
    }

    method Record(b: Buf, ghost op: M.OpId)
      requires Valid() && bc.Held(b) && op in st.ops && n < LOGSIZE
      requires M.InRange(g, st) && M.Enabled(g, st, M.LogWrite(op, b.blockno, b.data))
      modifies this`n, block, this`st, this`acts, this`editing, b`dirty
      ensures Valid() && acts == old(acts) + [M.LogWrite(op, b.blockno, b.data)]
      ensures b.blockno < |old(st.mem)| && st == M.WriteStep(old(st), op, b.blockno, b.data)
      ensures editing == old(editing) - {b.blockno} && bc.Pinned() == old(bc.Pinned()) + {b.blockno} && b.dirty
    {
      hide Bcache.Linked, Bcache.Contents, Bcache.Pinned, Nos, M.Absorb, Log.Run, M.InRange, M.Enabled;
      bc.HeldInRange(b);
      NosAbsorb(st.lh, b.blockno);
      Enter(b.blockno);
      bc.Pin(b);
      AdvanceWrite(op, b.blockno, b.data);
      editing := editing - {b.blockno};
    }

    ghost method AdvanceWrite(op: M.OpId, b: word, data: Block)
      requires Run() && M.InRange(g, st) && M.Enabled(g, st, M.LogWrite(op, b, data))
      modifies this`st, this`acts
      ensures Run() && acts == old(acts) + [M.LogWrite(op, b, data)]
      ensures b < |old(st.mem)| && st == M.WriteStep(old(st), op, b, data)
      ensures st.disk == old(st.disk) && st.mem == old(st.mem)[b := data] && st.lh == M.Absorb(old(st.lh), b)
      ensures st.phase == old(st.phase) && |st.ops| == |old(st.ops)|
    {
      SameCount(st.ops, op, st.ops[op] + {b});
      Advance(M.LogWrite(op, b, data));
    }

    /** The loop of log_write: absorb the block if it is logged already, or append it. */
    method Enter(b: word)
      requires block.Length == LOGSIZE && n < LOGSIZE
      modifies this`n, block
      ensures n <= LOGSIZE && block[..n] == M.Absorb(old(block[..n]), b)
      ensures block[..n] == if b in old(block[..n]) then old(block[..n]) else old(block[..n]) + [b]
    {
      var i := 0;
      while i < n
        invariant i <= n && b !in block[..i]
      {
        if block[i] == b {
          break;
        }
        i := i + 1;
      }
      block[i] := b;
      if i == n {
        n := n + 1;
      }
    }

    // ----- end_op and commit -----

    /** Those who hold buffers only read, and read neither the log nor a logged block. */
    ghost predicate Reading(rs: set<Buf>, sn: map<Buf, Snap>, lh: seq<word>) {
      && rs <= bc.All()
      && forall c | c in sn :: !sn[c].dirty &&
           (sn[c].dev == DISKDEV ==> sn[c].blockno !in Nos(lh) && !(start <= sn[c].blockno < start + size))
    }

    /** Only the readers hold buffers, and what those hold does not change. */
    ghost predicate Aside()
      reads this`st, this`readers, this`snap, bc, bc.bufs
    {
      bc.HeldBy(readers) && bc.Snapshot(readers) == snap && Reading(readers, snap, st.lh)
    }

    /** Nobody else holds a buffer, and every change has been logged. */
    ghost predicate Still()
      reads this`st, this`readers, this`snap, this`editing, bc, bc.bufs
    {
      Aside() && editing == {} && st.mem == bc.view
    }

    /** The last operation to end commits for all, while readers may hold the buffers in rs. It panics for want
        of a buffer exactly when the logged blocks and the buffers of the readers take up the whole cache. */
    method EndOp(ghost op: M.OpId, ghost rs: set<Buf>) returns (panicked: bool)
      requires Valid() && op in st.ops
      requires outstanding == 1 ==> bc.HeldBy(rs) && Reading(rs, bc.Snapshot(rs), st.lh) && editing == {}
      modifies this, block, bc.Repr()
      ensures panicked <==> old(outstanding) == 1 && 0 < old(n) && old(n) + |rs| == NBUF
      ensures panicked ==> Run() && bc.disk == old(bc.disk)
      ensures panicked && rs == {} ==> size > NBUF
      ensures !panicked ==> Valid() && editing == old(editing)
      ensures old(outstanding) > 1 ==> acts == old(acts) + [M.EndOp(op)] && st == M.EndStep(old(st), op)
      ensures old(outstanding) > 1 ==> bc.disk == old(bc.disk) && forall c | c in bc.bufs :: unchanged(c)
      ensures old(outstanding) == 1 && !panicked ==> st.ops == map[] && n == 0 && Still()
      ensures old(outstanding) == 1 && !panicked ==> st.groups == old(st.groups) + [old(st.cur) + [M.Ended(op)]]
    {
      hide Bcache.Valid, Bcache.HeldBy, Bcache.Snapshot, Bcache.Pinned, Log.Run, Log.Reading, Log.Matches, Log.Valid,
        Log.Committing, Log.Listed, Log.Still, Nos;
      EndFacts(op);
      outstanding := outstanding - 1;
      if committing {
        assert false;   // "log.committing" cannot happen
      }
      var doCommit := false;
      if outstanding == 0 {
        doCommit := true;
        committing := true;
        readers, snap := rs, bc.Snapshot(rs);
      }
      AdvanceEnd(op);
      panicked := false;
      if doCommit {
        ListedKept();
        CommitStarts();
        panicked := CommitAll();
      } else {
        ListedKept();
        EndedOne();
      }
    }

    /** The second half of end_op: commit, and let operations in again. */
    method CommitAll() returns (panicked: bool)
      requires Committing(Nos(st.lh)) && st.phase == M.CopyToLog(0) && st.ops == map[]
      modifies this`committing, this`n, this`st, this`acts, bc.Repr()
      ensures panicked <==> 0 < old(n) && old(n) + |readers| == NBUF
      ensures panicked ==> Run() && bc.disk == old(bc.disk)
      ensures !panicked ==> Valid() && Still() && editing == {} && st.ops == map[] && n == 0
      ensures !panicked ==> st.groups == old(st.groups) + [old(st.cur)]
    {
      hide Bcache.Valid, Bcache.HeldBy, Bcache.Snapshot, Bcache.Pinned, Log.Run, Log.Reading, Log.Matches, Log.Aside,
        Log.Valid, Log.Committing;
      panicked := Commit();
      committing := panicked;
      if !panicked {
        CommitEnds();
      }
    }

    /** What an operation about to end can rely on. */
    lemma EndFacts(op: M.OpId)
      requires Valid() && op in st.ops
      ensures Run() && st.phase == M.Active && !committing && outstanding == |st.ops| > 0 && n == |st.lh| < size
      ensures bc.Valid() && bc.Pinned() == Nos(st.lh) && Listed() && SameMem()
    {
      hide Bcache.Linked, Bcache.Contents, Log.Run;
      RunFacts();
      assert op in st.ops.Keys;
    }

    /** Memory is the machine's, but for the blocks being changed. */
    ghost predicate SameMem()
      reads this`st, this`editing, bc`disk, bc`view
    {
      && st.disk == bc.disk && |st.mem| == |bc.view|
      && forall k | 0 <= k < |bc.view| && k !in editing :: st.mem[k] == bc.view[k]
    }

    /** The operation was the last: what is left to do is the commit. */
    lemma CommitStarts()
      requires Run() && bc.Valid() && bc.Pinned() == Nos(st.lh) && Listed() && SameMem() && |st.ops| == outstanding
      requires bc.HeldBy(readers) && snap == bc.Snapshot(readers) && Reading(readers, snap, st.lh) && editing == {}
      ensures Committing(Nos(st.lh))
    {
      hide Bcache.Linked, Bcache.Contents, Log.Run, Log.Reading, Bcache.HeldBy, Bcache.Snapshot;
      assert st.mem == bc.view;
    }

    lemma EndedOne()
      requires Run() && bc.Valid() && bc.Pinned() == Nos(st.lh) && Listed() && SameMem() && |st.ops| == outstanding
      requires st.phase == M.Active && !committing
      ensures Valid()
    {
      hide Bcache.Linked, Bcache.Contents, Log.Run;
    }

    lemma CommitEnds()
      requires Committing({}) && st.phase == M.Active && st.lh == [] && !committing
      ensures Valid() && Still() && editing == {}
    {
      hide Bcache.Linked, Bcache.Contents, Log.Run, Log.Aside;
    }

    ghost method AdvanceEnd(op: M.OpId)
      requires Run() && st.phase == M.Active && op in st.ops
      modifies this`st, this`acts
      ensures Run() && st == M.EndStep(old(st), op) && acts == old(acts) + [M.EndOp(op)]
      ensures |st.ops| == |old(st.ops)| - 1
    {
      RunFacts();
      Advance(M.EndOp(op));
      assert st.ops.Keys == old(st.ops).Keys - {op};
    }

    /** A commit is running: `pins` are the blocks not yet installed. */
    ghost predicate Committing(pins: set<word>)
      reads this`acts, this`st, this`n, this`outstanding, this`readers, this`snap, this`editing, block, bc, bc.head,
        bc.bufs, bc.order
    {
      Run() && Matches(pins) && Still()
    }

    /** Some buffer can be had for a block that nobody uses. */
    ghost predicate Spare()
      reads this`n, this`readers
    {
      n + |readers| < NBUF
    }

    lemma Unfold(pins: set<word>)
      requires Committing(pins)
      ensures Run() && bc.Valid() && Aside() && bc.Pinned() == pins
      ensures Listed() && n == |st.lh| && |st.ops| == outstanding
      ensures block.Length == LOGSIZE && forall i | 0 <= i < n :: block[i] == st.lh[i]
      ensures st.disk == bc.disk && st.mem == bc.view && |st.disk| == |st.mem| && editing == {}
    {
      hide Bcache.Linked, Log.Run;
    }

    lemma Fold(pins: set<word>)
      requires Run() && bc.Valid() && Aside() && bc.Pinned() == pins
      requires Listed() && |st.ops| == outstanding
      requires st.disk == bc.disk && st.mem == bc.view && editing == {}
      ensures Committing(pins)
    {
      hide Bcache.Linked, Log.Run;
    }

    lemma AsideHolds()
      requires Aside()
      ensures bc.HeldBy(readers)
      ensures forall no: word | no in Nos(st.lh) || start <= no < start + size :: bc.Apart(readers, no)
    {
      forall no: word | no in Nos(st.lh) || start <= no < start + size ensures bc.Apart(readers, no) {
        forall c | c in bc.bufs && c in readers ensures !(c.dev == DISKDEV && c.blockno == no) {
          assert c in bc.Snapshot(readers);
        }
      }
    }

    /** The readers' buffers are the clean ones in use. */
    lemma ReadersCount()
      requires Aside()
      ensures |bc.CleanHeld()| == |readers|
    {
      forall c | c in readers ensures c in bc.CleanHeld() {
        assert c in bc.Snapshot(readers);
      }
      assert bc.CleanHeld() == readers;
    }

    /** A buffer for a block of the log can be had exactly while there is a spare one. */
    lemma SlotAvailable(slot: word, pins: set<word>)
      requires bc.Valid() && Aside() && bc.Pinned() == pins <= Nos(st.lh) && Run()
      requires start <= slot < start + size
      ensures bc.Available(slot) <==> |pins| + |readers| != NBUF
      ensures |pins| + |readers| <= NBUF
    {
      hide Bcache.Linked, Bcache.Contents, Log.Run, Bcache.Available, Bcache.Valid, Bcache.Pinned, Log.Aside;
      AsideHolds();
      ReadersCount();
      RunFacts();
      bc.NoneRecyclable();
      bc.BreadPanics(slot, readers);
    }

    twostate lemma ListedKept()
      requires old(Listed()) && st.lh == old(st.lh) && n == old(n) && unchanged(block)
      ensures Listed()
    {
    }

    /** commit: afterwards every event since the last commit is in one more committed group; or the first bread
        has panicked, before anything was written. */
    method Commit() returns (panicked: bool)
      requires Committing(Nos(st.lh)) && st.phase == M.CopyToLog(0)
      modifies this`n, this`st, this`acts, bc.Repr()
      ensures panicked <==> 0 < old(n) && old(n) + |readers| == NBUF
      ensures panicked ==> Run() && bc.disk == old(bc.disk)
      ensures !panicked ==> Committing({}) && st.phase == M.Active && st.lh == [] && n == 0
      ensures !panicked ==> st.groups == old(st.groups) + [old(st.cur)] && st.cur == [] && st.ops == old(st.ops)
    {
      hide Bcache.Valid, Bcache.Pinned, Bcache.Available, Bcache.HeldBy, Bcache.Apart, Bcache.Snapshot,
        Bcache.CanRead, Log.Aside, Log.Reading, Log.Run, Log.Committing, Log.Listed, Nos, M.InRange, M.Geometry.Home;
      Unfold(Nos(st.lh));
      panicked := false;
      if n > 0 {
        var ok := WriteLog();
        if !ok {
          return true;
        }
        CommitHead();
        AllPinned();
        Unfold(Nos(st.lh));
        InstallTrans(false);
        Erase(false);
      } else {
        AsideEnds();
        AdvanceNothing();
        NothingPinned();
        ListedKept();
        AsideKept();
        Fold({});
      }
    }

    twostate lemma AsideKept()
      requires old(Aside()) && readers == old(readers) && snap == old(snap) && (st.lh == old(st.lh) || st.lh == [])
      requires bc.HeldBy(readers) && bc.Snapshot(readers) == snap
      ensures Aside()
    {
    }

    lemma AllPinned()
      ensures Uninstalled(st.lh, 0, false) == Nos(st.lh)
    {
      assert st.lh[0..] == st.lh;
    }

    lemma NothingPinned()
      ensures st.lh == [] ==> Nos(st.lh) == {}
    {
    }

    ghost method AdvanceNothing()
      requires Run() && st.phase == M.CopyToLog(0) && st.lh == []
      modifies this`st, this`acts
      ensures Run() && acts == old(acts) + [M.CommitNothing] && st.phase == M.Active
      ensures st.disk == old(st.disk) && st.mem == old(st.mem) && st.ops == old(st.ops) && st.lh == []
      ensures st.groups == old(st.groups) + [old(st.cur)] && st.cur == []
    {
      RunFacts();
      Advance(M.CommitNothing);
    }

    method WriteLog() returns (ok: bool)
      requires Committing(Nos(st.lh)) && st.phase == M.CopyToLog(0) && n > 0
      modifies this`st, this`acts, bc.Repr()
      ensures ok == Spare() && (!ok ==> old(n) + |readers| == NBUF)
      ensures !ok ==> Run() && bc.disk == old(bc.disk)
      ensures ok ==> Committing(Nos(st.lh)) && st.phase == M.CopyToLog(n)
      ensures ok ==>
                st.groups == old(st.groups) && st.cur == old(st.cur) && st.ops == old(st.ops) && st.lh == old(st.lh)
    {
      hide Bcache.Valid, Bcache.Pinned, Bcache.Available, Bcache.HeldBy, Bcache.Apart, Bcache.Snapshot,
        Bcache.CanRead, Log.Aside, Log.Reading, Log.Run, Log.Committing, Log.Listed, Nos, M.InRange, M.Geometry.Home;
      Unfold(Nos(st.lh));
      var tail := 0;
      while tail < n
        invariant tail <= n && Committing(Nos(st.lh)) && st.phase == M.CopyToLog(tail) && (tail > 0 ==> Spare())
        invariant tail == 0 ==> bc.disk == old(bc.disk)
        invariant st.groups == old(st.groups) && st.cur == old(st.cur) && st.ops == old(st.ops) && st.lh == old(st.lh)
      {
        ok := CopyToLog(tail);
        if !ok {
          return;
        }
        tail := tail + 1;
      }
      ok := true;
    }

    /** One iteration of write_log. */
    method CopyToLog(tail: nat) returns (ok: bool)
      requires Committing(Nos(st.lh)) && st.phase == M.CopyToLog(tail) && tail < n
      modifies this`st, this`acts, bc.Repr()
      ensures ok == Spare() && (!ok ==> n + |readers| == NBUF)
      ensures !ok ==> Run() && bc.disk == old(bc.disk)
      ensures ok ==> Committing(Nos(st.lh)) && st.phase == M.CopyToLog(tail + 1) && acts == old(acts) + [M.CopyBlock]
      ensures ok ==>
                st.groups == old(st.groups) && st.cur == old(st.cur) && st.ops == old(st.ops) && st.lh == old(st.lh)
    {
      hide Bcache.Valid, Bcache.Pinned, Bcache.Available, Bcache.HeldBy, Bcache.Apart, Bcache.Snapshot,
        Bcache.CanRead, Log.Aside, Log.Reading, Log.Run, Log.Committing, Log.Listed, Nos, M.InRange, M.Geometry.Home;
      Unfold(Nos(st.lh));
      RunFacts();
      var slot, home := start + tail + 1, block[tail];
      SlotReady(tail, slot, home);
      ok := bc.CopyBlock(slot, home, true, readers);
      if ok {
        AdvanceCopy(tail);
        ListedKept();
        AsideKept();
        Fold(Nos(st.lh));
      }
    }

    /** Before a turn of write_log: nobody else uses the two blocks, and whether a buffer can be had. */
    lemma SlotReady(tail: nat, slot: word, home: word)
      requires tail < |st.lh| && slot == start + tail + 1 && home == st.lh[tail]
      requires Committing(Nos(st.lh))
      ensures bc.Valid() && bc.HeldBy(readers) && bc.Snapshot(readers) == snap && bc.CanRead(slot, home, readers)
      ensures (bc.Available(slot) <==> Spare()) && (!Spare() ==> n + |readers| == NBUF)
      ensures Nos(st.lh) - {slot} == Nos(st.lh) == bc.Pinned()
    {
      hide Bcache.Valid, Bcache.Pinned, Bcache.Available, Bcache.HeldBy, Bcache.Apart, Bcache.Snapshot,
        Bcache.CanRead;
      hide Log.Aside, Log.Reading, Log.Run, Log.Committing, Log.Listed, Nos, M.InRange, M.Geometry.Home;
      Unfold(Nos(st.lh));
      RunFacts();
      NosSize(st.lh);
      NosHas(st.lh, tail);
      SlotNotLogged(tail);
      SlotAvailable(slot, Nos(st.lh));
      RoomToCommit(slot, home, Nos(st.lh));
    }

    /** A log slot is never itself a logged block, so writing it unpins nothing. */
    lemma SlotNotLogged(tail: nat)
      requires Run() && tail < |st.lh| && start + tail + 1 < WORDLIMIT
      ensures (start + tail + 1) as word !in Nos(st.lh)
      ensures Nos(st.lh) - {(start + tail + 1) as word} == Nos(st.lh)
    {
      hide Bcache.Linked, Bcache.Contents, Log.Run;
      RunFacts();
    }

    ghost method AdvanceCopy(tail: nat)
      requires Run() && st.phase == M.CopyToLog(tail) && tail < |st.lh|
      requires start + tail + 1 < |st.disk| == |st.mem| && st.lh[tail] < |st.mem|
      modifies this`st, this`acts
      ensures Run() && acts == old(acts) + [M.CopyBlock] && st.phase == M.CopyToLog(tail + 1)
      ensures st.disk == old(st.disk)[start + tail + 1 := old(st.mem)[old(st.lh)[tail]]]
      ensures st.mem == old(st.mem)[start + tail + 1 := old(st.mem)[old(st.lh)[tail]]]
      ensures st.groups == old(st.groups) && st.cur == old(st.cur) && st.ops == old(st.ops) && st.lh == old(st.lh)
    {
      RunFacts();
      Advance(M.CopyBlock);
    }

    /** A clean buffer for a log block, and the pinned one of a block in the log. */
    lemma RoomToCommit(slot: word, home: word, pins: set<word>)
      requires bc.Valid() && Aside() && bc.Pinned() == pins <= Nos(st.lh) && home in pins && Run()
      requires start <= slot < start + size && slot !in Nos(st.lh) && slot < |bc.disk| && home < |bc.disk|
      ensures bc.HeldBy(readers) && bc.Snapshot(readers) == snap && bc.CanRead(slot, home, readers)
    {
      hide Bcache.Linked, Log.Run;
      AsideHolds();
      assert forall x | x in bc.bufs && x.dirty :: x.blockno in bc.Pinned();
      assert forall x | x in readers :: x in bc.Snapshot(readers);
      if bc.Available(slot) {
        var c :| c in bc.bufs && c.refcnt == 0 && (!c.dirty || bc.Cached(c, DISKDEV, slot));
        var d :| d in bc.bufs && d.dirty && d.blockno == home;
        assert bc.Coherent(d);
        assert bc.Roomy(c, d, slot, home);
      }
    }

    /** Put n and block[0..n] at the start of the header block. */
    method WriteHead()
      requires start < |bc.disk| && start < WORDLIMIT && block.Length == LOGSIZE && n <= LOGSIZE
      requires bc.Valid() && bc.HeldBy(readers) && bc.Apart(readers, start) && bc.Available(start)
      modifies bc.Repr()
      ensures bc.Valid() && bc.HeldBy(readers) && bc.Snapshot(readers) == old(bc.Snapshot(readers))
      ensures bc.Pinned() == old(bc.Pinned()) - {start as word}
      ensures var hd := PutHeader(old(bc.view)[start], block[..n]);
        bc.disk == old(bc.disk)[start := hd] && bc.view == old(bc.view)[start := hd]
    {
      hide Bcache.Valid, Bcache.Pinned, Bcache.Available, Bcache.HeldBy, Bcache.Apart, Bcache.Snapshot;
      var b := bc.BreadApart(start, readers, readers);
      var hd := PutWord(b.data, 0, n);
      for i := 0 to n
        invariant hd == PutEntries(PutWord(b.data, 0, n), block[..n], i)
      {
        hd := PutWord(hd, 1 + i, block[i]);
      }
      bc.WriteBack(b, hd, readers);
    }

    /** The first write_head of a commit: the commit point. */
    method CommitHead()
      requires Committing(Nos(st.lh)) && st.phase == M.CopyToLog(n) && n > 0 && Spare()
      modifies this`st, this`acts, bc.Repr()
      ensures Committing(Nos(st.lh)) && st.phase == M.Install(0) && acts == old(acts) + [M.WriteHead]
      ensures st.groups == old(st.groups) + [old(st.cur)] && st.cur == []
      ensures st.ops == old(st.ops) && st.lh == old(st.lh)
    {
      hide Bcache.Valid, Bcache.Pinned, Bcache.Available, Bcache.HeldBy, Bcache.Apart, Bcache.Snapshot,
        Bcache.CanRead, Log.Aside, Log.Reading, Log.Run, Log.Committing, Log.Listed, Nos, M.InRange, M.Geometry.Home;
      Unfold(Nos(st.lh));
      RunFacts();
      HeadAvailable(Nos(st.lh));
      HeaderNotLogged(st.lh);
      ListIs();
      WriteHead();
      AdvanceHead();
      ListedKept();
      AsideKept();
      Fold(Nos(st.lh));
    }

    ghost method AdvanceHead()
      requires Run() && st.phase == M.CopyToLog(|st.lh|) && st.lh != []
      requires start < |st.disk| == |st.mem| && |st.lh| <= LOGSIZE
      modifies this`st, this`acts
      ensures Run() && acts == old(acts) + [M.WriteHead] && st.phase == M.Install(0)
      ensures st.disk == old(st.disk)[start := PutHeader(old(st.mem)[start], st.lh)]
      ensures st.mem == old(st.mem)[start := PutHeader(old(st.mem)[start], st.lh)]
      ensures st.groups == old(st.groups) + [old(st.cur)] && st.cur == []
      ensures st.ops == old(st.ops) && st.lh == old(st.lh)
    {
      RunFacts();
      Advance(M.WriteHead);
    }

    lemma ListIs()
      requires Listed()
      ensures n <= LOGSIZE && block.Length == LOGSIZE && block[..n] == st.lh
    {
    }

    /** The header is never a logged block. */
    lemma HeaderNotLogged(lh: seq<word>)
      requires Run() && (lh == st.lh || lh == []) && start < WORDLIMIT
      ensures Nos(lh) - {start as word} == Nos(lh)
    {
      hide Bcache.Linked, Bcache.Contents, Log.Run;
      RunFacts();
    }

    lemma HeadAvailable(pins: set<word>)
      requires bc.Valid() && Aside() && bc.Pinned() == pins <= Nos(st.lh) && Run() && Spare() && n == |st.lh|
                 && start < WORDLIMIT
      ensures bc.HeldBy(readers) && bc.Snapshot(readers) == snap && bc.Apart(readers, start) && bc.Available(start)
    {
      hide Bcache.Linked, Bcache.Contents, Log.Run, Bcache.Available, Bcache.Apart, Bcache.Valid, Bcache.Pinned,
        Bcache.HeldBy;
      AsideHolds();
      RunFacts();
      NosCount(st.lh);
      Subset(pins, Nos(st.lh));
      SlotAvailable(start, pins);
    }

    static lemma Subset(a: set<word>, b: set<word>)
      requires a <= b
      ensures |a| <= |b|
    {
      assert b == a + (b - a);
    }

    /** What is still pinned while blocks are installed: nothing after a boot. */
    ghost function Uninstalled(lh: seq<word>, t: nat, recovering: bool): set<word>
      requires t <= |lh|
    {
      if recovering then {} else Nos(lh[t..])
    }

    ghost function Installing(t: nat, recovering: bool): M.Phase {
      if recovering then M.Recover(t) else M.Install(t)
    }

    /** Copy the logged blocks home. */
    method InstallTrans(ghost recovering: bool)
      requires Committing(Uninstalled(st.lh, 0, recovering)) && st.phase == Installing(0, recovering)
      requires if recovering then readers == {} else Spare()
      modifies this`st, this`acts, bc.Repr()
      ensures Committing({}) && st.phase == Installing(n, recovering)
      ensures st.groups == old(st.groups) && st.cur == old(st.cur) && st.ops == old(st.ops) && st.lh == old(st.lh)
    {
      hide Bcache.Valid, Bcache.Pinned, Bcache.Available, Bcache.HeldBy, Bcache.Apart, Bcache.Snapshot,
        Bcache.CanRead, Log.Aside, Log.Reading, Log.Run, Log.Committing, Log.Listed, Nos, M.InRange, M.Geometry.Home;
      Unfold(Uninstalled(st.lh, 0, recovering));
      var tail := 0;
      while tail < n
        invariant tail <= n == |st.lh| && Committing(Uninstalled(st.lh, tail, recovering))
                    && st.phase == Installing(tail, recovering)
        invariant st.groups == old(st.groups) && st.cur == old(st.cur) && st.ops == old(st.ops) && st.lh == old(st.lh)
      {
        InstallOne(tail, recovering);
        tail := tail + 1;
      }
      AllInstalled(recovering);
    }

    lemma AllInstalled(recovering: bool)
      ensures Uninstalled(st.lh, |st.lh|, recovering) == {}
    {
    }

    /** One iteration of install_trans. */
    method InstallOne(tail: nat, ghost recovering: bool)
      requires tail < n == |st.lh| && (if recovering then readers == {} else Spare())
      requires Committing(Uninstalled(st.lh, tail, recovering)) && st.phase == Installing(tail, recovering)
      modifies this`st, this`acts, bc.Repr()
      ensures st.lh == old(st.lh) && Committing(Uninstalled(st.lh, tail + 1, recovering))
      ensures st.phase == Installing(tail + 1, recovering)
      ensures acts == old(acts) + [if recovering then M.RecoverBlock else M.InstallBlock]
      ensures st.groups == old(st.groups) && st.cur == old(st.cur) && st.ops == old(st.ops)
    {
      hide Log.Uninstalled;
      hide Bcache.Valid, Bcache.Pinned, Bcache.Available, Bcache.HeldBy, Bcache.Apart, Bcache.Snapshot,
        Bcache.CanRead, Log.Aside, Log.Reading, Log.Run, Log.Committing, Log.Listed, Nos, M.InRange, M.Geometry.Home;
      Unfold(Uninstalled(st.lh, tail, recovering));
      RunFacts();
      WriteHome(tail, recovering);
      AdvanceInstall(tail, recovering);
      ListedKept();
      AsideKept();
      Fold(Uninstalled(st.lh, tail + 1, recovering));
    }

    method WriteHome(tail: nat, ghost recovering: bool)
      requires tail < n == |st.lh| && start + tail + 1 < |st.disk| == |st.mem| && st.lh[tail] < |st.mem|
      requires if recovering then readers == {} else Spare()
      requires Committing(Uninstalled(st.lh, tail, recovering))
      modifies bc.Repr()
      ensures bc.Valid() && bc.HeldBy(readers) && bc.Snapshot(readers) == snap
                && bc.Pinned() == Uninstalled(st.lh, tail + 1, recovering)
      ensures bc.disk == st.disk[st.lh[tail] := st.mem[start + tail + 1]]
      ensures bc.view == st.mem[st.lh[tail] := st.mem[start + tail + 1]]
    {
      hide Bcache.Valid, Bcache.Pinned, Bcache.Available, Bcache.HeldBy, Bcache.Apart, Bcache.Snapshot,
        Bcache.CanRead;
      hide Log.Aside, Log.Reading, Log.Run, Log.Committing, Log.Listed, Nos, M.InRange;
      Unfold(Uninstalled(st.lh, tail, recovering));
      RunFacts();
      NosTail(st.lh, tail);
      NosParts(st.lh, tail);
      var slot, home := start + tail + 1, block[tail];
      assert g.Home(st.lh[tail]);
      SlotNotLogged(tail);
      if recovering {
        RoomToRecover(slot, home);
      } else {
        RoomToCommit(slot, home, Nos(st.lh[tail..]));
        NosCount(st.lh[tail..]);
        SlotAvailable(slot, Nos(st.lh[tail..]));
      }
      var ok := bc.CopyBlock(slot, home, false, readers);
      assert ok;
    }

    ghost method AdvanceInstall(tail: nat, recovering: bool)
      requires Run() && st.phase == Installing(tail, recovering) && tail < |st.lh|
      requires start + tail + 1 < |st.disk| == |st.mem| && st.lh[tail] < |st.mem|
      modifies this`st, this`acts
      ensures Run() && acts == old(acts) + [if recovering then M.RecoverBlock else M.InstallBlock]
      ensures st.phase == Installing(tail + 1, recovering)
      ensures st.disk == old(st.disk)[old(st.lh)[tail] := old(st.mem)[start + tail + 1]]
      ensures st.mem == old(st.mem)[old(st.lh)[tail] := old(st.mem)[start + tail + 1]]
      ensures st.groups == old(st.groups) && st.cur == old(st.cur) && st.ops == old(st.ops) && st.lh == old(st.lh)
    {
      RunFacts();
      Advance(if recovering then M.RecoverBlock else M.InstallBlock);
    }

    /** After a boot nothing is pinned or held: any two buffers will do. */
    lemma RoomToRecover(slot: word, home: word)
      requires bc.Valid() && Aside() && readers == {} && bc.Pinned() == {} && slot != home && slot < |bc.disk|
                 && home < |bc.disk|
      ensures bc.HeldBy(readers) && bc.Snapshot(readers) == snap && bc.CanRead(slot, home, readers)
                && bc.Available(slot)
    {
      var c, d := bc.bufs[0], bc.bufs[1];
      assert c in bc.bufs && d in bc.bufs && c != d;
      assert forall x | x in bc.bufs && x.dirty :: x.blockno in bc.Pinned();
      assert bc.Roomy(c, d, slot, home);
    }

    /** log.lh.n = 0 and write_head: the log is empty on the disk too. */
    method Erase(ghost recovering: bool)
      requires Committing({}) && st.phase == Installing(n, recovering) && |readers| < NBUF
      modifies this`n, this`st, this`acts, bc.Repr()
      ensures n == 0 && Committing({}) && st.phase == M.Active && st.lh == []
      ensures acts == old(acts) + [if recovering then M.RecoverDone else M.ClearHead]
      ensures st.groups == old(st.groups) && st.cur == old(st.cur) && st.ops == old(st.ops)
    {
      hide Bcache.Valid, Bcache.Pinned, Bcache.Available, Bcache.HeldBy, Bcache.Apart, Bcache.Snapshot,
        Bcache.CanRead, Log.Aside, Log.Reading, Log.Run, Log.Committing, Log.Listed, Nos, M.InRange, M.Geometry.Home;
      Unfold({});
      RunFacts();
      AsideHolds();
      AsideEnds();
      SlotAvailable(start, {});
      n := 0;
      WriteHead();
      AdvanceErase(recovering);
      ListedEmpty();
      AsideKept();
      Fold({});
    }

    lemma AsideEnds()
      requires Aside()
      ensures bc.HeldBy(readers) && bc.Snapshot(readers) == snap
    {
    }

    ghost method AdvanceErase(recovering: bool)
      requires Run() && st.phase == Installing(|st.lh|, recovering)
      requires start < |st.disk| == |st.mem|
      modifies this`st, this`acts
      ensures Run() && acts == old(acts) + [if recovering then M.RecoverDone else M.ClearHead]
      ensures st.phase == M.Active && st.lh == []
      ensures st.disk == old(st.disk)[start := PutHeader(old(st.mem)[start], [])]
      ensures st.mem == old(st.mem)[start := PutHeader(old(st.mem)[start], [])]
      ensures st.groups == old(st.groups) && st.cur == old(st.cur) && st.ops == old(st.ops)
    {
      RunFacts();
      Advance(if recovering then M.RecoverDone else M.ClearHead);
    }

    lemma ListedEmpty()
      requires n == 0 && st.lh == [] && block.Length == LOGSIZE
      ensures Listed()
    {
    }

    // ----- recovery -----

    method ReadHead()
      requires Run() && Matches({}) && Still() && st.phase == M.Boot && readers == {}
      modifies this`n, block, this`st, this`acts, bc.Repr()
      ensures Committing({}) && st.phase == M.Recover(0) && acts == old(acts) + [M.ReadHead]
      ensures st.groups == old(st.groups) && st.cur == old(st.cur) && st.ops == old(st.ops)
    {
      hide Bcache.Linked, Bcache.Contents, Bcache.Available, Bcache.HeldBy, Bcache.Apart, Bcache.Snapshot, Log.Run,
        Nos, M.InRange, M.Geometry.Home;
      RunFacts();
      AsideHolds();
      SlotAvailable(start, {});
      NothingSnapped();
      AdvanceReadHead();
      var hd := ReadBlock();
      StoreList(hd);
      AsideNone();
      Fold({});
    }

    lemma AsideNone()
      requires readers == {} && snap == map[] && bc.HeldBy({})
      ensures Aside()
    {
    }

    lemma NothingSnapped()
      requires readers == {} && Aside()
      ensures snap == map[]
    {
    }

    /** Take n and block[0..n] from the header block. */
    method StoreList(hd: Block)
      requires HeaderOk(hd) && st.lh == Header(hd) && block.Length == LOGSIZE
      modifies this`n, block
      ensures Listed() && n == |st.lh|
    {
      n := WordAt(hd, 0);
      for i := 0 to n
        invariant n == WordAt(hd, 0) && forall k | 0 <= k < i :: block[k] == Header(hd)[k]
      {
        EntryIs(hd, n, i);
        block[i] := WordAt(hd, 1 + i);
      }
    }

    /** The header block, read through the cache and released. */
    method ReadBlock() returns (hd: Block)
      requires start < |bc.disk| && start < WORDLIMIT
      requires bc.Valid() && bc.HeldBy({}) && bc.Pinned() == {} && bc.Available(start)
      modifies bc.Repr()
      ensures bc.Valid() && bc.HeldBy({}) && bc.Pinned() == {} && bc.disk == old(bc.disk) && bc.view == old(bc.view)
      ensures hd == bc.view[start]
    {
      hide Bcache.Linked, Bcache.Contents, Bcache.Available, Bcache.Snapshot;
      var b := bc.BreadApart(start, {}, {});
      hd := b.data;
      bc.ReleaseOne(b);
    }

    ghost method AdvanceReadHead()
      requires Run() && st.phase == M.Boot && start < |st.mem|
      modifies this`st, this`acts
      ensures Run() && acts == old(acts) + [M.ReadHead] && st.phase == M.Recover(0)
      ensures st.disk == old(st.disk) && st.mem == old(st.mem) && st.ops == old(st.ops)
      ensures st.groups == old(st.groups) && st.cur == old(st.cur)
      ensures HeaderOk(st.mem[start]) && st.lh == Header(st.mem[start]) && |st.lh| < size
    {
      RunFacts();
      Advance(M.ReadHead);
      RunFacts();
    }

    method RecoverFromLog()
      requires Run() && Matches({}) && Still() && st.phase == M.Boot && readers == {}
      modifies this`n, block, this`st, this`acts, bc.Repr()
      ensures Committing({}) && n == 0 && st.phase == M.Active && st.lh == []
      ensures st.groups == old(st.groups) && st.cur == old(st.cur) && st.ops == old(st.ops)
    {
      hide Bcache.Valid, Bcache.Pinned, Bcache.Available, Bcache.HeldBy, Bcache.Apart, Bcache.Snapshot,
        Bcache.CanRead, Log.Aside, Log.Reading, Log.Run, Log.Committing, Log.Listed, Nos, M.InRange, M.Geometry.Home;
      ReadHead();
      Unfold({});
      InstallTrans(true);
      Erase(true);
    }
  }
}
