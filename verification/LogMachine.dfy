/** The redo log as a state machine over atomic single-block disk writes.

    Many operations interleave their `begin_op`, `log_write` and `end_op` steps; a crash may
    fall between any two steps, including between the disk writes of `commit` and of recovery,
    and discards everything in memory. `groups` and `cur` only record history: the events of
    each committed group, and the events since the last commit. */
module LogMachine {
  import opened Blocks

  type OpId = nat

  datatype Event =
    | Began(op: OpId)
    | Wrote(op: OpId, b: word, data: Block)
    | Ended(op: OpId)

  datatype Geometry = Geometry(start: nat, size: nat, nblocks: nat) {
    ghost predicate Valid() {
      1 <= size && start + size <= nblocks <= WORDLIMIT
    }

    /** A block outside the log area. */
    predicate Home(b: int) {
      0 <= b < nblocks && !(start <= b < start + size)
    }
  }

  datatype Phase =
    | Active                 // begin_op, log_write and end_op may run
    | CopyToLog(tail: nat)   // commit: write_log has copied `tail` blocks
    | Install(tail: nat)     // commit: the header is on disk, `tail` blocks are installed
    | Boot                   // just after a crash
    | Recover(tail: nat)     // recover_from_log has installed `tail` blocks

  datatype State = State(
    disk: seq<Block>,             // what survives a crash
    mem: seq<Block>,              // what `bread` delivers
    lh: seq<word>,                // log.lh.block[0..log.lh.n]
    ops: map<OpId, set<word>>,    // running operations and the blocks each has logged
    phase: Phase,
    groups: seq<seq<Event>>,
    cur: seq<Event>)

  datatype Action =
    | BeginOp(op: OpId) | LogWrite(op: OpId, b: word, data: Block) | EndOp(op: OpId)
    | CommitNothing | CopyBlock | WriteHead | InstallBlock | ClearHead
    | Crash | ReadHead | RecoverBlock | RecoverDone

  // ----- what the code tests -----

  /** The sleep condition of `begin_op`. */
  predicate MustWait(s: State) {
    s.phase != Active || |s.lh| + (|s.ops| + 1) * MAXOPBLOCKS > LOGSIZE
  }

  /** The "too big a transaction" test of `log_write`, made before looking for absorption. */
  predicate TooBig(g: Geometry, s: State) {
    |s.lh| >= LOGSIZE || |s.lh| >= g.size - 1
  }

  function Absorb(lh: seq<word>, b: word): seq<word> {
    if b in lh then lh else lh + [b]
  }

  ghost predicate Enabled(g: Geometry, s: State, a: Action) {
    match a
    case BeginOp(op) => op !in s.ops && !MustWait(s)
    case LogWrite(op, b, data) =>
      && s.phase == Active && op in s.ops && g.Home(b)
      && |s.ops[op] + {b}| <= MAXOPBLOCKS   // the file system's promise to the log
      && !TooBig(g, s)                      // otherwise the kernel has panicked
    case EndOp(op) => s.phase == Active && op in s.ops
    case CommitNothing => s.phase == CopyToLog(0) && s.lh == []
    case CopyBlock => s.phase.CopyToLog? && s.phase.tail < |s.lh|
    case WriteHead => s.phase.CopyToLog? && s.phase.tail == |s.lh| > 0
    case InstallBlock => s.phase.Install? && s.phase.tail < |s.lh|
    case ClearHead => s.phase.Install? && s.phase.tail == |s.lh|
    case Crash => true
    case ReadHead => s.phase.Boot?
    case RecoverBlock => s.phase.Recover? && s.phase.tail < |s.lh|
    case RecoverDone => s.phase.Recover? && s.phase.tail == |s.lh|
  }

  /** Block numbers and log slots used by the commit and recovery loops lie on the disk. */
  ghost predicate InRange(g: Geometry, s: State) {
    && g.Valid()
    && |s.disk| == |s.mem| == g.nblocks
    && |s.lh| <= LOGSIZE && |s.lh| <= g.size - 1
    && (forall i | 0 <= i < |s.lh| :: s.lh[i] < g.nblocks)
    && (s.phase.Boot? ==> HeaderOk(s.mem[g.start]))
  }

  // ----- what each step does -----

  function BeginStep(s: State, op: OpId): State {
    s.(ops := s.ops[op := {}], cur := s.cur + [Began(op)])
  }

  function WriteStep(s: State, op: OpId, b: word, data: Block): State
    requires op in s.ops && b < |s.mem|
  {
    s.(mem := s.mem[b := data], lh := Absorb(s.lh, b), ops := s.ops[op := s.ops[op] + {b}],
       cur := s.cur + [Wrote(op, b, data)])
  }

  function EndStep(s: State, op: OpId): State {
    s.(ops := s.ops - {op}, cur := s.cur + [Ended(op)],
       phase := if |s.ops| == 1 then CopyToLog(0) else Active)
  }

  function CommitNothingStep(s: State): State {
    s.(phase := Active, groups := s.groups + [s.cur], cur := [])
  }

  /** A synchronous disk write of `data` through the cache. */
  function Store(s: State, b: nat, data: Block): State
    requires b < |s.disk| == |s.mem|
  {
    s.(disk := s.disk[b := data], mem := s.mem[b := data])
  }

  function CopyStep(g: Geometry, s: State, t: nat): State
    requires InRange(g, s) && t < |s.lh|
  {
    Store(s, g.start + t + 1, s.mem[s.lh[t]]).(phase := CopyToLog(t + 1))
  }

  function WriteHeadStep(g: Geometry, s: State): State
    requires InRange(g, s)
  {
    Store(s, g.start, PutHeader(s.mem[g.start], s.lh)).(phase := Install(0), groups := s.groups + [s.cur], cur := [])
  }

  /** One iteration of install_trans. */
  function InstallStep(g: Geometry, s: State, t: nat, next: Phase): State
    requires InRange(g, s) && t < |s.lh|
  {
    Store(s, s.lh[t], s.mem[g.start + t + 1]).(phase := next)
  }

  function ClearStep(g: Geometry, s: State): State
    requires InRange(g, s)
  {
    Store(s, g.start, PutHeader(s.mem[g.start], [])).(lh := [], phase := Active)
  }

  function CrashStep(s: State): State {
    s.(mem := s.disk, lh := [], ops := map[], cur := [], phase := Boot)
  }

  function ReadHeadStep(g: Geometry, s: State): State
    requires InRange(g, s) && s.phase.Boot?
  {
    s.(lh := Header(s.mem[g.start]), phase := Recover(0))
  }

  function Do(g: Geometry, s: State, a: Action): (s': State)
    requires InRange(g, s) && Enabled(g, s, a)
  {
    match a
    case BeginOp(op) => BeginStep(s, op)
    case LogWrite(op, b, data) => WriteStep(s, op, b, data)
    case EndOp(op) => EndStep(s, op)
    case CommitNothing => CommitNothingStep(s)
    case CopyBlock => CopyStep(g, s, s.phase.tail)
    case WriteHead => WriteHeadStep(g, s)
    case InstallBlock => InstallStep(g, s, s.phase.tail, Install(s.phase.tail + 1))
    case ClearHead => ClearStep(g, s)
    case Crash => CrashStep(s)
    case ReadHead => ReadHeadStep(g, s)
    case RecoverBlock => InstallStep(g, s, s.phase.tail, Recover(s.phase.tail + 1))
    case RecoverDone => ClearStep(g, s)
  }

  // ----- runs -----

  /** The start of a boot: nothing in memory, and a header whose blocks can be replayed. */
  ghost predicate Initial(g: Geometry, s: State) {
    && g.Valid() && |s.disk| == g.nblocks && LogOk(g, s.disk)
    && s == State(s.disk, s.disk, [], map[], Boot, [], [])
  }

  ghost predicate ValidList(g: Geometry, lh: seq<word>) {
    && |lh| <= LOGSIZE && |lh| <= g.size - 1
    && (forall i | 0 <= i < |lh| :: g.Home(lh[i]))
    && (forall i, j | 0 <= i < j < |lh| :: lh[i] != lh[j])
  }

  ghost predicate LogOk(g: Geometry, disk: seq<Block>)
    requires g.Valid() && |disk| == g.nblocks
  {
    HeaderOk(disk[g.start]) && ValidList(g, Header(disk[g.start]))
  }

  /** `s` is reached from `s0` by the actions `acts`, each enabled when it is taken. */
  ghost predicate Reaches(g: Geometry, s0: State, acts: seq<Action>, s: State)
    decreases |acts|
  {
    if acts == [] then s == s0
    else
      var last := |acts| - 1;
      exists p :: Reaches(g, s0, acts[..last], p) && Takes(g, p, acts[last], s)
  }

  ghost predicate Takes(g: Geometry, p: State, a: Action, s: State) {
    InRange(g, p) && Enabled(g, p, a) && s == Do(g, p, a)
  }

  // ----- what the history means -----

  /** The image after the writes of `evts`, in order. */
  function Apply(img: seq<Block>, evts: seq<Event>): (r: seq<Block>)
    ensures |r| == |img|
  {
    if evts == [] then img
    else
      var r, e := Apply(img, evts[..|evts|-1]), evts[|evts|-1];
      if e.Wrote? && e.b < |img| then r[e.b := e.data] else r
  }

  function ApplyGroups(img: seq<Block>, groups: seq<seq<Event>>): (r: seq<Block>)
    ensures |r| == |img|
  {
    if groups == [] then img
    else Apply(ApplyGroups(img, groups[..|groups|-1]), groups[|groups|-1])
  }

  /** Operations begun and not ended in `evts`. */
  function Open(evts: seq<Event>): set<OpId> {
    if evts == [] then {}
    else OpenAfter(Open(evts[..|evts|-1]), evts[|evts|-1])
  }

  function OpenAfter(open: set<OpId>, e: Event): set<OpId> {
    if e.Began? then open + {e.op} else if e.Ended? then open - {e.op} else open
  }

  ghost predicate WellFormed(evts: seq<Event>) {
    forall i | 0 <= i < |evts| :: InOrder(Open(evts[..i]), evts[i])
  }

  /** An event of an operation comes after its begin and before its end. */
  predicate InOrder(open: set<OpId>, e: Event) {
    if e.Began? then e.op !in open else e.op in open
  }

  /** Every operation with any event here has all of its events here. */
  ghost predicate Complete(evts: seq<Event>) {
    WellFormed(evts) && Open(evts) == {}
  }

  /** What recovery makes of home block `b`: the logged copy if the header names it. */
  ghost function Recovered(g: Geometry, disk: seq<Block>, b: int): Block
    requires g.Valid() && |disk| == g.nblocks && LogOk(g, disk) && g.Home(b)
  {
    var lh := Header(disk[g.start]);
    if b in lh then
      var i :| 0 <= i < |lh| && lh[i] == b;
      disk[g.start + i + 1]
    else disk[b]
  }

  ghost predicate SameHome(g: Geometry, x: seq<Block>, y: seq<Block>) {
    && |x| == |y| == g.nblocks
    && forall b {:trigger g.Home(b)} | g.Home(b) :: x[b] == y[b]
  }

  /** Recovery of `disk` gives the home blocks of `img`. */
  ghost predicate RecoversTo(g: Geometry, disk: seq<Block>, img: seq<Block>) {
    && g.Valid() && |disk| == |img| == g.nblocks && LogOk(g, disk)
    && forall b {:trigger g.Home(b)} | g.Home(b) :: Recovered(g, disk, b) == img[b]
  }

  // ----- the invariant -----

  /** Slots of the log that the operations still running may yet need. */
  ghost function Unspent(ops: map<OpId, set<word>>): (n: int)
  {
    if ops == map[] then 0
    else var op :| op in ops; MAXOPBLOCKS - |ops[op]| + Unspent(ops - {op})
  }

  ghost predicate Reserved(s: State) {
    && |s.lh| + Unspent(s.ops) <= LOGSIZE
    && (forall op <- s.ops :: |s.ops[op]| <= MAXOPBLOCKS && forall b <- s.ops[op] :: b in s.lh)
  }

  /** The log copies `lh` of the blocks as they are in `img`. */
  ghost predicate Logged(g: Geometry, log: seq<Block>, lh: seq<word>, n: nat, img: seq<Block>) {
    && g.Valid() && |log| == |img| == g.nblocks && n <= |lh| <= g.size - 1
    && forall i | 0 <= i < n :: lh[i] < g.nblocks && log[g.start + i + 1] == img[lh[i]]
  }

  /** On the disk, only home blocks lh[t..] may differ from `img`. */
  ghost predicate InstalledTo(g: Geometry, disk: seq<Block>, lh: seq<word>, t: nat, img: seq<Block>) {
    && |disk| == |img| == g.nblocks && t <= |lh|
    && forall b {:trigger g.Home(b)} | g.Home(b) && b !in lh[t..] :: disk[b] == img[b]
  }

  ghost predicate SameLog(g: Geometry, x: seq<Block>, y: seq<Block>) {
    && |x| == |y| == g.nblocks
    && forall b {:trigger g.Home(b)} | 0 <= b < g.nblocks && !g.Home(b) :: x[b] == y[b]
  }

  /** Operations may run: nothing of the current events is on the disk yet. */
  ghost predicate Gathering(g: Geometry, base: seq<Block>, s: State)
    requires g.Valid() && |s.disk| == g.nblocks && LogOk(g, s.disk)
  {
    && Header(s.disk[g.start]) == [] && SameHome(g, s.disk, base) && SameHome(g, s.mem, Apply(base, s.cur))
    && SameLog(g, s.mem, s.disk) && InstalledTo(g, s.disk, s.lh, 0, s.mem)
  }

  ghost predicate Committed(g: Geometry, base: seq<Block>, s: State, t: nat)
    requires g.Valid() && |s.disk| == g.nblocks && LogOk(g, s.disk)
  {
    && Header(s.disk[g.start]) == s.lh && s.cur == [] && s.ops == map[]
    && Logged(g, s.disk, s.lh, |s.lh|, base) && InstalledTo(g, s.disk, s.lh, t, base)
  }

  ghost predicate PhaseInv(g: Geometry, base: seq<Block>, s: State)
    requires g.Valid() && |s.disk| == |s.mem| == g.nblocks && LogOk(g, s.disk)
  {
    match s.phase
    case Active => Gathering(g, base, s) && (s.ops == map[] ==> s.lh == [] && s.cur == [])
    case CopyToLog(t) => Gathering(g, base, s) && s.ops == map[] && t <= |s.lh| && Logged(g, s.disk, s.lh, t, s.mem)
    case Install(t) => Committed(g, base, s, t) && SameHome(g, s.mem, base) && SameLog(g, s.mem, s.disk)
    case Boot => s.lh == [] && s.cur == [] && s.ops == map[] && s.mem == s.disk && RecoversTo(g, s.disk, base)
    case Recover(t) => Committed(g, base, s, t) && s.mem == s.disk
  }

  ghost predicate Core(g: Geometry, init: seq<Block>, s: State) {
    && g.Valid() && |init| == |s.disk| == |s.mem| == g.nblocks
    && ValidList(g, s.lh) && Reserved(s)
    && (forall grp <- s.groups :: Complete(grp))
    && WellFormed(s.cur) && Open(s.cur) == s.ops.Keys
    && LogOk(g, s.disk)
  }

  ghost predicate Inv(g: Geometry, init: seq<Block>, s: State) {
    Core(g, init, s) && PhaseInv(g, ApplyGroups(init, s.groups), s)
  }

  // ----- every step keeps it -----

  lemma UnspentRemove(ops: map<OpId, set<word>>, op: OpId)
    requires op in ops
    ensures Unspent(ops) == MAXOPBLOCKS - |ops[op]| + Unspent(ops - {op})
    decreases |ops|
  {
    var o :| o in ops && Unspent(ops) == MAXOPBLOCKS - |ops[o]| + Unspent(ops - {o});
    if o != op {
      UnspentRemove(ops - {o}, op);
      UnspentRemove(ops - {op}, o);
      assert ops - {o} - {op} == ops - {op} - {o};
    }
  }

  lemma UnspentPut(ops: map<OpId, set<word>>, op: OpId, bs: set<word>)
    ensures Unspent(ops[op := bs]) == MAXOPBLOCKS - |bs| + Unspent(ops - {op})
  {
    UnspentRemove(ops[op := bs], op);
    assert ops[op := bs] - {op} == ops - {op};
  }

  lemma UnspentBound(ops: map<OpId, set<word>>)
    requires forall op <- ops :: |ops[op]| <= MAXOPBLOCKS
    ensures 0 <= Unspent(ops) <= MAXOPBLOCKS * |ops|
    decreases |ops|
  {
    if ops != map[] {
      var o :| o in ops && Unspent(ops) == MAXOPBLOCKS - |ops[o]| + Unspent(ops - {o});
      UnspentBound(ops - {o});
    }
  }

  lemma ApplySnoc(img: seq<Block>, evts: seq<Event>, e: Event)
    ensures Apply(img, evts + [e])
         == if e.Wrote? && e.b < |img| then Apply(img, evts)[e.b := e.data] else Apply(img, evts)
  {
    assert (evts + [e])[..|evts|] == evts;
  }

  lemma OpenSnoc(evts: seq<Event>, e: Event)
    requires WellFormed(evts) && InOrder(Open(evts), e)
    ensures WellFormed(evts + [e])
    ensures Open(evts + [e]) == OpenAfter(Open(evts), e)
  {
    var all := evts + [e];
    assert all[..|evts|] == evts;
    forall i | 0 <= i < |all| ensures InOrder(Open(all[..i]), all[i]) {
      if i < |evts| { assert all[..i] == evts[..i]; }
    }
  }

  lemma GroupsSnoc(img: seq<Block>, groups: seq<seq<Event>>, grp: seq<Event>)
    ensures ApplyGroups(img, groups + [grp]) == Apply(ApplyGroups(img, groups), grp)
  {
    assert (groups + [grp])[..|groups|] == groups;
  }

  lemma KeepBegin(g: Geometry, init: seq<Block>, s: State, op: OpId)
    requires Inv(g, init, s) && op !in s.ops && !MustWait(s)
    ensures Inv(g, init, BeginStep(s, op))
  {
    var base := ApplyGroups(init, s.groups);
    OpenSnoc(s.cur, Began(op));
    ApplySnoc(base, s.cur, Began(op));
    UnspentPut(s.ops, op, {});
    assert s.ops - {op} == s.ops;
    UnspentBound(s.ops);
  }

  lemma ReservedAfterWrite(s: State, op: OpId, b: word)
    requires Reserved(s) && op in s.ops && |s.ops[op] + {b}| <= MAXOPBLOCKS
    ensures Reserved(s.(lh := Absorb(s.lh, b), ops := s.ops[op := s.ops[op] + {b}]))
  {
    var ops' := s.ops[op := s.ops[op] + {b}];
    UnspentPut(s.ops, op, s.ops[op] + {b});
    UnspentRemove(s.ops, op);
    var bs := s.ops[op];
    if b in bs { assert bs + {b} == bs; } else { assert |bs + {b}| == |bs| + 1; }
    assert b !in s.lh ==> b !in bs && |Absorb(s.lh, b)| == |s.lh| + 1;
    assert forall x <- s.lh :: x in Absorb(s.lh, b);
  }

  /** A write to a logged block: log area, installed blocks and images keep their relations. */
  lemma ImagesAfterWrite(g: Geometry, disk: seq<Block>, mem: seq<Block>, lh: seq<word>, b: word, data: Block)
    requires g.Home(b) && SameLog(g, mem, disk) && InstalledTo(g, disk, lh, 0, mem)
    ensures SameLog(g, mem[b := data], disk)
    ensures InstalledTo(g, disk, Absorb(lh, b), 0, mem[b := data])
  {
    var lh' := Absorb(lh, b);
    assert lh'[0..] == lh' && lh[0..] == lh;
    forall x | g.Home(x) && x !in lh' ensures disk[x] == mem[b := data][x] {
      assert x !in lh && x != b;
    }
  }

  lemma ListAfterWrite(g: Geometry, lh: seq<word>, b: word)
    requires ValidList(g, lh) && g.Home(b) && |lh| < LOGSIZE && |lh| < g.size - 1
    ensures ValidList(g, Absorb(lh, b))
  {
  }

  lemma KeepWrite(g: Geometry, init: seq<Block>, s: State, op: OpId, b: word, data: Block)
    requires Inv(g, init, s) && s.phase == Active && op in s.ops && g.Home(b)
    requires |s.ops[op] + {b}| <= MAXOPBLOCKS && !TooBig(g, s)
    ensures Inv(g, init, WriteStep(s, op, b, data))
  {
    hide Apply, ApplyGroups, Header, HeaderOk, WellFormed, Open, SameLog, InstalledTo, ValidList, Unspent;
    var base := ApplyGroups(init, s.groups);
    OpenSnoc(s.cur, Wrote(op, b, data));
    ApplySnoc(base, s.cur, Wrote(op, b, data));
    ReservedAfterWrite(s, op, b);
    ImagesAfterWrite(g, s.disk, s.mem, s.lh, b, data);
    ListAfterWrite(g, s.lh, b);
    assert s.ops[op := s.ops[op] + {b}].Keys == s.ops.Keys;
  }

  lemma KeepEnd(g: Geometry, init: seq<Block>, s: State, op: OpId)
    requires Inv(g, init, s) && s.phase == Active && op in s.ops
    ensures Inv(g, init, EndStep(s, op))
  {
    var base := ApplyGroups(init, s.groups);
    OpenSnoc(s.cur, Ended(op));
    ApplySnoc(base, s.cur, Ended(op));
    UnspentRemove(s.ops, op);
    var ops' := s.ops - {op};
    assert ops'.Keys == s.ops.Keys - {op};
    assert |ops'| == |s.ops| - 1;
    assert |ops'| == 0 <==> ops' == map[];
  }

  lemma KeepCommitNothing(g: Geometry, init: seq<Block>, s: State)
    requires Inv(g, init, s) && s.phase == CopyToLog(0) && s.lh == []
    ensures Inv(g, init, CommitNothingStep(s))
  {
    hide Apply, ApplyGroups, Header, HeaderOk, SameHome, SameLog, InstalledTo, ValidList, Unspent, WellFormed, Open;
    GroupsSnoc(init, s.groups, s.cur);
    var img := Apply(ApplyGroups(init, s.groups), s.cur);
    AllInstalled(g, s.disk, s.mem, img);
    assert Apply(img, []) == img by { ApplyNone(img); }
    NothingOpen(s.cur);
    assert s.ops.Keys == {};
  }

  lemma ApplyNone(img: seq<Block>)
    ensures Apply(img, []) == img
  {
  }

  /** Nothing is open before the first event, and the first event may be any begin. */
  lemma NothingOpen(evts: seq<Event>)
    requires WellFormed(evts)
    ensures WellFormed([]) && Open([]) == {} && (Open(evts) == {} ==> Complete(evts))
  {
  }

  lemma AllInstalled(g: Geometry, disk: seq<Block>, mem: seq<Block>, img: seq<Block>)
    requires InstalledTo(g, disk, [], 0, mem) && SameHome(g, mem, img)
    ensures SameHome(g, disk, img)
  {
    var none: seq<word> := [];
    assert none[0..] == [];
  }

  lemma CopyOne(g: Geometry, disk: seq<Block>, mem: seq<Block>, lh: seq<word>, t: nat)
    requires ValidList(g, lh) && t < |lh| && SameLog(g, mem, disk)
    requires Logged(g, disk, lh, t, mem) && InstalledTo(g, disk, lh, 0, mem)
    ensures var slot, data := g.start + t + 1, mem[lh[t]];
      && SameHome(g, disk[slot := data], disk) && SameHome(g, mem[slot := data], mem)
      && SameLog(g, mem[slot := data], disk[slot := data])
         && InstalledTo(g, disk[slot := data], lh, 0, mem[slot := data])
      && Logged(g, disk[slot := data], lh, t + 1, mem[slot := data])
  {
    assert forall i | 0 <= i <= t :: g.Home(lh[i]);
    assert !g.Home(g.start + t + 1);
  }

  lemma KeepCopy(g: Geometry, init: seq<Block>, s: State)
    requires Inv(g, init, s) && InRange(g, s) && s.phase.CopyToLog? && s.phase.tail < |s.lh|
    ensures Inv(g, init, CopyStep(g, s, s.phase.tail))
  {
    CopyOne(g, s.disk, s.mem, s.lh, s.phase.tail);
  }

  /** All blocks copied to the log: the header written now names exactly those copies. */
  lemma HeadWritten(g: Geometry, disk: seq<Block>, mem: seq<Block>, lh: seq<word>, img: seq<Block>)
    requires ValidList(g, lh) && Logged(g, disk, lh, |lh|, mem) && SameHome(g, mem, img)
    requires SameLog(g, mem, disk) && InstalledTo(g, disk, lh, 0, mem)
    ensures var disk' := disk[g.start := PutHeader(mem[g.start], lh)];
      && HeaderOk(disk'[g.start]) && Header(disk'[g.start]) == lh
      && Logged(g, disk', lh, |lh|, img) && InstalledTo(g, disk', lh, 0, img)
      && SameLog(g, mem[g.start := disk'[g.start]], disk') && SameHome(g, mem[g.start := disk'[g.start]], img)
  {
    HeaderRoundTrip(mem[g.start], lh);
    forall i | 0 <= i < |lh| ensures mem[lh[i]] == img[lh[i]] { assert g.Home(lh[i]); }
    assert !g.Home(g.start);
  }

  lemma KeepWriteHead(g: Geometry, init: seq<Block>, s: State)
    requires Inv(g, init, s) && InRange(g, s) && s.phase.CopyToLog? && s.phase.tail == |s.lh|
    ensures Inv(g, init, WriteHeadStep(g, s))
  {
    GroupsSnoc(init, s.groups, s.cur);
    HeadWritten(g, s.disk, s.mem, s.lh, Apply(ApplyGroups(init, s.groups), s.cur));
    assert s.ops.Keys == {};
  }

  /** Copying one logged block home moves the boundary of the installed blocks by one. */
  lemma InstallOne(g: Geometry, disk: seq<Block>, lh: seq<word>, t: nat, img: seq<Block>)
    requires ValidList(g, lh) && t < |lh|
    requires Logged(g, disk, lh, |lh|, img) && InstalledTo(g, disk, lh, t, img)
    ensures var disk' := disk[lh[t] := disk[g.start + t + 1]];
      && SameLog(g, disk', disk) && Logged(g, disk', lh, |lh|, img) && InstalledTo(g, disk', lh, t + 1, img)
  {
    assert lh[t..] == [lh[t]] + lh[t+1..];
    assert g.Home(lh[t]);
  }

  lemma KeepInstall(g: Geometry, init: seq<Block>, s: State)
    requires Inv(g, init, s) && InRange(g, s) && s.phase.Install? && s.phase.tail < |s.lh|
    ensures Inv(g, init, InstallStep(g, s, s.phase.tail, Install(s.phase.tail + 1)))
  {
    var t, base := s.phase.tail, ApplyGroups(init, s.groups);
    InstallOne(g, s.disk, s.lh, t, base);
    InstalledMem(g, s.disk, s.mem, s.lh, t, base);
    var s' := InstallStep(g, s, t, Install(t + 1));
    assert s'.mem == s.mem && s'.disk[g.start] == s.disk[g.start];
    assert Committed(g, base, s', t + 1);
  }

  lemma InstalledMem(g: Geometry, disk: seq<Block>, mem: seq<Block>, lh: seq<word>, t: nat, img: seq<Block>)
    requires ValidList(g, lh) && t < |lh| && SameHome(g, mem, img) && SameLog(g, mem, disk)
    requires Logged(g, disk, lh, |lh|, img)
    ensures mem[g.start + t + 1] == disk[g.start + t + 1] && mem[lh[t] := mem[g.start + t + 1]] == mem
    ensures g.Home(lh[t]) && !g.Home(g.start)
  {
    assert g.Home(lh[t]) && !g.Home(g.start + t + 1);
    assert mem[lh[t]] == img[lh[t]];
  }

  lemma KeepClear(g: Geometry, init: seq<Block>, s: State)
    requires Inv(g, init, s) && InRange(g, s) && s.phase.Install? && s.phase.tail == |s.lh|
    ensures Inv(g, init, ClearStep(g, s))
  {
    HeaderRoundTrip(s.mem[g.start], []);
    assert s.ops.Keys == {};
  }

  lemma DiskRecovers(g: Geometry, init: seq<Block>, s: State)
    requires Inv(g, init, s)
    ensures RecoversTo(g, s.disk, ApplyGroups(init, s.groups))
  {
  }

  lemma KeepCrash(g: Geometry, init: seq<Block>, s: State)
    requires Inv(g, init, s)
    ensures Inv(g, init, CrashStep(s))
  {
    DiskRecovers(g, init, s);
  }

  lemma KeepReadHead(g: Geometry, init: seq<Block>, s: State)
    requires Inv(g, init, s) && InRange(g, s) && s.phase.Boot?
    ensures Inv(g, init, ReadHeadStep(g, s))
  {
    var lh, base := Header(s.disk[g.start]), ApplyGroups(init, s.groups);
    forall i | 0 <= i < |lh| ensures s.disk[g.start + i + 1] == base[lh[i]] {
      assert lh[i] in lh;
      assert Recovered(g, s.disk, lh[i]) == s.disk[g.start + i + 1];
    }
    assert lh[0..] == lh;
  }

  lemma KeepRecover(g: Geometry, init: seq<Block>, s: State)
    requires Inv(g, init, s) && InRange(g, s) && s.phase.Recover? && s.phase.tail < |s.lh|
    ensures Inv(g, init, InstallStep(g, s, s.phase.tail, Recover(s.phase.tail + 1)))
  {
    InstallOne(g, s.disk, s.lh, s.phase.tail, ApplyGroups(init, s.groups));
    assert !g.Home(g.start);
  }

  lemma KeepRecoverDone(g: Geometry, init: seq<Block>, s: State)
    requires Inv(g, init, s) && InRange(g, s) && s.phase.Recover? && s.phase.tail == |s.lh|
    ensures Inv(g, init, ClearStep(g, s))
  {
    HeaderRoundTrip(s.mem[g.start], []);
    assert s.ops.Keys == {};
  }

  lemma Keep(g: Geometry, init: seq<Block>, s: State, a: Action)
    requires Inv(g, init, s) && InRange(g, s) && Enabled(g, s, a)
    ensures Inv(g, init, Do(g, s, a))
  {
    match a
    case BeginOp(op) => KeepBegin(g, init, s, op);
    case LogWrite(op, b, data) => KeepWrite(g, init, s, op, b, data);
    case EndOp(op) => KeepEnd(g, init, s, op);
    case CommitNothing => KeepCommitNothing(g, init, s);
    case CopyBlock => KeepCopy(g, init, s);
    case WriteHead => KeepWriteHead(g, init, s);
    case InstallBlock => KeepInstall(g, init, s);
    case ClearHead => KeepClear(g, init, s);
    case Crash => KeepCrash(g, init, s);
    case ReadHead => KeepReadHead(g, init, s);
    case RecoverBlock => KeepRecover(g, init, s);
    case RecoverDone => KeepRecoverDone(g, init, s);
  }

  // ----- whole runs -----

  lemma {:induction false} RunKeeps(g: Geometry, init: seq<Block>, s0: State, acts: seq<Action>, s: State)
    requires Initial(g, s0) && RecoversTo(g, s0.disk, init) && Reaches(g, s0, acts, s)
    ensures Inv(g, init, s) && InRange(g, s)
    decreases |acts|
  {
    if acts != [] {
      var last := |acts| - 1;
      var p :| Reaches(g, s0, acts[..last], p) && Takes(g, p, acts[last], s);
      RunKeeps(g, init, s0, acts[..last], p);
      Keep(g, init, p, acts[last]);
    }
  }

  lemma Extend(g: Geometry, s0: State, acts: seq<Action>, p: State, a: Action, s: State)
    requires Reaches(g, s0, acts, p) && Takes(g, p, a, s)
    ensures Reaches(g, s0, acts + [a], s)
  {
    assert (acts + [a])[..|acts|] == acts;
  }

  /** Group atomicity. Whatever operations interleave and wherever crashes fall, at every moment
      the disk recovers to the initial image plus the committed groups, in order; each group is
      closed under operations, so an operation is in it entirely or not at all; and outside
      commit and recovery, memory shows those groups followed by everything since. */
  lemma GroupAtomicity(g: Geometry, init: seq<Block>, s0: State, acts: seq<Action>, s: State)
    requires Initial(g, s0) && RecoversTo(g, s0.disk, init) && Reaches(g, s0, acts, s)
    ensures RecoversTo(g, s.disk, ApplyGroups(init, s.groups))
    ensures forall grp <- s.groups :: Complete(grp)
    ensures WellFormed(s.cur) && Open(s.cur) == s.ops.Keys
    ensures s.phase.Active? ==> SameHome(g, s.mem, Apply(ApplyGroups(init, s.groups), s.cur))
  {
    RunKeeps(g, init, s0, acts, s);
    DiskRecovers(g, init, s);
  }

  lemma OpenOrigin(evts: seq<Event>, op: OpId)
    requires op in Open(evts)
    ensures exists j :: 0 <= j < |evts| && evts[j] == Began(op)
  {
    if evts[|evts|-1] != Began(op) {
      OpenOrigin(evts[..|evts|-1], op);
    }
  }

  lemma {:induction false} OpenCloses(evts: seq<Event>, i: nat, op: OpId)
    requires i <= |evts| && op in Open(evts[..i]) && op !in Open(evts)
    ensures exists k :: i <= k < |evts| && evts[k] == Ended(op)
    decreases |evts| - i
  {
    assert evts[..|evts|] == evts;
    if i < |evts| {
      assert evts[..i+1][..i] == evts[..i];
      if evts[i] != Ended(op) {
        OpenCloses(evts, i + 1, op);
      }
    }
  }

  /** In a complete group, every event of an operation lies between its begin and its end. */
  lemma OperationWhole(grp: seq<Event>, i: nat)
    requires Complete(grp) && i < |grp|
    ensures exists j, k :: 0 <= j <= i <= k < |grp| && grp[j] == Began(grp[i].op) && grp[k] == Ended(grp[i].op)
  {
    var op := grp[i].op;
    assert InOrder(Open(grp[..i]), grp[i]);
    assert grp[..i+1][..i] == grp[..i];
    if grp[i].Began? {
      OpenCloses(grp, i + 1, op);
      var k :| i < k < |grp| && grp[k] == Ended(op);
      assert grp[i] == Began(op) && grp[k] == Ended(op);
    } else {
      OpenOrigin(grp[..i], op);
      var j :| 0 <= j < i && grp[..i][j] == Began(op);
      OpenCloses(grp, i, op);
      var k :| i <= k < |grp| && grp[k] == Ended(op);
      assert grp[j] == Began(op) && grp[k] == Ended(op);
    }
  }

  /** The groups change only where the header reaches the disk (or nothing was logged), and then
      by the events since the last commit: a crash or a recovery step never adds or loses one. */
  lemma GroupsStep(g: Geometry, init: seq<Block>, s: State, a: Action, s': State)
    requires Inv(g, init, s) && Takes(g, s, a, s')
    ensures s'.groups == if a == WriteHead || a == CommitNothing then s.groups + [s.cur] else s.groups
    ensures a == CommitNothing ==> SameHome(g, ApplyGroups(init, s'.groups), ApplyGroups(init, s.groups))
  {
    if a == CommitNothing {
      NothingLogged(g, init, s);
    }
  }

  /** Durability: whatever happens from a state on, crashes and recoveries included, the groups committed by then
      stay, in their order, and every later disk recovers to an image that has them. */
  lemma {:induction false} Durable(g: Geometry, init: seq<Block>, p: State, acts: seq<Action>, s: State)
    requires Inv(g, init, p) && Reaches(g, p, acts, s)
    ensures Inv(g, init, s) && p.groups <= s.groups
    ensures RecoversTo(g, s.disk, ApplyGroups(ApplyGroups(init, p.groups), s.groups[|p.groups|..]))
    decreases |acts|
  {
    hide Inv, RecoversTo, Takes, ApplyGroups;
    if acts != [] {
      var last := |acts| - 1;
      var q :| Reaches(g, p, acts[..last], q) && Takes(g, q, acts[last], s);
      Durable(g, init, p, acts[..last], q);
      StepKeeps(g, init, q, acts[last], s);
    }
    DiskRecovers(g, init, s);
    GroupsConcat(init, p.groups, s.groups[|p.groups|..]);
    assert p.groups + s.groups[|p.groups|..] == s.groups;
  }

  /** The commit point. Over any stretch of a run, crashes and recoveries included, in which the header of no commit
      reaches the disk, what the disk recovers to does not change, however much is written meanwhile. */
  lemma {:induction false} CommitPoint(g: Geometry, init: seq<Block>, p: State, acts: seq<Action>, s: State)
    requires Inv(g, init, p) && Reaches(g, p, acts, s) && WriteHead !in acts
    ensures Inv(g, init, s) && SameHome(g, ApplyGroups(init, s.groups), ApplyGroups(init, p.groups))
    ensures RecoversTo(g, s.disk, ApplyGroups(init, p.groups))
    decreases |acts|
  {
    hide Inv, Takes, ApplyGroups, Recovered;
    if acts == [] {
      SameImage(g, init, p);
    } else {
      var last := |acts| - 1;
      var q :| Reaches(g, p, acts[..last], q) && Takes(g, q, acts[last], s);
      assert WriteHead !in acts[..last] && acts[last] in acts;
      CommitPoint(g, init, p, acts[..last], q);
      StepKeeps(g, init, q, acts[last], s);
      GroupsStep(g, init, q, acts[last], s);
    }
    DiskRecovers(g, init, s);
  }

  lemma SameImage(g: Geometry, init: seq<Block>, s: State)
    requires Inv(g, init, s)
    ensures SameHome(g, ApplyGroups(init, s.groups), ApplyGroups(init, s.groups))
  {
    hide Recovered;
    DiskRecovers(g, init, s);
  }

  lemma StepKeeps(g: Geometry, init: seq<Block>, q: State, a: Action, s: State)
    requires Inv(g, init, q) && Takes(g, q, a, s)
    ensures Inv(g, init, s) && q.groups <= s.groups
  {
    hide Inv, SameHome, Reaches;
    Keep(g, init, q, a);
    GroupsStep(g, init, q, a, s);
  }

  lemma {:induction false} GroupsConcat(img: seq<Block>, a: seq<seq<Event>>, b: seq<seq<Event>>)
    ensures ApplyGroups(img, a + b) == ApplyGroups(ApplyGroups(img, a), b)
    decreases |b|
  {
    if b == [] {
      assert a + b == a;
    } else {
      var less, e := b[..|b|-1], b[|b|-1];
      GroupsConcat(img, a, less);
      assert a + b == (a + less) + [e] && b == less + [e];
      GroupsSnoc(img, a + less, e);
      GroupsSnoc(ApplyGroups(img, a), less, e);
    }
  }

  /** A group that logged nothing changed nothing. */
  lemma NothingLogged(g: Geometry, init: seq<Block>, s: State)
    requires Inv(g, init, s) && s.phase == CopyToLog(0) && s.lh == []
    ensures SameHome(g, ApplyGroups(init, s.groups + [s.cur]), ApplyGroups(init, s.groups))
  {
    GroupsSnoc(init, s.groups, s.cur);
    assert s.lh[0..] == [];
    var base := ApplyGroups(init, s.groups);
    assert Gathering(g, base, s);
  }

  predicate RecoveryStep(a: Action) {
    a == Crash || a == ReadHead || a == RecoverBlock || a == RecoverDone
  }

  ghost predicate Recovering(s: State) {
    && s.cur == [] && s.ops == map[] && s.mem == s.disk
    && (s.phase.Boot? || s.phase.Recover? || (s.phase.Active? && s.lh == []))
  }

  lemma RecoveryKeeps(g: Geometry, init: seq<Block>, p: State, a: Action)
    requires Inv(g, init, p) && InRange(g, p) && Enabled(g, p, a)
    requires RecoveryStep(a) && (a == Crash || Recovering(p))
    ensures Recovering(Do(g, p, a)) && Do(g, p, a).groups == p.groups
  {
  }

  /** A crash in any reachable state, then any number of interrupted recoveries, then a recovery
      that completes: the home blocks are those of the committed groups, and memory agrees. */
  lemma {:induction false} CrashRecovery(g: Geometry, init: seq<Block>, s: State, acts: seq<Action>, s': State)
    requires Inv(g, init, s) && Reaches(g, s, [Crash] + acts, s')
    requires forall a <- acts :: RecoveryStep(a)
    ensures Inv(g, init, s') && Recovering(s') && s'.groups == s.groups
    ensures s'.phase.Active? ==> SameHome(g, s'.disk, ApplyGroups(init, s.groups)) && s'.lh == []
    decreases |acts|
  {
    var all := [Crash] + acts;
    var last := |all| - 1;
    var p :| Reaches(g, s, all[..last], p) && Takes(g, p, all[last], s');
    if acts == [] {
      assert all[..last] == [];
    } else {
      assert all[..last] == [Crash] + acts[..|acts|-1];
      assert RecoveryStep(all[last]);
      CrashRecovery(g, init, s, acts[..|acts|-1], p);
    }
    Keep(g, init, p, all[last]);
    RecoveryKeeps(g, init, p, all[last]);
  }

  // ----- reservation -----

  /** In every reachable state the logged blocks plus what running operations may still log fit
      in LOGSIZE, an idle log is empty, and begin_op waits only while a commit or recovery runs or
      another operation has yet to end. */
  lemma Reservation(g: Geometry, init: seq<Block>, s0: State, acts: seq<Action>, s: State)
    requires Initial(g, s0) && RecoversTo(g, s0.disk, init) && Reaches(g, s0, acts, s)
    ensures |s.lh| + Unspent(s.ops) <= LOGSIZE
    ensures s.phase.Active? && s.ops == map[] ==> s.lh == []
    ensures !s.phase.Active? ==> s.ops == map[]
    ensures MustWait(s) ==> !s.phase.Active? || s.ops != map[]
  {
    RunKeeps(g, init, s0, acts, s);
  }

  /** When log_write panics for an operation within its budget: exactly when the log is full for
      this geometry. With more than LOGSIZE log blocks that happens only to a block already logged,
      because the test comes before the search for absorption. */
  lemma PanicCondition(g: Geometry, init: seq<Block>, s: State, op: OpId, b: word)
    requires Inv(g, init, s) && s.phase.Active? && op in s.ops && g.Home(b)
    requires |s.ops[op] + {b}| <= MAXOPBLOCKS
    ensures TooBig(g, s) <==> |s.lh| == if g.size - 1 < LOGSIZE then g.size - 1 else LOGSIZE
    ensures g.size > LOGSIZE && TooBig(g, s) ==> b in s.lh
  {
    if b !in s.lh {
      UnspentRemove(s.ops, op);
      assert forall o <- s.ops - {op} :: |(s.ops - {op})[o]| == |s.ops[o]|;
      UnspentBound(s.ops - {op});
      assert b !in s.ops[op];
    }
  }

  /** Operations may run and none does. */
  ghost predicate Idle(s: State) {
    s.phase == Active && s.ops == map[] && s.lh == [] && s.cur == []
  }

  lemma {:induction false} RecoveryRuns(g: Geometry, init: seq<Block>, s0: State, acts: seq<Action>, s: State, t: nat)
      returns (acts': seq<Action>, p: State)
    requires Initial(g, s0) && RecoversTo(g, s0.disk, init) && Reaches(g, s0, acts, s)
    requires s.phase == Recover(t) && t <= |s.lh| && s.ops == map[] && s.cur == []
    ensures Reaches(g, s0, acts', p) && Idle(p) && p.groups == s.groups
    decreases |s.lh| - t
  {
    hide Inv, RecoversTo, Initial, Reaches;
    RunKeeps(g, init, s0, acts, s);
    if t == |s.lh| {
      p := ClearStep(g, s);
      Extend(g, s0, acts, s, RecoverDone, p);
      acts' := acts + [RecoverDone];
    } else {
      var q := InstallStep(g, s, t, Recover(t + 1));
      Extend(g, s0, acts, s, RecoverBlock, q);
      acts', p := RecoveryRuns(g, init, s0, acts + [RecoverBlock], q, t + 1);
    }
  }

  /** A boot that is not cut short ends with an empty log, ready for operations. */
  lemma BootRuns(g: Geometry, init: seq<Block>, s0: State) returns (acts: seq<Action>, s: State)
    requires Initial(g, s0) && RecoversTo(g, s0.disk, init)
    ensures Reaches(g, s0, acts, s) && Idle(s) && s.groups == []
  {
    hide Inv, RecoversTo;
    assert Reaches(g, s0, [], s0);
    RunKeeps(g, init, s0, [], s0);
    var h := ReadHeadStep(g, s0);
    Extend(g, s0, [], s0, ReadHead, h);
    acts, s := RecoveryRuns(g, init, s0, [] + [ReadHead], h, 0);
  }
}
