/** When log_write's panic can be reached by well-behaved operations: on every log of at most LOGSIZE blocks, mkfs's
    among them, for a block not logged yet, and on a longer log for a block that is logged already. */
module MkfsLog {
  import opened Blocks
  import opened LogMachine

  /** The geometry mkfs writes, with nlog == LOGSIZE. */
  const MKFS := Geometry(2, 30, 1000)

  /** The k-th home block. */
  function Victim(g: Geometry, k: nat): nat {
    if k < g.start then k else k + g.size
  }

  /** Three operations' worth of blocks outside the log. */
  ghost predicate Roomy(g: Geometry) {
    g.Valid() && g.size + LOGSIZE <= g.nblocks
  }

  lemma VictimHome(g: Geometry, k: nat)
    requires Roomy(g) && k < LOGSIZE
    ensures g.Home(Victim(g, k)) && Victim(g, k) < WORDLIMIT
  {
  }

  function Victims(g: Geometry, k: nat): (vs: seq<nat>)
    ensures |vs| == k && forall i | 0 <= i < k :: vs[i] == Victim(g, i)
  {
    seq(k, i requires 0 <= i < k => Victim(g, i))
  }

  /** How much the log holds. */
  function Capacity(g: Geometry): int {
    if g.size - 1 < LOGSIZE then g.size - 1 else LOGSIZE
  }

  /** Three operations have logged the first k victims between them, each within its ten. */
  ghost predicate Filling(g: Geometry, s: State, k: nat) {
    && InRange(g, s) && s.phase == Active && k <= Capacity(g)
    && s.lh == Victims(g, k)
    && forall op: nat | op < 3 :: op in s.ops && Mine(g, s.ops[op], op)
  }

  /** Only victims 10 op to 10 op + 9. */
  ghost predicate Mine(g: Geometry, bs: set<word>, op: nat) {
    forall b <- bs :: exists i: nat :: 10 * op <= i < 10 * op + 10 && b == Victim(g, i)
  }

  function Own(g: Geometry, op: nat, n: nat): (bs: set<nat>)
    ensures |bs| <= n && forall i | 10 * op <= i < 10 * op + n :: Victim(g, i) in bs
  {
    if n == 0 then {} else Own(g, op, n - 1) + {Victim(g, 10 * op + n - 1)}
  }

  lemma MineSmall(g: Geometry, bs: set<word>, op: nat)
    requires Mine(g, bs, op)
    ensures |bs| <= MAXOPBLOCKS
  {
    var all := Own(g, op, 10);
    WordsWithin(bs, all);
  }

  lemma {:induction false} WordsWithin(bs: set<word>, all: set<nat>)
    requires forall b <- bs :: b in all
    ensures |bs| <= |all|
  {
    if b :| b in bs {
      WordsWithin(bs - {b}, all - {b});
    }
  }

  lemma BeginOne(g: Geometry, init: seq<Block>, s0: State, acts: seq<Action>, p: State, op: OpId)
    returns (acts': seq<Action>, s: State)
    requires Initial(g, s0) && RecoversTo(g, s0.disk, init) && Reaches(g, s0, acts, p)
    requires p.phase == Active && p.lh == [] && |p.ops| <= 2 && op !in p.ops
    ensures Reaches(g, s0, acts', s) && s == BeginStep(p, op) && |s.ops| == |p.ops| + 1
  {
    hide Inv, RecoversTo, Initial, Reaches;
    RunKeeps(g, init, s0, acts, p);
    s := BeginStep(p, op);
    Extend(g, s0, acts, p, BeginOp(op), s);
    acts' := acts + [BeginOp(op)];
    assert s.ops.Keys == p.ops.Keys + {op};
  }

  lemma FirstSteps(g: Geometry, init: seq<Block>, s0: State) returns (acts: seq<Action>, s: State)
    requires Initial(g, s0) && RecoversTo(g, s0.disk, init)
    ensures Reaches(g, s0, acts, s) && Filling(g, s, 0)
  {
    hide Inv, RecoversTo, Initial, Reaches;
    var a0, p0 := BootRuns(g, init, s0);
    var a1, p1 := BeginOne(g, init, s0, a0, p0, 0);
    var a2, p2 := BeginOne(g, init, s0, a1, p1, 1);
    acts, s := BeginOne(g, init, s0, a2, p2, 2);
    RunKeeps(g, init, s0, acts, s);
    assert s.ops == map[0 := {}, 1 := {}, 2 := {}];
  }

  lemma FillOne(g: Geometry, p: State, k: nat)
    requires Roomy(g) && Filling(g, p, k) && k < Capacity(g)
    ensures Victim(g, k) < WORDLIMIT && g.Home(Victim(g, k)) && |p.ops[k / 10] + {Victim(g, k) as word}| <= MAXOPBLOCKS
    ensures Victim(g, k) as word !in p.lh && !TooBig(g, p)
    ensures Filling(g, WriteStep(p, k / 10, Victim(g, k), Zeros()), k + 1)
  {
    VictimHome(g, k);
    var op, b := k / 10, Victim(g, k);
    MineMore(g, p.ops[op], op, k);
    MineSmall(g, p.ops[op] + {b as word}, op);
    assert Victims(g, k + 1) == Victims(g, k) + [b];
  }

  lemma MineMore(g: Geometry, bs: set<word>, op: nat, k: nat)
    requires Mine(g, bs, op) && 10 * op <= k < 10 * op + 10 && Victim(g, k) < WORDLIMIT
    ensures Mine(g, bs + {Victim(g, k) as word}, op)
  {
  }

  lemma {:induction false} FillLog(g: Geometry, init: seq<Block>, s0: State, k: nat)
    returns (acts: seq<Action>, s: State)
    requires Initial(g, s0) && RecoversTo(g, s0.disk, init) && Roomy(g) && k <= Capacity(g)
    ensures Reaches(g, s0, acts, s) && Filling(g, s, k)
  {
    hide RecoversTo, Initial, Reaches;
    if k == 0 {
      acts, s := FirstSteps(g, init, s0);
    } else {
      var p;
      acts, p := FillLog(g, init, s0, k - 1);
      FillOne(g, p, k - 1);
      s := WriteStep(p, (k - 1) / 10, Victim(g, k - 1), Zeros());
      Extend(g, s0, acts, p, LogWrite((k - 1) / 10, Victim(g, k - 1), Zeros()), s);
      acts := acts + [LogWrite((k - 1) / 10, Victim(g, k - 1), Zeros())];
    }
  }

  /** On every log of at most LOGSIZE blocks log_write can panic for an operation that stays within MAXOPBLOCKS
      distinct blocks and logs a new one. */
  lemma LogTooShort(g: Geometry, init: seq<Block>, s0: State) returns (acts: seq<Action>, s: State, op: OpId, b: word)
    requires Initial(g, s0) && RecoversTo(g, s0.disk, init) && Roomy(g) && g.size <= LOGSIZE
    ensures Reaches(g, s0, acts, s) && s.phase == Active && op in s.ops && g.Home(b)
    ensures b !in s.lh && |s.ops[op] + {b}| <= MAXOPBLOCKS && TooBig(g, s)
  {
    hide RecoversTo, Initial, Reaches;
    var k: nat := Capacity(g);
    acts, s := FillLog(g, init, s0, k);
    VictimHome(g, k);
    op, b := k / 10, Victim(g, k);
    MineMore(g, s.ops[op], op, k);
    MineSmall(g, s.ops[op] + {b}, op);
  }

  /** On a longer log it can panic only for a block logged already (PanicCondition), and it does; then the logged
      blocks are also as many as the cache has buffers, so that the commit could not go on either. */
  lemma LongLogFills(g: Geometry, init: seq<Block>, s0: State) returns (acts: seq<Action>, s: State, op: OpId, b: word)
    requires Initial(g, s0) && RecoversTo(g, s0.disk, init) && Roomy(g) && g.size > LOGSIZE
    ensures Reaches(g, s0, acts, s) && s.phase == Active && op in s.ops && g.Home(b)
    ensures b in s.lh && |s.ops[op] + {b}| <= MAXOPBLOCKS && TooBig(g, s) && |s.lh| == LOGSIZE
  {
    hide RecoversTo, Initial, Reaches;
    acts, s := FillLog(g, init, s0, LOGSIZE);
    VictimHome(g, 29);
    op, b := 2, Victim(g, 29);
    MineMore(g, s.ops[op], op, 29);
    MineSmall(g, s.ops[op] + {b}, op);
    assert s.lh[29] == b;
  }

  /** The file system mkfs builds has such a short log. */
  lemma MkfsLogTooShort(init: seq<Block>, s0: State) returns (acts: seq<Action>, s: State, op: OpId, b: word)
    requires Initial(MKFS, s0) && RecoversTo(MKFS, s0.disk, init)
    ensures Reaches(MKFS, s0, acts, s) && s.phase == Active && op in s.ops && MKFS.Home(b)
    ensures b !in s.lh && |s.ops[op] + {b}| <= MAXOPBLOCKS && TooBig(MKFS, s)
  {
    acts, s, op, b := LogTooShort(MKFS, init, s0);
  }
}
