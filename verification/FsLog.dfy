/** The file system's operations on the log machine: the log records of filewrite's chunks and of truncations
    are steps the log allows, and whatever they leave on the disk when the machine crashes recovers to a
    consistent file system. */
module FsLog {
  import opened Blocks
  import opened FsModel
  import opened FileSystem
  import M = LogMachine

  // ----- the file system's blocks are home blocks -----

  /** The log lies before the inode blocks, on a disk of the file system's size, and holds one operation. */
  ghost predicate Fits(l: Layout, g: M.Geometry) {
    g.Valid() && g.nblocks == l.size && g.start + g.size <= l.inodestart && MAXOPBLOCKS + 2 <= g.size
  }

  lemma HomeBlocks(l: Layout, g: M.Geometry, ws: seq<Write>)
    requires Fits(l, g) && FineOp(l, ws)
    ensures forall w | w in ws :: g.Home(w.b)
  {
    forall w | w in ws ensures g.Home(w.b) { assert w.b in Written(ws); }
  }

  // ----- an operation as events -----

  function Writes(op: M.OpId, ws: seq<Write>): (r: seq<M.Event>)
    ensures |r| == |ws|
  {
    if ws == [] then [] else Writes(op, ws[..|ws|-1]) + [M.Wrote(op, ws[|ws|-1].b, ws[|ws|-1].data)]
  }

  function OpEvents(op: M.OpId, ws: seq<Write>): seq<M.Event> {
    [M.Began(op)] + Writes(op, ws) + [M.Ended(op)]
  }

  /** Operation k runs as number k, one after the other. */
  function Serial(es: seq<seq<Write>>): seq<M.Event> {
    if es == [] then [] else Serial(es[..|es|-1]) + OpEvents(|es| - 1, es[|es|-1])
  }

  function Flat(groups: seq<seq<M.Event>>): seq<M.Event> {
    if groups == [] then [] else Flat(groups[..|groups|-1]) + groups[|groups|-1]
  }

  function WriteActs(op: M.OpId, ws: seq<Write>): (acts: seq<M.Action>)
    ensures |acts| == |ws|
  {
    seq(|ws|, i requires 0 <= i < |ws| => M.LogWrite(op, ws[i].b, ws[i].data))
  }

  lemma WrittenPrefix(ws: seq<Write>, k: nat)
    requires k < |ws|
    ensures Written(ws[..k]) + {ws[k].b} == Written(ws[..k+1]) <= Written(ws)
    ensures |Written(ws[..k+1])| <= |Written(ws)|
  {
    assert ws[..k+1] == ws[..k] + [ws[k]];
    assert forall w | w in ws[..k+1] :: w in ws;
    assert forall x | x in Written(ws[..k]) + {ws[k].b} :: x in Written(ws[..k+1]) by {
      forall x | x in Written(ws[..k]) + {ws[k].b} ensures x in Written(ws[..k+1]) {
        if x in Written(ws[..k]) {
          var w :| w in ws[..k] && w.b == x;
          assert w in ws[..k+1];
        } else {
          assert ws[k] in ws[..k+1];
        }
      }
    }
    var a, b := Written(ws[..k+1]), Written(ws);
    assert b == a + (b - a);
  }

  /** From any reachable state in which an operation has just begun, its log records can be made in
      order until they are all made or the log is full: then memory is the starting image with the
      records applied, and the log has recorded exactly them for the operation. */
  lemma {:induction false} OperationRuns(g: M.Geometry, init: seq<Block>, s0: M.State, acts: seq<M.Action>, s: M.State,
                                         op: M.OpId, ws: seq<Write>, k: nat) returns (done: nat, p: M.State)
    requires M.Initial(g, s0) && M.RecoversTo(g, s0.disk, init) && M.Reaches(g, s0, acts, s)
    requires s.phase == M.Active && op in s.ops && s.ops[op] == {}
    requires (forall w | w in ws :: g.Home(w.b)) && |Written(ws)| <= MAXOPBLOCKS && k <= |ws|
    ensures done <= k && M.Reaches(g, s0, acts + WriteActs(op, ws[..done]), p)
    ensures p.phase == M.Active && op in p.ops && p.ops[op] == Written(ws[..done])
    ensures p.disk == s.disk && p.mem == Replay(s.mem, ws[..done]) && p.groups == s.groups
    ensures p.ops == s.ops[op := p.ops[op]] && p.cur == s.cur + Writes(op, ws[..done])
    ensures |p.lh| <= |s.lh| + |Written(ws[..done])|
    ensures done == k || M.TooBig(g, p)
  {
    hide M.Inv, M.RecoversTo, M.Initial, M.Reaches, M.TooBig;
    if k == 0 {
      done, p := 0, s;
      assert ws[..0] == [] && acts + WriteActs(op, ws[..0]) == acts;
      assert Written(ws[..0]) == {};
    } else {
      var q;
      done, q := OperationRuns(g, init, s0, acts, s, op, ws, k - 1);
      p := q;
      if done == k - 1 && !M.TooBig(g, q) {
        p := OneRecord(g, init, s0, acts, s, op, ws, k - 1, q);
        done := k;
      }
    }
  }

  lemma ReplayWrite(g: M.Geometry, q: M.State, mem: seq<Block>, ws: seq<Write>, w: Write)
    requires M.InRange(g, q) && g.Home(w.b) && q.mem == Replay(mem, ws)
    ensures w.b < |q.mem| && q.mem[w.b := w.data] == Replay(mem, ws + [w])
  {
    ReplaySnoc(mem, ws, w);
  }

  lemma OneRecord(g: M.Geometry, init: seq<Block>, s0: M.State, acts: seq<M.Action>, s: M.State,
                  op: M.OpId, ws: seq<Write>, k: nat, q: M.State) returns (p: M.State)
    requires M.Initial(g, s0) && M.RecoversTo(g, s0.disk, init)
    requires k < |ws| && g.Home(ws[k].b) && |Written(ws)| <= MAXOPBLOCKS
    requires M.Reaches(g, s0, acts + WriteActs(op, ws[..k]), q) && !M.TooBig(g, q)
    requires q.phase == M.Active && op in q.ops && q.ops[op] == Written(ws[..k])
    requires q.disk == s.disk && q.mem == Replay(s.mem, ws[..k]) && q.groups == s.groups
    requires q.ops == s.ops[op := q.ops[op]] && q.cur == s.cur + Writes(op, ws[..k])
               && |q.lh| <= |s.lh| + |Written(ws[..k])|
    ensures M.Reaches(g, s0, acts + WriteActs(op, ws[..k+1]), p)
    ensures p.phase == M.Active && op in p.ops && p.ops[op] == Written(ws[..k+1])
    ensures p.disk == s.disk && p.mem == Replay(s.mem, ws[..k+1]) && p.groups == s.groups
    ensures p.ops == s.ops[op := p.ops[op]] && p.cur == s.cur + Writes(op, ws[..k+1])
              && |p.lh| <= |s.lh| + |Written(ws[..k+1])|
  {
    hide M.Inv, M.RecoversTo, M.Initial, M.Reaches, M.InRange, Replay, Written, M.Absorb;
    var prior := acts + WriteActs(op, ws[..k]);
    M.RunKeeps(g, init, s0, prior, q);
    WrittenPrefix(ws, k);
    var w := ws[k];
    ReplayWrite(g, q, s.mem, ws[..k], w);
    p := M.WriteStep(q, op, w.b, w.data);
    M.Extend(g, s0, prior, q, M.LogWrite(op, w.b, w.data), p);
    assert acts + WriteActs(op, ws[..k+1]) == prior + [M.LogWrite(op, w.b, w.data)];
    assert ws[..k+1] == ws[..k] + [w] && ws[..k+1][..k] == ws[..k];
    ListGrows(g, init, q, op, w.b);
    CountStep(Written(ws[..k]), w.b);
  }

  lemma CountStep(a: set<word>, b: word)
    ensures |a + {b}| == |a| + if b in a then 0 else 1
  {
    if b in a { assert a + {b} == a; }
  }

  /** The list grows only by a block the operation has not logged. */
  lemma ListGrows(g: M.Geometry, init: seq<Block>, q: M.State, op: M.OpId, b: word)
    requires M.Inv(g, init, q) && op in q.ops
    ensures |M.Absorb(q.lh, b)| <= |q.lh| + if b in q.ops[op] then 0 else 1
  {
  }

  // ----- what the events mean -----

  lemma {:induction false} ApplyConcat(img: seq<Block>, a: seq<M.Event>, b: seq<M.Event>)
    ensures M.Apply(img, a + b) == M.Apply(M.Apply(img, a), b)
    decreases |b|
  {
    if b == [] {
      assert a + b == a;
    } else {
      var less := b[..|b|-1];
      ApplyConcat(img, a, less);
      assert a + b == (a + less) + [b[|b|-1]];
      M.ApplySnoc(img, a + less, b[|b|-1]);
      assert b == less + [b[|b|-1]];
      M.ApplySnoc(M.Apply(img, a), less, b[|b|-1]);
    }
  }

  lemma {:induction false} FlatApplies(img: seq<Block>, groups: seq<seq<M.Event>>)
    ensures M.ApplyGroups(img, groups) == M.Apply(img, Flat(groups))
    decreases |groups|
  {
    if groups != [] {
      FlatApplies(img, groups[..|groups|-1]);
      ApplyConcat(img, Flat(groups[..|groups|-1]), groups[|groups|-1]);
    }
  }

  lemma {:induction false} WritesApply(img: seq<Block>, op: M.OpId, ws: seq<Write>)
    ensures M.Apply(img, Writes(op, ws)) == Replay(img, ws)
    decreases |ws|
  {
    if ws != [] {
      WritesApply(img, op, ws[..|ws|-1]);
      M.ApplySnoc(img, Writes(op, ws[..|ws|-1]), M.Wrote(op, ws[|ws|-1].b, ws[|ws|-1].data));
    }
  }

  lemma OpApplies(img: seq<Block>, op: M.OpId, ws: seq<Write>)
    ensures M.Apply(img, OpEvents(op, ws)) == Replay(img, ws)
  {
    var evts := [M.Began(op)] + Writes(op, ws);
    M.ApplySnoc(img, evts, M.Ended(op));
    ApplyConcat(img, [M.Began(op)], Writes(op, ws));
    M.ApplySnoc(img, [], M.Began(op));
    assert [] + [M.Began(op)] == [M.Began(op)];
    WritesApply(img, op, ws);
  }

  lemma {:induction false} SerialApplies(img: seq<Block>, es: seq<seq<Write>>)
    ensures M.Apply(img, Serial(es)) == ReplayAll(img, es)
    decreases |es|
  {
    if es != [] {
      SerialApplies(img, es[..|es|-1]);
      ApplyConcat(img, Serial(es[..|es|-1]), OpEvents(|es| - 1, es[|es|-1]));
      OpApplies(ReplayAll(img, es[..|es|-1]), |es| - 1, es[|es|-1]);
    }
  }

  // ----- groups end where operations end -----

  lemma {:induction false} OpenConcat(a: seq<M.Event>, b: seq<M.Event>)
    requires M.Open(a) == {}
    ensures M.Open(a + b) == M.Open(b)
    decreases |b|
  {
    if b == [] {
      assert a + b == a;
    } else {
      OpenConcat(a, b[..|b|-1]);
      assert (a + b)[..|a + b| - 1] == a + b[..|b|-1];
    }
  }

  lemma {:induction false} FlatCloses(groups: seq<seq<M.Event>>)
    requires forall grp <- groups :: M.Complete(grp)
    ensures M.Open(Flat(groups)) == {}
    decreases |groups|
  {
    if groups != [] {
      FlatCloses(groups[..|groups|-1]);
      OpenConcat(Flat(groups[..|groups|-1]), groups[|groups|-1]);
      assert M.Complete(groups[|groups|-1]);
    }
  }

  /** Strictly inside an operation's events the operation is open. */
  lemma {:induction false} OpenInside(op: M.OpId, ws: seq<Write>, n: nat)
    requires 0 < n <= |ws| + 1
    ensures M.Open(OpEvents(op, ws)[..n]) == {op}
    decreases n
  {
    var all := OpEvents(op, ws);
    assert all[..n][..n-1] == all[..n-1];
    if n == 1 {
      assert all[..n-1] == [] && all[..n][0] == M.Began(op);
    } else {
      OpenInside(op, ws, n - 1);
      WriteAt(op, ws, n - 2);
      assert all[..n][n-1] == Writes(op, ws)[n-2];
    }
  }

  lemma {:induction false} WriteAt(op: M.OpId, ws: seq<Write>, i: nat)
    requires i < |ws|
    ensures Writes(op, ws)[i] == M.Wrote(op, ws[i].b, ws[i].data)
    decreases |ws|
  {
    if i < |ws| - 1 { WriteAt(op, ws[..|ws|-1], i); }
  }

  lemma OpCloses(op: M.OpId, ws: seq<Write>)
    ensures M.Open(OpEvents(op, ws)) == {}
  {
    var all := OpEvents(op, ws);
    OpenInside(op, ws, |ws| + 1);
    assert all[..|all|-1] == all[..|ws|+1] && all[|all|-1] == M.Ended(op);
  }

  /** A stretch of a serial history that leaves nothing open is whole operations. */
  lemma {:induction false} ClosedPrefix(es: seq<seq<Write>>, evts: seq<M.Event>) returns (k: nat)
    requires evts <= Serial(es) && M.Open(evts) == {}
    ensures k <= |es| && evts == Serial(es[..k])
    decreases |es|
  {
    if es == [] {
      k := 0;
    } else {
      var less, op, ws := es[..|es|-1], |es| - 1, es[|es|-1];
      var head, all := Serial(less), OpEvents(op, ws);
      SerialCloses(less);
      if |evts| <= |head| {
        assert evts <= head;
        k := ClosedPrefix(less, evts);
        assert less[..k] == es[..k];
      } else {
        var n := |evts| - |head|;
        assert evts == head + all[..n];
        OpenConcat(head, all[..n]);
        if n <= |ws| + 1 {
          OpenInside(op, ws, n);
        }
        assert n == |all| && all[..n] == all;
        k := |es|;
        assert es[..k] == es;
      }
    }
  }

  lemma {:induction false} SerialCloses(es: seq<seq<Write>>)
    ensures M.Open(Serial(es)) == {}
    decreases |es|
  {
    if es != [] {
      SerialCloses(es[..|es|-1]);
      OpenConcat(Serial(es[..|es|-1]), OpEvents(|es| - 1, es[|es|-1]));
      OpCloses(|es| - 1, es[|es|-1]);
    }
  }

  /** Operations one after the other. In any run of the log machine that commits operations of a file system's
      history in order, at every moment, in the middle of a commit or of a recovery too, the disk recovers to the
      image after some number of whole operations, and that is a file system in which every block is accounted for
      and every inode is on the disk. */
  lemma SerialCrash(l: Layout, g: M.Geometry, init: seq<Block>, s0: M.State, acts: seq<M.Action>, s: M.State,
                    es: seq<seq<Write>>) returns (k: nat)
    requires M.Initial(g, s0) && M.RecoversTo(g, s0.disk, init) && M.Reaches(g, s0, acts, s)
    requires Past(l, init, es) && Flat(s.groups) <= Serial(es)
    ensures k <= |es| && Flat(s.groups) == Serial(es[..k])
    ensures M.RecoversTo(g, s.disk, ReplayAll(init, es[..k])) && Consistent(l, ReplayAll(init, es[..k]))
  {
    hide *;
    M.GroupAtomicity(g, init, s0, acts, s);
    FlatCloses(s.groups);
    k := ClosedPrefix(es, Flat(s.groups));
    FlatApplies(init, s.groups);
    SerialApplies(init, es[..k]);
    PastAt(l, init, es, k);
  }

  // ----- operations that overlap -----

  /** Whenever a commit is about to start, what memory shows is one of the images in `good`. */
  ghost predicate GoodAtCommits(g: M.Geometry, s0: M.State, acts: seq<M.Action>, good: iset<seq<Block>>) {
    forall i, p {:trigger M.Reaches(g, s0, acts[..i], p)} |
      0 <= i <= |acts| && M.Reaches(g, s0, acts[..i], p) && p.phase == M.CopyToLog(0) :: p.mem in good
  }

  ghost predicate HomeOnly(g: M.Geometry, good: iset<seq<Block>>) {
    forall a, b {:trigger M.SameHome(g, a, b)} | a in good && M.SameHome(g, a, b) :: b in good
  }

  /** However operations overlap between commits: if memory shows a good image whenever the last of them ends and a
      commit starts, then at every moment the disk recovers to a good image. */
  lemma {:induction false} GoodImages(g: M.Geometry, init: seq<Block>, s0: M.State, acts: seq<M.Action>, s: M.State,
                                      good: iset<seq<Block>>)
    requires M.Initial(g, s0) && M.RecoversTo(g, s0.disk, init) && M.Reaches(g, s0, acts, s)
    requires init in good && HomeOnly(g, good) && GoodAtCommits(g, s0, acts, good)
    ensures M.ApplyGroups(init, s.groups) in good
    ensures s.phase.CopyToLog? ==> M.Apply(M.ApplyGroups(init, s.groups), s.cur) in good
    decreases |acts|
  {
    hide M.Initial, M.RecoversTo, M.Inv, M.SameHome, M.InRange, M.Enabled, M.ApplyGroups, HomeOnly;
    if acts == [] {
      M.RunKeeps(g, init, s0, acts, s);
      StartGood(g, init, s0);
    } else {
      var last := |acts| - 1;
      var q :| M.Reaches(g, s0, acts[..last], q) && M.Takes(g, q, acts[last], s);
      GoodBefore(g, s0, acts, good);
      GoodImages(g, init, s0, acts[..last], q, good);
      M.RunKeeps(g, init, s0, acts[..last], q);
      M.GroupsStep(g, init, q, acts[last], s);
      M.GroupsSnoc(init, q.groups, q.cur);
      if s.phase == M.CopyToLog(0) {
        assert acts[..|acts|] == acts;
        M.RunKeeps(g, init, s0, acts, s);
        GatheredHome(g, init, s);
        GoodHome(g, good, s.mem, M.Apply(M.ApplyGroups(init, s.groups), s.cur));
      } else {
        CopyingOn(g, init, q, acts[last], s);
      }
    }
  }

  lemma StartGood(g: M.Geometry, init: seq<Block>, s0: M.State)
    requires M.Initial(g, s0)
    ensures M.ApplyGroups(init, s0.groups) == init && !s0.phase.CopyToLog?
  {
  }

  lemma GoodBefore(g: M.Geometry, s0: M.State, acts: seq<M.Action>, good: iset<seq<Block>>)
    requires acts != [] && GoodAtCommits(g, s0, acts, good)
    ensures GoodAtCommits(g, s0, acts[..|acts|-1], good)
  {
    var less := acts[..|acts|-1];
    forall i, p | 0 <= i <= |less| && M.Reaches(g, s0, less[..i], p) && p.phase == M.CopyToLog(0)
      ensures p.mem in good
    {
      assert less[..i] == acts[..i];
    }
  }

  lemma GatheredHome(g: M.Geometry, init: seq<Block>, s: M.State)
    requires M.Inv(g, init, s) && s.phase.CopyToLog?
    ensures M.SameHome(g, s.mem, M.Apply(M.ApplyGroups(init, s.groups), s.cur))
  {
  }

  lemma GoodHome(g: M.Geometry, good: iset<seq<Block>>, a: seq<Block>, b: seq<Block>)
    requires HomeOnly(g, good) && a in good && M.SameHome(g, a, b)
    ensures b in good
  {
  }

  /** A commit under way was under way before, with the same groups and events; one that ends adds those events. */
  lemma CopyingOn(g: M.Geometry, init: seq<Block>, q: M.State, a: M.Action, s: M.State)
    requires M.Inv(g, init, q) && M.Takes(g, q, a, s) && s.phase != M.CopyToLog(0)
    ensures s.phase.CopyToLog? ==> q.phase.CopyToLog? && s.cur == q.cur && s.groups == q.groups
    ensures a == M.WriteHead || a == M.CommitNothing ==> q.phase.CopyToLog?
  {
    hide M.Inv;
  }

  /** Crash consistency. However the operations of a file system overlap: if memory holds a consistent file system
      whenever the last of them ends and a commit starts, then at every moment of every run, in the middle of a commit
      or of a recovery too, the disk recovers to a file system in which every block is accounted for and every inode
      is on the disk, whatever recovery leaves in the log's own blocks. */
  lemma CrashConsistent(l: Layout, g: M.Geometry, init: seq<Block>, s0: M.State, acts: seq<M.Action>, s: M.State)
    requires M.Initial(g, s0) && M.RecoversTo(g, s0.disk, init) && M.Reaches(g, s0, acts, s)
    requires Fits(l, g) && Consistent(l, init)
    requires GoodAtCommits(g, s0, acts, iset img | Consistent(l, img))
    ensures M.RecoversTo(g, s.disk, M.ApplyGroups(init, s.groups)) && Consistent(l, M.ApplyGroups(init, s.groups))
    ensures forall d | M.SameHome(g, M.ApplyGroups(init, s.groups), d) :: Consistent(l, d)
  {
    hide M.Initial, M.RecoversTo, M.Reaches, M.SameHome, M.ApplyGroups, Consistent, GoodAtCommits;
    var good := iset img | Consistent(l, img);
    M.GroupAtomicity(g, init, s0, acts, s);
    forall a, b | a in good && M.SameHome(g, a, b) ensures b in good { ConsistentHome(l, g, a, b); }
    GoodImages(g, init, s0, acts, s, good);
  }

  /** A file system lies in the home blocks. */
  lemma ConsistentHome(l: Layout, g: M.Geometry, a: seq<Block>, b: seq<Block>)
    requires Fits(l, g) && Consistent(l, a) && M.SameHome(g, a, b)
    ensures Consistent(l, b)
  {
    hide Owned, Synced, M.SameHome;
    var ino, owner :| Intact(l, a, ino, owner);
    SameFrom(l, g, a, b);
    OwnedShape(l, a, ino, owner);
    OwnedHome(l, a, ino, owner, b);
    forall i | 0 <= i < |ino| ensures Synced(l, b, ino[i], i) {
      SyncedHome(l, a, ino, b, i);
    }
    assert Intact(l, b, ino, owner);
  }

  lemma SameFrom(l: Layout, g: M.Geometry, a: seq<Block>, b: seq<Block>)
    requires Fits(l, g) && M.SameHome(g, a, b)
    ensures |b| == |a| == l.size && forall x | l.inodestart <= x < l.size :: b[x] == a[x]
  {
    forall x | l.inodestart <= x < l.size ensures b[x] == a[x] { assert g.Home(x); }
  }

  lemma OwnedHome(l: Layout, a: seq<Block>, ino: seq<Inode>, owner: map<word, Slot>, b: seq<Block>)
    requires Owned(l, a, ino, owner) && |b| == |a| == l.size && forall x | l.inodestart <= x < l.size :: b[x] == a[x]
    ensures Owned(l, b, ino, owner)
  {
    hide BitOf;
    forall x | x in owner ensures x < |a| && b[x] == a[x] { OwnerInRange(l, a, ino, owner, x); }
    SameOutside(l, a, b, ino, owner);
    forall c: nat | c < l.size
      ensures l.BBlock(c) < |a| && l.BBlock(c) < |b| && (BitmapBit(l, b, c) <==> BitmapBit(l, a, c))
    {
      BitmapIsMetadata(l, a, ino, owner, c);
    }
    KeepOwned(l, a, ino, owner, b, ino);
  }

  lemma SyncedHome(l: Layout, a: seq<Block>, ino: seq<Inode>, b: seq<Block>, i: nat)
    requires l.Valid() && |ino| == l.ninodes && i < |ino| && Synced(l, a, ino[i], i) && |b| == |a| == l.size
    requires forall x | l.inodestart <= x < l.size :: b[x] == a[x]
    ensures Synced(l, b, ino[i], i)
  {
    hide WordAt, DinodeWord;
    assert b[l.IBlock(i)] == a[l.IBlock(i)];
  }

  /** The inodes that a boot finds on the disk. */
  ghost function DiskInodes(l: Layout, img: seq<Block>): seq<Inode>
    requires l.Valid() && |img| == l.size
  {
    seq(l.ninodes, i requires 0 <= i < l.ninodes => DiskInode(l, img, i))
  }

  /** Consistency speaks of the inodes that a boot reads: with them every block is accounted for. */
  lemma ConsistentReads(l: Layout, img: seq<Block>)
    requires Consistent(l, img)
    ensures l.Valid() && |img| == l.size && exists owner :: Owned(l, img, DiskInodes(l, img), owner)
  {
    hide Owned, Synced, DiskInode;
    var ino, owner :| Intact(l, img, ino, owner);
    OwnedShape(l, img, ino, owner);
    forall i | 0 <= i < |ino| ensures DiskInodes(l, img)[i] == ino[i] {
      assert Synced(l, img, ino[i], i);
      SyncedReads(l, img, ino[i], i);
    }
    assert DiskInodes(l, img) == ino;
  }

  lemma PastAt(l: Layout, origin: seq<Block>, es: seq<seq<Write>>, k: nat)
    requires Past(l, origin, es) && k <= |es|
    ensures Consistent(l, ReplayAll(origin, es[..k]))
    ensures forall i | 0 <= i < |es| :: FineOp(l, es[i])
  {
    assert es[..k] == es[..k];
  }

  // ----- a history can run -----

  lemma {:induction false} CopyRuns(g: M.Geometry, init: seq<Block>, s0: M.State, acts: seq<M.Action>, s: M.State,
                                    t: nat)
      returns (acts': seq<M.Action>, p: M.State)
    requires M.Initial(g, s0) && M.RecoversTo(g, s0.disk, init) && M.Reaches(g, s0, acts, s)
    requires s.phase == M.CopyToLog(t) && t <= |s.lh|
    ensures M.Reaches(g, s0, acts', p) && p.phase == M.CopyToLog(|s.lh|)
    ensures p.lh == s.lh && p.groups == s.groups && p.cur == s.cur && p.ops == s.ops
    decreases |s.lh| - t
  {
    hide M.Inv, M.RecoversTo, M.Initial, M.Reaches;
    if t == |s.lh| {
      acts', p := acts, s;
    } else {
      M.RunKeeps(g, init, s0, acts, s);
      var q := M.CopyStep(g, s, t);
      M.Extend(g, s0, acts, s, M.CopyBlock, q);
      acts', p := CopyRuns(g, init, s0, acts + [M.CopyBlock], q, t + 1);
    }
  }

  lemma {:induction false} InstallRuns(g: M.Geometry, init: seq<Block>, s0: M.State, acts: seq<M.Action>, s: M.State,
                                       t: nat)
      returns (acts': seq<M.Action>, p: M.State)
    requires M.Initial(g, s0) && M.RecoversTo(g, s0.disk, init) && M.Reaches(g, s0, acts, s)
    requires s.phase == M.Install(t) && t <= |s.lh|
    ensures M.Reaches(g, s0, acts', p) && p.phase == M.Active && p.lh == []
    ensures p.groups == s.groups && p.cur == s.cur && p.ops == s.ops
    decreases |s.lh| - t
  {
    hide M.Inv, M.RecoversTo, M.Initial, M.Reaches;
    M.RunKeeps(g, init, s0, acts, s);
    if t == |s.lh| {
      p := M.ClearStep(g, s);
      M.Extend(g, s0, acts, s, M.ClearHead, p);
      acts' := acts + [M.ClearHead];
    } else {
      var q := M.InstallStep(g, s, t, M.Install(t + 1));
      M.Extend(g, s0, acts, s, M.InstallBlock, q);
      acts', p := InstallRuns(g, init, s0, acts + [M.InstallBlock], q, t + 1);
    }
  }

  lemma CommitRuns(g: M.Geometry, init: seq<Block>, s0: M.State, acts: seq<M.Action>, s: M.State)
      returns (acts': seq<M.Action>, p: M.State)
    requires M.Initial(g, s0) && M.RecoversTo(g, s0.disk, init) && M.Reaches(g, s0, acts, s)
    requires s.phase == M.CopyToLog(0) && s.ops == map[]
    ensures M.Reaches(g, s0, acts', p) && M.Idle(p) && p.groups == s.groups + [s.cur]
  {
    hide M.Inv, M.RecoversTo, M.Initial, M.Reaches;
    M.RunKeeps(g, init, s0, acts, s);
    if s.lh == [] {
      p := M.CommitNothingStep(s);
      M.Extend(g, s0, acts, s, M.CommitNothing, p);
      acts' := acts + [M.CommitNothing];
    } else {
      var acts1, q := CopyRuns(g, init, s0, acts, s, 0);
      M.RunKeeps(g, init, s0, acts1, q);
      var h := M.WriteHeadStep(g, q);
      M.Extend(g, s0, acts1, q, M.WriteHead, h);
      acts', p := InstallRuns(g, init, s0, acts1 + [M.WriteHead], h, 0);
    }
  }

  /** One operation of the file system, from its begin_op to the end of its commit. */
  lemma OperationCommits(l: Layout, g: M.Geometry, init: seq<Block>, s0: M.State, acts: seq<M.Action>, s: M.State,
                         op: M.OpId, ws: seq<Write>) returns (acts': seq<M.Action>, p: M.State)
    requires M.Initial(g, s0) && M.RecoversTo(g, s0.disk, init) && M.Reaches(g, s0, acts, s)
    requires Fits(l, g) && FineOp(l, ws) && M.Idle(s)
    ensures M.Reaches(g, s0, acts', p) && M.Idle(p) && p.groups == s.groups + [OpEvents(op, ws)]
  {
    hide M.Inv, M.RecoversTo, M.Initial, M.Reaches, FineOp, Fits, OpEvents, Writes;
    var acts1, q := OperationLogs(l, g, init, s0, acts, s, op, ws);
    M.RunKeeps(g, init, s0, acts1, q);
    var e := M.EndStep(q, op);
    M.Extend(g, s0, acts1, q, M.EndOp(op), e);
    EventsOf(op, ws);
    acts', p := CommitRuns(g, init, s0, acts1 + [M.EndOp(op)], e);
  }

  lemma EventsOf(op: M.OpId, ws: seq<Write>)
    ensures [M.Began(op)] + Writes(op, ws) + [M.Ended(op)] == OpEvents(op, ws)
  {
  }

  lemma OperationLogs(l: Layout, g: M.Geometry, init: seq<Block>, s0: M.State, acts: seq<M.Action>, s: M.State,
                      op: M.OpId, ws: seq<Write>) returns (acts': seq<M.Action>, q: M.State)
    requires M.Initial(g, s0) && M.RecoversTo(g, s0.disk, init) && M.Reaches(g, s0, acts, s)
    requires Fits(l, g) && FineOp(l, ws) && M.Idle(s)
    ensures M.Reaches(g, s0, acts', q) && q.phase == M.Active && op in q.ops && |q.ops| == 1 && q.ops - {op} == map[]
    ensures q.groups == s.groups && q.cur == [M.Began(op)] + Writes(op, ws)
  {
    hide M.Inv, M.RecoversTo, M.Initial, M.Reaches, Replay, Written, Writes;
    M.RunKeeps(g, init, s0, acts, s);
    var b := M.BeginStep(s, op);
    M.Extend(g, s0, acts, s, M.BeginOp(op), b);
    HomeBlocks(l, g, ws);
    var acts1 := acts + [M.BeginOp(op)];
    var done;
    done, q := OperationRuns(g, init, s0, acts1, b, op, ws, |ws|);
    PrefixSmall(ws, done);
    assert ws[..done] == ws;
    acts' := acts1 + WriteActs(op, ws);
    assert q.ops.Keys == {op};
  }

  lemma PrefixSmall(ws: seq<Write>, k: nat)
    requires k <= |ws|
    ensures |Written(ws[..k])| <= |Written(ws)|
  {
    var a, b := Written(ws[..k]), Written(ws);
    assert forall w | w in ws[..k] :: w in ws;
    assert b == a + (b - a);
  }

  /** Every history of operations within the budget runs, from the boot on, on the log of a disk laid out for it;
      in the end memory and the recovered disk are the image after all of them. */
  lemma {:induction false} HistoryRuns(l: Layout, g: M.Geometry, init: seq<Block>, s0: M.State, es: seq<seq<Write>>)
      returns (acts': seq<M.Action>, p: M.State)
    requires M.Initial(g, s0) && M.RecoversTo(g, s0.disk, init)
    requires Fits(l, g) && forall k | 0 <= k < |es| :: FineOp(l, es[k])
    ensures M.Reaches(g, s0, acts', p) && M.Idle(p) && Flat(p.groups) == Serial(es)
    ensures M.SameHome(g, p.mem, ReplayAll(init, es)) && M.RecoversTo(g, p.disk, ReplayAll(init, es))
    decreases |es|
  {
    hide M.Inv, M.RecoversTo, M.Initial, M.Reaches, M.SameHome, Fits, FineOp;
    if es == [] {
      acts', p := M.BootRuns(g, init, s0);
    } else {
      var acts1, q := HistoryRuns(l, g, init, s0, es[..|es|-1]);
      acts', p := OperationCommits(l, g, init, s0, acts1, q, |es| - 1, es[|es|-1]);
      assert p.groups[..|p.groups|-1] == q.groups;
    }
    M.GroupAtomicity(g, init, s0, acts', p);
    FlatApplies(init, p.groups);
    SerialApplies(init, es);
  }

  /** The home blocks of the image after the first k operations of a mounted file system. */
  ghost predicate AfterSome(fs: Fs, g: M.Geometry, img: seq<Block>)
    reads fs
  {
    exists k {:trigger fs.ended[..k]} :: 0 <= k <= |fs.ended| && M.SameHome(g, img, ReplayAll(fs.origin, fs.ended[..k]))
  }

  /** A mounted file system whose calls of filewrite and truncations overlap on the log: if whenever a commit starts
      memory shows what some of them, one after the other, have done, then a crash at any moment recovers to the
      image after some of them, and that is consistent. */
  lemma MountedCrash(fs: Fs, g: M.Geometry, s0: M.State, acts: seq<M.Action>, s: M.State) returns (k: nat)
    requires Past(fs.l, fs.origin, fs.ended) && Fits(fs.l, g)
    requires M.Initial(g, s0) && M.RecoversTo(g, s0.disk, fs.origin) && M.Reaches(g, s0, acts, s)
    requires GoodAtCommits(g, s0, acts, iset img | AfterSome(fs, g, img))
    ensures k <= |fs.ended| && Consistent(fs.l, ReplayAll(fs.origin, fs.ended[..k]))
    ensures M.RecoversTo(g, s.disk, ReplayAll(fs.origin, fs.ended[..k]))
  {
    hide M.Initial, M.Reaches, M.ApplyGroups, Consistent, GoodAtCommits, Past, M.Recovered, M.LogOk, ReplayAll;
    var good := iset img | AfterSome(fs, g, img);
    StartShown(fs, g, s0);
    forall a, b | a in good && M.SameHome(g, a, b) ensures b in good {
      var j :| 0 <= j <= |fs.ended| && M.SameHome(g, a, ReplayAll(fs.origin, fs.ended[..j]));
      assert M.SameHome(g, b, ReplayAll(fs.origin, fs.ended[..j]));
    }
    GoodImages(g, fs.origin, s0, acts, s, good);
    var img := M.ApplyGroups(fs.origin, s.groups);
    assert AfterSome(fs, g, img);
    k :| 0 <= k <= |fs.ended| && M.SameHome(g, img, ReplayAll(fs.origin, fs.ended[..k]));
    M.GroupAtomicity(g, fs.origin, s0, acts, s);
    PastAt(fs.l, fs.origin, fs.ended, k);
  }

  lemma StartShown(fs: Fs, g: M.Geometry, s0: M.State)
    requires M.RecoversTo(g, s0.disk, fs.origin)
    ensures AfterSome(fs, g, fs.origin)
  {
    assert fs.ended[..0] == [];
  }

  /** The same where the operations do not overlap: in any run that commits them in order. With all of them committed
      the disk recovers to the file system's blocks as they are now. */
  lemma MountedSerial(fs: Fs, g: M.Geometry, s0: M.State, acts: seq<M.Action>, s: M.State) returns (k: nat)
    requires Past(fs.l, fs.origin, fs.ended)
    requires M.Initial(g, s0) && M.RecoversTo(g, s0.disk, fs.origin) && M.Reaches(g, s0, acts, s)
    requires Flat(s.groups) <= Serial(fs.ended)
    ensures k <= |fs.ended| && Consistent(fs.l, ReplayAll(fs.origin, fs.ended[..k]))
    ensures M.RecoversTo(g, s.disk, ReplayAll(fs.origin, fs.ended[..k]))
    ensures fs.History() && Flat(s.groups) == Serial(fs.ended) ==> M.RecoversTo(g, s.disk, fs.blocks)
  {
    hide *;
    k := SerialCrash(fs.l, g, fs.origin, s0, acts, s, fs.ended);
    AllCommitted(fs, g, s0, acts, s);
  }

  lemma AllCommitted(fs: Fs, g: M.Geometry, s0: M.State, acts: seq<M.Action>, s: M.State)
    requires M.Initial(g, s0) && M.RecoversTo(g, s0.disk, fs.origin) && M.Reaches(g, s0, acts, s)
    ensures fs.History() && Flat(s.groups) == Serial(fs.ended) ==> M.RecoversTo(g, s.disk, fs.blocks)
  {
    hide M.Reaches, M.RecoversTo, M.Initial, Past, ReplayAll, AllSynced;
    M.GroupAtomicity(g, fs.origin, s0, acts, s);
    FlatApplies(fs.origin, s.groups);
    SerialApplies(fs.origin, fs.ended);
  }
}
