/** Which blocks the calls of fs.c log, in order, as a plan made before the call: bmap takes the clear blocks as
    the bitmap scan meets them. With it the point at which log_write finds the log full can be told in advance. */
module LogUse {
  import opened Common
  import opened Blocks
  import opened FsModel

  // ----- a full log -----

  /** Entering the blocks of `puts` one by one in a log that holds `lh`, log_write finds the log full at one of
      them: it tests for room before it looks for the block in the log. */
  predicate Full(lh: set<word>, room: nat, puts: seq<word>)
    decreases |puts|
  {
    puts != [] && (|lh| >= room || Full(lh + {puts[0]}, room, puts[1..]))
  }

  lemma {:induction false} FullConcat(lh: set<word>, room: nat, a: seq<word>, b: seq<word>)
    ensures Full(lh, room, a + b) <==> Full(lh, room, a) || Full(lh + Elems(a), room, b)
    decreases |a|
  {
    if a == [] {
      assert a + b == b && lh + Elems(a) == lh;
    } else {
      FullConcat(lh + {a[0]}, room, a[1..], b);
      assert (a + b)[1..] == a[1..] + b;
      assert lh + Elems(a) == lh + {a[0]} + Elems(a[1..]) by { ElemsFirst(a); }
    }
  }

  lemma ElemsFirst(a: seq<word>)
    requires a != []
    ensures Elems(a) == {a[0]} + Elems(a[1..])
  {
    assert a == [a[0]] + a[1..];
  }

  lemma ElemsConcat(a: seq<word>, b: seq<word>)
    ensures Elems(a + b) == Elems(a) + Elems(b)
  {
  }

  /** The log is found full if and only if it is before the last block. */
  lemma {:induction false} FullAtLast(lh: set<word>, room: nat, puts: seq<word>)
    ensures Full(lh, room, puts) <==> puts != [] && |lh + Elems(puts[..|puts|-1])| >= room
    decreases |puts|
  {
    hide Elems;
    NoElems();
    if |puts| == 1 {
      assert puts[..0] == [] && lh + Elems([]) == lh;
    } else if puts != [] {
      var rest := puts[1..];
      FullAtLast(lh + {puts[0]}, room, rest);
      ElemsFirst(puts[..|puts|-1]);
      assert rest[..|rest|-1] == puts[..|puts|-1][1..];
      assert lh + Elems(puts[..|puts|-1]) == lh + {puts[0]} + Elems(rest[..|rest|-1]);
      SmallerSet(lh, lh + Elems(puts[..|puts|-1]));
    }
  }

  lemma SmallerSet<T>(a: set<T>, b: set<T>)
    requires a <= b
    ensures |a| <= |b|
  {
    assert b == a + (b - a);
  }

  // ----- what mapping a block logs -----

  /** The block of the bitmap that has the bit of block b. */
  function MapOf(l: Layout, b: word): word {
    if l.BBlock(b) < WORDLIMIT then l.BBlock(b) else 0
  }

  /** balloc logs the bitmap block and the zeroed block. */
  function Take(l: Layout, free: seq<word>): seq<word> {
    if free == [] then [] else [MapOf(l, free[0]), free[0]]
  }

  /** How many blocks are missing for place k holding number v, in a file with indirect block `ind`. */
  function Lacks(v: word, k: nat, ind: word): nat {
    (if v == 0 then 1 else 0) + if k >= NDIRECT && ind == 0 then 1 else 0
  }

  /** What bmap logs for place k; nothing more once the clear blocks have run out. */
  function Fill(l: Layout, v: word, k: nat, ind: word, free: seq<word>): seq<word> {
    if v != 0 then []
    else if k < NDIRECT then Take(l, free)
    else if ind != 0 then (if free == [] then [] else Take(l, free) + [ind])
    else if |free| <= 1 then Take(l, free)
    else Take(l, free) + (Take(l, free[1..]) + [free[0]])
  }

  /** The block number that bmap comes to. */
  function Comes(v: word, k: nat, ind: word, free: seq<word>): word
    requires |free| >= Lacks(v, k, ind)
  {
    if v != 0 || free == [] then v else if Lacks(v, k, ind) == 2 then free[1] else free[0]
  }

  /** The indirect block after bmap. */
  function IndAfter(v: word, k: nat, ind: word, free: seq<word>): word
    requires |free| >= Lacks(v, k, ind)
  {
    if k >= NDIRECT && ind == 0 then free[0] else ind
  }

  /** One turn of readi's or writei's loop; only writei logs the block itself. */
  function Turn(l: Layout, v: word, k: nat, ind: word, free: seq<word>, writing: bool): seq<word> {
    Fill(l, v, k, ind, free)
    + if writing && |free| >= Lacks(v, k, ind) then [Comes(v, k, ind, free)] else []
  }

  /** The turns for places lo..hi-1, up to the one for which the clear blocks do not suffice. */
  function Turns(l: Layout, blocks: seq<Block>, ip: Inode, ind: word, lo: nat, hi: nat, free: seq<word>,
                 writing: bool): seq<word>
    requires hi <= MAXFILE
    decreases hi - lo
  {
    if lo >= hi then []
    else
      var v := Val(blocks, ip, lo);
      var n := Lacks(v, lo, ind);
      Turn(l, v, lo, ind, free, writing)
      + if |free| < n then [] else Turns(l, blocks, ip, IndAfter(v, lo, ind, free), lo + 1, hi, free[n..], writing)
  }

  /** What reading or writing blocks lo..hi-1 of a file logs. */
  ghost function Puts(l: Layout, blocks: seq<Block>, ip: Inode, lo: nat, hi: nat, writing: bool): seq<word>
    requires hi <= MAXFILE
  {
    Turns(l, blocks, ip, ip.addrs[NDIRECT], lo, hi, Clear(l, blocks), writing)
  }

  ghost function FillOf(l: Layout, blocks: seq<Block>, ip: Inode, k: nat): seq<word>
    requires k < MAXFILE
  {
    Fill(l, Val(blocks, ip, k), k, ip.addrs[NDIRECT], Clear(l, blocks))
  }

  ghost function TurnOf(l: Layout, blocks: seq<Block>, ip: Inode, k: nat, writing: bool): seq<word>
    requires k < MAXFILE
  {
    Turn(l, Val(blocks, ip, k), k, ip.addrs[NDIRECT], Clear(l, blocks), writing)
  }

  lemma NeedIsLacks(blocks: seq<Block>, ip: Inode, k: nat)
    requires k < MAXFILE
    ensures Need(blocks, ip, k) == Lacks(Val(blocks, ip, k), k, ip.addrs[NDIRECT])
  {
  }

  /** Block k has been mapped: the clear blocks it lacked are taken from the front. */
  ghost predicate Took(l: Layout, b1: seq<Block>, ip1: Inode, b2: seq<Block>, ip2: Inode, k: nat) {
    && k < MAXFILE && |Clear(l, b1)| >= Need(b1, ip1, k) && Clear(l, b2) == Clear(l, b1)[Need(b1, ip1, k)..]
    && ip2.addrs[NDIRECT] == IndAfter(Val(b1, ip1, k), k, ip1.addrs[NDIRECT], Clear(l, b1))
    && Val(b2, ip2, k) == Comes(Val(b1, ip1, k), k, ip1.addrs[NDIRECT], Clear(l, b1))
    && forall j | k < j < MAXFILE :: Val(b2, ip2, j) == Val(b1, ip1, j)
  }

  lemma {:induction false} TurnsSame(l: Layout, b1: seq<Block>, ip1: Inode, b2: seq<Block>, ip2: Inode, ind: word,
                                     lo: nat, hi: nat, free: seq<word>, writing: bool)
    requires hi <= MAXFILE && forall j | lo <= j < hi :: Val(b2, ip2, j) == Val(b1, ip1, j)
    ensures Turns(l, b2, ip2, ind, lo, hi, free, writing) == Turns(l, b1, ip1, ind, lo, hi, free, writing)
    decreases hi - lo
  {
    hide Val, Turn;
    if lo < hi {
      var v := Val(b1, ip1, lo);
      var n := Lacks(v, lo, ind);
      if |free| >= n {
        TurnsSame(l, b1, ip1, b2, ip2, IndAfter(v, lo, ind, free), lo + 1, hi, free[n..], writing);
      }
    }
  }

  /** The plan goes on from where a turn has left the disk. */
  lemma PutsStep(l: Layout, b1: seq<Block>, ip1: Inode, b2: seq<Block>, ip2: Inode, k: nat, hi: nat, writing: bool)
    requires Took(l, b1, ip1, b2, ip2, k) && k < hi <= MAXFILE
    ensures Puts(l, b1, ip1, k, hi, writing) == TurnOf(l, b1, ip1, k, writing) + Puts(l, b2, ip2, k + 1, hi, writing)
  {
    hide Turn, Clear, Val;
    NeedIsLacks(b1, ip1, k);
    TurnsSame(l, b1, ip1, b2, ip2, ip2.addrs[NDIRECT], k + 1, hi, Clear(l, b2), writing);
  }

  /** The next turn comes first in the plan. */
  lemma TurnFirst(l: Layout, lh: set<word>, room: nat, blocks: seq<Block>, ip: Inode, k: nat, hi: nat, writing: bool)
    requires k < hi <= MAXFILE
    ensures Full(lh, room, TurnOf(l, blocks, ip, k, writing)) ==> Full(lh, room, Puts(l, blocks, ip, k, hi, writing))
    ensures |Clear(l, blocks)| < Need(blocks, ip, k) ==>
              Puts(l, blocks, ip, k, hi, writing) == TurnOf(l, blocks, ip, k, writing)
  {
    hide Turn, Clear, Val, Full;
    NeedIsLacks(blocks, ip, k);
    var all, t := Puts(l, blocks, ip, k, hi, writing), TurnOf(l, blocks, ip, k, writing);
    assert all == t + all[|t|..];
    FullConcat(lh, room, t, all[|t|..]);
  }

  lemma PutsNone(l: Layout, blocks: seq<Block>, ip: Inode, k: nat, writing: bool)
    requires k <= MAXFILE
    ensures Puts(l, blocks, ip, k, k, writing) == []
  {
  }

  // ----- outside an operation, and in a long one -----

  /** Where log_write panics at once, a read gets through exactly when nothing is missing. */
  lemma {:induction false} NothingPut(l: Layout, blocks: seq<Block>, ip: Inode, ind: word, lo: nat, hi: nat,
                                      free: seq<word>)
    requires hi <= MAXFILE && lo <= hi && (ind == 0 ==> ip.addrs[NDIRECT] == 0)
    ensures Missing(blocks, ip, lo, hi) == 0 ==> Turns(l, blocks, ip, ind, lo, hi, free, false) == []
    ensures free != [] && Turns(l, blocks, ip, ind, lo, hi, free, false) == [] ==> Missing(blocks, ip, lo, hi) == 0
    decreases hi - lo
  {
    hide Val, WordAt;
    if lo < hi {
      var v := Val(blocks, ip, lo);
      MissingSplit(blocks, ip, lo, lo + 1, hi);
      MissingNext(blocks, ip, lo, lo);
      EntryOfNone(blocks, ip, lo);
      if v != 0 {
        NothingPut(l, blocks, ip, ind, lo + 1, hi, free);
      }
    }
  }

  lemma EntryOfNone(blocks: seq<Block>, ip: Inode, k: nat)
    requires k < MAXFILE
    ensures k >= NDIRECT && ip.addrs[NDIRECT] == 0 ==> Val(blocks, ip, k) == 0
  {
  }

  /** Where nothing is missing, no indirect block is either. */
  lemma IndirectIsMissing(blocks: seq<Block>, ip: Inode, lo: nat, hi: nat)
    requires lo <= hi <= MAXFILE
    ensures Cost(blocks, ip, lo, hi) == 0 <==> Missing(blocks, ip, lo, hi) == 0
  {
    if lo < hi {
      MissingNext(blocks, ip, lo, hi - 1);
      EntryOfNone(blocks, ip, hi - 1);
    }
  }

  // ----- how many blocks a write logs -----

  lemma {:induction false} ElemsCount(s: set<word>, t: seq<word>)
    requires s <= Elems(t)
    ensures |s| <= |t|
    decreases |t|
  {
    if t == [] {
      assert s == {};
    } else {
      ElemsFirst(t);
      ElemsCount(s - {t[0]}, t[1..]);
      assert s <= (s - {t[0]}) + {t[0]};
      SmallerSet(s, (s - {t[0]}) + {t[0]});
    }
  }

  /** The indirect block, if there is one. */
  function IndSet(ind: word): set<word> {
    if ind == 0 then {} else {ind}
  }

  /** Apart from the indirect block, a turn logs one block, and two if the place is empty. */
  lemma TurnCount(l: Layout, v: word, k: nat, ind: word, free: seq<word>, writing: bool)
    ensures k < NDIRECT || ind != 0 ==>
              |Elems(Turn(l, v, k, ind, free, writing)) - IndSet(ind)| <= if v == 0 then 2 else 1
    ensures |Elems(Turn(l, v, k, ind, free, writing))| <= 4
  {
    var t := Turn(l, v, k, ind, free, writing);
    if v != 0 {
      ElemsCount(Elems(t), [v]);
      ElemsCount(Elems(t) - IndSet(ind), [v]);
    } else if free != [] {
      var two := Take(l, free);
      var four := two + Take(l, free[1..]);
      assert forall x | x in t :: x in four || x == ind;
      if k < NDIRECT {
        assert forall x | x in t :: x in two;
        ElemsCount(Elems(t), two);
        ElemsCount(Elems(t) - IndSet(ind), two);
      } else if ind != 0 {
        assert forall x | x in t :: x in two + [ind];
        ElemsCount(Elems(t), two + [ind]);
        ElemsCount(Elems(t) - IndSet(ind), two);
      } else {
        assert forall x | x in t :: x in four;
        ElemsCount(Elems(t), four);
      }
    }
  }

  lemma UnionCount(a: set<word>, b: set<word>, x: set<word>)
    ensures |(a + b) - x| <= |a - x| + |b - x|
  {
    assert (a + b) - x == (a - x) + (b - x);
  }

  /** A write to n blocks of a file, m of which are missing, logs at most n + m blocks besides the indirect block,
      and two more for one that is new. */
  lemma {:induction false} TurnsCount(l: Layout, blocks: seq<Block>, ip: Inode, ind: word, lo: nat, hi: nat,
                                      free: seq<word>, writing: bool)
    requires lo <= hi <= MAXFILE && (forall i | 0 <= i < |free| :: free[i] != 0)
               && (ind == 0 ==> ip.addrs[NDIRECT] == 0)
    ensures |Elems(Turns(l, blocks, ip, ind, lo, hi, free, writing)) - IndSet(ind)|
         <= hi - lo + Missing(blocks, ip, lo, hi) + if ind == 0 then 2 else 0
    decreases hi - lo
  {
    hide Val, Turn, Elems, Lacks, IndAfter, IndSet;
    if lo < hi {
      var v := Val(blocks, ip, lo);
      var n, t := Lacks(v, lo, ind), Turn(l, v, lo, ind, free, writing);
      MissingSplit(blocks, ip, lo, lo + 1, hi);
      MissingNext(blocks, ip, lo, lo);
      EntryOfNone(blocks, ip, lo);
      if |free| < n {
        ShortTurn(l, v, lo, ind, free, writing);
        assert t + [] == t;
      } else {
        var next := IndAfter(v, lo, ind, free);
        var rest := Turns(l, blocks, ip, next, lo + 1, hi, free[n..], writing);
        NextNonzero(v, lo, ind, free);
        TurnsCount(l, blocks, ip, next, lo + 1, hi, free[n..], writing);
        ElemsConcat(t, rest);
        JoinedTurn(l, v, lo, ind, free, writing, rest);
      }
    } else {
      NoElems();
      assert {} - IndSet(ind) == {};
    }
  }

  lemma NextNonzero(v: word, k: nat, ind: word, free: seq<word>)
    requires |free| >= Lacks(v, k, ind) && forall i | 0 <= i < |free| :: free[i] != 0
    ensures k >= NDIRECT || ind != 0 ==> IndAfter(v, k, ind, free) != 0
    ensures k < NDIRECT || ind != 0 ==> IndAfter(v, k, ind, free) == ind
  {
  }

  lemma JoinedTurn(l: Layout, v: word, k: nat, ind: word, free: seq<word>, writing: bool, rest: seq<word>)
    requires |free| >= Lacks(v, k, ind) && (k >= NDIRECT && ind == 0 ==> v == 0)
    requires forall i | 0 <= i < |free| :: free[i] != 0
    ensures |(Elems(Turn(l, v, k, ind, free, writing)) + Elems(rest)) - IndSet(ind)|
         <= |Elems(rest) - IndSet(IndAfter(v, k, ind, free))| + (if v == 0 then 2 else 1)
            + if ind == 0 && k >= NDIRECT then 2 else 0
  {
    hide Turn, Elems;
    var a, b := Elems(Turn(l, v, k, ind, free, writing)), Elems(rest);
    TurnCount(l, v, k, ind, free, writing);
    if ind == 0 && k >= NDIRECT {
      NewIndirect(l, v, k, free, writing);
      JoinedCount(a, b, free[0]);
      assert (a + b) - {} == a + b;
    } else {
      UnionCount(a, b, IndSet(ind));
    }
  }

  lemma NoElems()
    ensures Elems([]) == {}
  {
  }

  lemma NewIndirect(l: Layout, v: word, k: nat, free: seq<word>, writing: bool)
    requires NDIRECT <= k && v == 0 && |free| >= 2
    ensures free[0] in Elems(Turn(l, v, k, 0, free, writing))
  {
    assert Turn(l, v, k, 0, free, writing)[1] == free[0];
  }

  lemma ShortTurn(l: Layout, v: word, k: nat, ind: word, free: seq<word>, writing: bool)
    requires |free| < Lacks(v, k, ind)
    ensures |Elems(Turn(l, v, k, ind, free, writing)) - IndSet(ind)| <= 2 && (ind == 0 || v == 0)
  {
    var t := Turn(l, v, k, ind, free, writing);
    ElemsCount(Elems(t) - IndSet(ind), Take(l, free));
  }

  lemma JoinedCount(a: set<word>, b: set<word>, x: word)
    requires x in a
    ensures |a + b| <= |a| + |b - {x}|
  {
    assert a + b == a + (b - {x});
  }

  /** A chunk of filewrite's logs at most nine blocks, the inode's block apart. */
  lemma ChunkPuts(l: Layout, blocks: seq<Block>, ip: Inode, off: nat, n: nat)
    requires NoHoles(blocks, ip) && off <= ip.size && n <= 3 * BSIZE && off + n <= MAXFILE * BSIZE
    requires forall i | 0 <= i < |Clear(l, blocks)| :: Clear(l, blocks)[i] != 0
    ensures off / BSIZE <= Hi(off, n) <= MAXFILE
    ensures |Elems(Puts(l, blocks, ip, off / BSIZE, Hi(off, n), true))| <= MAXOPBLOCKS - 1
  {
    hide Turns, Clear, Missing, NoHoles, Val;
    ChunkCost(blocks, ip, off, n);
    var ind, t := ip.addrs[NDIRECT], Puts(l, blocks, ip, off / BSIZE, Hi(off, n), true);
    TurnsCount(l, blocks, ip, ind, off / BSIZE, Hi(off, n), Clear(l, blocks), true);
    SmallerSet(Elems(t), (Elems(t) - IndSet(ind)) + IndSet(ind));
  }

  /** A plan whose blocks but the last are fewer than the log has room for goes through an empty log. */
  lemma NotFull(room: nat, puts: seq<word>, last: seq<word>)
    requires |Elems(puts)| < room && |last| <= 1
    ensures !Full({}, room, puts + last)
  {
    var all := puts + last;
    FullAtLast({}, room, all);
    if all != [] {
      var t := all[..|all|-1];
      assert forall x | x in t :: x in puts;
      SmallerSet({} + Elems(t), Elems(puts));
    }
  }

  // ----- a write to more blocks than the log holds -----

  /** The data blocks of places lo..hi-1 once they are there. */
  function Datas(blocks: seq<Block>, ip: Inode, ind: word, lo: nat, hi: nat, free: seq<word>): set<word>
    requires hi <= MAXFILE
    decreases hi - lo
  {
    if lo >= hi then {}
    else
      var v := Val(blocks, ip, lo);
      var n := Lacks(v, lo, ind);
      if |free| < n then {}
      else {Comes(v, lo, ind, free)} + Datas(blocks, ip, IndAfter(v, lo, ind, free), lo + 1, hi, free[n..])
  }

  /** The blocks of the file are different, and none of them is clear. */
  ghost predicate Separate(blocks: seq<Block>, ip: Inode, lo: nat, hi: nat, free: seq<word>) {
    && hi <= MAXFILE && (forall i | 0 <= i < |free| :: free[i] != 0)
    && (forall i, j | 0 <= i < j < |free| :: free[i] < free[j])
    && (forall k, i | lo <= k < hi && 0 <= i < |free| :: Val(blocks, ip, k) != free[i])
    && (forall j, k | lo <= j < k < hi :: Val(blocks, ip, j) == 0 || Val(blocks, ip, j) != Val(blocks, ip, k))
  }

  lemma {:induction false} DatasIn(blocks: seq<Block>, ip: Inode, ind: word, lo: nat, hi: nat, free: seq<word>, x: word)
    requires hi <= MAXFILE && x in Datas(blocks, ip, ind, lo, hi, free)
    ensures x in free || exists k :: lo <= k < hi && Val(blocks, ip, k) == x != 0
    decreases hi - lo
  {
    hide Val;
    var v := Val(blocks, ip, lo);
    var n := Lacks(v, lo, ind);
    if x != Comes(v, lo, ind, free) {
      DatasIn(blocks, ip, IndAfter(v, lo, ind, free), lo + 1, hi, free[n..], x);
    }
  }

  lemma {:induction false} DatasCount(blocks: seq<Block>, ip: Inode, ind: word, lo: nat, hi: nat, free: seq<word>)
    requires lo <= hi <= MAXFILE && Separate(blocks, ip, lo, hi, free) && (ind == 0 ==> ip.addrs[NDIRECT] == 0)
    requires |free| >= Missing(blocks, ip, lo, hi) + if ind == 0 && lo < hi && hi > NDIRECT then 1 else 0
    ensures |Datas(blocks, ip, ind, lo, hi, free)| == hi - lo
    decreases hi - lo
  {
    hide Val, Separate;
    if lo < hi {
      var v := Val(blocks, ip, lo);
      var n := Lacks(v, lo, ind);
      MissingSplit(blocks, ip, lo, lo + 1, hi);
      MissingNext(blocks, ip, lo, lo);
      EntryOfNone(blocks, ip, lo);
      SeparateNext(blocks, ip, ind, lo, hi, free);
      DatasCount(blocks, ip, IndAfter(v, lo, ind, free), lo + 1, hi, free[n..]);
    }
  }

  lemma SeparateNext(blocks: seq<Block>, ip: Inode, ind: word, lo: nat, hi: nat, free: seq<word>)
    requires lo < hi && Separate(blocks, ip, lo, hi, free) && |free| >= Lacks(Val(blocks, ip, lo), lo, ind)
    ensures var v := Val(blocks, ip, lo);
      var n, next := Lacks(v, lo, ind), IndAfter(v, lo, ind, free);
      && Separate(blocks, ip, lo + 1, hi, free[n..]) && (lo >= NDIRECT || ind != 0 ==> next != 0)
      && (lo < NDIRECT ==> next == ind)
      && Comes(v, lo, ind, free) !in Datas(blocks, ip, next, lo + 1, hi, free[n..])
  {
    hide Val;
    var v := Val(blocks, ip, lo);
    var n := Lacks(v, lo, ind);
    var x, next := Comes(v, lo, ind, free), IndAfter(v, lo, ind, free);
    if x in Datas(blocks, ip, next, lo + 1, hi, free[n..]) {
      DatasIn(blocks, ip, next, lo + 1, hi, free[n..], x);
      assert false;
    }
  }

  /** Every data block is among those logged. */
  lemma {:induction false} DatasLogged(l: Layout, blocks: seq<Block>, ip: Inode, ind: word, lo: nat, hi: nat,
                                       free: seq<word>)
    requires hi <= MAXFILE
    ensures Datas(blocks, ip, ind, lo, hi, free) <= Elems(Turns(l, blocks, ip, ind, lo, hi, free, true))
    decreases hi - lo
  {
    hide Val, Fill;
    if lo < hi {
      var v := Val(blocks, ip, lo);
      var n := Lacks(v, lo, ind);
      if |free| >= n {
        var t, next := Turn(l, v, lo, ind, free, true), IndAfter(v, lo, ind, free);
        DatasLogged(l, blocks, ip, next, lo + 1, hi, free[n..]);
        ElemsConcat(t, Turns(l, blocks, ip, next, lo + 1, hi, free[n..], true));
        assert t[|t|-1] == Comes(v, lo, ind, free);
      }
    }
  }

  lemma OwnedNonzero(l: Layout, blocks: seq<Block>, ino: seq<Inode>, owner: map<word, Slot>)
    requires Owned(l, blocks, ino, owner)
    ensures forall i | 0 <= i < |Clear(l, blocks)| :: Clear(l, blocks)[i] != 0
  {
    hide Owned, Clear;
    var free := Clear(l, blocks);
    OwnedShape(l, blocks, ino, owner);
    forall i | 0 <= i < |free| ensures free[i] != 0 {
      assert free[i] in Elems(free);
      ClearAt(l, blocks, ino, owner, free[i]);
    }
  }

  lemma OwnedSeparate(l: Layout, blocks: seq<Block>, ino: seq<Inode>, owner: map<word, Slot>, inum: nat, lo: nat,
                      hi: nat)
    requires Owned(l, blocks, ino, owner) && inum < |ino| && hi <= MAXFILE
    ensures Separate(blocks, ino[inum], lo, hi, Clear(l, blocks))
  {
    hide Owned, Clear, Val;
    var free := Clear(l, blocks);
    ClearSorted(l, blocks, ino, owner);
    OwnedShape(l, blocks, ino, owner);
    forall i | 0 <= i < |free| ensures free[i] != 0 && free[i] !in owner {
      assert free[i] in Elems(free);
      ClearAt(l, blocks, ino, owner, free[i]);
    }
    forall k | lo <= k < hi && Val(blocks, ino[inum], k) != 0
      ensures Val(blocks, ino[inum], k) in owner && owner[Val(blocks, ino[inum], k)] == Slot(inum, k)
    {
      OwnedVal(l, blocks, ino, owner, inum, k);
    }
  }

  /** A write to more blocks than the log has room for never gets through. */
  lemma LongWrite(l: Layout, blocks: seq<Block>, ino: seq<Inode>, owner: map<word, Slot>, inum: nat, lo: nat, hi: nat,
                  lh: set<word>, room: nat)
    requires Owned(l, blocks, ino, owner) && inum < |ino| && lo + room < hi <= MAXFILE
    ensures |Clear(l, blocks)| < Cost(blocks, ino[inum], lo, hi)
              || Full(lh, room, Puts(l, blocks, ino[inum], lo, hi, true))
  {
    hide Owned, Clear, Turns, Val, Elems, Full, Separate;
    var ip, free, puts := ino[inum], Clear(l, blocks), Puts(l, blocks, ino[inum], lo, hi, true);
    if |free| >= Cost(blocks, ip, lo, hi) {
      OwnedSeparate(l, blocks, ino, owner, inum, lo, hi);
      DatasCount(blocks, ip, ip.addrs[NDIRECT], lo, hi, free);
      DatasLogged(l, blocks, ip, ip.addrs[NDIRECT], lo, hi, free);
      var datas := Datas(blocks, ip, ip.addrs[NDIRECT], lo, hi, free);
      SmallerSet(datas, Elems(puts));
      NoElems();
      var n := |puts| - 1;
      ElemsConcat(puts[..n], [puts[n]]);
      assert puts == puts[..n] + [puts[n]];
      ElemsCount(Elems([puts[n]]), [puts[n]]);
      SmallerSet(Elems(puts[..n]), lh + Elems(puts[..n]));
      FullAtLast(lh, room, puts);
    }
  }

  // ----- a call that follows its plan -----

  /** The first turns of a plan, for places lo..k-1, have been made; `done` is what they logged. */
  ghost predicate OnPlan(l: Layout, b0: seq<Block>, ip0: Inode, lh0: set<word>, room: nat,
                         b: seq<Block>, ip: Inode, lh: set<word>, lo: nat, k: nat, hi: nat, writing: bool,
                           done: seq<word>)
  {
    && lo <= k <= hi <= MAXFILE && lh == lh0 + Elems(done) && !Full(lh0, room, done)
    && Puts(l, b0, ip0, lo, hi, writing) == done + Puts(l, b, ip, k, hi, writing)
  }

  lemma PlanStarts(l: Layout, b0: seq<Block>, ip0: Inode, lh0: set<word>, room: nat, lo: nat, hi: nat, writing: bool)
    requires lo <= hi <= MAXFILE
    ensures OnPlan(l, b0, ip0, lh0, room, b0, ip0, lh0, lo, lo, hi, writing, [])
  {
    hide Turns, Clear;
    NoElems();
  }

  lemma PlanStep(l: Layout, b0: seq<Block>, ip0: Inode, lh0: set<word>, room: nat,
                 b1: seq<Block>, ip1: Inode, lh1: set<word>, b2: seq<Block>, ip2: Inode, lh2: set<word>,
                 lo: nat, k: nat, hi: nat, writing: bool, done: seq<word>)
    requires OnPlan(l, b0, ip0, lh0, room, b1, ip1, lh1, lo, k, hi, writing, done) && k < hi
    requires Took(l, b1, ip1, b2, ip2, k) && !Full(lh1, room, TurnOf(l, b1, ip1, k, writing))
    requires lh2 == lh1 + Elems(TurnOf(l, b1, ip1, k, writing))
    ensures OnPlan(l, b0, ip0, lh0, room, b2, ip2, lh2, lo, k + 1, hi, writing, done + TurnOf(l, b1, ip1, k, writing))
  {
    hide Turns, Clear, Full, Turn, Took, Elems;
    var t := TurnOf(l, b1, ip1, k, writing);
    PutsStep(l, b1, ip1, b2, ip2, k, hi, writing);
    FullConcat(lh0, room, done, t);
    ElemsConcat(done, t);
    assert done + (t + Puts(l, b2, ip2, k + 1, hi, writing)) == (done + t) + Puts(l, b2, ip2, k + 1, hi, writing);
  }

  /** A turn that finds the log full shows that the plan does not fit. */
  lemma PlanFails(l: Layout, b0: seq<Block>, ip0: Inode, lh0: set<word>, room: nat, b: seq<Block>, ip: Inode,
                  lh: set<word>,
                  lo: nat, k: nat, hi: nat, writing: bool, done: seq<word>)
    requires OnPlan(l, b0, ip0, lh0, room, b, ip, lh, lo, k, hi, writing, done) && k < hi
    ensures Full(lh, room, TurnOf(l, b, ip, k, writing)) ==> Full(lh0, room, Puts(l, b0, ip0, lo, hi, writing))
  {
    hide Turns, Clear, Full, Turn, Elems;
    TurnFirst(l, lh, room, b, ip, k, hi, writing);
    FullConcat(lh0, room, done, Puts(l, b, ip, k, hi, writing));
  }

  lemma PlanEnds(l: Layout, b0: seq<Block>, ip0: Inode, lh0: set<word>, room: nat, b: seq<Block>, ip: Inode,
                 lh: set<word>,
                 lo: nat, hi: nat, writing: bool, done: seq<word>)
    requires OnPlan(l, b0, ip0, lh0, room, b, ip, lh, lo, hi, hi, writing, done)
    ensures done == Puts(l, b0, ip0, lo, hi, writing) && lh == lh0 + Elems(done) && !Full(lh0, room, done)
  {
    hide Clear, Full, Elems;
    PutsNone(l, b, ip, hi, writing);
  }

  /** Mapping one block, seen as a turn. */
  lemma TookBy(l: Layout, b1: seq<Block>, i1: seq<Inode>, b2: seq<Block>, i2: seq<Inode>, inum: nat, k: nat)
    requires Mapped(b1, i1, b2, i2, inum, k) && k < MAXFILE && |Clear(l, b1)| >= Need(b1, i1[inum], k)
    requires Clear(l, b2) == Clear(l, b1)[Need(b1, i1[inum], k)..]
    requires i2[inum].addrs[NDIRECT] == IndAfter(Val(b1, i1[inum], k), k, i1[inum].addrs[NDIRECT], Clear(l, b1))
    requires Val(b2, i2[inum], k) == Comes(Val(b1, i1[inum], k), k, i1[inum].addrs[NDIRECT], Clear(l, b1))
    ensures Took(l, b1, i1[inum], b2, i2[inum], k)
  {
    hide Clear, SameBytes, Val;
  }

  /** What bmap has to do for a direct block. */
  lemma DirectPlan(l: Layout, blocks: seq<Block>, ip: Inode, k: nat)
    requires k < NDIRECT
    ensures Val(blocks, ip, k) == ip.addrs[k] && Need(blocks, ip, k) == if ip.addrs[k] == 0 then 1 else 0
    ensures ip.addrs[k] == 0 ==> FillOf(l, blocks, ip, k) == Take(l, Clear(l, blocks))
    ensures forall ind, free | |free| >= Lacks(ip.addrs[k], k, ind) :: IndAfter(ip.addrs[k], k, ind, free) == ind
    ensures forall ind, free | free != [] && ip.addrs[k] == 0 :: Comes(0, k, ind, free) == free[0]
  {
  }

  /** A block that is there: nothing is logged. */
  lemma FoundPlan(l: Layout, blocks: seq<Block>, ino: seq<Inode>, lh: set<word>, room: nat, inum: nat, k: nat)
    requires inum < |ino| && k < MAXFILE && Val(blocks, ino[inum], k) != 0
    ensures Need(blocks, ino[inum], k) == 0 && FillOf(l, blocks, ino[inum], k) == []
    ensures !Full(lh, room, []) && lh + Elems([]) == lh && InodesKept(l, blocks, blocks)
    ensures Took(l, blocks, ino[inum], blocks, ino[inum], k) && Mapped(blocks, ino, blocks, ino, inum, k)
  {
    hide Clear;
    EntryOfNone(blocks, ino[inum], k);
    MappedSelf(blocks, ino, inum, k);
    assert Clear(l, blocks)[0..] == Clear(l, blocks);
    FullOne(lh, room, 0);
  }

  /** What bmap has to do for a block behind the direct ones. */
  lemma EntryPlan(l: Layout, blocks: seq<Block>, ip: Inode, k: nat)
    requires NDIRECT <= k < MAXFILE
    ensures FillOf(l, blocks, ip, k) == Fill(l, Val(blocks, ip, k), k, ip.addrs[NDIRECT], Clear(l, blocks))
    ensures Need(blocks, ip, k) == (if Val(blocks, ip, k) == 0 then 1 else 0) + if ip.addrs[NDIRECT] == 0 then 1 else 0
    ensures Val(blocks, ip, k) == 0 && ip.addrs[NDIRECT] != 0 ==>
              FillOf(l, blocks, ip, k) == (if Clear(l, blocks) == [] then []
                else Take(l, Clear(l, blocks)) + [ip.addrs[NDIRECT]])
    ensures ip.addrs[NDIRECT] == 0 ==> Val(blocks, ip, k) == 0
  {
    EntryOfNone(blocks, ip, k);
  }

  /** What one turn of a write logs: the block itself behind what bmap logs. */
  lemma WritePlan(l: Layout, lh: set<word>, room: nat, blocks: seq<Block>, ip: Inode, k: nat)
    requires k < MAXFILE
    ensures var fill, turn := FillOf(l, blocks, ip, k), TurnOf(l, blocks, ip, k, true);
      if |Clear(l, blocks)| < Need(blocks, ip, k) then turn == fill
      else
        var a := Comes(Val(blocks, ip, k), k, ip.addrs[NDIRECT], Clear(l, blocks));
        && (Full(lh, room, turn) <==> Full(lh, room, fill) || |lh + Elems(fill)| >= room)
        && lh + Elems(turn) == lh + Elems(fill) + {a}
  {
    hide Clear, Val, Full, Elems, Fill;
    NeedIsLacks(blocks, ip, k);
    var fill := FillOf(l, blocks, ip, k);
    if |Clear(l, blocks)| >= Need(blocks, ip, k) {
      var a := Comes(Val(blocks, ip, k), k, ip.addrs[NDIRECT], Clear(l, blocks));
      FullConcat(lh, room, fill, [a]);
      ElemsConcat(fill, [a]);
      FullOne(lh + Elems(fill), room, a);
    }
  }

  lemma TookFacts(l: Layout, b1: seq<Block>, ip1: Inode, b2: seq<Block>, ip2: Inode, k: nat)
    requires Took(l, b1, ip1, b2, ip2, k)
    ensures |Clear(l, b1)| >= Need(b1, ip1, k) && Lacks(Val(b1, ip1, k), k, ip1.addrs[NDIRECT]) == Need(b1, ip1, k)
    ensures Val(b2, ip2, k) == Comes(Val(b1, ip1, k), k, ip1.addrs[NDIRECT], Clear(l, b1))
    ensures k < NDIRECT ==> ip2.addrs[NDIRECT] == ip1.addrs[NDIRECT]
    ensures forall b3 | Clear(l, b3) == Clear(l, b2)
              && (forall j | 0 <= j <= MAXFILE :: Val(b3, ip2, j) == Val(b2, ip2, j)) ::
              Took(l, b1, ip1, b3, ip2, k)
  {
    hide Clear, Val;
    NeedIsLacks(b1, ip1, k);
  }

  /** A missing indirect block and then an entry in it. */
  lemma FillTwice(l: Layout, lh: set<word>, room: nat, k: nat, free: seq<word>)
    requires NDIRECT <= k && (free != [] ==> free[0] != 0)
    ensures free == [] ==> Fill(l, 0, k, 0, free) == Take(l, free)
    ensures free != [] ==> (Full(lh, room, Fill(l, 0, k, 0, free)) <==>
              Full(lh, room, Take(l, free)) || Full(lh + Elems(Take(l, free)), room, Fill(l, 0, k, free[0], free[1..])))
    ensures |free| > 1 ==>
              lh + Elems(Take(l, free)) + Elems(Fill(l, 0, k, free[0], free[1..]))
              == lh + Elems(Fill(l, 0, k, 0, free))
  {
    hide Full, Elems;
    if free != [] {
      var t := Fill(l, 0, k, free[0], free[1..]);
      FullConcat(lh, room, Take(l, free), t);
      ElemsConcat(Take(l, free), t);
      assert Take(l, free) + [] == Take(l, free);
      assert Fill(l, 0, k, 0, free) == Take(l, free) + t;
    }
  }

  lemma TakeTwo(l: Layout, lh: set<word>, room: nat, free: seq<word>)
    requires free != []
    ensures Full(lh, room, Take(l, free)) <==> |lh| >= room || |lh + {MapOf(l, free[0])}| >= room
    ensures lh + {MapOf(l, free[0])} + {free[0]} == lh + Elems(Take(l, free))
  {
    var m, t := MapOf(l, free[0]), Take(l, free);
    assert t[1..] == [free[0]] && t[1..][1..] == [];
    assert Full(lh + {m}, room, t[1..]) <==> |lh + {m}| >= room;
    assert Elems(t) == {m, free[0]} by { assert m in t && free[0] in t; }
  }

  lemma FullOne(lh: set<word>, room: nat, b: word)
    ensures (Full(lh, room, [b]) <==> |lh| >= room) && Elems([b]) == {b} && Elems([]) == {} && !Full(lh, room, [])
  {
    assert [b][1..] == [];
  }

  // ----- truncation -----

  /** What itrunc logs while it frees the blocks in places 0..k-1. */
  function Frees(l: Layout, blocks: seq<Block>, ip: Inode, k: nat): seq<word>
    requires k <= MAXFILE + 1
  {
    if k == 0 then []
    else Frees(l, blocks, ip, k - 1) + FreeOf(l, Val(blocks, ip, k - 1))
  }

  function FreeOf(l: Layout, v: word): seq<word> {
    if v == 0 then [] else [MapOf(l, v)]
  }

  lemma {:induction false} FreesFull(l: Layout, lh: set<word>, room: nat, blocks: seq<Block>, ip: Inode, k: nat, n: nat)
    requires k <= n <= MAXFILE + 1 && Full(lh, room, Frees(l, blocks, ip, k))
    ensures Full(lh, room, Frees(l, blocks, ip, n))
    decreases n - k
  {
    hide Full, Val;
    if k < n {
      FullConcat(lh, room, Frees(l, blocks, ip, k), FreeOf(l, Val(blocks, ip, k)));
      FreesFull(l, lh, room, blocks, ip, k + 1, n);
    }
  }

  lemma FreesStep(l: Layout, lh: set<word>, room: nat, blocks: seq<Block>, ip: Inode, k: nat)
    requires k <= MAXFILE && !Full(lh, room, Frees(l, blocks, ip, k))
    ensures Full(lh, room, Frees(l, blocks, ip, k + 1))
       <==> Full(lh + Elems(Frees(l, blocks, ip, k)), room, FreeOf(l, Val(blocks, ip, k)))
    ensures lh + Elems(Frees(l, blocks, ip, k + 1))
         == lh + Elems(Frees(l, blocks, ip, k)) + Elems(FreeOf(l, Val(blocks, ip, k)))
  {
    hide Full, Val, Elems;
    FullConcat(lh, room, Frees(l, blocks, ip, k), FreeOf(l, Val(blocks, ip, k)));
    ElemsConcat(Frees(l, blocks, ip, k), FreeOf(l, Val(blocks, ip, k)));
  }

  lemma NothingFreed(l: Layout, lh: set<word>, room: nat, blocks: seq<Block>, ip: Inode)
    ensures !Full(lh, room, Frees(l, blocks, ip, 0)) && lh == lh + Elems(Frees(l, blocks, ip, 0))
  {
  }

  /** A file without an indirect block has nothing to free behind the direct blocks. */
  lemma {:induction false} NoMoreFrees(l: Layout, blocks: seq<Block>, ip: Inode, k: nat)
    requires ip.addrs[NDIRECT] == 0 && NDIRECT <= k <= MAXFILE + 1
    ensures Frees(l, blocks, ip, k) == Frees(l, blocks, ip, NDIRECT)
  {
    if k > NDIRECT { NoMoreFrees(l, blocks, ip, k - 1); }
  }

  /** Freeing and then updating the inode. */
  lemma TruncPlan(l: Layout, lh: set<word>, room: nat, blocks: seq<Block>, ip: Inode, at: word)
    ensures var frees := Frees(l, blocks, ip, MAXFILE + 1);
      && (Full(lh, room, frees + [at]) <==> Full(lh, room, frees) || |lh + Elems(frees)| >= room)
      && lh + Elems(frees + [at]) == lh + Elems(frees) + {at}
  {
    hide Full, Elems, Frees;
    var frees := Frees(l, blocks, ip, MAXFILE + 1);
    FullConcat(lh, room, frees, [at]);
    ElemsConcat(frees, [at]);
    FullOne(lh + Elems(frees), room, at);
  }

  /** Only blocks of the bitmap. */
  lemma {:induction false} FreesAreMaps(l: Layout, blocks: seq<Block>, ino: seq<Inode>, owner: map<word, Slot>,
                                        inum: nat, k: nat)
    requires Owned(l, blocks, ino, owner) && inum < |ino| && k <= MAXFILE + 1
    ensures forall x | x in Elems(Frees(l, blocks, ino[inum], k)) :: l.bmapstart <= x < l.data
  {
    hide Owned, Val, Elems;
    NoElems();
    if k > 0 {
      var v := Val(blocks, ino[inum], k - 1);
      FreesAreMaps(l, blocks, ino, owner, inum, k - 1);
      ElemsConcat(Frees(l, blocks, ino[inum], k - 1), FreeOf(l, v));
      if v != 0 {
        OwnedVal(l, blocks, ino, owner, inum, k - 1);
        BitmapIsMetadata(l, blocks, ino, owner, v);
        OwnedShape(l, blocks, ino, owner);
        FullOne({}, 0, MapOf(l, v));
      }
    }
  }
}
