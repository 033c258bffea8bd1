/** The block allocator, block maps and file contents of fs.c, and the chunked writes of file.c,
    over the latest contents of the blocks as `bread` delivers them. Every change to a block is
    followed by log_write, which panics outside an operation and when the log is full. */
module FileSystem {
  import opened Common
  import opened Blocks
  import opened FsModel
  import opened LogUse

  const T_DEV := 3
  const NDEV := 10

  /** What readi and writei return: a count, -1, the device's own answer, or no return at all. */
  datatype Outcome = Done(n: nat) | Fail | ToDevice | Panicked

  /** An open file (struct file of type FD_INODE). */
  class File {
    const inum: nat
    const readable: bool
    const writable: bool
    var off: word

    constructor (inum: nat, readable: bool, writable: bool)
      ensures this.inum == inum && this.readable == readable && this.writable == writable && off == 0
    {
      this.inum, this.readable, this.writable, off := inum, readable, writable, 0;
    }
  }

  class Fs {
    const l: Layout
    /** How many blocks log_write lets into the log. */
    const room: nat
    var blocks: seq<Block>
    var ino: seq<Inode>               // the inodes, as the inode cache holds them
    var outstanding: nat              // the operations running
    var lh: set<word>                 // the blocks in the log

    ghost var owner: map<word, Slot>
    ghost var base: seq<Block>        // the blocks when the operation began
    ghost var writes: seq<Write>      // what has been logged since
    ghost var origin: seq<Block>      // the blocks when the file system was mounted
    ghost var ended: seq<seq<Write>>  // the log records of operations that have ended

    /** The blocks are those at the start of the operation with the logged writes applied, and those are in the
        log. Outside operations the log is empty; it has room for at least one operation. */
    ghost predicate Logging()
      reads this
    {
      && blocks == Replay(base, writes) && Written(writes) <= lh
      && (forall w | w in Written(writes) :: l.inodestart <= w < l.size)
      && (outstanding == 0 ==> lh == {}) && MAXOPBLOCKS <= room
    }

    ghost predicate Valid()
      reads this
    {
      Owned(l, blocks, ino, owner) && Logging()
    }

    /** The room log_write sees: outside an operation it panics however little is in the log. */
    function Room(): nat
      reads this`outstanding
    {
      if outstanding == 0 then 0 else room
    }

    /** No operation is running, and the disk copies of the inodes are up to date; the operations so far lead
        from the blocks at mount to the blocks now, through consistent images only. */
    ghost predicate History()
      reads this
    {
      Past(l, origin, ended) && blocks == ReplayAll(origin, ended) && AllSynced(l, blocks, ino)
    }

    constructor (l: Layout, room: nat, blocks: seq<Block>, ino: seq<Inode>, ghost owner: map<word, Slot>)
      requires Owned(l, blocks, ino, owner) && MAXOPBLOCKS <= room
      ensures Valid() && this.l == l && this.room == room && this.blocks == blocks && this.ino == ino
                && this.owner == owner
      ensures outstanding == 0 && base == blocks && writes == [] && origin == blocks && ended == []
      ensures AllSynced(l, blocks, ino) ==> History()
    {
      this.l, this.room, this.blocks, this.ino, this.owner := l, room, blocks, ino, owner;
      outstanding, lh := 0, {};
      base, writes, origin, ended := blocks, [], blocks, [];
      new;
      if AllSynced(l, blocks, ino) {
        assert Intact(l, blocks, ino, owner) && ended[..0] == [];
      }
    }

    /** begin_op, when nothing else is running. */
    method BeginOp()
      requires Valid() && outstanding == 0
      modifies this`base, this`writes, this`outstanding
      ensures Valid() && outstanding == 1 && lh == {} && base == blocks && writes == []
    {
      outstanding := outstanding + 1;
      base, writes := blocks, [];
    }

    /** end_op: the operation is committed, and joins the history. */
    method EndOp()
      requires Valid() && outstanding == 1 && |lh| <= MAXOPBLOCKS
      modifies this`ended, this`outstanding, this`lh, this`base, this`writes
      ensures Valid() && outstanding == 0 && old(FineOp(l, writes)) && ended == old(ended) + [old(writes)]
      ensures old(Past(l, origin, ended) && base == ReplayAll(origin, ended)) && AllSynced(l, blocks, ino) ==> History()
    {
      hide Owned, Past, AllSynced, Consistent, Replay, ReplayAll;
      FineInLog(l, writes, lh);
      if Past(l, origin, ended) && base == ReplayAll(origin, ended) && AllSynced(l, blocks, ino) {
        PastStep(l, origin, ended, writes, ino, owner);
      }
      ended := ended + [writes];
      outstanding := outstanding - 1;
      lh := {};
      base, writes := blocks, [];
      ReplayNothing(blocks);
    }

    /** Change the data of a block held in a buffer and log_write it; false where log_write panics, and then the
        change stays in a buffer that nobody will read. */
    method Put(b: word, data: Block) returns (ok: bool)
      requires Logging() && b < |blocks| && l.inodestart <= b < l.size
      modifies this`blocks, this`writes, this`lh
      ensures Logging() && ok == (old(|lh|) < Room())
      ensures ok ==> blocks == old(blocks)[b := data] && lh == old(lh) + {b}
      ensures !ok ==> Unchanged()
    {
      hide Replay, Written;
      if |lh| >= room || outstanding < 1 {
        return false;
      }
      ReplaySnoc(base, writes, Write(b, data));
      blocks := blocks[b := data];
      writes := writes + [Write(b, data)];
      lh := lh + {b};
      return true;
    }

    twostate predicate Unchanged()
      reads this
    {
      blocks == old(blocks) && ino == old(ino) && owner == old(owner) && writes == old(writes) && lh == old(lh)
    }

    // ----- balloc, bfree -----

    /** Mark the first free block and zero it; None where the kernel panics, with none left or with the log full. */
    method Balloc() returns (r: Option<word>)
      requires Valid()
      modifies this`blocks, this`writes, this`lh
      ensures Logging()
      ensures r.None? <==> old(Clear(l, blocks)) == [] || old(Full(lh, Room(), Take(l, Clear(l, blocks))))
      ensures old(Clear(l, blocks)) == [] ==> Unchanged()
      ensures r.Some? ==>
        && r.value < l.size && l.BBlock(r.value) < |old(blocks)| && !BitmapBit(l, old(blocks), r.value)
        && (forall c: nat | c < r.value :: l.BBlock(c) < |old(blocks)| && BitmapBit(l, old(blocks), c))
        && blocks == AfterAlloc(l, old(blocks), r.value) && old(Clear(l, blocks)) == [r.value] + Clear(l, blocks)
        && lh == old(lh) + Elems(Take(l, old(Clear(l, blocks))))
    {
      hide Owned, Replay, BitOf, SetBit, Full, Take, Elems, Clear;
      OwnedShape(l, blocks, ino, owner);
      var b := 0;
      while b < l.size
        invariant b % BPB == 0 && Unchanged() && Logging()
        invariant forall c: nat | c < b && c < l.size :: l.BBlock(c) < |blocks| && BitmapBit(l, blocks, c)
        decreases l.size - b
      {
        var bb := l.BBlock(b);
        BitmapIsMetadata(l, blocks, ino, owner, b);
        var bi := FindClear(bb, b);
        if bi < BPB && b + bi < l.size {
          r := Claim(b + bi);
          return;
        }
        b := b + BPB;
      }
      NoneClear(l, blocks, ino, owner);
      return None;
    }

    /** The block found: its bit is set, and it is zeroed. */
    method Claim(bno: word) returns (r: Option<word>)
      requires Valid() && bno < l.size
      requires forall c: nat | c < bno :: l.BBlock(c) < |blocks| && BitmapBit(l, blocks, c)
      requires l.BBlock(bno) < |blocks| && !BitmapBit(l, blocks, bno)
      modifies this`blocks, this`writes, this`lh
      ensures Logging() && (r.Some? ==> r.value == bno) && bno < |old(blocks)|
      ensures r.None? <==> old(Full(lh, Room(), Take(l, Clear(l, blocks))))
      ensures old(Clear(l, blocks)) == [bno] + Clear(l, AfterAlloc(l, old(blocks), bno))
      ensures r.Some? ==>
                blocks == AfterAlloc(l, old(blocks), bno) && lh == old(lh) + Elems(Take(l, old(Clear(l, blocks))))
    {
      hide Owned, Replay, BitOf, SetBit, Full, Take, Elems, Clear;
      OwnedShape(l, blocks, ino, owner);
      BitmapIsMetadata(l, blocks, ino, owner, bno);
      SlotFacts(l, blocks, ino, owner, bno);
      AllocSame(l, blocks, ino, owner, bno);
      BitsOfOwned(l, blocks, ino, owner);
      ClearTaken(l, blocks, AfterAlloc(l, blocks, bno), bno);
      TakeTwo(l, lh, Room(), Clear(l, blocks));
      var bb: word := l.BBlock(bno);
      var ok := Put(bb, SetBit(blocks[bb], bno % BPB));
      if ok {
        ok := Put(bno, Zeros());
      }
      r := if ok then Some(bno) else None;
    }

    /** The inner loop of balloc: the first clear bit of one bitmap block. */
    method FindClear(bb: nat, b: nat) returns (bi: nat)
      requires bb < |blocks| && l.BBlock(b) == bb && b % BPB == 0
      ensures bi <= BPB && forall c | b <= c < b + bi :: l.BBlock(c) == bb && BitmapBit(l, blocks, c)
      ensures bi < BPB && b + bi < l.size ==> l.BBlock(b + bi) == bb && !BitmapBit(l, blocks, b + bi)
      ensures bi == BPB || b + bi >= l.size || !BitOf(blocks[bb], bi)
    {
      bi := 0;
      while bi < BPB && b + bi < l.size
        invariant bi <= BPB && forall c | b <= c < b + bi :: l.BBlock(c) == bb && BitmapBit(l, blocks, c)
      {
        if !BitOf(blocks[bb], bi) {
          return;
        }
        bi := bi + 1;
      }
    }

    /** Clear the bit of a block in use; the kernel panics if it is clear already. False where log_write panics. */
    method Bfree(b: word) returns (ok: bool)
      requires Logging() && l.BBlock(b) < |blocks| && BitmapBit(l, blocks, b)
      requires l.BBlock(b) < WORDLIMIT && l.Valid() && |blocks| == l.size
      modifies this`blocks, this`writes, this`lh
      ensures Logging() && ok == (old(|lh|) < Room())
      ensures ok ==> blocks == AfterFree(l, old(blocks), b) && lh == old(lh) + {MapOf(l, b)}
    {
      var bb, bi := l.BBlock(b), b % BPB;
      if !BitOf(blocks[bb], bi) {
        assert false;   // "freeing free block" cannot happen
      }
      ok := Put(bb, ClearBit(blocks[bb], bi));
    }

    // ----- bmap -----

    /** bmap panics in balloc, when fewer blocks are clear than are missing, or in log_write. */
    ghost predicate BmapPanics(inum: nat, bn: nat)
      requires inum < |ino| && bn < MAXFILE
      reads this
    {
      |Clear(l, blocks)| < Need(blocks, ino[inum], bn) || Full(lh, Room(), FillOf(l, blocks, ino[inum], bn))
    }

    /** The block number of the bn-th block of a file, allocating what is missing on the way;
        None where the kernel panics. A block already there is found without any change. */
    method Bmap(inum: nat, bn: nat) returns (r: Option<word>)
      requires Valid() && inum < |ino| && bn < MAXFILE
      modifies this`blocks, this`ino, this`owner, this`writes, this`lh
      ensures Logging() && |ino| == |old(ino)| && (r.None? <==> old(BmapPanics(inum, bn)))
      ensures r.Some? ==> Valid() && Mapped(old(blocks), old(ino), blocks, ino, inum, bn)
      ensures r.Some? ==> r.value == Val(blocks, ino[inum], bn) != 0
      ensures r.Some? ==> Took(l, old(blocks), old(ino[inum]), blocks, ino[inum], bn)
      ensures r.Some? ==>
                && lh == old(lh) + Elems(FillOf(l, old(blocks), old(ino[inum]), bn))
                && InodesKept(l, old(blocks), blocks)
      ensures r.Some? ==> |owner| == |old(owner)| + Need(old(blocks), old(ino[inum]), bn)
      ensures !old(Full(lh, Room(), FillOf(l, blocks, ino[inum], bn))) ==> Valid()
      ensures old(Val(blocks, ino[inum], bn)) != 0 ==> r.Some? && Unchanged()
    {
      hide Owned, Replay, Mapped, BitmapBit, Clear, Full, Elems, Took, Fill, Need, InodesKept;
      if bn < NDIRECT {
        DirectPlan(l, blocks, ino[inum], bn);
        var addr := ino[inum].addrs[bn];
        if addr == 0 {
          r := MapDirect(inum, bn);
          if r.Some? {
            TookBy(l, old(blocks), old(ino), blocks, ino, inum, bn);
          }
        } else {
          FoundPlan(l, blocks, ino, lh, Room(), inum, bn);
          r := Some(addr);
        }
      } else if bn - NDIRECT < NINDIRECT {
        r := BmapIndirect(inum, bn - NDIRECT);
      } else {
        assert false;   // "bmap: out of range" cannot happen
      }
    }

    method MapDirect(inum: nat, k: nat) returns (r: Option<word>)
      requires Valid() && inum < |ino| && k < NDIRECT && ino[inum].addrs[k] == 0
      modifies this`blocks, this`ino, this`owner, this`writes, this`lh
      ensures Logging() && |ino| == |old(ino)|
      ensures r.None? <==> old(Clear(l, blocks)) == [] || old(Full(lh, Room(), Take(l, Clear(l, blocks))))
      ensures r.Some? ==> Valid() && Mapped(old(blocks), old(ino), blocks, ino, inum, k)
      ensures r.Some? ==> r.value == Val(blocks, ino[inum], k) != 0
      ensures r.Some? ==> ino[inum].addrs[NDIRECT] == old(ino[inum].addrs[NDIRECT])
      ensures r.Some? ==> lh == old(lh) + Elems(Take(l, old(Clear(l, blocks)))) && InodesKept(l, old(blocks), blocks)
      ensures r.Some? ==> old(Clear(l, blocks)) == [r.value] + Clear(l, blocks) && |owner| == |old(owner)| + 1
      ensures !old(Full(lh, Room(), Take(l, Clear(l, blocks)))) ==> Valid()
    {
      hide Owned, Replay, Mapped, AfterAlloc, FillsSlot, SameBytes, BitmapBit, Clear, Full, Elems;
      r := Balloc();
      if r.Some? {
        var b := r.value;
        OwnedShape(l, old(blocks), ino, owner);
        AllocSame(l, old(blocks), ino, owner, b);
        FillDirect(l, old(blocks), ino, owner, inum, k, b);
        ino := ino[inum := WithAddr(ino[inum], k, b)];
        assert old(ino[inum]).addrs[NDIRECT] == ino[inum].addrs[NDIRECT];
        owner := owner[b := Slot(inum, k)];
        AllocKeepsInodes(old(blocks), old(ino), old(owner), b);
        MappedByFilling(old(blocks), old(ino), blocks, ino, inum, k, b, Slot(inum, k));
      }
    }

    method MapIndirect(inum: nat, ghost bn: nat) returns (r: Option<word>)
      requires Valid() && inum < |ino| && ino[inum].addrs[NDIRECT] == 0 && NDIRECT <= bn < MAXFILE
      modifies this`blocks, this`ino, this`owner, this`writes, this`lh
      ensures Logging() && |ino| == |old(ino)|
      ensures r.None? <==> old(Clear(l, blocks)) == [] || old(Full(lh, Room(), Take(l, Clear(l, blocks))))
      ensures r.Some? ==> Valid() && Mapped(old(blocks), old(ino), blocks, ino, inum, bn)
      ensures r.Some? ==> r.value == ino[inum].addrs[NDIRECT] != 0 && Val(blocks, ino[inum], bn) == 0
      ensures r.Some? ==> lh == old(lh) + Elems(Take(l, old(Clear(l, blocks)))) && InodesKept(l, old(blocks), blocks)
      ensures r.Some? ==> old(Clear(l, blocks)) == [r.value] + Clear(l, blocks) && |owner| == |old(owner)| + 1
      ensures !old(Full(lh, Room(), Take(l, Clear(l, blocks)))) ==> Valid()
    {
      hide Owned, Replay, Mapped, AfterAlloc, FillsSlot, SameBytes, BitmapBit, Clear, Full, Elems;
      r := Balloc();
      if r.Some? {
        var b := r.value;
        OwnedShape(l, old(blocks), ino, owner);
        AllocSame(l, old(blocks), ino, owner, b);
        FillIndirect(l, old(blocks), ino, owner, inum, b);
        ino := ino[inum := WithAddr(ino[inum], NDIRECT, b)];
        owner := owner[b := Slot(inum, MAXFILE)];
        AllocKeepsInodes(old(blocks), old(ino), old(owner), b);
        MappedByFilling(old(blocks), old(ino), blocks, ino, inum, bn, b, Slot(inum, MAXFILE));
        NewIndirectEmpty(old(blocks), old(ino), blocks, ino, b, inum, bn - NDIRECT);
      }
    }

    method MapEntry(inum: nat, j: nat) returns (r: Option<word>)
      requires Valid() && inum < |ino| && ino[inum].addrs[NDIRECT] != 0
      requires j < NINDIRECT && Val(blocks, ino[inum], NDIRECT + j) == 0
      modifies this`blocks, this`owner, this`writes, this`lh
      ensures Logging() && (r.None? <==> old(BmapPanics(inum, NDIRECT + j)))
      ensures r.Some? ==> Valid() && Mapped(old(blocks), old(ino), blocks, ino, inum, NDIRECT + j)
      ensures r.Some? ==> r.value == Val(blocks, ino[inum], NDIRECT + j) != 0
      ensures r.Some? ==> lh == old(lh) + Elems(FillOf(l, old(blocks), old(ino[inum]), NDIRECT + j))
      ensures r.Some? ==> InodesKept(l, old(blocks), blocks)
      ensures r.Some? ==> old(Clear(l, blocks)) == [r.value] + Clear(l, blocks) && |owner| == |old(owner)| + 1
      ensures !old(Full(lh, Room(), FillOf(l, blocks, ino[inum], NDIRECT + j))) ==> Valid()
    {
      hide Owned, Replay, Mapped, AfterAlloc, FillsSlot, SameBytes, BitmapBit, Clear, Full, Elems, Take;
      ghost var free, a := Clear(l, blocks), ino[inum].addrs[NDIRECT];
      OwnedShape(l, blocks, ino, owner);
      FullConcat(lh, Room(), Take(l, free), [a]);
      ElemsConcat(Take(l, free), [a]);
      FullOne(lh + Elems(Take(l, free)), Room(), a);
      r := Balloc();
      if r.Some? {
        r := EnterBlock(old(blocks), inum, j, r.value);
      }
      EntryPlan(l, old(blocks), ino[inum], NDIRECT + j);
    }

    /** The allocated block is entered in the indirect block. */
    method EnterBlock(ghost b0: seq<Block>, inum: nat, j: nat, b: word) returns (r: Option<word>)
      requires Owned(l, b0, ino, owner) && Logging() && inum < |ino| && ino[inum].addrs[NDIRECT] != 0
      requires j < NINDIRECT && Val(b0, ino[inum], NDIRECT + j) == 0
      requires b < l.size && l.BBlock(b) < |b0| && !BitmapBit(l, b0, b) && b < |b0|
      requires blocks == AfterAlloc(l, b0, b) && Clear(l, b0) == [b] + Clear(l, blocks)
      modifies this`blocks, this`owner, this`writes, this`lh
      ensures Logging() && r == if old(|lh|) < Room() then Some(b) else None
      ensures r.Some? ==> Valid() && Mapped(b0, ino, blocks, ino, inum, NDIRECT + j)
      ensures r.Some? ==> b == Val(blocks, ino[inum], NDIRECT + j) != 0
      ensures r.Some? ==> lh == old(lh) + {ino[inum].addrs[NDIRECT]} && InodesKept(l, b0, blocks)
      ensures r.Some? ==> Clear(l, b0) == [b] + Clear(l, blocks) && |owner| == |old(owner)| + 1
    {
      hide Owned, Replay, Mapped, AfterAlloc, FillsSlot, SameBytes, BitmapBit, Clear, Full;
      OwnedShape(l, b0, ino, owner);
      AllocSame(l, b0, ino, owner, b);
      FillEntry(l, b0, ino, owner, inum, j, b);
      var a := ino[inum].addrs[NDIRECT];
      IndirectIsData(b0, ino, owner, inum);
      assert |blocks| == |b0| by { AllocLength(l, b0, b); }
      EntryClear(b0, ino, owner, inum, b, PutWord(blocks[a], j, b));
      var ok := Put(a, PutWord(blocks[a], j, b));
      if !ok {
        return None;
      }
      owner := owner[b := Slot(inum, NDIRECT + j)];
      AllocKeepsInodes(b0, ino, old(owner), b);
      MappedByFilling(b0, ino, blocks, ino, inum, NDIRECT + j, b, Slot(inum, NDIRECT + j));
      return Some(b);
    }

    /** An entry changes no bit. */
    lemma EntryClear(b0: seq<Block>, ino: seq<Inode>, owner: map<word, Slot>, inum: nat, b: word, d: Block)
      requires Owned(l, b0, ino, owner) && inum < |ino| && ino[inum].addrs[NDIRECT] != 0
      requires b < l.size && l.BBlock(b) < |b0| && !BitmapBit(l, b0, b) && b < |b0|
      requires Clear(l, b0) == [b] + Clear(l, AfterAlloc(l, b0, b))
      ensures var r := AfterAlloc(l, b0, b);
        && ino[inum].addrs[NDIRECT] < |r| && Clear(l, b0) == [b] + Clear(l, r[ino[inum].addrs[NDIRECT] := d])
    {
      hide Owned, BitOf, SetBit, Clear, AfterAlloc, Marks;
      var r, a := AfterAlloc(l, b0, b), ino[inum].addrs[NDIRECT];
      OwnedShape(l, b0, ino, owner);
      OwnedVal(l, b0, ino, owner, inum, MAXFILE);
      AllocLength(l, b0, b);
      AllocSame(l, b0, ino, owner, b);
      MarksDespite(l, b0, ino, owner, r, b, a, d);
      BitsOfOwned(l, b0, ino, owner);
      FirstClear(l, b0, b);
      ClearTaken(l, b0, r[a := d], b);
    }

    lemma AllocKeepsInodes(blocks: seq<Block>, ino: seq<Inode>, owner: map<word, Slot>, b: word)
      requires Owned(l, blocks, ino, owner) && b < l.size && l.BBlock(b) < |blocks| && !BitmapBit(l, blocks, b)
      ensures InodesKept(l, blocks, AfterAlloc(l, blocks, b))
    {
    }

    lemma IndirectIsData(blocks: seq<Block>, ino: seq<Inode>, owner: map<word, Slot>, inum: nat)
      requires Owned(l, blocks, ino, owner) && inum < |ino| && ino[inum].addrs[NDIRECT] != 0
      ensures l.bmapstart <= ino[inum].addrs[NDIRECT] < |blocks|
    {
      OwnedVal(l, blocks, ino, owner, inum, MAXFILE);
    }

    lemma AllocLength(l: Layout, blocks: seq<Block>, b: word)
      requires b < |blocks| && l.BBlock(b) < |blocks|
      ensures |AfterAlloc(l, blocks, b)| == |blocks|
    {
    }

    method BmapIndirect(inum: nat, j: nat) returns (r: Option<word>)
      requires Valid() && inum < |ino| && j < NINDIRECT
      modifies this`blocks, this`ino, this`owner, this`writes, this`lh
      ensures Logging() && |ino| == |old(ino)| && (r.None? <==> old(BmapPanics(inum, NDIRECT + j)))
      ensures r.Some? ==> Valid() && Mapped(old(blocks), old(ino), blocks, ino, inum, NDIRECT + j)
      ensures r.Some? ==> r.value == Val(blocks, ino[inum], NDIRECT + j) != 0
      ensures r.Some? ==> Took(l, old(blocks), old(ino[inum]), blocks, ino[inum], NDIRECT + j)
      ensures r.Some? ==> lh == old(lh) + Elems(FillOf(l, old(blocks), old(ino[inum]), NDIRECT + j))
      ensures r.Some? ==> InodesKept(l, old(blocks), blocks)
      ensures r.Some? ==> |owner| == |old(owner)| + Need(old(blocks), old(ino[inum]), NDIRECT + j)
      ensures !old(Full(lh, Room(), FillOf(l, blocks, ino[inum], NDIRECT + j))) ==> Valid()
      ensures old(Val(blocks, ino[inum], NDIRECT + j)) != 0 ==> r.Some? && Unchanged()
    {
      hide Owned, Replay, Mapped, Val, WordAt, Need, InodesKept, Clear, Full, Elems, Took, Fill, Take;
      EntryWord(blocks, ino[inum], j);
      EntryPlan(l, blocks, ino[inum], NDIRECT + j);
      if ino[inum].addrs[NDIRECT] == 0 {
        ghost var free := Clear(l, blocks);
        OwnedNonzero(l, blocks, ino, owner);
        var a := MapIndirect(inum, NDIRECT + j);
        FillTwice(l, old(lh), Room(), NDIRECT + j, free);
        if a.None? {
          return None;
        }
        ghost var b1, i1 := blocks, ino;
        MappedShape(old(blocks), old(ino), blocks, ino, inum, NDIRECT + j);
        EntryWord(blocks, ino[inum], j);
        EntryPlan(l, blocks, ino[inum], NDIRECT + j);
        r := BmapEntry(inum, j);
        if r.Some? {
          MappedTwice(old(blocks), old(ino), b1, i1, blocks, ino, inum, NDIRECT + j);
          InodesKeptTwice(old(blocks), b1, blocks);
          TookBy(l, old(blocks), old(ino), blocks, ino, inum, NDIRECT + j);
        }
      } else {
        r := BmapEntry(inum, j);
        if r.Some? {
          TookBy(l, old(blocks), old(ino), blocks, ino, inum, NDIRECT + j);
        }
      }
    }

    /** Entry j of an indirect block that is there. */
    method BmapEntry(inum: nat, j: nat) returns (r: Option<word>)
      requires Valid() && inum < |ino| && j < NINDIRECT && ino[inum].addrs[NDIRECT] != 0
      modifies this`blocks, this`owner, this`writes, this`lh
      ensures Logging() && (r.None? <==> old(BmapPanics(inum, NDIRECT + j)))
      ensures r.Some? ==> Valid() && Mapped(old(blocks), old(ino), blocks, ino, inum, NDIRECT + j)
      ensures r.Some? ==> r.value == Val(blocks, ino[inum], NDIRECT + j) != 0
      ensures r.Some? ==> lh == old(lh) + Elems(FillOf(l, old(blocks), old(ino[inum]), NDIRECT + j))
      ensures r.Some? ==> InodesKept(l, old(blocks), blocks)
      ensures r.Some? ==> if old(Val(blocks, ino[inum], NDIRECT + j)) != 0
                then Clear(l, blocks) == old(Clear(l, blocks))
                          else old(Clear(l, blocks)) == [r.value] + Clear(l, blocks)
      ensures r.Some? ==> |owner| == |old(owner)| + Need(old(blocks), old(ino[inum]), NDIRECT + j)
      ensures !old(Full(lh, Room(), FillOf(l, blocks, ino[inum], NDIRECT + j))) ==> Valid()
      ensures old(Val(blocks, ino[inum], NDIRECT + j)) != 0 ==> r.Some? && Unchanged()
    {
      hide Owned, Replay, Mapped, Val, WordAt, InodesKept, Clear, Full, Elems, Fill, Need;
      IndirectInRange(inum);
      EntryWord(blocks, ino[inum], j);
      EntryPlan(l, blocks, ino[inum], NDIRECT + j);
      var addr := WordAt(blocks[ino[inum].addrs[NDIRECT]], j);
      if addr == 0 {
        r := MapEntry(inum, j);
      } else {
        FoundPlan(l, blocks, ino, lh, Room(), inum, NDIRECT + j);
        r := Some(addr);
      }
    }

    lemma InodesKeptTwice(b0: seq<Block>, b1: seq<Block>, b2: seq<Block>)
      ensures InodesKept(l, b0, b0) && (InodesKept(l, b0, b1) && InodesKept(l, b1, b2) ==> InodesKept(l, b0, b2))
      ensures InodesKept(l, b2, b2)
    {
    }

    lemma IndirectInRange(inum: nat)
      requires Owned(l, blocks, ino, owner) && inum < |ino| && ino[inum].addrs[NDIRECT] != 0
      ensures ino[inum].addrs[NDIRECT] < |blocks|
    {
      OwnedVal(l, blocks, ino, owner, inum, MAXFILE);
    }

    lemma MappedShape(blocks: seq<Block>, ino: seq<Inode>, blocks2: seq<Block>, ino2: seq<Inode>, inum: nat, bn: nat)
      requires Mapped(blocks, ino, blocks2, ino2, inum, bn)
      ensures |blocks2| == |blocks| && |ino2| == |ino| && inum < |ino|
    {
    }

    // ----- writei -----

    /** One iteration of writei: overlay one piece on one block of the file; false where the kernel panics. */
    method WriteBlock(inum: nat, off: nat, piece: seq<byte>) returns (ok: bool)
      requires Valid() && inum < |ino| && off < MAXFILE * BSIZE && off % BSIZE + |piece| <= BSIZE
      modifies this`blocks, this`ino, this`owner, this`writes, this`lh
      ensures Logging() && |ino| == |old(ino)| && (!ok <==> old(TurnPanics(inum, off / BSIZE, true)))
      ensures ok ==> Valid() && Grew(old(blocks), old(ino), blocks, ino, inum, off / BSIZE, off / BSIZE + 1)
      ensures ok ==> BytesWritten(old(blocks), old(ino), blocks, ino, inum, off, piece)
      ensures ok ==> Val(blocks, ino[inum], off / BSIZE) != 0 && InodesKept(l, old(blocks), blocks)
      ensures ok ==> Took(l, old(blocks), old(ino[inum]), blocks, ino[inum], off / BSIZE)
      ensures ok ==> lh == old(lh) + Elems(TurnOf(l, old(blocks), old(ino[inum]), off / BSIZE, true))
      ensures ok ==> |owner| == |old(owner)| + Need(old(blocks), old(ino[inum]), off / BSIZE)
      ensures ok && off / BSIZE < NDIRECT ==> ino[inum].addrs[NDIRECT] == old(ino[inum].addrs[NDIRECT])
      ensures !old(Full(lh, Room(), TurnOf(l, blocks, ino[inum], off / BSIZE, true))) ==> Valid()
      ensures ok && old(Val(blocks, ino[inum], off / BSIZE)) != 0 ==> ino == old(ino)
    {
      hide Owned, Replay, Mapped, Grew, BytesWritten, Clear, Full, Elems, Took, Fill, Need, InodesKept, Val, SameBits;
      var k := off / BSIZE;
      WritePlan(l, lh, Room(), blocks, ino[inum], k);
      var r := Bmap(inum, k);
      if r.None? {
        return false;
      }
      ghost var b1 := blocks;
      var addr := r.value;
      TookFacts(l, old(blocks), old(ino[inum]), b1, ino[inum], k);
      PieceWritten(l, old(blocks), old(ino), owner, blocks, ino, inum, off, piece);
      AddrIsData(inum, k);
      DataClear(inum, k, Overlay(blocks[addr], off % BSIZE, piece));
      ok := Put(addr, Overlay(blocks[addr], off % BSIZE, piece));
      if ok {
        InodesKeptDespite(old(blocks), b1, addr, blocks[addr]);
      }
    }

    /** A turn of readi's or writei's loop panics, for want of a clear block or in log_write. */
    ghost predicate TurnPanics(inum: nat, k: nat, writing: bool)
      requires inum < |ino| && k < MAXFILE
      reads this
    {
      |Clear(l, blocks)| < Need(blocks, ino[inum], k) || Full(lh, Room(), TurnOf(l, blocks, ino[inum], k, writing))
    }

    /** New contents for a data block change no bit and no block number. */
    lemma DataClear(inum: nat, k: nat, d: Block)
      requires Owned(l, blocks, ino, owner) && inum < |ino| && k < MAXFILE && Val(blocks, ino[inum], k) != 0
      ensures Val(blocks, ino[inum], k) < |blocks|
      ensures var b2 := blocks[Val(blocks, ino[inum], k) := d];
        Clear(l, b2) == Clear(l, blocks) && forall j | 0 <= j <= MAXFILE ::
          Val(b2, ino[inum], j) == Val(blocks, ino[inum], j)
    {
      hide Owned, Clear, SameBits, Val;
      OwnedVal(l, blocks, ino, owner, inum, k);
      BitsOfOwned(l, blocks, ino, owner);
      var a := Val(blocks, ino[inum], k);
      SameBitsOutside(l, blocks, ino, owner, a, d);
      ClearSame(l, blocks, blocks[a := d]);
      DataVals(l, blocks, ino, owner, a, d);
    }

    lemma InodesKeptDespite(b0: seq<Block>, b1: seq<Block>, a: word, d: Block)
      requires InodesKept(l, b0, b1) && l.bmapstart <= a < |b1|
      ensures InodesKept(l, b0, b1[a := d])
    {
    }

    lemma AddrIsData(inum: nat, k: nat)
      requires Owned(l, blocks, ino, owner) && inum < |ino| && k < MAXFILE && Val(blocks, ino[inum], k) != 0
      ensures l.inodestart < l.bmapstart <= Val(blocks, ino[inum], k) < |blocks| == l.size
    {
      OwnedVal(l, blocks, ino, owner, inum, k);
    }

    /** Copy an inode, with a new size, to its place on the disk; false where log_write panics. */
    method Iupdate(inum: nat, size: word) returns (ok: bool)
      requires Valid() && inum < |ino|
      modifies this`blocks, this`ino, this`writes, this`lh
      ensures Logging() && ok == (old(|lh|) < Room()) && ino == old(ino)[inum := old(ino)[inum].(size := size)]
      ensures ok ==>
                && Valid() && SameVals(old(blocks), old(ino), blocks, ino)
                && SameBytes(old(blocks), old(ino), blocks, ino)
      ensures l.IBlock(inum) < |old(blocks)| && l.IBlock(inum) < WORDLIMIT
      ensures ok ==> blocks == AfterUpdate(l, old(blocks), ino[inum], inum) && lh == old(lh) + {l.IBlock(inum) as word}
      ensures ok ==> l.IBlock(inum) < |blocks| && DiskInode(l, blocks, inum) == ino[inum]
    {
      hide Owned, Replay;
      OwnedShape(l, blocks, ino, owner);
      ghost var b0, i0 := blocks, ino;
      ino := ino[inum := ino[inum].(size := size)];
      var x := l.IBlock(inum);
      MetaWrite(l, b0, i0, owner, x, PutDinode(blocks[x], inum % IPB * 16, ino[inum], 16), inum, size);
      UpdateSyncs(l, b0, ino[inum], inum);
      ok := Put(x, PutDinode(blocks[x], inum % IPB * 16, ino[inum], 16));
    }

    /** ilock of an inode that the cache does not hold: it is read from its sixteen words on the disk. Where they are
        up to date, it is the inode as it was. */
    method Ilock(inum: nat) returns (panicked: bool)
      requires Valid() && inum < |ino|
      modifies this`ino
      ensures inum / 8 + l.inodestart < |blocks| && |ino| == |old(ino)|
      ensures forall i | 0 <= i < |ino| && i != inum :: ino[i] == old(ino)[i]
      ensures var b, at, ip := blocks[inum / 8 + l.inodestart], inum % 8 * 16, ino[inum];
        && ip.typ % 0x1_0000 == WordAt(b, at) % 0x1_0000 && ip.major % 0x1_0000 == WordAt(b, at) / 0x1_0000
        && ip.minor % 0x1_0000 == WordAt(b, at + 1) % 0x1_0000 && ip.nlink % 0x1_0000 == WordAt(b, at + 1) / 0x1_0000
        && ip.size == WordAt(b, at + 2) && (forall k | 0 <= k < 13 :: ip.addrs[k] == WordAt(b, at + (3 + k)))
        && (panicked <==> ip.typ == 0)
      ensures ino[inum] == DiskInode(l, blocks, inum)
      ensures old(Synced(l, blocks, ino[inum], inum)) ==> Unchanged() && Valid()
    {
      hide Owned, Replay, Synced, WordAt, DiskInode, DinodeWord, SameVals, SameBytes, Val, Clear;
      OwnedShape(l, blocks, ino, owner);
      SyncedReads(l, blocks, ino[inum], inum);
      DiskWords(l, blocks, inum);
      ino := ino[inum := DiskInode(l, blocks, inum)];
      assert old(Synced(l, blocks, ino[inum], inum)) ==> ino == old(ino);
      panicked := ino[inum].typ == 0;
    }

    /** The first |d| bytes of the source have been written at off0, since blocks b0 and inodes i0, when o0 blocks
        were owned. */
    ghost predicate Writing(b0: seq<Block>, i0: seq<Inode>, o0: nat, inum: nat, off0: nat, d: seq<byte>)
      reads this
    {
      && inum < |ino| == |i0| && Hi(off0, |d|) <= MAXFILE
      && Progress(b0, i0, blocks, ino, inum, off0, Hi(off0, |d|), d) && InodesKept(l, b0, blocks)
      && |owner| - o0 == Missing(b0, i0[inum], off0 / BSIZE, Hi(off0, |d|)) + IndirectCost(i0[inum], ino[inum])
      && (|d| == 0 || Hi(off0, |d|) <= NDIRECT ==> ino[inum].addrs[NDIRECT] == i0[inum].addrs[NDIRECT])
      && (|d| > 0 && Hi(off0, |d|) > NDIRECT ==> ino[inum].addrs[NDIRECT] != 0)
    }

    /** The turns for places lo..k-1 have been made as planned at b0, ip0. */
    ghost predicate Planned(b0: seq<Block>, ip0: Inode, lh0: set<word>, inum: nat, lo: nat, k: nat, hi: nat,
                            writing: bool, done: seq<word>)
      reads this
    {
      inum < |ino| && OnPlan(l, b0, ip0, lh0, Room(), blocks, ino[inum], lh, lo, k, hi, writing, done)
    }

    /** A call on blocks lo..hi-1 of a file panics. */
    ghost predicate RangePanics(inum: nat, lo: nat, hi: nat, writing: bool)
      requires inum < |ino| && lo <= hi <= MAXFILE
      reads this
    {
      || |Clear(l, blocks)| < Cost(blocks, ino[inum], lo, hi)
      || Full(lh, Room(), Puts(l, blocks, ino[inum], lo, hi, writing))
    }

    /** The loop of writei; false where the kernel panics. */
    method WriteBlocks(inum: nat, src: seq<byte>, off0: nat) returns (ok: bool)
      requires Valid() && inum < |ino| && off0 + |src| <= MAXFILE * BSIZE && off0 / BSIZE <= Hi(off0, |src|) <= MAXFILE
      modifies this`blocks, this`ino, this`owner, this`writes, this`lh
      ensures Logging() && |ino| == |old(ino)| && (!ok <==> old(RangePanics(inum, off0 / BSIZE, Hi(off0, |src|), true)))
      ensures ok ==> Valid() && Writing(old(blocks), old(ino), |old(owner)|, inum, off0, src)
      ensures ok ==> lh == old(lh) + Elems(Puts(l, old(blocks), old(ino[inum]), off0 / BSIZE, Hi(off0, |src|), true))
      ensures !old(Full(lh, Room(), Puts(l, blocks, ino[inum], off0 / BSIZE, Hi(off0, |src|), true))) ==> Valid()
    {
      hide Owned, Replay, Writing, Written, Cost, Missing, Hi, Puts, Full, Elems, OnPlan, Clear;
      HiStart(off0);
      var tot := 0;
      ghost var lo, hi, done: seq<word> := off0 / BSIZE, Hi(off0, |src|), [];
      WritingStart(inum, off0);
      PlanStarts(l, blocks, ino[inum], lh, Room(), lo, hi, true);
      ClearCount(l, blocks, ino, owner);
      while tot < |src|
        invariant tot <= |src| && (0 < tot < |src| ==> (off0 + tot) % BSIZE == 0) && |ino| == |old(ino)|
        invariant Valid() && Writing(old(blocks), old(ino), |old(owner)|, inum, off0, src[..tot])
        invariant Planned(old(blocks), old(ino[inum]), old(lh), inum, lo, Hi(off0, tot), hi, true, done)
      {
        var off := off0 + tot;
        var m := if |src| - tot < BSIZE - off % BSIZE then |src| - tot else BSIZE - off % BSIZE;
        HiStep(off0, tot, m, |src|);
        HiGrows(off0, tot + m, |src|);
        ok, done := WritePiece(old(blocks), old(ino), |old(owner)|, old(lh), inum, off0, hi,
          src[..tot], src[tot..tot + m], done);
        if !ok {
          return;
        }
        assert src[..tot] + src[tot..tot + m] == src[..tot + m];
        tot := tot + m;
      }
      assert src[..tot] == src;
      PlanEnds(l, old(blocks), old(ino[inum]), old(lh), Room(), blocks, ino[inum], lh, lo, hi, true, done);
      CostCovered(old(blocks), old(ino), |old(owner)|, inum, off0, src);
      ok := true;
    }

    lemma WritingStart(inum: nat, off: nat)
      requires inum < |ino| && off / BSIZE <= MAXFILE
      ensures Writing(blocks, ino, |owner|, inum, off, [])
    {
      ProgressNone(blocks, ino, inum, off);
    }

    /** What has been written did not take more than was clear. */
    lemma CostCovered(b0: seq<Block>, i0: seq<Inode>, o0: nat, inum: nat, off: nat, d: seq<byte>)
      requires Valid() && Writing(b0, i0, o0, inum, off, d) && |Clear(l, b0)| + o0 == l.size - l.data
      requires off + |d| <= MAXFILE * BSIZE && off / BSIZE <= Hi(off, |d|)
      ensures |Clear(l, b0)| >= Cost(b0, i0[inum], off / BSIZE, Hi(off, |d|))
    {
      hide Owned, Replay, Progress, Clear, Missing;
      ClearCount(l, blocks, ino, owner);
    }

    method WritePiece(ghost b0: seq<Block>, ghost i0: seq<Inode>, ghost o0: nat, ghost lh0: set<word>,
                      inum: nat, off0: nat, ghost hi: nat, d: seq<byte>, piece: seq<byte>, ghost done: seq<word>)
      returns (ok: bool, ghost done': seq<word>)
      requires Valid() && Writing(b0, i0, o0, inum, off0, d) && |Clear(l, b0)| + o0 == l.size - l.data
      requires (off0 + |d|) / BSIZE == Hi(off0, |d|) < hi <= MAXFILE && (off0 + |d|) % BSIZE + |piece| <= BSIZE
      requires Hi(off0, |d| + |piece|) == Hi(off0, |d|) + 1
      requires inum < |i0| && Planned(b0, i0[inum], lh0, inum, off0 / BSIZE, Hi(off0, |d|), hi, true, done)
      modifies this`blocks, this`ino, this`owner, this`writes, this`lh
      ensures Logging() && |ino| == |old(ino)| && off0 / BSIZE <= hi
      ensures ok ==> Valid() && Writing(b0, i0, o0, inum, off0, d + piece) && inum < |ino|
      ensures ok ==> Planned(b0, i0[inum], lh0, inum, off0 / BSIZE, Hi(off0, |d| + |piece|), hi, true, done')
      ensures !ok ==> || |Clear(l, b0)| < Cost(b0, i0[inum], off0 / BSIZE, hi)
                      || Full(lh0, Room(), Puts(l, b0, i0[inum], off0 / BSIZE, hi, true))
      ensures !ok && !Full(lh0, Room(), Puts(l, b0, i0[inum], off0 / BSIZE, hi, true)) ==> Valid()
    {
      hide Owned, Replay, BytesWritten, Grew, Progress, InodesKept, Missing, Val, Clear, Puts, Full, Elems, OnPlan,
        Took, Turn, Need, Cost;
      var off := off0 + |d|;
      ghost var k, b1, i1, lh1 := off / BSIZE, blocks, ino, lh;
      PlanShape(b0, i0[inum], lh0, inum, off0 / BSIZE, k, hi, true, done);
      PlanFails(l, b0, i0[inum], lh0, Room(), b1, i1[inum], lh1, off0 / BSIZE, k, hi, true, done);
      ClearCount(l, blocks, ino, owner);
      done' := done + TurnOf(l, b1, i1[inum], k, true);
      NeedIs(b0, i0, b1, i1, inum, off0, k, d);
      ok := WriteBlock(inum, off, piece);
      if ok {
        GrewShape(b1, i1, blocks, ino, inum, k);
        ProgressStep(b0, i0, b1, i1, blocks, ino, inum, off0, k, d, piece);
        MissingNext(b0, i0[inum], off0 / BSIZE, k);
        InodesKeptTwice(b0, b1, blocks);
        PlanStep(l, b0, i0[inum], lh0, Room(), b1, i1[inum], lh1, blocks, ino[inum], lh, off0 / BSIZE, k, hi, true,
          done);
        assert |d + piece| == |d| + |piece|;
      } else {
        CostSoFar(b0, i0[inum], i1[inum], off0 / BSIZE, k, hi);
      }
    }

    lemma PlanShape(b0: seq<Block>, ip0: Inode, lh0: set<word>, inum: nat, lo: nat, k: nat, hi: nat, writing: bool,
                    done: seq<word>)
      requires Planned(b0, ip0, lh0, inum, lo, k, hi, writing, done)
      ensures lo <= k <= hi <= MAXFILE
    {
    }

    /** What reading or writing a device file comes to here. */
    static function AtDevice(ip: Inode): Outcome {
      if ip.major < 0 || ip.major >= NDEV then Fail else ToDevice
    }

    /** What writei logs: the blocks of its turns, and the inode's block if the file grows. */
    ghost function WritePuts(inum: nat, off: nat, n: nat): seq<word>
      requires inum < |ino|
      reads this
    {
      if off / BSIZE > Hi(off, n) || Hi(off, n) > MAXFILE then []
      else Puts(l, blocks, ino[inum], off / BSIZE, Hi(off, n), true) + Grows(ino[inum], inum, off, n)
    }

    ghost function Grows(ip: Inode, inum: nat, off: nat, n: nat): seq<word> {
      if n > 0 && off + n > ip.size && l.IBlock(inum) < WORDLIMIT then [l.IBlock(inum)] else []
    }

    /** Write src into a file at off. Exactly those bytes change, the size grows to cover them, no other file
        changes; it panics exactly when the write takes more blocks than are clear, or what it logs does not fit
        in the log. */
    method Writei(inum: nat, src: seq<byte>, off: word) returns (r: Outcome)
      requires Valid() && inum < |ino| && |src| < WORDLIMIT && ino[inum].size <= MAXFILE * BSIZE
      modifies this`blocks, this`ino, this`owner, this`writes, this`lh
      ensures Logging() && |ino| == |old(ino)|
      ensures !old(Full(lh, Room(), WritePuts(inum, off, |src|))) ==> Valid()
      ensures old(ino[inum].typ) == T_DEV ==> r == AtDevice(old(ino[inum])) && Unchanged()
      ensures old(ino[inum].typ) == T_DEV ==> r == if 0 <= old(ino[inum].major) < 10 then ToDevice else Fail
      ensures old(ino[inum].typ) != T_DEV && Rejected(old(ino[inum]), off, |src|) ==> r == Fail && Unchanged()
      ensures old(ino[inum].typ) != T_DEV ==> (r == Fail <==> off > old(ino[inum].size) || off + |src| > 140 * 512)
      ensures old(ino[inum].typ) != T_DEV && !Rejected(old(ino[inum]), off, |src|) ==>
                r == if || |Clear(l, old(blocks))| < WriteCost(old(blocks), old(ino[inum]), off, |src|)
                        || old(Full(lh, Room(), WritePuts(inum, off, |src|))) then Panicked else Done(|src|)
      ensures r.Done? ==> Valid() && lh == old(lh) + Elems(old(WritePuts(inum, off, |src|)))
      ensures r.Done? ==> |owner| == old(|owner|) + WriteCost(old(blocks), old(ino[inum]), off, |src|)
      ensures r.Done? ==> Filled(old(blocks), old(ino[inum]), blocks, ino[inum], off / BSIZE, Hi(off, |src|))
      ensures r.Done? ==> ino[inum].size <= MAXFILE * BSIZE
      ensures r.Done? ==> ino[inum] == old(ino[inum]).(addrs := ino[inum].addrs,
                size := if |src| > 0 && off + |src| > old(ino[inum].size) then off + |src| else old(ino[inum].size))
      ensures r.Done? ==> off <= old(ino[inum].size)
      ensures r.Done? ==> Content(blocks, ino[inum]) == Splice(old(Content(blocks, ino[inum])), off, src)
      ensures r.Done? ==> OthersKept(old(blocks), old(ino), blocks, ino, inum)
      ensures r.Done? && old(NoHoles(blocks, ino[inum])) ==> NoHoles(blocks, ino[inum])
      ensures r.Done? && old(NoHoles(blocks, ino[inum]) && Synced(l, blocks, ino[inum], inum)) ==>
                Synced(l, blocks, ino[inum], inum)
      ensures r.Done? ==> forall i | 0 <= i < |ino| && i != inum && old(Synced(l, blocks, ino[i], i)) ::
                Synced(l, blocks, ino[i], i)
    {
      hide Owned, Replay, Synced, NoHoles, Content, Splice, OthersKept, Clear, WriteCost, Filled, Full, Elems,
        WritePuts;
      RejectedIs(ino[inum], off, |src|);
      var ip := ino[inum];
      OwnedShape(l, blocks, ino, owner);
      if ip.typ == T_DEV {
        if ip.major < 0 || ip.major >= NDEV {
          return Fail;
        }
        return ToDevice;
      }
      var n := |src|;
      if off > ip.size || (off + n) % WORDLIMIT < off {
        return Fail;
      }
      if (off + n) % WORDLIMIT > MAXFILE * BSIZE {
        return Fail;
      }
      var ok := WriteRange(inum, src, off);
      r := if ok then Done(n) else Panicked;
    }

    /** writei behind its range tests; false where the kernel panics. */
    method WriteRange(inum: nat, src: seq<byte>, off: word) returns (ok: bool)
      requires Valid() && inum < |ino| && off <= ino[inum].size <= MAXFILE * BSIZE && off + |src| <= MAXFILE * BSIZE
      modifies this`blocks, this`ino, this`owner, this`writes, this`lh
      ensures Logging() && |ino| == |old(ino)|
      ensures !old(Full(lh, Room(), WritePuts(inum, off, |src|))) ==> Valid()
      ensures !ok <==> || |Clear(l, old(blocks))| < WriteCost(old(blocks), old(ino[inum]), off, |src|)
                       || old(Full(lh, Room(), WritePuts(inum, off, |src|)))
      ensures ok ==> Valid() && lh == old(lh) + Elems(old(WritePuts(inum, off, |src|)))
      ensures ok ==> |owner| == old(|owner|) + WriteCost(old(blocks), old(ino[inum]), off, |src|)
      ensures ok ==> Filled(old(blocks), old(ino[inum]), blocks, ino[inum], off / BSIZE, Hi(off, |src|))
      ensures ok ==> ino[inum].size <= MAXFILE * BSIZE
      ensures ok ==> ino[inum] == old(ino[inum]).(addrs := ino[inum].addrs,
                size := if |src| > 0 && off + |src| > old(ino[inum].size) then off + |src| else old(ino[inum].size))
      ensures ok ==> Content(blocks, ino[inum]) == Splice(old(Content(blocks, ino[inum])), off, src)
      ensures ok ==> OthersKept(old(blocks), old(ino), blocks, ino, inum)
      ensures ok && old(NoHoles(blocks, ino[inum])) ==> NoHoles(blocks, ino[inum])
      ensures ok && old(NoHoles(blocks, ino[inum]) && Synced(l, blocks, ino[inum], inum)) ==>
                Synced(l, blocks, ino[inum], inum)
      ensures ok ==> forall i | 0 <= i < |ino| && i != inum && old(Synced(l, blocks, ino[i], i)) ::
                Synced(l, blocks, ino[i], i)
    {
      hide Owned, Replay, Writing, Synced, NoHoles, Content, Splice, OthersKept, Written, Clear, WriteCost, Filled,
        Puts, Full, Elems, Cost, Hi, WritePuts;
      RangePlan(inum, off, |src|);
      ok := WriteBlocks(inum, src, off);
      if ok {
        ok := SetSize(old(blocks), old(ino), |old(owner)|, inum, off, src);
      }
    }

    /** What the turns of a write log, and then its update of the inode. */
    lemma RangePlan(inum: nat, off: nat, n: nat)
      requires Valid() && inum < |ino| && off + n <= MAXFILE * BSIZE
      ensures off / BSIZE <= Hi(off, n) <= MAXFILE && l.IBlock(inum) < WORDLIMIT
      ensures WriteCost(blocks, ino[inum], off, n) == Cost(blocks, ino[inum], off / BSIZE, Hi(off, n))
      ensures var puts := Puts(l, blocks, ino[inum], off / BSIZE, Hi(off, n), true);
        && (Full(lh, Room(), WritePuts(inum, off, n)) <==>
              Full(lh, Room(), puts) || (n > 0 && off + n > ino[inum].size && |lh + Elems(puts)| >= Room()))
        && lh + Elems(WritePuts(inum, off, n))
           == lh + Elems(puts) + if n > 0 && off + n > ino[inum].size then {l.IBlock(inum) as word} else {}
    {
      hide Owned, Replay, Puts, Full, Elems, Cost, Hi, Clear, Grows;
      HiGrows(off, n, n);
      CostIs(blocks, ino[inum], off, n);
      var puts, last := Puts(l, blocks, ino[inum], off / BSIZE, Hi(off, n), true), Grows(ino[inum], inum, off, n);
      FullConcat(lh, Room(), puts, last);
      ElemsConcat(puts, last);
      GrowsOne(lh + Elems(puts), Room(), ino[inum], inum, off, n);
    }

    /** A write to more blocks than the log has room for panics, however many blocks are clear. */
    lemma LongWrites(inum: nat, off: nat, n: nat)
      requires Valid() && inum < |ino| && off + n <= MAXFILE * BSIZE && off / BSIZE + Room() < Hi(off, n)
      ensures |Clear(l, blocks)| < WriteCost(blocks, ino[inum], off, n) || Full(lh, Room(), WritePuts(inum, off, n))
    {
      hide Owned, Replay, Full, Turns, Clear, Cost;
      HiGrows(off, n, n);
      CostIs(blocks, ino[inum], off, n);
      LongWrite(l, blocks, ino, owner, inum, off / BSIZE, Hi(off, n), lh, Room());
      FullConcat(lh, Room(), Puts(l, blocks, ino[inum], off / BSIZE, Hi(off, n), true), Grows(ino[inum], inum, off, n));
    }

    lemma GrowsOne(lh: set<word>, room: nat, ip: Inode, inum: nat, off: nat, n: nat)
      requires Valid() && inum < |ino|
      ensures Full(lh, room, Grows(ip, inum, off, n)) <==> n > 0 && off + n > ip.size && |lh| >= room
      ensures l.IBlock(inum) < WORDLIMIT
      ensures Elems(Grows(ip, inum, off, n)) == if n > 0 && off + n > ip.size then {l.IBlock(inum) as word} else {}
    {
      hide Owned;
      OwnedShape(l, blocks, ino, owner);
      FullOne(lh, room, l.IBlock(inum));
    }

    lemma CostIs(b0: seq<Block>, ip: Inode, off: nat, n: nat)
      requires off + n <= MAXFILE * BSIZE && off / BSIZE <= Hi(off, n) <= MAXFILE
      ensures WriteCost(b0, ip, off, n) == Cost(b0, ip, off / BSIZE, Hi(off, n))
    {
    }

    /** The end of writei: a larger size is recorded in memory and on the disk; false where log_write panics. */
    method SetSize(ghost b0: seq<Block>, ghost i0: seq<Inode>, ghost o0: nat, inum: nat, off: word, src: seq<byte>)
      returns (ok: bool)
      requires Valid() && inum < |i0| && Writing(b0, i0, o0, inum, off, src)
      requires off <= i0[inum].size && off + |src| <= MAXFILE * BSIZE && i0[inum].size <= MAXFILE * BSIZE
      modifies this`blocks, this`ino, this`writes, this`lh
      ensures Logging() && inum < |ino| == |i0| && l.IBlock(inum) < WORDLIMIT
      ensures !ok <==> |src| > 0 && off + |src| > i0[inum].size && old(|lh|) >= Room()
      ensures ok ==> lh == old(lh) + if |src| > 0 && off + |src| > i0[inum].size then {l.IBlock(inum) as word} else {}
      ensures ok ==> Valid() && ino[inum].size <= MAXFILE * BSIZE
      ensures ok ==> ino[inum] == i0[inum].(addrs := ino[inum].addrs,
                size := if |src| > 0 && off + |src| > i0[inum].size then off + |src| else i0[inum].size)
      ensures ok ==> Filled(b0, i0[inum], blocks, ino[inum], off / BSIZE, Hi(off, |src|))
      ensures ok ==> |owner| - o0 == WriteCost(b0, i0[inum], off, |src|)
      ensures ok ==> Content(blocks, ino[inum]) == Splice(Content(b0, i0[inum]), off, src)
      ensures ok ==> OthersKept(b0, i0, blocks, ino, inum)
      ensures ok && NoHoles(b0, i0[inum]) ==> NoHoles(blocks, ino[inum])
      ensures ok && NoHoles(b0, i0[inum]) && Synced(l, b0, i0[inum], inum) ==> Synced(l, blocks, ino[inum], inum)
      ensures ok ==> forall i | 0 <= i < |ino| && i != inum && Synced(l, b0, i0[i], i) :: Synced(l, blocks, ino[i], i)
    {
      hide Owned, Replay, Progress, Synced, Content, Splice, OthersKept, SameVals, SameBytes, InodesKept, NoHoles,
        Missing, Filled, WriteCost, Written,
        DiskInode, DinodeWord, PutDinode, GetDinode, AfterUpdate, Room;
      ghost var b1, i1 := blocks, ino;
      WritingUnfold(b0, i0, o0, inum, off, src);
      OwnedShape(l, blocks, ino, owner);
      if |src| > 0 && off + |src| > ino[inum].size {
        ok := Iupdate(inum, off + |src|);
        if !ok {
          return;
        }
        UpdateSyncs(l, b1, ino[inum], inum);
        SyncedAfterUpdate(b0, i0, b1, i1, inum);
      } else {
        SizeSame(b1, i1, inum);
        SyncedWithout(b0, i0, b1, i1, inum, off, src);
      }
      WriteDone(b0, i0, b1, i1, blocks, ino, inum, off, src);
      WriteFilled(b0, i0, b1, i1, blocks, ino, inum, off, src);
      ok := true;
    }

    lemma WritingUnfold(b0: seq<Block>, i0: seq<Inode>, o0: nat, inum: nat, off0: nat, d: seq<byte>)
      requires Writing(b0, i0, o0, inum, off0, d) && Valid()
      ensures inum < |ino| == |i0| && |b0| == |blocks| && Hi(off0, |d|) <= MAXFILE
      ensures ino[inum] == i0[inum].(addrs := ino[inum].addrs)
      ensures forall i | 0 <= i < |ino| && i != inum :: ino[i] == i0[i]
      ensures Progress(b0, i0, blocks, ino, inum, off0, Hi(off0, |d|), d) && InodesKept(l, b0, blocks)
      ensures |owner| - o0 == Missing(b0, i0[inum], off0 / BSIZE, Hi(off0, |d|)) + IndirectCost(i0[inum], ino[inum])
      ensures |d| == 0 || Hi(off0, |d|) <= NDIRECT ==> ino[inum].addrs[NDIRECT] == i0[inum].addrs[NDIRECT]
      ensures |d| > 0 && Hi(off0, |d|) > NDIRECT ==> ino[inum].addrs[NDIRECT] != 0
      ensures l.IBlock(inum) < l.bmapstart < |blocks| <= WORDLIMIT
    {
    }

    lemma SizeSame(b1: seq<Block>, i1: seq<Inode>, inum: nat)
      requires inum < |i1|
      ensures i1[inum := i1[inum].(size := i1[inum].size)] == i1
      ensures SameVals(b1, i1, b1, i1) && SameBytes(b1, i1, b1, i1)
    {
    }

    /** iupdate of one inode keeps the disk copies of the others. */
    lemma SyncedAfterUpdate(b0: seq<Block>, i0: seq<Inode>, b1: seq<Block>, i1: seq<Inode>, inum: nat)
      requires InodesKept(l, b0, b1) && inum < |i0| == |i1| == |ino| && l.IBlock(inum) < |b1|
      requires Owned(l, b1, i1, owner) && blocks == AfterUpdate(l, b1, ino[inum], inum)
      requires forall i | 0 <= i < |ino| && i != inum :: ino[i] == i0[i]
      ensures forall i | 0 <= i < |ino| && i != inum && Synced(l, b0, i0[i], i) :: Synced(l, blocks, ino[i], i)
    {
      forall i | 0 <= i < |ino| && i != inum && Synced(l, b0, i0[i], i) ensures Synced(l, blocks, ino[i], i) {
        assert Synced(l, b1, i0[i], i);
        UpdateKeepsOthers(l, b1, ino[inum], inum, i, i0[i]);
      }
    }

    /** A write inside the file changes no inode, in memory or on the disk. */
    lemma SyncedWithout(b0: seq<Block>, i0: seq<Inode>, b1: seq<Block>, i1: seq<Inode>, inum: nat, off: nat,
                        d: seq<byte>)
      requires InodesKept(l, b0, b1) && Owned(l, b1, i1, owner) && Progress(b0, i0, b1, i1, inum, off, Hi(off, |d|), d)
      requires |d| == 0 || off + |d| <= i0[inum].size
      ensures NoHoles(b0, i0[inum]) && Synced(l, b0, i0[inum], inum) ==> Synced(l, b1, i1[inum], inum)
      ensures forall i | 0 <= i < |i1| && i != inum && Synced(l, b0, i0[i], i) :: Synced(l, b1, i1[i], i)
    {
      if NoHoles(b0, i0[inum]) {
        NothingMissing(b0, i0[inum], off, |d|);
      }
    }

    lemma GrewShape(blocks: seq<Block>, ino: seq<Inode>, b2: seq<Block>, i2: seq<Inode>, inum: nat, k: nat)
      requires Grew(blocks, ino, b2, i2, inum, k, k + 1)
      ensures |i2| == |ino| && |b2| == |blocks|
    {
    }

    // ----- readi -----

    /** How many of n bytes from off on a file of this size has. */
    static function Readable(size: nat, off: nat, n: nat): nat
      requires off <= size
    {
      if off + n > size then size - off else n
    }

    /** A read of m bytes panics: its holes take more blocks than are clear, or log_write panics on the way. */
    ghost predicate ReadPanics(inum: nat, off: nat, m: nat)
      requires inum < |ino| && off + m <= MAXFILE * BSIZE
      reads this
    {
      HiGrows(off, m, m);
      RangePanics(inum, off / BSIZE, Hi(off, m), false)
    }

    /** Read up to n bytes of a file from off on: the part of the file that is there. A hole reads as zeros and
        is filled on the way, through the log. No byte of any file changes, and without holes nothing at all does;
        outside an operation a hole is a panic. */
    method Readi(inum: nat, off: word, n: word) returns (r: Outcome, dst: seq<byte>)
      requires Valid() && inum < |ino| && ino[inum].size <= MAXFILE * BSIZE
      modifies this`blocks, this`ino, this`owner, this`writes, this`lh
      ensures Logging() && |ino| == |old(ino)| && (r != Panicked ==> Valid())
      ensures old(ino[inum].typ) == T_DEV ==> r == AtDevice(old(ino[inum])) && Unchanged()
      ensures old(ino[inum].typ) == T_DEV ==> r == if 0 <= old(ino[inum].major) < 10 then ToDevice else Fail
      ensures old(ino[inum].typ) != T_DEV && r.Done? ==> r.n == |dst| <= n && off + r.n <= old(ino[inum].size)
      ensures old(ino[inum].typ) != T_DEV && r.Done? && r.n < n ==> off + r.n == old(ino[inum].size)
      ensures old(ino[inum].typ) != T_DEV && (off > old(ino[inum].size) || off + n >= WORDLIMIT) ==>
                r == Fail && Unchanged()
      ensures old(ino[inum].typ) != T_DEV && off <= old(ino[inum].size) && off + n < WORDLIMIT ==>
                var m := Readable(old(ino[inum].size), off, n);
                && r == (if old(ReadPanics(inum, off, m)) then Panicked else Done(m))
                && (r.Done? ==> dst == old(Content(blocks, ino[inum]))[off..off + m])
                && (r.Done? ==> ReadTo(old(blocks), old(ino), |old(owner)|, blocks, ino, |owner|, inum, off, dst))
                && (outstanding == 0 ==> (r == Panicked <==> WriteCost(old(blocks), old(ino[inum]), off, m) > 0))
                && (WriteCost(old(blocks), old(ino[inum]), off, m) == 0 ==> r == Done(m) && Unchanged())
      ensures old(NoHoles(blocks, ino[inum])) ==> r != Panicked && Unchanged()
    {
      hide Owned, Replay, Content, NoHoles, Val, ReadTo, WriteCost, Clear, RangePanics, OnPlan, Cost;
      dst := [];
      var ip := ino[inum];
      if ip.typ == T_DEV {
        if ip.major < 0 || ip.major >= NDEV {
          return Fail, [];
        }
        return ToDevice, [];
      }
      if off > ip.size || (off + n) % WORDLIMIT < off {
        return Fail, [];
      }
      var m := n;
      if off + n > ip.size {
        m := ip.size - off;
      }
      OutsidePanics(inum, off, m);
      NothingToFill(blocks, ip, off, m);
      var ok;
      ok, dst := ReadBlocks(inum, off, m);
      r := if ok then Done(m) else Panicked;
    }

    /** The loop of readi; false where the kernel panics. */
    method ReadBlocks(inum: nat, off: nat, m: nat) returns (ok: bool, dst: seq<byte>)
      requires Valid() && inum < |ino| && off + m <= ino[inum].size <= MAXFILE * BSIZE
      modifies this`blocks, this`ino, this`owner, this`writes, this`lh
      ensures Logging() && |ino| == |old(ino)| && (!ok <==> old(ReadPanics(inum, off, m)))
      ensures ok ==> Valid() && |dst| == m && ReadTo(old(blocks), old(ino), |old(owner)|, blocks, ino, |owner|, inum,
                off, dst)
      ensures ok ==> dst == old(Content(blocks, ino[inum]))[off..off + m]
      ensures old(AllThere(blocks, ino[inum], off / BSIZE, Hi(off, m))) ==> ok && Unchanged()
    {
      hide Owned, Replay, Content, Val, ReadTo, WriteCost, Clear, OnPlan, Cost, Puts, Full, Hi;
      ghost var lo, hi, done: seq<word> := off / BSIZE, Hi(off, m), [];
      HiGrows(off, m, m);
      ReadNothing(blocks, ino, |owner|, inum, off);
      HiStart(off);
      PlanStarts(l, blocks, ino[inum], lh, Room(), lo, hi, false);
      dst := [];
      while |dst| < m
        invariant Valid() && |dst| <= m && |ino| == |old(ino)| && (0 < |dst| < m ==> (off + |dst|) % BSIZE == 0)
        invariant ReadTo(old(blocks), old(ino), |old(owner)|, blocks, ino, |owner|, inum, off, dst)
        invariant Planned(old(blocks), old(ino[inum]), old(lh), inum, lo, Hi(off, |dst|), hi, false, done)
        invariant old(AllThere(blocks, ino[inum], off / BSIZE, Hi(off, m))) ==> Unchanged()
      {
        var pos := off + |dst|;
        var len := if m - |dst| < BSIZE - pos % BSIZE then m - |dst| else BSIZE - pos % BSIZE;
        HiStep(off, |dst|, len, m);
        HiGrows(off, |dst| + len, m);
        var piece;
        piece, done := ReadPiece(old(blocks), old(ino), old(owner), old(lh), inum, off, m, dst, len, done);
        if piece.None? {
          return false, [];
        }
        dst := dst + piece.value;
      }
      ReadEnough(old(blocks), old(ino), old(owner), old(lh), inum, off, dst, done);
      ok := true;
    }

    /** Outside an operation the first hole is a panic. */
    lemma OutsidePanics(inum: nat, off: nat, m: nat)
      requires Valid() && inum < |ino| && off + m <= MAXFILE * BSIZE
      ensures outstanding == 0 ==> (ReadPanics(inum, off, m) <==> WriteCost(blocks, ino[inum], off, m) > 0)
    {
      hide Owned, Replay, Val, Clear, Turns, Full;
      CostIs(blocks, ino[inum], off, m);
      HiGrows(off, m, m);
      var ip, lo, hi := ino[inum], off / BSIZE, Hi(off, m);
      NothingPut(l, blocks, ip, ip.addrs[NDIRECT], lo, hi, Clear(l, blocks));
      FullAtLast(lh, 0, Puts(l, blocks, ip, lo, hi, false));
      IndirectIsMissing(blocks, ip, lo, hi);
    }

    /** The next piece of a read of m bytes; None where the kernel panics. */
    method ReadPiece(ghost b0: seq<Block>, ghost i0: seq<Inode>, ghost owner0: map<word, Slot>, ghost lh0: set<word>,
                     inum: nat, off: nat, ghost m: nat, dst: seq<byte>, len: nat, ghost done: seq<word>)
      returns (r: Option<seq<byte>>, ghost done': seq<word>)
      requires Valid() && Owned(l, b0, i0, owner0) && inum < |i0| == |ino|
      requires ReadTo(b0, i0, |owner0|, blocks, ino, |owner|, inum, off, dst)
      requires 0 < len && |dst| + len <= m && off + m <= i0[inum].size && (off + |dst|) % BSIZE + len <= BSIZE
      requires (off + |dst|) / BSIZE == Hi(off, |dst|)
                 && Hi(off, |dst| + len) == Hi(off, |dst|) + 1 <= Hi(off, m) <= MAXFILE
      requires Planned(b0, i0[inum], lh0, inum, off / BSIZE, Hi(off, |dst|), Hi(off, m), false, done)
      modifies this`blocks, this`ino, this`owner, this`writes, this`lh
      ensures Logging() && |ino| == |i0| && off / BSIZE <= Hi(off, m)
      ensures if r.None? then
                || |Clear(l, b0)| < Cost(b0, i0[inum], off / BSIZE, Hi(off, m))
                || Full(lh0, Room(), Puts(l, b0, i0[inum], off / BSIZE, Hi(off, m), false))
              else
                && Valid() && |r.value| == len
                && ReadTo(b0, i0, |owner0|, blocks, ino, |owner|, inum, off, dst + r.value)
                && Planned(b0, i0[inum], lh0, inum, off / BSIZE, Hi(off, |dst| + len), Hi(off, m), false, done')
      ensures old(AllThere(blocks, ino[inum], off / BSIZE, Hi(off, m))) ==> r.Some? && Unchanged()
    {
      hide Owned, Replay, Content, Val, ReadTo, WriteCost, Clear, Mapped, Need, BitmapBit, OnPlan, Puts, Full, Elems,
        Took, Turn, Cost, Hi;
      var pos := off + |dst|;
      ReadShape(b0, i0, |owner0|, inum, off, dst);
      ghost var b1, i1, o1, lh1, k := blocks, ino, |owner|, lh, pos / BSIZE;
      NeedIsCost(b1, i1[inum], pos, len);
      PlanShape(b0, i0[inum], lh0, inum, off / BSIZE, k, Hi(off, m), false, done);
      PlanFails(l, b0, i0[inum], lh0, Room(), b1, i1[inum], lh1, off / BSIZE, k, Hi(off, m), false, done);
      ReadTurn(b1, i1[inum], k);
      done' := done + TurnOf(l, b1, i1[inum], k, false);
      ClearCount(l, blocks, ino, owner);
      var bn := Bmap(inum, pos / BSIZE);
      OwnedShape(l, b0, i0, owner0);
      if bn.None? {
        if |Clear(l, b1)| < Need(b1, i1[inum], k) {
          ReadShort(b0, i0, owner0, b1, i1, o1, inum, off, m, dst, len);
        }
        return None, done';
      }
      OwnedShape(l, blocks, ino, owner);
      AddrIsData(inum, k);
      var data := blocks[bn.value];
      r := Some(data[pos % BSIZE..pos % BSIZE + len]);
      TookFacts(l, b1, i1[inum], blocks, ino[inum], k);
      PlanStep(l, b0, i0[inum], lh0, Room(), b1, i1[inum], lh1, blocks, ino[inum], lh, off / BSIZE, k, Hi(off, m),
        false, done);
      ReadMore(b0, i0, |owner0|, b1, i1, o1, blocks, ino, |owner|, inum, off, dst, r.value);
    }

    /** A read logs what bmap logs. */
    lemma ReadTurn(b1: seq<Block>, ip1: Inode, k: nat)
      requires k < MAXFILE
      ensures TurnOf(l, b1, ip1, k, false) == FillOf(l, b1, ip1, k)
    {
    }

    lemma ReadShape(b0: seq<Block>, i0: seq<Inode>, o0: nat, inum: nat, off: nat, dst: seq<byte>)
      requires ReadTo(b0, i0, o0, blocks, ino, |owner|, inum, off, dst)
      ensures ino[inum].size == i0[inum].size <= MAXFILE * BSIZE
    {
    }

    /** A read given up for want of a block would have taken more than were clear. */
    lemma ReadShort(b0: seq<Block>, i0: seq<Inode>, owner0: map<word, Slot>, b1: seq<Block>, i1: seq<Inode>, o1: nat,
                    inum: nat, off: nat, m: nat, dst: seq<byte>, len: nat)
      requires Owned(l, b0, i0, owner0) && ReadTo(b0, i0, |owner0|, b1, i1, o1, inum, off, dst)
      requires 0 < len && |dst| + len <= m && off + m <= i0[inum].size && off / BSIZE <= Hi(off, m) <= MAXFILE
      requires l.size - l.data < o1 + WriteCost(b1, i1[inum], off + |dst|, len)
      ensures |Clear(l, b0)| < Cost(b0, i0[inum], off / BSIZE, Hi(off, m))
    {
      hide Owned, Content, Val, WriteCost, Clear, Filled, SameBytes, Cost;
      ClearCount(l, b0, i0, owner0);
      WriteCostTwice(b0, i0[inum], b1, i1[inum], off, |dst|, len);
      CostGrows(b0, i0[inum], off, |dst| + len, m);
      CostIs(b0, i0[inum], off, m);
    }

    lemma ReadEnough(b0: seq<Block>, i0: seq<Inode>, owner0: map<word, Slot>, lh0: set<word>, inum: nat, off: nat,
                     dst: seq<byte>,
                     done: seq<word>)
      requires Valid() && Owned(l, b0, i0, owner0) && ReadTo(b0, i0, |owner0|, blocks, ino, |owner|, inum, off, dst)
      requires Planned(b0, i0[inum], lh0, inum, off / BSIZE, Hi(off, |dst|), Hi(off, |dst|), false, done)
      ensures off / BSIZE <= Hi(off, |dst|) <= MAXFILE
      ensures |Clear(l, b0)| >= Cost(b0, i0[inum], off / BSIZE, Hi(off, |dst|))
      ensures !Full(lh0, Room(), Puts(l, b0, i0[inum], off / BSIZE, Hi(off, |dst|), false))
      ensures off + |dst| <= i0[inum].size <= MAXFILE * BSIZE && dst == Content(b0, i0[inum])[off..off + |dst|]
    {
      hide Owned, Replay, Clear, Filled, SameBytes, Puts, Full, Elems, Cost;
      ClearCount(l, b0, i0, owner0);
      ClearCount(l, blocks, ino, owner);
      PlanEnds(l, b0, i0[inum], lh0, Room(), blocks, ino[inum], lh, off / BSIZE, Hi(off, |dst|), false, done);
      CostIs(b0, i0[inum], off, |dst|);
    }

    /** fileread runs outside any operation of its own. */
    method Fileread(f: File, n: word) returns (r: Outcome, dst: seq<byte>)
      requires Valid() && f.inum < |ino| && ino[f.inum].size <= MAXFILE * BSIZE && n < 0x8000_0000
      modifies this`blocks, this`ino, this`owner, this`writes, this`lh, f`off
      ensures !f.readable ==> r == Fail && Unchanged() && f.off == old(f.off)
      ensures f.readable && old(ino[f.inum].typ) == T_DEV ==>
                r == (if 0 <= old(ino[f.inum].major) < 10 then ToDevice else Fail) && Unchanged() && f.off == old(f.off)
      ensures f.readable && old(ino[f.inum].typ) != T_DEV ==>
                if old(f.off) > old(ino[f.inum].size) || old(f.off) + n >= WORDLIMIT then r == Fail && Unchanged()
                else
                  var m := Readable(old(ino[f.inum].size), old(f.off), n);
                  && r == (if old(ReadPanics(f.inum, f.off, m)) then Panicked else Done(m))
                  && (r.Done? ==>
                       && Valid() && f.off == old(f.off) + m
                       && dst == old(Content(blocks, ino[f.inum]))[old(f.off)..f.off])
                  && (outstanding == 0 ==>
                        (r == Panicked <==> WriteCost(old(blocks), old(ino[f.inum]), old(f.off), m) > 0))
                  && (WriteCost(old(blocks), old(ino[f.inum]), old(f.off), m) == 0 ==> r == Done(m) && Unchanged())
    {
      hide Owned, Replay, Content, NoHoles, ReadTo, WriteCost, Clear, RangePanics, Cost;
      if !f.readable {
        return Fail, [];
      }
      r, dst := Readi(f.inum, f.off, n);
      match r {
        case Done(k) => f.off := f.off + k;
        case _ =>
      }
    }

    // ----- itrunc -----

    /** Free the block in place k of the inode as it was in b0, i0; false where log_write panics. */
    method FreeSlot(ghost b0: seq<Block>, ghost i0: seq<Inode>, inum: nat, ghost k: nat, a: word) returns (ok: bool)
      requires Owned(l, b0, i0, owner) && inum < |i0| && k <= MAXFILE && Logging()
      requires Freed(l, b0, owner, blocks, inum, k) && a == Val(b0, i0[inum], k)
      modifies this`blocks, this`writes, this`lh
      ensures Logging() && (!ok <==> old(Full(lh, Room(), FreeOf(l, a))))
      ensures ok ==> Freed(l, b0, owner, blocks, inum, k + 1) && lh == old(lh) + Elems(FreeOf(l, a))
    {
      hide Owned, Freed, Replay, Val, BitmapBit, Full, Elems;
      FullOne(lh, Room(), MapOf(l, a));
      ok := true;
      if a != 0 {
        FreedOne(l, b0, i0, owner, blocks, inum, k);
        OwnedVal(l, b0, i0, owner, inum, k);
        BitmapIsMetadata(l, b0, i0, owner, a);
        OwnedShape(l, b0, i0, owner);
        ok := Bfree(a);
      } else {
        FreedSkip(l, b0, i0, owner, blocks, inum, k, k + 1);
      }
    }

    /** The blocks in places 0..k-1 have been freed and logged, since lh0. */
    ghost predicate Freeing(b0: seq<Block>, ip0: Inode, lh0: set<word>, inum: nat, k: nat)
      reads this
    {
      && k <= MAXFILE + 1 && Freed(l, b0, owner, blocks, inum, k)
      && !Full(lh0, Room(), Frees(l, b0, ip0, k)) && lh == lh0 + Elems(Frees(l, b0, ip0, k))
    }

    /** FreeSlot as one step of itrunc. */
    method FreeNext(ghost b0: seq<Block>, ghost i0: seq<Inode>, ghost lh0: set<word>, inum: nat, ghost k: nat, a: word)
      returns (ok: bool)
      requires Owned(l, b0, i0, owner) && inum < |i0| && k <= MAXFILE && Logging()
      requires Freeing(b0, i0[inum], lh0, inum, k) && a == Val(b0, i0[inum], k)
      modifies this`blocks, this`writes, this`lh
      ensures Logging() && (ok ==> Freeing(b0, i0[inum], lh0, inum, k + 1))
      ensures !ok ==> Full(lh0, Room(), Frees(l, b0, i0[inum], MAXFILE + 1))
    {
      hide Owned, Freed, Replay, Val, Full, Elems, Frees, FreeOf;
      FreesStep(l, lh0, Room(), b0, i0[inum], k);
      ok := FreeSlot(b0, i0, inum, k, a);
      if !ok {
        FreesFull(l, lh0, Room(), b0, i0[inum], k + 1, MAXFILE + 1);
      }
    }

    /** What itrunc logs: the bitmap block of each block freed, and the inode's block. */
    ghost function TruncPuts(inum: nat): seq<word>
      requires inum < |ino|
      reads this
    {
      Frees(l, blocks, ino[inum], MAXFILE + 1) + if l.IBlock(inum) < WORDLIMIT then [l.IBlock(inum)] else []
    }

    /** Discard a file's contents: exactly its blocks are freed, and its inode is empty. False where log_write
        panics, which is exactly when what is logged does not fit in the log. */
    method Itrunc(inum: nat) returns (ok: bool)
      requires Valid() && inum < |ino|
      modifies this`blocks, this`ino, this`owner, this`writes, this`lh
      ensures Logging() && (!ok <==> old(Full(lh, Room(), TruncPuts(inum))))
      ensures ok ==> Valid() && owner == WithoutInode(old(owner), inum) && lh == old(lh) + Elems(old(TruncPuts(inum)))
      ensures ok ==> ino == old(ino)[inum := Emptied(old(ino)[inum]).(size := 0)]
      ensures ok ==> ino[inum] == old(ino)[inum].(addrs := ino[inum].addrs, size := 0)
      ensures ok ==> (forall k | 0 <= k <= NDIRECT :: ino[inum].addrs[k] == 0)
      ensures ok ==> l.IBlock(inum) < |blocks| && DiskInode(l, blocks, inum) == ino[inum]
      ensures ok ==> OthersKept(old(blocks), old(ino), blocks, ino, inum) && NoHoles(blocks, ino[inum])
      ensures ok ==> Synced(l, blocks, ino[inum], inum)
      ensures ok ==> forall i | 0 <= i < |ino| && i != inum && old(Synced(l, blocks, ino[i], i)) ::
                Synced(l, blocks, ino[i], i)
    {
      hide Owned, Freed, Replay, Synced, OthersKept, Frees, Full, Elems, InodesKept;
      ghost var b0, i0 := blocks, ino;
      OwnedShape(l, blocks, ino, owner);
      TruncPlan(l, lh, Room(), blocks, ino[inum], l.IBlock(inum));
      ok := FreeAll(inum);
      if !ok {
        return;
      }
      ghost var b1, i1 := blocks, ino;
      ok := Iupdate(inum, 0);
      if ok {
        UpdateSyncs(l, b1, ino[inum], inum);
        TruncKept(b0, i0, b1, i1, inum);
      }
    }

    /** The two loops of itrunc. */
    method FreeAll(inum: nat) returns (ok: bool)
      requires Valid() && inum < |ino|
      modifies this`blocks, this`ino, this`owner, this`writes, this`lh
      ensures Logging() && (!ok <==> old(Full(lh, Room(), Frees(l, blocks, ino[inum], MAXFILE + 1))))
      ensures ok ==> Valid() && owner == WithoutInode(old(owner), inum) && InodesKept(l, old(blocks), blocks)
      ensures ok ==> lh == old(lh) + Elems(old(Frees(l, blocks, ino[inum], MAXFILE + 1)))
      ensures ok ==> ino == old(ino)[inum := Emptied(old(ino)[inum])]
      ensures ok ==> OthersKept(old(blocks), old(ino), blocks, ino, inum)
    {
      hide Owned, Freed, Replay, OthersKept, Frees, Full, Elems, InodesKept;
      FreedNone(l, blocks, ino, owner, inum);
      ghost var b0, i0, lh0 := blocks, ino, lh;
      ok := FreeDirect(inum);
      if ok {
        ok := FreeIndirect(b0, i0, lh0, inum);
      }
      if ok {
        TruncOwned(l, b0, i0, owner, blocks, inum);
        FreedKeepsInodes(l, b0, owner, blocks, inum, MAXFILE + 1);
        assert ino[inum] == Emptied(i0[inum]);
        assert ino == i0[inum := Emptied(i0[inum])];
        owner := WithoutInode(owner, inum);
      }
    }

    /** Discard a file's contents in an operation of its own. With at most nine bitmap blocks that is within
        the operation's budget. */
    method Truncate(inum: nat)
      requires Valid() && outstanding == 0 && inum < |ino| && l.data - l.bmapstart <= MAXOPBLOCKS - 1
      modifies this
      ensures Valid() && outstanding == 0 && owner == WithoutInode(old(owner), inum)
      ensures ino == old(ino)[inum := Emptied(old(ino)[inum]).(size := 0)]
      ensures OthersKept(old(blocks), old(ino), blocks, ino, inum) && NoHoles(blocks, ino[inum])
      ensures |ended| == |old(ended)| + 1 && old(ended) <= ended && FineOp(l, ended[|old(ended)|])
      ensures origin == old(origin) && (old(History()) ==> History())
    {
      hide Owned, Replay, Past, Consistent, ReplayAll, Synced, OthersKept, NoHoles, Written, Frees, Full, Elems;
      OwnedShape(l, blocks, ino, owner);
      BeginOp();
      FewBlocks(inum);
      var ok := Itrunc(inum);
      if !ok {
        assert false;   // the log has room for it
      }
      EndOp();
    }

    lemma FewBlocks(inum: nat)
      requires Valid() && inum < |ino| && l.data - l.bmapstart <= MAXOPBLOCKS - 1
      ensures |Elems(TruncPuts(inum))| <= MAXOPBLOCKS && !Full({}, room, TruncPuts(inum))
    {
      hide Owned, Replay, Frees, Full, Elems;
      OwnedShape(l, blocks, ino, owner);
      FreesAreMaps(l, blocks, ino, owner, inum, MAXFILE + 1);
      var frees, last: seq<word> := Frees(l, blocks, ino[inum], MAXFILE + 1), [l.IBlock(inum)];
      var maps := Interval(l.bmapstart, l.data);
      SmallerSet(Elems(frees), maps);
      NotFull(room, frees, last);
      ElemsConcat(frees, last);
      ElemsCount(Elems(last), last);
    }

    lemma TruncKept(b0: seq<Block>, i0: seq<Inode>, b1: seq<Block>, i1: seq<Inode>, inum: nat)
      requires OthersKept(b0, i0, b1, i1, inum) && SameBytes(b1, i1, blocks, ino) && inum < |ino| && |b1| == |b0|
      requires ino == i1[inum := i1[inum].(size := 0)]
      requires l.IBlock(inum) < |b1| && blocks == AfterUpdate(l, b1, ino[inum], inum)
      requires InodesKept(l, b0, b1) && Owned(l, b1, i1, owner)
      ensures OthersKept(b0, i0, blocks, ino, inum)
      ensures forall i | 0 <= i < |ino| && i != inum && Synced(l, b0, i0[i], i) :: Synced(l, blocks, ino[i], i)
    {
      hide Owned;
      OwnedShape(l, b1, i1, owner);
      forall j, pos | 0 <= j < |ino| && j != inum && 0 <= pos < MAXFILE * BSIZE
        ensures ByteAt(blocks, ino[j], pos) == ByteAt(b0, i0[j], pos)
      {
        assert ByteAt(b1, i1[j], pos) == ByteAt(b0, i0[j], pos);
        assert ByteAt(blocks, ino[j], pos) == ByteAt(b1, i1[j], pos);
      }
      SyncedAfterUpdate(b0, i0, b1, i1, inum);
    }

    /** The first loop of itrunc. */
    method FreeDirect(inum: nat) returns (ok: bool)
      requires Valid() && inum < |ino| && Freed(l, blocks, owner, blocks, inum, 0)
      modifies this`blocks, this`ino, this`writes, this`lh
      ensures Logging() && |ino| == |old(ino)|
      ensures ok ==> Freeing(old(blocks), old(ino[inum]), old(lh), inum, NDIRECT)
      ensures !ok ==> old(Full(lh, Room(), Frees(l, blocks, ino[inum], MAXFILE + 1)))
      ensures ino == old(ino)[inum := ino[inum]]
      ensures ino[inum] == old(ino)[inum].(addrs := ino[inum].addrs)
                && ino[inum].addrs[NDIRECT] == old(ino)[inum].addrs[NDIRECT]
      ensures ok ==> forall k | 0 <= k < NDIRECT :: ino[inum].addrs[k] == 0
    {
      hide Owned, Freed, Replay, Full, Frees, Elems;
      ghost var b0, i0, lh0 := blocks, ino, lh;
      NothingFreed(l, lh, Room(), blocks, ino[inum]);
      for i := 0 to NDIRECT
        invariant Logging() && Freeing(b0, i0[inum], lh0, inum, i)
        invariant |ino| == |i0| && ino == i0[inum := ino[inum]] && ino[inum] == i0[inum].(addrs := ino[inum].addrs)
        invariant forall k | 0 <= k <= NDIRECT :: ino[inum].addrs[k] == if k < i then 0 else i0[inum].addrs[k]
      {
        ok := FreeNext(b0, i0, lh0, inum, i, ino[inum].addrs[i]);
        if !ok {
          return;
        }
        ino := ino[inum := WithAddr(ino[inum], i, 0)];
      }
      ok := true;
    }

    /** The rest of itrunc: the entries of the indirect block, then the block itself. */
    method FreeIndirect(ghost b0: seq<Block>, ghost i0: seq<Inode>, ghost lh0: set<word>, inum: nat) returns (ok: bool)
      requires Owned(l, b0, i0, owner) && Logging() && inum < |i0| && Freeing(b0, i0[inum], lh0, inum, NDIRECT)
      requires |ino| == |i0| && ino == i0[inum := ino[inum]] && ino[inum] == i0[inum].(addrs := ino[inum].addrs)
      requires ino[inum].addrs[NDIRECT] == i0[inum].addrs[NDIRECT]
      modifies this`blocks, this`ino, this`writes, this`lh
      ensures Logging() && (!ok ==> Full(lh0, Room(), Frees(l, b0, i0[inum], MAXFILE + 1)))
      ensures ok ==> Freeing(b0, i0[inum], lh0, inum, MAXFILE + 1)
      ensures |ino| == |i0| && ino == old(ino)[inum := ino[inum]]
      ensures ok ==> ino[inum] == WithAddr(old(ino)[inum], NDIRECT, 0)
    {
      hide Owned, Freed, Replay, Full, Frees, Elems;
      var a := ino[inum].addrs[NDIRECT];
      if a != 0 {
        IndirectSame(b0, i0, inum);
        for j := 0 to NINDIRECT
          invariant Logging() && Freeing(b0, i0[inum], lh0, inum, NDIRECT + j) && ino == old(ino)
          invariant a < |blocks| == |b0| && blocks[a] == b0[a]
        {
          ok := FreeNext(b0, i0, lh0, inum, NDIRECT + j, WordAt(blocks[a], j));
          if !ok {
            return;
          }
          FreedShape(b0, inum, NDIRECT + j + 1, a);
        }
        ok := FreeNext(b0, i0, lh0, inum, MAXFILE, a);
        if !ok {
          return;
        }
        ino := ino[inum := WithAddr(ino[inum], NDIRECT, 0)];
      } else {
        FreedSkip(l, b0, i0, owner, blocks, inum, NDIRECT, MAXFILE + 1);
        NoMoreFrees(l, b0, i0[inum], MAXFILE + 1);
        assert WithAddr(ino[inum], NDIRECT, 0).addrs == ino[inum].addrs;
      }
      ok := true;
    }

    lemma IndirectSame(b0: seq<Block>, i0: seq<Inode>, inum: nat)
      requires Owned(l, b0, i0, owner) && inum < |i0| && i0[inum].addrs[NDIRECT] != 0
      requires Freed(l, b0, owner, blocks, inum, NDIRECT)
      ensures l.data <= i0[inum].addrs[NDIRECT] < |blocks| == |b0|
      ensures blocks[i0[inum].addrs[NDIRECT]] == b0[i0[inum].addrs[NDIRECT]]
    {
      OwnedVal(l, b0, i0, owner, inum, MAXFILE);
    }

    lemma FreedShape(b0: seq<Block>, inum: nat, k: nat, a: nat)
      requires Freed(l, b0, owner, blocks, inum, k) && l.data <= a < |b0|
      ensures |blocks| == |b0| && blocks[a] == b0[a]
    {
    }

    // ----- filewrite -----

    ghost predicate Going(b0: seq<Block>, i0: seq<Inode>, o0: nat, inum: nat, off0: nat, off: nat, src: seq<byte>,
                          i: nat)
      reads this
    {
      GoingAt(b0, i0, o0, blocks, ino, |owner|, inum, off0, off, src, i)
    }

    /** Write src at the file's offset, a chunk per operation: all of it, or just the whole chunks below the
        largest file size, in which case it fails. It panics exactly when that takes more blocks than are free. */
    method Filewrite(f: File, src: seq<byte>) returns (r: Outcome)
      requires Valid() && outstanding == 0 && f.inum < |ino| && NoHoles(blocks, ino[f.inum]) && |src| < 0x8000_0000
      modifies this, f`off
      ensures Valid() && (r != Panicked ==> outstanding == 0)
      ensures !f.writable ==> r == Fail && Unchanged() && ended == old(ended) && f.off == old(f.off)
      ensures f.writable && src == [] ==> r == Done(0)
      ensures f.writable && src != [] && old(ino[f.inum].typ) == T_DEV ==>
                r == AtDevice(old(ino[f.inum])) && blocks == old(blocks) && ino == old(ino) && f.off == old(f.off)
      ensures f.writable && old(ino[f.inum].typ) != T_DEV ==>
                var a := Accepted(old(ino[f.inum]), old(f.off), |src|);
                r == if |Clear(l, old(blocks))| < WriteCost(old(blocks), old(ino[f.inum]), old(f.off), a) then Panicked
                     else if a == |src| then Done(|src|) else Fail
      ensures f.writable && old(ino[f.inum].typ) != T_DEV && r != Panicked ==>
                var a := Accepted(old(ino[f.inum]), old(f.off), |src|);
                && WrittenSoFar(old(blocks), old(ino), blocks, ino, f.inum, old(f.off), f.off, src, a)
                && f.off == old(f.off) + a && OthersKept(old(blocks), old(ino), blocks, ino, f.inum)
                && ino[f.inum] == old(ino[f.inum]).(addrs := ino[f.inum].addrs, size := ino[f.inum].size)
                && old(ino[f.inum].size) <= MAXFILE * BSIZE && ino[f.inum].size <= MAXFILE * BSIZE
                && (a > 0 ==> old(f.off) <= |old(Content(blocks, ino[f.inum]))|
                              && Content(blocks, ino[f.inum])
                                 == Splice(old(Content(blocks, ino[f.inum])), old(f.off), src[..a]))
                && (a == 0 ==> Content(blocks, ino[f.inum]) == old(Content(blocks, ino[f.inum])))
      ensures old(ended) <= ended && forall k | |old(ended)| <= k < |ended| :: FineOp(l, ended[k])
      ensures origin == old(origin) && (old(History()) ==> if r == Panicked then Past(l, origin, ended) else History())
    {
      hide Fs.History, WrittenSoFar, Accepted, Written, Owned, Replay, GoingAt, NoHoles, WriteCost, Clear, Past,
        AllSynced, FineOp, ReplayAll;
      if !f.writable {
        return Fail;
      }
      var i := 0;
      StartWriting(f.inum, f.off, src);
      while i < |src|
        invariant i <= |src| && Valid() && outstanding == 0 && f.inum < |ino| == |old(ino)|
        invariant Going(old(blocks), old(ino), |old(owner)|, f.inum, old(f.off), f.off, src, i)
        invariant old(ended) <= ended && forall k | |old(ended)| <= k < |ended| :: FineOp(l, ended[k])
        invariant origin == old(origin) && (old(History()) ==> History())
        invariant i > 0 ==> old(ino[f.inum].typ) != T_DEV
        invariant i == 0 ==> blocks == old(blocks) && ino == old(ino) && f.off == old(f.off)
      {
        var n1 := if |src| - i > CHUNK then CHUNK else |src| - i;
        GoingFacts(old(blocks), old(ino), |old(owner)|, blocks, ino, |owner|, f.inum, old(f.off), f.off, src, i);
        r := WriteChunk(old(blocks), old(ino), old(owner), old(f.off), f, src, i, n1);
        match r {
          case ToDevice => return;
          case Panicked => return;
          case Fail =>
            if ino[f.inum].typ != T_DEV {
              GoingFacts(old(blocks), old(ino), |old(owner)|, blocks, ino, |owner|, f.inum, old(f.off), f.off, src, i);
            }
            return;
          case Done(n) =>
            if n != n1 {
              assert false;   // "short filewrite" cannot happen
            }
            i := i + n;
        }
      }
      EnoughBlocks(old(blocks), old(ino), old(owner), f.inum, old(f.off), f.off, src);
      GoingFacts(old(blocks), old(ino), |old(owner)|, blocks, ino, |owner|, f.inum, old(f.off), f.off, src, i);
      r := Done(|src|);
    }

    /** One transaction of filewrite: n1 bytes from byte i of src on. */
    method WriteChunk(ghost b0: seq<Block>, ghost i0: seq<Inode>, ghost owner0: map<word, Slot>, ghost off0: nat,
                      f: File, src: seq<byte>, i: nat, n1: nat) returns (r: Outcome)
      requires Valid() && outstanding == 0 && f.inum < |ino| == |i0| && Owned(l, b0, i0, owner0) && |src| < 0x8000_0000
      requires Going(b0, i0, |owner0|, f.inum, off0, f.off, src, i) && i < |src|
      requires n1 == if |src| - i > CHUNK then CHUNK else |src| - i
      modifies this, f`off
      ensures Valid() && |ino| == |old(ino)| && origin == old(origin) && (r != Panicked ==> outstanding == 0)
      ensures ino[f.inum].typ == old(ino[f.inum].typ) || r == Panicked
      ensures old(ino[f.inum].typ) == T_DEV ==>
                r == AtDevice(old(ino[f.inum])) && blocks == old(blocks) && ino == old(ino) && f.off == old(f.off)
      ensures old(ino[f.inum].typ) != T_DEV ==>
                var a := Accepted(i0[f.inum], off0, |src|);
                && (r == Done(n1) || (r == Fail && a == i && i < |src|) || r == Panicked)
                && (r == Panicked ==> |Clear(l, b0)| < WriteCost(b0, i0[f.inum], off0, a))
                && (r == Fail ==> |Clear(l, b0)| >= WriteCost(b0, i0[f.inum], off0, a))
                && (r == Fail ==> Going(b0, i0, |owner0|, f.inum, off0, f.off, src, i))
                && (r.Done? ==> Going(b0, i0, |owner0|, f.inum, off0, f.off, src, i + n1))
      ensures old(ended) <= ended && forall k | |old(ended)| <= k < |ended| :: FineOp(l, ended[k])
      ensures r == Panicked ==> ended == old(ended)
      ensures old(History()) ==> if r == Panicked then Past(l, origin, ended) else History()
    {
      hide Owned, Replay, Content, Splice, OthersKept, NoHoles, GoingAt, Filled, WriteCost, Clear, Rejected, Accepted,
        FineOp, History, Past;
      ghost var b1, i1, o1, off := blocks, ino, owner, f.off;
      ClearCount(l, b0, i0, owner0);
      ClearCount(l, blocks, ino, owner);
      GoingFacts(b0, i0, |owner0|, b1, i1, |o1|, f.inum, off0, off, src, i);
      r := Transact(f, src[i..i + n1]);
      match r {
        case ToDevice =>
        case Panicked =>
          ChunkFits(b0, i0, |owner0|, b1, i1, |o1|, f.inum, off0, off, src, i, n1);
        case Fail =>
          if i1[f.inum].typ != T_DEV {
            ChunkRejected(b0, i0, |owner0|, b1, i1, |o1|, f.inum, off0, off, src, i, n1);
          }
        case Done(n) =>
          ChunkFits(b0, i0, |owner0|, b1, i1, |o1|, f.inum, off0, off, src, i, n1);
          ChunkDone(b0, i0, |owner0|, b1, i1, |o1|, blocks, ino, |owner|, f.inum, off0, off, src, i, n1);
      }
    }

    /** begin_op, writei of one chunk, end_op: it panics only for want of clear blocks. */
    method Transact(f: File, chunk: seq<byte>) returns (r: Outcome)
      requires Valid() && outstanding == 0 && f.inum < |ino| && NoHoles(blocks, ino[f.inum]) && |chunk| <= CHUNK
      requires ino[f.inum].size <= MAXFILE * BSIZE
      modifies this, f`off
      ensures Valid() && |ino| == |old(ino)| && origin == old(origin) && (r != Panicked ==> outstanding == 0)
      ensures old(ino[f.inum].typ) == T_DEV ==> r == AtDevice(old(ino[f.inum]))
      ensures old(ino[f.inum].typ) != T_DEV && Rejected(old(ino[f.inum]), old(f.off), |chunk|) ==> r == Fail
      ensures r.ToDevice? || r.Fail? ==>
                blocks == old(blocks) && ino == old(ino) && owner == old(owner) && f.off == old(f.off)
      ensures old(ino[f.inum].typ) != T_DEV && !Rejected(old(ino[f.inum]), old(f.off), |chunk|) ==>
                r == if |Clear(l, old(blocks))| < WriteCost(old(blocks), old(ino[f.inum]), old(f.off), |chunk|)
                  then Panicked
                     else Done(|chunk|)
      ensures r.Done? ==> |owner| == old(|owner|) + WriteCost(old(blocks), old(ino[f.inum]), old(f.off), |chunk|)
      ensures r.Done? ==> Filled(old(blocks), old(ino[f.inum]), blocks, ino[f.inum], old(f.off) / BSIZE,
                Hi(old(f.off), |chunk|))
      ensures r.Done? ==> old(f.off) <= old(ino[f.inum].size) && f.off == old(f.off) + |chunk|
      ensures r.Done? ==> ino[f.inum].size <= MAXFILE * BSIZE
      ensures r.Done? ==> ino[f.inum] == old(ino[f.inum]).(addrs := ino[f.inum].addrs, size := ino[f.inum].size)
      ensures r.Done? ==> Content(blocks, ino[f.inum]) == Splice(old(Content(blocks, ino[f.inum])), old(f.off), chunk)
      ensures r.Done? ==> OthersKept(old(blocks), old(ino), blocks, ino, f.inum) && NoHoles(blocks, ino[f.inum])
      ensures old(ended) <= ended && forall k | |old(ended)| <= k < |ended| :: FineOp(l, ended[k])
      ensures r == Panicked ==> ended == old(ended)
      ensures old(History()) ==> if r == Panicked then Past(l, origin, ended) else History()
    {
      hide Owned, Replay, Content, Splice, OthersKept, NoHoles, Filled, WriteCost, Clear, Past, Synced, ReplayAll,
        Consistent, Rejected, FineOp, Full, Elems, WritePuts;
      BeginOp();
      if !Rejected(ino[f.inum], f.off, |chunk|) {
        ChunkInLog(f.inum, f.off, |chunk|);
      }
      r := Writei(f.inum, chunk, f.off);
      if r == Panicked {
        return;
      }
      if r.Done? {
        f.off := f.off + r.n;
      }
      EndOp();
    }

    lemma EnoughBlocks(b0: seq<Block>, i0: seq<Inode>, owner0: map<word, Slot>, inum: nat, off0: nat, off: nat,
                       src: seq<byte>)
      requires Valid() && Owned(l, b0, i0, owner0) && inum < |i0|
      requires Going(b0, i0, |owner0|, inum, off0, off, src, |src|)
      ensures |Clear(l, b0)| >= WriteCost(b0, i0[inum], off0, |src|) && Accepted(i0[inum], off0, |src|) == |src|
    {
      ClearCount(l, b0, i0, owner0);
      ClearCount(l, blocks, ino, owner);
    }

    lemma StartWriting(inum: nat, off: nat, src: seq<byte>)
      requires inum < |ino| && NoHoles(blocks, ino[inum])
      ensures Going(blocks, ino, |owner|, inum, off, off, src, 0)
    {
    }

    /** A chunk fits in an empty log, and in the budget of one operation: at most three bitmap blocks and one for the
        indirect block, four data blocks, the indirect block and the inode's block. */
    lemma ChunkInLog(inum: nat, off: word, n: nat)
      requires Valid() && inum < |ino| && NoHoles(blocks, ino[inum]) && n <= 3 * BSIZE && !Rejected(ino[inum], off, n)
      ensures |Elems(WritePuts(inum, off, n))| <= MAXOPBLOCKS && !Full({}, room, WritePuts(inum, off, n))
    {
      hide Owned, Replay, NoHoles, Turns, Full, Elems, Clear, Hi;
      OwnedNonzero(l, blocks, ino, owner);
      SizeBound(blocks, ino[inum]);
      HiGrows(off, n, n);
      ChunkPuts(l, blocks, ino[inum], off, n);
      var puts, last := Puts(l, blocks, ino[inum], off / BSIZE, Hi(off, n), true), Grows(ino[inum], inum, off, n);
      NotFull(room, puts, last);
      ElemsConcat(puts, last);
      ElemsCount(Elems(last), last);
    }
  }
}
