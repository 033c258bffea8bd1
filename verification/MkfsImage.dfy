/** Two runs on a file system as mkfs builds it, with 30 log blocks: mkfs rounds the root directory up past its last
    block when the entries fill that block, so that the directory ends in a hole. */
module MkfsImage {
  import opened Common
  import opened Blocks
  import opened FsModel
  import opened LogUse
  import opened FileSystem
  import opened FsLog
  import opened MkfsLog

  const LAYOUT := Layout(1000, 200, 32, 58, 59)
  /** log_write admits log.size - 1 blocks. */
  const ROOM := 29
  const ROOTINO := 1
  const T_DIR := 1

  /** A bitmap block with the first n bits set. */
  function Marked(n: nat): (b: Block)
    requires n <= BPB
  {
    if n == 0 then Zeros() else SetBit(Marked(n - 1), n - 1)
  }

  lemma {:induction false} MarkedBits(n: nat, c: nat)
    requires n <= BPB && c < BPB
    ensures BitOf(Marked(n), c) <==> c < n
  {
    hide BitOf, SetBit;
    if n == 0 {
      NoBits(c);
    } else {
      MarkedBits(n - 1, c);
      BitUpdates(Marked(n - 1), n - 1, c);
    }
  }

  lemma NoBits(c: nat)
    requires c < BPB
    ensures !BitOf(Zeros(), c)
  {
    NoBit(c % 8);
  }

  lemma {:induction false} NoBit(k: nat)
    ensures !TestBit(0, k)
  {
    if k > 0 { NoBit(k - 1); }
  }

  /** 32 entries of 16 bytes fill block 59, and mkfs makes the size 1024. */
  function Root(): Inode {
    Inode(T_DIR, 0, 0, 1, 1024, seq(NDIRECT + 1, i => if i == 0 then 59 else 0))
  }

  function Inodes(): (ino: seq<Inode>)
    ensures |ino| == 200
  {
    var empty: Inode := Inode(0, 0, 0, 0, 0, seq(NDIRECT + 1, _ => 0));
    seq(200, _ => empty)[ROOTINO := Root()]
  }

  function Image(): (blocks: seq<Block>)
    ensures |blocks| == 1000
  {
    var zeros: Block := Zeros();
    seq(1000, _ => zeros)[LAYOUT.bmapstart := Marked(60)]
  }

  lemma NoIndirect(i: nat, k: nat)
    requires i < 200 && k <= MAXFILE
    ensures Val(Image(), Inodes()[i], k) == if i == ROOTINO && k == 0 then 59 else 0
  {
    assert Inodes()[i].addrs[NDIRECT] == 0;
  }

  lemma MkfsOwned()
    ensures Owned(LAYOUT, Image(), Inodes(), map[59 := Slot(ROOTINO, 0)])
  {
    hide Val, BitOf, Marked, Inodes;
    forall i, k | 0 <= i < 200 && 0 <= k <= MAXFILE
      ensures Val(Image(), Inodes()[i], k) == if i == ROOTINO && k == 0 then 59 else 0
    {
      NoIndirect(i, k);
    }
    forall b: nat | b < LAYOUT.size
      ensures LAYOUT.BBlock(b) == LAYOUT.bmapstart && (BitmapBit(LAYOUT, Image(), b) <==> b < 60)
    {
      MarkedBits(60, b);
    }
    InodeCount();
  }

  lemma InodeCount()
    ensures |Inodes()| == 200
  {
  }

  method Mount() returns (fs: Fs)
    ensures fresh(fs) && fs.Valid() && fs.l == LAYOUT && fs.room == ROOM && fs.outstanding == 0
    ensures fs.blocks == Image() && fs.ino == Inodes() && |Clear(LAYOUT, fs.blocks)| == 940
  {
    hide Owned, Clear;
    MkfsOwned();
    ghost var owner := map[59 := Slot(ROOTINO, 0)];
    ClearCount(LAYOUT, Image(), Inodes(), owner);
    fs := new Fs(LAYOUT, ROOM, Image(), Inodes(), owner);
  }

  /** ls reads the directory to its end: the entries are read, and the next read reaches the hole. bmap allocates a
      block for it, and log_write panics because no operation is running, with 940 blocks clear. */
  method ListRoot() returns (entries: Outcome, next: Outcome, ghost clear: nat)
    ensures entries == Done(512) && next == Panicked && clear == 940
  {
    hide Owned, Clear, Content, Fs.Valid, Fs.ReadPanics, Filled, SameBytes;
    var fs := Mount();
    RootFacts();
    var f := new File(ROOTINO, true, false);
    var bytes;
    entries, bytes := fs.Fileread(f, 512);
    clear := |Clear(LAYOUT, fs.blocks)|;
    next, bytes := fs.Fileread(f, 16);
  }

  /** The log that mkfs makes lies before the inode blocks, and admits ROOM blocks. */
  lemma MkfsFits()
    ensures Fits(LAYOUT, MKFS) && ROOM == MKFS.size - 1
  {
  }

  lemma RootFacts()
    ensures Inodes()[ROOTINO].size == 1024 && Inodes()[ROOTINO].typ == T_DIR
    ensures WriteCost(Image(), Inodes()[ROOTINO], 0, 512) == 0 < WriteCost(Image(), Inodes()[ROOTINO], 512, 16)
  {
    NoIndirect(ROOTINO, 0);
    NoIndirect(ROOTINO, 1);
    MissingNext(Image(), Inodes()[ROOTINO], 0, 0);
    MissingNext(Image(), Inodes()[ROOTINO], 1, 1);
  }

  /** One call of writei with the bytes of 30 blocks, inside an operation: log_write panics with the log full,
      although the file system has more than enough clear blocks. */
  method WriteAtOnce() returns (r: Outcome, ghost clear: nat, ghost cost: nat)
    ensures r == Panicked && clear == 940 && cost <= 31
  {
    hide Owned, Clear, Fs.Valid, Full, Turns, WriteCost, Inodes, Image, Fs.WritePuts, Rejected, Content, Filled;
    var fs := Mount();
    RootFacts();
    fs.BeginOp();
    var src: seq<byte> := seq(30 * BSIZE, _ => 0);
    LongRange(fs.blocks, fs.ino[ROOTINO], fs.l);
    clear, cost := |Clear(LAYOUT, fs.blocks)|, WriteCost(fs.blocks, fs.ino[ROOTINO], 0, |src|);
    fs.LongWrites(ROOTINO, 0, |src|);
    r := fs.Writei(ROOTINO, src, 0);
  }

  lemma LongRange(blocks: seq<Block>, ip: Inode, l: Layout)
    ensures Hi(0, 30 * BSIZE) == 30 && WriteCost(blocks, ip, 0, 30 * BSIZE) <= 31 && !Rejected(ip, 0, 30 * BSIZE)
  {
  }
}
