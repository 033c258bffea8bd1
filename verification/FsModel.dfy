/** The on-disk structures of fs.c as values: the free bitmap, inodes with direct and indirect
    block numbers, who owns each block, and the bytes of a file. */
module FsModel {
  import opened Common
  import opened Blocks

  const NDIRECT := 12
  const NINDIRECT := 128
  const MAXFILE := 140
  const IPB := 8
  const BPB := 4096

  /** A 16-bit field with a sign. */
  type short = x: int | -0x8000 <= x < 0x8000

  datatype InodeFields = Inode(typ: short, major: short, minor: short, nlink: short, size: word, addrs: seq<word>)
  type Inode = ip: InodeFields | |ip.addrs| == NDIRECT + 1
    witness Inode(0, 0, 0, 0, 0, seq(NDIRECT + 1, _ => 0))

  /** The superblock, and the first block after the bitmap. */
  datatype Layout = Layout(size: nat, ninodes: nat, inodestart: nat, bmapstart: nat, data: nat) {
    ghost predicate Valid() {
      && 0 < ninodes && 0 < inodestart && inodestart + (ninodes - 1) / IPB < bmapstart
      && 0 < size <= WORDLIMIT && bmapstart + (size - 1) / BPB < data <= size
    }

    function IBlock(i: nat): nat { i / IPB + inodestart }

    function BBlock(b: nat): nat { b / BPB + bmapstart }
  }

  // ----- the bitmap: data[bi/8] and the mask 1 << bi%8 -----

  predicate TestBit(v: nat, k: nat) {
    if k == 0 then v % 2 == 1 else TestBit(v / 2, k - 1)
  }

  /** v | 1<<k */
  function OrBit(v: nat, k: nat): nat {
    if k == 0 then (if v % 2 == 1 then v else v + 1) else v % 2 + 2 * OrBit(v / 2, k - 1)
  }

  /** v & ~(1<<k) */
  function AndNotBit(v: nat, k: nat): nat {
    if k == 0 then (if v % 2 == 1 then v - 1 else v) else v % 2 + 2 * AndNotBit(v / 2, k - 1)
  }

  function Pow2(n: nat): (p: nat)
    ensures p > 0
  {
    if n == 0 then 1 else 2 * Pow2(n - 1)
  }

  lemma {:induction false} BitBounds(v: nat, k: nat, n: nat)
    requires v < Pow2(n) && k < n
    ensures OrBit(v, k) < Pow2(n) && AndNotBit(v, k) < Pow2(n)
  {
    var half := Pow2(n - 1);
    assert Pow2(n) == 2 * half && v == 2 * (v / 2) + v % 2 && v / 2 < half;
    if k > 0 {
      BitBounds(v / 2, k - 1, n - 1);
      assert OrBit(v / 2, k - 1) <= half - 1 && AndNotBit(v / 2, k - 1) <= half - 1;
    }
  }

  lemma {:induction false} BitOps(v: nat, k: nat, j: nat)
    ensures TestBit(OrBit(v, k), j) <==> j == k || TestBit(v, j)
    ensures TestBit(AndNotBit(v, k), j) <==> j != k && TestBit(v, j)
  {
    if k > 0 {
      var o, a := OrBit(v / 2, k - 1), AndNotBit(v / 2, k - 1);
      assert OrBit(v, k) % 2 == v % 2 && OrBit(v, k) / 2 == o;
      assert AndNotBit(v, k) % 2 == v % 2 && AndNotBit(v, k) / 2 == a;
      if j > 0 {
        BitOps(v / 2, k - 1, j - 1);
      }
    }
  }

  predicate BitOf(b: Block, bi: nat)
    requires bi < BPB
  {
    TestBit(b[bi / 8], bi % 8)
  }

  function OrByte(v: byte, k: nat): (r: byte)
    requires k < 8
  {
    BitBounds(v, k, 8);
    OrBit(v, k)
  }

  function AndNotByte(v: byte, k: nat): (r: byte)
    requires k < 8
  {
    BitBounds(v, k, 8);
    AndNotBit(v, k)
  }

  function SetBit(b: Block, bi: nat): (r: Block)
    requires bi < BPB
  {
    b[bi / 8 := OrByte(b[bi / 8], bi % 8)]
  }

  function ClearBit(b: Block, bi: nat): (r: Block)
    requires bi < BPB
  {
    b[bi / 8 := AndNotByte(b[bi / 8], bi % 8)]
  }

  /** Each bitmap update changes its own bit and no other bit of the block. */
  lemma BitUpdates(b: Block, bi: nat, bj: nat)
    requires bi < BPB && bj < BPB
    ensures BitOf(SetBit(b, bi), bj) <==> bj == bi || BitOf(b, bj)
    ensures BitOf(ClearBit(b, bi), bj) <==> bj != bi && BitOf(b, bj)
  {
    BitOps(b[bi / 8], bi % 8, bj % 8);
  }

  // ----- block numbers of an inode -----

  /** Entry j of the indirect block, or 0 where there is none. */
  function Entry(blocks: seq<Block>, ip: Inode, j: nat): word
    requires j < NINDIRECT
  {
    var a := ip.addrs[NDIRECT];
    if a == 0 || a >= |blocks| then 0 else WordAt(blocks[a], j)
  }

  /** The k-th place of an inode that can hold a block number: its k-th data block for
      k < MAXFILE, and the indirect block itself last. */
  function Val(blocks: seq<Block>, ip: Inode, k: nat): word
    requires k <= MAXFILE
  {
    if k == MAXFILE then ip.addrs[NDIRECT]
    else if k < NDIRECT then ip.addrs[k]
    else Entry(blocks, ip, k - NDIRECT)
  }

  datatype Slot = Slot(inum: nat, k: nat)

  predicate BitmapBit(l: Layout, blocks: seq<Block>, b: nat)
    requires l.BBlock(b) < |blocks|
  {
    BitOf(blocks[l.BBlock(b)], b % BPB)
  }

  /** Every block number in any inode is owned by exactly the slot holding it, and the bitmap
      marks exactly the metadata and the owned blocks. */
  ghost predicate Owned(l: Layout, blocks: seq<Block>, ino: seq<Inode>, owner: map<word, Slot>) {
    && l.Valid() && |blocks| == l.size && |ino| == l.ninodes
    && (forall i, k {:trigger Val(blocks, ino[i], k)} | 0 <= i < |ino| && 0 <= k <= MAXFILE
       && Val(blocks, ino[i], k) != 0 ::
          Val(blocks, ino[i], k) in owner && owner[Val(blocks, ino[i], k)] == Slot(i, k))
    && (forall b | b in owner :: l.data <= b < l.size && owner[b].inum < |ino| && owner[b].k <= MAXFILE
          && Val(blocks, ino[owner[b].inum], owner[b].k) == b)
    && (forall b: nat {:trigger BitmapBit(l, blocks, b)} | b < l.size ::
       l.BBlock(b) < l.data && (BitmapBit(l, blocks, b) <==> b < l.data || b in owner))
  }

  /** The byte of a file at a position; a block not there reads as zeros. */
  function ByteAt(blocks: seq<Block>, ip: Inode, pos: nat): byte
    requires pos < MAXFILE * BSIZE
  {
    var a := Val(blocks, ip, pos / BSIZE);
    if a == 0 || a >= |blocks| then 0 else blocks[a][pos % BSIZE]
  }

  // ----- the disk format of the free map and of a file -----

  lemma {:induction false} BitValue(v: nat, k: nat)
    ensures TestBit(v, k) <==> v / Pow2(k) % 2 == 1
  {
    if k > 0 {
      BitValue(v / 2, k - 1);
      DivTwice(v, Pow2(k - 1));
    }
  }

  lemma DivTwice(v: nat, d: nat)
    requires d > 0
    ensures v / (2 * d) == v / 2 / d
  {
    var q := v / 2 / d;
    var r := v / 2 - q * d;
    assert v / 2 == q * d + r && 0 <= r < d;
    assert v == 2 * (q * d) + (2 * r + v % 2);
    assert 2 * (q * d) == q * (2 * d);
    QuotientIs(v, 2 * d, q, 2 * r + v % 2);
  }

  lemma QuotientIs(v: nat, d: nat, q: nat, r: nat)
    requires 0 < d && r < d && v == q * d + r
    ensures v / d == q
  {
    var e := v / d;
    assert v == e * d + v % d;
    assert (e + 1) * d == e * d + d && (q + 1) * d == q * d + d;
    if e < q { TimesMore(e + 1, q, d); }
    if q < e { TimesMore(q + 1, e, d); }
  }

  lemma TimesMore(a: nat, b: nat, d: nat)
    requires a <= b
    ensures a * d <= b * d
  {
  }

  lemma EighthOf(c: nat)
    ensures c % 4096 % 8 == c % 8
  {
  }

  /** Where the free map has the bit of block c: byte and bit number of the bitmap block. */
  lemma BitOnDisk(l: Layout, blocks: seq<Block>, c: nat)
    requires l.bmapstart + c / 4096 < |blocks|
    ensures BitmapBit(l, blocks, c) <==>
              blocks[l.bmapstart + c / 4096][c % 4096 / 8] / Pow2(c % 8) % 2 == 1
  {
    hide TestBit, Pow2;
    EighthOf(c);
    BitValue(blocks[l.bmapstart + c / 4096][c % 4096 / 8], c % 8);
  }

  /** Where byte `pos` of a file lies: in the block that the inode names, or the indirect block at its place; a block
      number 0 stands for zeros. */
  lemma ByteOnDisk(blocks: seq<Block>, ip: Inode, pos: nat)
    requires pos < MAXFILE * BSIZE
    requires forall k | 0 <= k <= MAXFILE :: Val(blocks, ip, k) < |blocks|
    ensures var k, ind := pos / 512, ip.addrs[12];
      && ind < |blocks|
      && (k < 12 && ip.addrs[k] != 0 ==>
            ip.addrs[k] < |blocks| && ByteAt(blocks, ip, pos) == blocks[ip.addrs[k]][pos % 512])
      && (k >= 12 && ind != 0 && WordAt(blocks[ind], k - 12) != 0 ==>
            WordAt(blocks[ind], k - 12) < |blocks|
            && ByteAt(blocks, ip, pos) == blocks[WordAt(blocks[ind], k - 12)][pos % 512])
      && ((k < 12 && ip.addrs[k] == 0) || (k >= 12 && (ind == 0 || WordAt(blocks[ind], k - 12) == 0)) ==>
            ByteAt(blocks, ip, pos) == 0)
  {
    assert Val(blocks, ip, MAXFILE) == ip.addrs[NDIRECT];
    assert Val(blocks, ip, pos / BSIZE) < |blocks|;
  }

  /** Every block below the size of the file is there. */
  ghost predicate NoHoles(blocks: seq<Block>, ip: Inode) {
    && ip.size <= MAXFILE * BSIZE
    && forall k | 0 <= k < MAXFILE && k * BSIZE < ip.size :: Val(blocks, ip, k) != 0
  }

  /** The file as a sequence of bytes. */
  function Content(blocks: seq<Block>, ip: Inode): (c: seq<byte>)
    requires ip.size <= MAXFILE * BSIZE
  {
    seq(ip.size, pos requires 0 <= pos < ip.size => ByteAt(blocks, ip, pos))
  }

  /** Bytes of a file inside one block lie together in that block. */
  lemma SliceOfContent(blocks: seq<Block>, ip: Inode, pos: nat, len: nat)
    requires ip.size <= MAXFILE * BSIZE && pos + len <= ip.size && pos % BSIZE + len <= BSIZE && 0 < len
    requires 0 != Val(blocks, ip, pos / BSIZE) < |blocks|
    ensures Content(blocks, ip)[pos..pos + len] == blocks[Val(blocks, ip, pos / BSIZE)][pos % BSIZE..pos % BSIZE + len]
  {
    forall p | pos <= p < pos + len
      ensures Content(blocks, ip)[p] == blocks[Val(blocks, ip, pos / BSIZE)][pos % BSIZE + (p - pos)]
    {
      assert p / BSIZE == pos / BSIZE && p % BSIZE == pos % BSIZE + (p - pos);
    }
  }

  /** Bytes d written over c from offset off on. */
  function Splice(c: seq<byte>, off: nat, d: seq<byte>): seq<byte>
    requires off <= |c|
  {
    c[..off] + d + (if off + |d| < |c| then c[off + |d|..] else [])
  }

  // ----- what allocation and freeing keep -----

  function AfterAlloc(l: Layout, blocks: seq<Block>, b: nat): (r: seq<Block>)
    requires b < |blocks| && l.BBlock(b) < |blocks|
  {
    blocks[l.BBlock(b) := SetBit(blocks[l.BBlock(b)], b % BPB)][b := Zeros()]
  }

  /** The block numbers in an inode depend only on the inode and its indirect block. */
  lemma ValSame(blocks: seq<Block>, blocks2: seq<Block>, ip: Inode, k: nat)
    requires k <= MAXFILE && |blocks| == |blocks2|
    requires ip.addrs[NDIRECT] != 0 && ip.addrs[NDIRECT] < |blocks| ==>
               blocks2[ip.addrs[NDIRECT]] == blocks[ip.addrs[NDIRECT]]
    ensures Val(blocks2, ip, k) == Val(blocks, ip, k)
  {
  }

  lemma ByteSame(blocks: seq<Block>, blocks2: seq<Block>, ip: Inode, pos: nat)
    requires pos < MAXFILE * BSIZE && |blocks| == |blocks2|
    requires Val(blocks2, ip, pos / BSIZE) == Val(blocks, ip, pos / BSIZE)
    requires Val(blocks, ip, pos / BSIZE) != 0 && Val(blocks, ip, pos / BSIZE) < |blocks| ==>
               blocks2[Val(blocks, ip, pos / BSIZE)] == blocks[Val(blocks, ip, pos / BSIZE)]
    ensures ByteAt(blocks2, ip, pos) == ByteAt(blocks, ip, pos)
  {
  }

  /** Where a block number in an inode comes from, by ownership. */
  lemma OwnedVal(l: Layout, blocks: seq<Block>, ino: seq<Inode>, owner: map<word, Slot>, i: nat, k: nat)
    requires Owned(l, blocks, ino, owner) && i < |ino| && k <= MAXFILE && Val(blocks, ino[i], k) != 0
    ensures Val(blocks, ino[i], k) in owner && owner[Val(blocks, ino[i], k)] == Slot(i, k)
    ensures l.data <= Val(blocks, ino[i], k) < l.size
  {
  }

  /** Block numbers and bytes of every file are the same in both images. */
  ghost predicate SameFiles(blocks: seq<Block>, blocks2: seq<Block>, ino: seq<Inode>) {
    && |blocks2| == |blocks|
    && (forall i, k | 0 <= i < |ino| && 0 <= k <= MAXFILE :: Val(blocks2, ino[i], k) == Val(blocks, ino[i], k))
    && (forall i, pos | 0 <= i < |ino| && 0 <= pos < MAXFILE * BSIZE ::
          ByteAt(blocks2, ino[i], pos) == ByteAt(blocks, ino[i], pos))
  }

  /** The bitmaps agree except that the second marks b. */
  ghost predicate Marks(l: Layout, blocks: seq<Block>, blocks2: seq<Block>, b: nat) {
    forall c: nat {:trigger BitmapBit(l, blocks2, c)} | c < l.size ::
      && l.BBlock(c) < |blocks| && l.BBlock(c) < |blocks2|
      && (BitmapBit(l, blocks2, c) <==> c == b || BitmapBit(l, blocks, c))
  }

  /** Images that differ only outside the files' blocks. */
  lemma SameOutside(l: Layout, blocks: seq<Block>, blocks2: seq<Block>, ino: seq<Inode>, owner: map<word, Slot>)
    requires Owned(l, blocks, ino, owner) && |blocks2| == |blocks|
    requires forall a | a in owner :: a < |blocks| && blocks2[a] == blocks[a]
    ensures SameFiles(blocks, blocks2, ino)
  {
    forall i, k | 0 <= i < |ino| && 0 <= k <= MAXFILE ensures Val(blocks2, ino[i], k) == Val(blocks, ino[i], k) {
      assert Val(blocks, ino[i], MAXFILE) == ino[i].addrs[NDIRECT];
      ValSame(blocks, blocks2, ino[i], k);
    }
    forall i, pos | 0 <= i < |ino| && 0 <= pos < MAXFILE * BSIZE
      ensures ByteAt(blocks2, ino[i], pos) == ByteAt(blocks, ino[i], pos)
    {
      assert 0 <= pos / BSIZE < MAXFILE;
      ByteSame(blocks, blocks2, ino[i], pos);
    }
  }

  /** Allocating a free block changes no block number and no byte of any file. */
  lemma AllocSame(l: Layout, blocks: seq<Block>, ino: seq<Inode>, owner: map<word, Slot>, b: word)
    requires Owned(l, blocks, ino, owner) && b < l.size && l.BBlock(b) < |blocks| && !BitmapBit(l, blocks, b)
    ensures l.data <= b && b !in owner && l.BBlock(b) < l.data
    ensures SameFiles(blocks, AfterAlloc(l, blocks, b), ino) && Marks(l, blocks, AfterAlloc(l, blocks, b), b)
  {
    var r := AfterAlloc(l, blocks, b);
    SameOutside(l, blocks, r, ino, owner);
    forall c: nat | c < l.size
      ensures l.BBlock(c) < |blocks| && (BitmapBit(l, r, c) <==> c == b || BitmapBit(l, blocks, c))
    {
      assert BitmapBit(l, blocks, c) <==> c < l.data || c in owner;
      assert l.BBlock(c) < l.data <= b;
      if l.BBlock(c) == l.BBlock(b) {
        BitUpdates(blocks[l.BBlock(b)], b % BPB, c % BPB);
      }
    }
  }

  /** Every block number of every inode, with b in slot s. */
  ghost predicate FillsSlot(blocks: seq<Block>, ino: seq<Inode>, blocks2: seq<Block>, ino2: seq<Inode>, b: word,
                            s: Slot)
  {
    && |ino2| == |ino| && |blocks2| == |blocks|
    && forall i, k | 0 <= i < |ino| && 0 <= k <= MAXFILE ::
         Val(blocks2, ino2[i], k) == (if Slot(i, k) == s then b else Val(blocks, ino[i], k))
  }

  /** A newly marked block put into one empty slot: ownership extends by that slot. */
  lemma AddOwned(l: Layout, blocks: seq<Block>, ino: seq<Inode>, owner: map<word, Slot>,
                 blocks2: seq<Block>, ino2: seq<Inode>, b: word, s: Slot)
    requires Owned(l, blocks, ino, owner) && FillsSlot(blocks, ino, blocks2, ino2, b, s) && Marks(l, blocks, blocks2, b)
    requires s.inum < |ino| && s.k <= MAXFILE && Val(blocks, ino[s.inum], s.k) == 0
    requires l.data <= b < l.size && b !in owner
    ensures Owned(l, blocks2, ino2, owner[b := s])
  {
  }

  ghost predicate SameBytes(blocks: seq<Block>, ino: seq<Inode>, blocks2: seq<Block>, ino2: seq<Inode>) {
    && |ino2| == |ino|
    && forall i, pos | 0 <= i < |ino| && 0 <= pos < MAXFILE * BSIZE ::
         ByteAt(blocks2, ino2[i], pos) == ByteAt(blocks, ino[i], pos)
  }

  function WithAddr(ip: Inode, k: nat, b: word): (r: Inode)
    requires k <= NDIRECT
  {
    ip.(addrs := ip.addrs[k := b])
  }

  /** Every data block of every file has the same contents in both images. */
  ghost predicate DataKept(blocks: seq<Block>, ino: seq<Inode>, blocks2: seq<Block>) {
    && |blocks2| == |blocks|
    && forall i, k | 0 <= i < |ino| && 0 <= k < MAXFILE && Val(blocks, ino[i], k) != 0 ::
         Val(blocks, ino[i], k) < |blocks| && blocks2[Val(blocks, ino[i], k)] == blocks[Val(blocks, ino[i], k)]
  }

  lemma AllocKeepsData(l: Layout, blocks: seq<Block>, ino: seq<Inode>, owner: map<word, Slot>, b: word)
    requires Owned(l, blocks, ino, owner) && b < l.size && l.BBlock(b) < |blocks| && !BitmapBit(l, blocks, b)
    ensures DataKept(blocks, ino, AfterAlloc(l, blocks, b))
  {
    AllocSame(l, blocks, ino, owner, b);
  }

  /** Neither an allocation nor a change to an indirect block touches file data. */
  lemma EntryKeepsData(l: Layout, blocks: seq<Block>, ino: seq<Inode>, owner: map<word, Slot>, b: word, a: word,
                       d: Block)
    requires Owned(l, blocks, ino, owner) && b < l.size && l.BBlock(b) < |blocks| && !BitmapBit(l, blocks, b)
    requires a in owner && owner[a].k == MAXFILE && a < |blocks|
    ensures DataKept(blocks, ino, AfterAlloc(l, blocks, b)[a := d])
  {
    AllocKeepsData(l, blocks, ino, owner, b);
    forall i, k | 0 <= i < |ino| && 0 <= k < MAXFILE && Val(blocks, ino[i], k) != 0
      ensures Val(blocks, ino[i], k) != a
    {
      OwnedVal(l, blocks, ino, owner, i, k);
    }
  }

  /** A change in the data area leaves the bitmap alone. */
  lemma MarksDespite(l: Layout, blocks: seq<Block>, ino: seq<Inode>, owner: map<word, Slot>, r: seq<Block>, b: nat,
                     a: nat, d: Block)
    requires Owned(l, blocks, ino, owner) && Marks(l, blocks, r, b) && |r| == |blocks| && l.data <= a < |r|
    ensures Marks(l, blocks, r[a := d], b)
  {
    forall c: nat | c < l.size
      ensures l.BBlock(c) < |blocks| && (BitmapBit(l, r[a := d], c) <==> c == b || BitmapBit(l, blocks, c))
    {
      assert BitmapBit(l, r, c) <==> c == b || BitmapBit(l, blocks, c);
      BitmapIsMetadata(l, blocks, ino, owner, c);
    }
  }

  /** A fresh block becomes a direct block: the zeros it holds are what was read there before. */
  lemma FillDirect(l: Layout, blocks: seq<Block>, ino: seq<Inode>, owner: map<word, Slot>, inum: nat, k: nat, b: word)
    requires Owned(l, blocks, ino, owner) && inum < |ino| && k < NDIRECT && ino[inum].addrs[k] == 0
    requires b < l.size && l.BBlock(b) < |blocks| && !BitmapBit(l, blocks, b)
    ensures var ino2 := ino[inum := WithAddr(ino[inum], k, b)];
      && Owned(l, AfterAlloc(l, blocks, b), ino2, owner[b := Slot(inum, k)])
      && FillsSlot(blocks, ino, AfterAlloc(l, blocks, b), ino2, b, Slot(inum, k))
      && SameBytes(blocks, ino, AfterAlloc(l, blocks, b), ino2)
  {
    hide Owned;
    AllocSame(l, blocks, ino, owner, b);
    OwnedShape(l, blocks, ino, owner);
    var r, ip2 := AfterAlloc(l, blocks, b), WithAddr(ino[inum], k, b);
    var ino2 := ino[inum := ip2];
    forall i, j | 0 <= i < |ino| && 0 <= j <= MAXFILE
      ensures Val(r, ino2[i], j) == if Slot(i, j) == Slot(inum, k) then b else Val(blocks, ino[i], j)
    {
      assert Val(r, ino[i], j) == Val(blocks, ino[i], j);
    }
    AddOwned(l, blocks, ino, owner, r, ino2, b, Slot(inum, k));
    AllocKeepsData(l, blocks, ino, owner, b);
    FilledBytes(blocks, ino, r, ino2, b, Slot(inum, k));
  }

  /** A fresh block becomes the indirect block: its zeros mean "no block" in every entry. */
  lemma FillIndirect(l: Layout, blocks: seq<Block>, ino: seq<Inode>, owner: map<word, Slot>, inum: nat, b: word)
    requires Owned(l, blocks, ino, owner) && inum < |ino| && ino[inum].addrs[NDIRECT] == 0
    requires b < l.size && l.BBlock(b) < |blocks| && !BitmapBit(l, blocks, b)
    ensures var ino2 := ino[inum := WithAddr(ino[inum], NDIRECT, b)];
      && Owned(l, AfterAlloc(l, blocks, b), ino2, owner[b := Slot(inum, MAXFILE)])
      && FillsSlot(blocks, ino, AfterAlloc(l, blocks, b), ino2, b, Slot(inum, MAXFILE))
      && SameBytes(blocks, ino, AfterAlloc(l, blocks, b), ino2)
  {
    hide Owned;
    AllocSame(l, blocks, ino, owner, b);
    OwnedShape(l, blocks, ino, owner);
    var r, ip2 := AfterAlloc(l, blocks, b), WithAddr(ino[inum], NDIRECT, b);
    var ino2 := ino[inum := ip2];
    forall i, j | 0 <= i < |ino| && 0 <= j <= MAXFILE
      ensures Val(r, ino2[i], j) == if Slot(i, j) == Slot(inum, MAXFILE) then b else Val(blocks, ino[i], j)
    {
      assert Val(r, ino[i], j) == Val(blocks, ino[i], j);
      if i == inum && NDIRECT <= j < MAXFILE {
        ZeroWords(j - NDIRECT);
      }
    }
    AddOwned(l, blocks, ino, owner, r, ino2, b, Slot(inum, MAXFILE));
    AllocKeepsData(l, blocks, ino, owner, b);
    FilledBytes(blocks, ino, r, ino2, b, Slot(inum, MAXFILE));
  }

  /** A fresh block is entered in the indirect block. */
  lemma FillEntry(l: Layout, blocks: seq<Block>, ino: seq<Inode>, owner: map<word, Slot>, inum: nat, j: nat, b: word)
    requires Owned(l, blocks, ino, owner) && inum < |ino| && j < NINDIRECT
    requires ino[inum].addrs[NDIRECT] != 0 && Val(blocks, ino[inum], NDIRECT + j) == 0
    requires b < l.size && l.BBlock(b) < |blocks| && !BitmapBit(l, blocks, b)
    ensures ino[inum].addrs[NDIRECT] < |blocks|
    ensures var a, r := ino[inum].addrs[NDIRECT], AfterAlloc(l, blocks, b);
      var r2 := r[a := PutWord(r[a], j, b)];
      && r[a] == blocks[a] && a != b
      && Owned(l, r2, ino, owner[b := Slot(inum, NDIRECT + j)])
      && FillsSlot(blocks, ino, r2, ino, b, Slot(inum, NDIRECT + j))
      && SameBytes(blocks, ino, r2, ino)
  {
    hide Owned, AfterAlloc, Marks, SameFiles, FillsSlot, SameBytes, DataKept;
    AllocSame(l, blocks, ino, owner, b);
    OwnedShape(l, blocks, ino, owner);
    assert Val(blocks, ino[inum], MAXFILE) == ino[inum].addrs[NDIRECT];
    OwnedVal(l, blocks, ino, owner, inum, MAXFILE);
    var a, r, s := ino[inum].addrs[NDIRECT], AfterAlloc(l, blocks, b), Slot(inum, NDIRECT + j);
    AllocAt(l, blocks, b, a);
    var r2 := r[a := PutWord(r[a], j, b)];
    EntryFills(l, blocks, ino, owner, inum, j, b, r);
    MarksDespite(l, blocks, ino, owner, r, b, a, r2[a]);
    AddOwned(l, blocks, ino, owner, r2, ino, b, s);
    EntryKeepsData(l, blocks, ino, owner, b, a, r2[a]);
    FilledBytes(blocks, ino, r2, ino, b, s);
  }

  lemma AllocAt(l: Layout, blocks: seq<Block>, b: word, a: word)
    requires b < |blocks| && a < |blocks| && l.BBlock(b) < |blocks| && a != l.BBlock(b) && a != b
    ensures |AfterAlloc(l, blocks, b)| == |blocks| && AfterAlloc(l, blocks, b)[b] == Zeros()
    ensures AfterAlloc(l, blocks, b)[a] == blocks[a]
  {
  }

  lemma EntryFills(l: Layout, blocks: seq<Block>, ino: seq<Inode>, owner: map<word, Slot>, inum: nat, j: nat, b: word,
                   r: seq<Block>)
    requires Owned(l, blocks, ino, owner) && SameFiles(blocks, r, ino) && inum < |ino| && j < NINDIRECT
    requires ino[inum].addrs[NDIRECT] != 0 && ino[inum].addrs[NDIRECT] < |r|
    ensures var a := ino[inum].addrs[NDIRECT];
      FillsSlot(blocks, ino, r[a := PutWord(r[a], j, b)], ino, b, Slot(inum, NDIRECT + j))
  {
    hide Owned;
    var a, s := ino[inum].addrs[NDIRECT], Slot(inum, NDIRECT + j);
    var r2 := r[a := PutWord(r[a], j, b)];
    forall i, k | 0 <= i < |ino| && 0 <= k <= MAXFILE
      ensures Val(r2, ino[i], k) == if Slot(i, k) == s then b else Val(blocks, ino[i], k)
    {
      assert Val(r, ino[i], k) == Val(blocks, ino[i], k);
      if i == inum && NDIRECT <= k < MAXFILE {
        WordRoundTrip(r[a], j, b, k - NDIRECT);
      } else if i != inum {
        OtherIndirect(l, blocks, ino, owner, inum, i);
        ValSame(r, r2, ino[i], k);
      }
    }
  }

  lemma OwnedShape(l: Layout, blocks: seq<Block>, ino: seq<Inode>, owner: map<word, Slot>)
    requires Owned(l, blocks, ino, owner)
    ensures l.Valid() && |blocks| == l.size && |ino| == l.ninodes
  {
  }

  lemma BitmapIsMetadata(l: Layout, blocks: seq<Block>, ino: seq<Inode>, owner: map<word, Slot>, c: nat)
    requires Owned(l, blocks, ino, owner) && c < l.size
    ensures l.BBlock(c) < l.data
  {
    assert BitmapBit(l, blocks, c) <==> c < l.data || c in owner;
  }

  /** Two inodes never share an indirect block. */
  lemma OtherIndirect(l: Layout, blocks: seq<Block>, ino: seq<Inode>, owner: map<word, Slot>, i: nat, j: nat)
    requires Owned(l, blocks, ino, owner) && i < |ino| && j < |ino| && i != j && ino[i].addrs[NDIRECT] != 0
    ensures ino[i].addrs[NDIRECT] != ino[j].addrs[NDIRECT]
  {
    assert Val(blocks, ino[i], MAXFILE) == ino[i].addrs[NDIRECT];
    assert Val(blocks, ino[j], MAXFILE) == ino[j].addrs[NDIRECT];
  }

  /** Filling an empty slot with a zeroed block leaves every byte of every file as it was,
      provided no file's data moved. */
  lemma FilledBytes(blocks: seq<Block>, ino: seq<Inode>, blocks2: seq<Block>, ino2: seq<Inode>, b: word, s: Slot)
    requires FillsSlot(blocks, ino, blocks2, ino2, b, s) && s.inum < |ino| && s.k <= MAXFILE
    requires Val(blocks, ino[s.inum], s.k) == 0
    requires b < |blocks2| && blocks2[b] == Zeros() && DataKept(blocks, ino, blocks2)
    ensures SameBytes(blocks, ino, blocks2, ino2)
  {
    forall i, pos | 0 <= i < |ino| && 0 <= pos < MAXFILE * BSIZE
      ensures ByteAt(blocks2, ino2[i], pos) == ByteAt(blocks, ino[i], pos)
    {
      assert 0 <= pos / BSIZE < MAXFILE;
      assert Val(blocks2, ino2[i], pos / BSIZE) == if Slot(i, pos / BSIZE) == s then b
          else Val(blocks, ino[i], pos / BSIZE);
    }
  }

  // ----- changing file data -----

  ghost predicate SameVals(blocks: seq<Block>, ino: seq<Inode>, blocks2: seq<Block>, ino2: seq<Inode>) {
    && |ino2| == |ino| && |blocks2| == |blocks|
    && forall i, k | 0 <= i < |ino| && 0 <= k <= MAXFILE :: Val(blocks2, ino2[i], k) == Val(blocks, ino[i], k)
  }

  ghost predicate SameBits(l: Layout, blocks: seq<Block>, blocks2: seq<Block>) {
    forall c: nat {:trigger BitmapBit(l, blocks2, c)} | c < l.size ::
      && l.BBlock(c) < |blocks| && l.BBlock(c) < |blocks2|
      && (BitmapBit(l, blocks2, c) <==> BitmapBit(l, blocks, c))
  }

  /** Ownership depends only on the block numbers in the inodes and on the bitmap. */
  lemma KeepOwned(l: Layout, blocks: seq<Block>, ino: seq<Inode>, owner: map<word, Slot>, blocks2: seq<Block>,
                  ino2: seq<Inode>)
    requires Owned(l, blocks, ino, owner) && SameVals(blocks, ino, blocks2, ino2) && SameBits(l, blocks, blocks2)
    ensures Owned(l, blocks2, ino2, owner)
  {
  }

  /** File bytes after the k-th block of inode inum got contents d. */
  ghost predicate DataWritten(blocks: seq<Block>, blocks2: seq<Block>, ino: seq<Inode>, inum: nat, k: nat, d: Block) {
    forall i, pos | 0 <= i < |ino| && 0 <= pos < MAXFILE * BSIZE ::
      ByteAt(blocks2, ino[i], pos) == ByteAfter(blocks, ino, inum, k, d, i, pos)
  }

  function ByteAfter(blocks: seq<Block>, ino: seq<Inode>, inum: nat, k: nat, d: Block, i: nat, pos: nat): byte
    requires i < |ino| && pos < MAXFILE * BSIZE
  {
    if i == inum && pos / BSIZE == k then d[pos % BSIZE] else ByteAt(blocks, ino[i], pos)
  }

  /** New contents for the k-th block of one file: only bytes of that file in that block change. */
  lemma WriteData(l: Layout, blocks: seq<Block>, ino: seq<Inode>, owner: map<word, Slot>, inum: nat, k: nat, d: Block)
    requires Owned(l, blocks, ino, owner) && inum < |ino| && k < MAXFILE && Val(blocks, ino[inum], k) != 0
    ensures Val(blocks, ino[inum], k) < |blocks|
    ensures Owned(l, blocks[Val(blocks, ino[inum], k) := d], ino, owner)
    ensures SameVals(blocks, ino, blocks[Val(blocks, ino[inum], k) := d], ino)
    ensures DataWritten(blocks, blocks[Val(blocks, ino[inum], k) := d], ino, inum, k, d)
  {
    hide Owned;
    var a := Val(blocks, ino[inum], k);
    OwnedVal(l, blocks, ino, owner, inum, k);
    OwnedShape(l, blocks, ino, owner);
    var blocks2 := blocks[a := d];
    DataVals(l, blocks, ino, owner, a, d);
    forall i, pos | 0 <= i < |ino| && 0 <= pos < MAXFILE * BSIZE
      ensures ByteAt(blocks2, ino[i], pos) == ByteAfter(blocks, ino, inum, k, d, i, pos)
    {
      var j := pos / BSIZE;
      assert 0 <= j < MAXFILE;
      assert Val(blocks2, ino[i], j) == Val(blocks, ino[i], j);
      if Val(blocks, ino[i], j) != 0 {
        OwnedVal(l, blocks, ino, owner, i, j);
      }
    }
    SameBitsOutside(l, blocks, ino, owner, a, d);
    KeepOwned(l, blocks, ino, owner, blocks2, ino);
  }

  /** Changing a data block changes no block number. */
  lemma DataVals(l: Layout, blocks: seq<Block>, ino: seq<Inode>, owner: map<word, Slot>, a: word, d: Block)
    requires Owned(l, blocks, ino, owner) && a in owner && owner[a].k < MAXFILE && a < |blocks|
    ensures SameVals(blocks, ino, blocks[a := d], ino)
  {
    forall i, k | 0 <= i < |ino| && 0 <= k <= MAXFILE ensures Val(blocks[a := d], ino[i], k) == Val(blocks, ino[i], k) {
      assert Val(blocks, ino[i], MAXFILE) == ino[i].addrs[NDIRECT];
      ValSame(blocks, blocks[a := d], ino[i], k);
    }
  }

  lemma SameBitsOutside(l: Layout, blocks: seq<Block>, ino: seq<Inode>, owner: map<word, Slot>, a: word, d: Block)
    requires Owned(l, blocks, ino, owner) && l.data <= a < |blocks|
    ensures SameBits(l, blocks, blocks[a := d])
  {
    hide Owned;
    OwnedShape(l, blocks, ino, owner);
    forall c: nat | c < l.size
      ensures l.BBlock(c) < |blocks| && (BitmapBit(l, blocks[a := d], c) <==> BitmapBit(l, blocks, c))
    {
      BitmapIsMetadata(l, blocks, ino, owner, c);
    }
  }

  // ----- what mapping a block may change -----

  /** Only empty places lo..hi-1 and MAXFILE of inode inum may have been filled. */
  ghost predicate Grew(blocks: seq<Block>, ino: seq<Inode>, blocks2: seq<Block>, ino2: seq<Inode>, inum: nat, lo: nat,
                       hi: nat)
  {
    && |blocks2| == |blocks| && |ino2| == |ino| && inum < |ino|
    && (forall i | 0 <= i < |ino| && i != inum :: ino2[i] == ino[i])
    && ino2[inum] == ino[inum].(addrs := ino2[inum].addrs)
    && (forall i, k | 0 <= i < |ino| && 0 <= k <= MAXFILE ::
          Val(blocks2, ino2[i], k) == Val(blocks, ino[i], k)
          || (Val(blocks, ino[i], k) == 0 && i == inum && (lo <= k < hi || k == MAXFILE)))
  }

  lemma GrewTwice(blocks: seq<Block>, ino: seq<Inode>, b1: seq<Block>, i1: seq<Inode>, b2: seq<Block>, i2: seq<Inode>,
                  inum: nat, lo: nat, mid: nat, hi: nat)
    requires Grew(blocks, ino, b1, i1, inum, lo, hi) && Grew(b1, i1, b2, i2, inum, mid, hi) && lo <= mid
    ensures Grew(blocks, ino, b2, i2, inum, lo, hi)
  {
    forall i, k | 0 <= i < |ino| && 0 <= k <= MAXFILE
      ensures Val(b2, i2[i], k) == Val(blocks, ino[i], k)
           || (Val(blocks, ino[i], k) == 0 && i == inum && (lo <= k < hi || k == MAXFILE))
    {
      assert Val(b1, i1[i], k) == Val(blocks, ino[i], k)
          || (Val(blocks, ino[i], k) == 0 && i == inum && (lo <= k < hi || k == MAXFILE));
    }
  }

  /** Block bn was mapped: no byte of any file changed. */
  ghost predicate Mapped(blocks: seq<Block>, ino: seq<Inode>, blocks2: seq<Block>, ino2: seq<Inode>, inum: nat,
                         bn: nat)
  {
    Grew(blocks, ino, blocks2, ino2, inum, bn, bn + 1) && SameBytes(blocks, ino, blocks2, ino2)
  }

  lemma MappedByFilling(blocks: seq<Block>, ino: seq<Inode>, blocks2: seq<Block>, ino2: seq<Inode>, inum: nat, bn: nat,
                        b: word, s: Slot)
    requires inum < |ino| && FillsSlot(blocks, ino, blocks2, ino2, b, s) && SameBytes(blocks, ino, blocks2, ino2)
    requires s.inum == inum && s.k <= MAXFILE && (s.k == bn || s.k == MAXFILE) && Val(blocks, ino[inum], s.k) == 0
    requires ino2 == ino || exists k :: 0 <= k <= NDIRECT && ino2 == ino[inum := WithAddr(ino[inum], k, b)]
    ensures Mapped(blocks, ino, blocks2, ino2, inum, bn) && Val(blocks2, ino2[inum], s.k) == b
  {
  }

  lemma MappedTwice(blocks: seq<Block>, ino: seq<Inode>, b1: seq<Block>, i1: seq<Inode>, b2: seq<Block>, i2: seq<Inode>,
                    inum: nat, bn: nat)
    requires Mapped(blocks, ino, b1, i1, inum, bn) && Mapped(b1, i1, b2, i2, inum, bn)
    ensures Mapped(blocks, ino, b2, i2, inum, bn)
  {
    forall i, pos | 0 <= i < |ino| && 0 <= pos < MAXFILE * BSIZE
      ensures ByteAt(b2, i2[i], pos) == ByteAt(blocks, ino[i], pos)
    {
      assert ByteAt(b1, i1[i], pos) == ByteAt(blocks, ino[i], pos);
    }
    GrewTwice(blocks, ino, b1, i1, b2, i2, inum, bn, bn, bn + 1);
  }

  lemma MappedSelf(blocks: seq<Block>, ino: seq<Inode>, inum: nat, bn: nat)
    requires inum < |ino|
    ensures Mapped(blocks, ino, blocks, ino, inum, bn)
  {
  }

  /** A new indirect block has no entries. */
  lemma NewIndirectEmpty(blocks: seq<Block>, ino: seq<Inode>, b2: seq<Block>, ino2: seq<Inode>, b: word, inum: nat,
                         j: nat)
    requires FillsSlot(blocks, ino, b2, ino2, b, Slot(inum, MAXFILE)) && inum < |ino| && j < NINDIRECT
    requires ino[inum].addrs[NDIRECT] == 0
    ensures |ino2| == |ino| && Val(blocks, ino[inum], NDIRECT + j) == 0 && Val(b2, ino2[inum], NDIRECT + j) == 0
  {
  }

  /** Where the entries of an indirect block are. */
  lemma EntryWord(blocks: seq<Block>, ip: Inode, j: nat)
    requires j < NINDIRECT
    ensures ip.addrs[NDIRECT] == 0 ==> Val(blocks, ip, NDIRECT + j) == 0
    ensures 0 != ip.addrs[NDIRECT] < |blocks| ==> Val(blocks, ip, NDIRECT + j) == WordAt(blocks[ip.addrs[NDIRECT]], j)
    ensures Val(blocks, ip, MAXFILE) == ip.addrs[NDIRECT]
    ensures Need(blocks, ip, NDIRECT + j) ==
      (if Val(blocks, ip, NDIRECT + j) == 0 then 1 else 0) + if ip.addrs[NDIRECT] == 0 then 1 else 0
  {
  }

  /** Blocks that bmap must allocate to reach block bn. */
  function Need(blocks: seq<Block>, ip: Inode, bn: nat): nat
    requires bn < MAXFILE
  {
    (if Val(blocks, ip, bn) == 0 then 1 else 0) + (if bn >= NDIRECT && ip.addrs[NDIRECT] == 0 then 1 else 0)
  }

  /** In inode inum the bytes from off on became d; every other byte of every file is the same. */
  ghost predicate BytesWritten(blocks: seq<Block>, ino: seq<Inode>, blocks2: seq<Block>, ino2: seq<Inode>,
                               inum: nat, off: nat, d: seq<byte>)
  {
    && |ino2| == |ino| && inum < |ino|
    && forall i, pos | 0 <= i < |ino| && 0 <= pos < MAXFILE * BSIZE ::
         ByteAt(blocks2, ino2[i], pos) == Overlaid(blocks, ino, inum, off, d, i, pos)
  }

  function Overlaid(blocks: seq<Block>, ino: seq<Inode>, inum: nat, off: nat, d: seq<byte>, i: nat, pos: nat): byte
    requires i < |ino| && pos < MAXFILE * BSIZE
  {
    if i == inum && off <= pos < off + |d| then d[pos - off] else ByteAt(blocks, ino[i], pos)
  }

  lemma BytesWrittenTwice(blocks: seq<Block>, ino: seq<Inode>, b1: seq<Block>, i1: seq<Inode>, b2: seq<Block>,
                          i2: seq<Inode>,
                          inum: nat, off: nat, d: seq<byte>, e: seq<byte>)
    requires BytesWritten(blocks, ino, b1, i1, inum, off, d) && BytesWritten(b1, i1, b2, i2, inum, off + |d|, e)
    ensures BytesWritten(blocks, ino, b2, i2, inum, off, d + e)
  {
    forall i, pos | 0 <= i < |ino| && 0 <= pos < MAXFILE * BSIZE
      ensures ByteAt(b2, i2[i], pos) == Overlaid(blocks, ino, inum, off, d + e, i, pos)
    {
      assert ByteAt(b2, i2[i], pos) == Overlaid(b1, i1, inum, off + |d|, e, i, pos);
      assert ByteAt(b1, i1[i], pos) == Overlaid(blocks, ino, inum, off, d, i, pos);
    }
  }

  /** memmove(data + at, piece, |piece|) */
  function Overlay(b: Block, at: nat, piece: seq<byte>): (r: Block)
    requires at + |piece| <= BSIZE
    ensures forall p | 0 <= p < BSIZE :: r[p] == if at <= p < at + |piece| then piece[p - at] else b[p]
  {
    b[..at] + piece + b[at + |piece|..]
  }

  /** Mapping block bn and then overlaying its data writes exactly the bytes of the piece. */
  lemma PieceWritten(l: Layout, blocks: seq<Block>, ino: seq<Inode>, owner: map<word, Slot>, b1: seq<Block>,
                     i1: seq<Inode>,
                     inum: nat, off: nat, piece: seq<byte>)
    requires off < MAXFILE * BSIZE && off % BSIZE + |piece| <= BSIZE
    requires Owned(l, b1, i1, owner) && Mapped(blocks, ino, b1, i1, inum, off / BSIZE)
               && Val(b1, i1[inum], off / BSIZE) != 0
    ensures Val(b1, i1[inum], off / BSIZE) < |b1|
    ensures var a := Val(b1, i1[inum], off / BSIZE);
      var b2 := b1[a := Overlay(b1[a], off % BSIZE, piece)];
      && Owned(l, b2, i1, owner) && Grew(blocks, ino, b2, i1, inum, off / BSIZE, off / BSIZE + 1)
      && BytesWritten(blocks, ino, b2, i1, inum, off, piece) && Val(b2, i1[inum], off / BSIZE) == a
  {
    hide Owned;
    var k := off / BSIZE;
    var a := Val(b1, i1[inum], k);
    OwnedVal(l, b1, i1, owner, inum, k);
    OwnedShape(l, b1, i1, owner);
    var d := Overlay(b1[a], off % BSIZE, piece);
    WriteData(l, b1, i1, owner, inum, k, d);
    var b2 := b1[a := d];
    forall i, pos | 0 <= i < |ino| && 0 <= pos < MAXFILE * BSIZE
      ensures ByteAt(b2, i1[i], pos) == Overlaid(blocks, ino, inum, off, piece, i, pos)
    {
      assert ByteAt(b2, i1[i], pos) == ByteAfter(b1, i1, inum, k, d, i, pos);
      assert ByteAt(b1, i1[i], pos) == ByteAt(blocks, ino[i], pos);
      if i == inum && pos / BSIZE == k {
        assert ByteAt(b1, i1[i], pos) == b1[a][pos % BSIZE];
      }
    }
    forall i, j | 0 <= i < |ino| && 0 <= j <= MAXFILE
      ensures Val(b2, i1[i], j) == Val(b1, i1[i], j)
    {
    }
  }

  /** The block after the last one that n bytes from off on touch. */
  function Hi(off: nat, n: nat): nat {
    if n == 0 then off / BSIZE else (off + n - 1) / BSIZE + 1
  }

  /** How many of blocks lo..hi-1 of an inode are not there. */
  function Missing(blocks: seq<Block>, ip: Inode, lo: nat, hi: nat): (c: nat)
    requires lo <= hi <= MAXFILE
    ensures c <= hi - lo
    ensures lo < hi && Val(blocks, ip, lo) != 0 ==> c <= hi - lo - 1
  {
    if lo == hi then 0
    else Missing(blocks, ip, lo, hi - 1) + (if Val(blocks, ip, hi - 1) == 0 then 1 else 0)
  }

  /** 1 if the indirect block is new. */
  function IndirectCost(ip: Inode, ip2: Inode): nat {
    if ip.addrs[NDIRECT] == 0 && ip2.addrs[NDIRECT] != 0 then 1 else 0
  }

  /** How many blocks a write to blocks lo..hi-1 of an inode allocates, the indirect block included. */
  function Cost(blocks: seq<Block>, ip: Inode, lo: nat, hi: nat): nat
    requires lo <= hi <= MAXFILE
  {
    Missing(blocks, ip, lo, hi) + if lo < hi && hi > NDIRECT && ip.addrs[NDIRECT] == 0 then 1 else 0
  }

  /** The same for a write of n bytes at off. */
  function WriteCost(blocks: seq<Block>, ip: Inode, off: nat, n: nat): nat {
    if off + n <= MAXFILE * BSIZE then Cost(blocks, ip, off / BSIZE, Hi(off, n)) else 0
  }

  lemma MissingNext(blocks: seq<Block>, ip: Inode, lo: nat, k: nat)
    requires lo <= k < MAXFILE
    ensures Missing(blocks, ip, lo, k + 1) == Missing(blocks, ip, lo, k) + if Val(blocks, ip, k) == 0 then 1 else 0
  {
  }

  lemma {:induction false} MissingSplit(blocks: seq<Block>, ip: Inode, lo: nat, mid: nat, hi: nat)
    requires lo <= mid <= hi <= MAXFILE
    ensures Missing(blocks, ip, lo, hi) == Missing(blocks, ip, lo, mid) + Missing(blocks, ip, mid, hi)
  {
    if mid < hi { MissingSplit(blocks, ip, lo, mid, hi - 1); }
  }

  /** What had been allocated before block k, and what k itself takes, is within the cost of the whole range. */
  lemma CostSoFar(b0: seq<Block>, ip0: Inode, ip1: Inode, lo: nat, k: nat, hi: nat)
    requires lo <= k < hi <= MAXFILE && (ip0.addrs[NDIRECT] != 0 ==> ip1.addrs[NDIRECT] != 0)
    requires lo == k || k <= NDIRECT ==> ip1.addrs[NDIRECT] == ip0.addrs[NDIRECT]
    ensures Missing(b0, ip0, lo, k) + IndirectCost(ip0, ip1)
            + (if Val(b0, ip0, k) == 0 then 1 else 0) + (if k >= NDIRECT && ip1.addrs[NDIRECT] == 0 then 1 else 0)
            <= Cost(b0, ip0, lo, hi)
  {
    MissingSplit(b0, ip0, lo, k + 1, hi);
  }

  lemma CostGrows(blocks: seq<Block>, ip: Inode, off: nat, m: nat, n: nat)
    requires m <= n && off + n <= MAXFILE * BSIZE
    ensures WriteCost(blocks, ip, off, m) <= WriteCost(blocks, ip, off, n)
  {
    HiGrows(off, m, n);
    MissingSplit(blocks, ip, off / BSIZE, Hi(off, m), Hi(off, n));
  }

  /** Places lo..hi-1 of an inode are filled, and the indirect block if one of them needs it; no other changes. */
  ghost predicate Filled(b0: seq<Block>, ip0: Inode, b: seq<Block>, ip: Inode, lo: nat, hi: nat) {
    && hi <= MAXFILE && (forall k | lo <= k < hi :: Val(b, ip, k) != 0)
    && (forall k | 0 <= k < MAXFILE && (k < lo || hi <= k || Val(b0, ip0, k) != 0) :: Val(b, ip, k) == Val(b0, ip0, k))
    && (ip0.addrs[NDIRECT] != 0 || (lo < hi && hi > NDIRECT) <==> ip.addrs[NDIRECT] != 0)
  }

  /** Two ranges one behind the other, or sharing the block where they meet. */
  lemma CostTwice(b0: seq<Block>, ip0: Inode, b1: seq<Block>, ip1: Inode, lo: nat, mid: nat, from: nat, hi: nat)
    requires Filled(b0, ip0, b1, ip1, lo, mid) && lo <= from <= mid <= hi <= MAXFILE && (from == mid || from + 1 == mid)
    ensures Cost(b0, ip0, lo, hi) == Cost(b0, ip0, lo, mid) + Cost(b1, ip1, from, hi)
  {
    MissingSplit(b0, ip0, lo, mid, hi);
    MissingSplit(b1, ip1, from, mid, hi);
    MissingSame(b0, ip0, b1, ip1, mid, hi);
    MissingNone(b1, ip1, from, mid);
  }

  lemma FilledTwice(b0: seq<Block>, ip0: Inode, b1: seq<Block>, ip1: Inode, b2: seq<Block>, ip2: Inode,
                    lo: nat, mid: nat, from: nat, hi: nat)
    requires Filled(b0, ip0, b1, ip1, lo, mid) && Filled(b1, ip1, b2, ip2, from, hi)
    requires lo <= from <= mid <= hi && (from == mid || from + 1 == mid)
    ensures Filled(b0, ip0, b2, ip2, lo, hi)
  {
    forall k | lo <= k < hi ensures Val(b2, ip2, k) != 0 {
      if k < from { assert Val(b1, ip1, k) != 0; }
    }
    forall k | 0 <= k < MAXFILE && (k < lo || hi <= k || Val(b0, ip0, k) != 0)
      ensures Val(b2, ip2, k) == Val(b0, ip0, k)
    {
      assert Val(b1, ip1, k) == Val(b0, ip0, k);
    }
  }

  /** n bytes at off0 and then m more. */
  lemma HiTwice(off0: nat, n: nat, m: nat)
    ensures var from, mid := (off0 + n) / BSIZE, Hi(off0, n);
      off0 / BSIZE <= from <= mid && (from == mid || from + 1 == mid)
    ensures m > 0 ==> Hi(off0 + n, m) == Hi(off0, n + m) >= Hi(off0, n)
  {
  }

  lemma WriteCostTwice(b0: seq<Block>, ip0: Inode, b1: seq<Block>, ip1: Inode, off0: nat, n: nat, m: nat)
    requires Filled(b0, ip0, b1, ip1, off0 / BSIZE, Hi(off0, n)) && m > 0 && off0 + n + m <= MAXFILE * BSIZE
    ensures WriteCost(b0, ip0, off0, n + m) == WriteCost(b0, ip0, off0, n) + WriteCost(b1, ip1, off0 + n, m)
  {
    HiTwice(off0, n, m);
    HiGrows(off0, n + m, n + m);
    CostTwice(b0, ip0, b1, ip1, off0 / BSIZE, Hi(off0, n), (off0 + n) / BSIZE, Hi(off0, n + m));
  }

  lemma {:induction false} MissingSame(b0: seq<Block>, ip0: Inode, b1: seq<Block>, ip1: Inode, lo: nat, hi: nat)
    requires lo <= hi <= MAXFILE && forall k | lo <= k < hi :: Val(b1, ip1, k) == Val(b0, ip0, k)
    ensures Missing(b1, ip1, lo, hi) == Missing(b0, ip0, lo, hi)
  {
    if lo < hi { MissingSame(b0, ip0, b1, ip1, lo, hi - 1); }
  }

  lemma {:induction false} MissingNone(blocks: seq<Block>, ip: Inode, lo: nat, hi: nat)
    requires lo <= hi <= MAXFILE && forall k | lo <= k < hi :: Val(blocks, ip, k) != 0
    ensures Missing(blocks, ip, lo, hi) == 0
  {
    if lo < hi { MissingNone(blocks, ip, lo, hi - 1); }
  }

  /** A write has filled what it touches, and allocated exactly its cost. */
  lemma WriteFilled(blocks: seq<Block>, ino: seq<Inode>, b1: seq<Block>, i1: seq<Inode>, b2: seq<Block>, i2: seq<Inode>,
                    inum: nat, off: nat, d: seq<byte>)
    requires Progress(blocks, ino, b1, i1, inum, off, Hi(off, |d|), d) && off + |d| <= MAXFILE * BSIZE
    requires |d| == 0 || Hi(off, |d|) <= NDIRECT ==> i1[inum].addrs[NDIRECT] == ino[inum].addrs[NDIRECT]
    requires |d| > 0 && Hi(off, |d|) > NDIRECT ==> i1[inum].addrs[NDIRECT] != 0
    requires SameVals(b1, i1, b2, i2)
    ensures Filled(blocks, ino[inum], b2, i2[inum], off / BSIZE, Hi(off, |d|))
    ensures Missing(blocks, ino[inum], off / BSIZE, Hi(off, |d|)) + IndirectCost(ino[inum], i1[inum])
         == WriteCost(blocks, ino[inum], off, |d|)
  {
    hide BytesWritten;
    HiGrows(off, 0, |d|);
    var lo, hi := off / BSIZE, Hi(off, |d|);
    assert Grew(blocks, ino, b1, i1, inum, lo, hi);
    forall k | 0 <= k <= MAXFILE ensures Val(b2, i2[inum], k) == Val(b1, i1[inum], k) {}
    assert Val(b1, i1[inum], MAXFILE) == i1[inum].addrs[NDIRECT]
        && Val(b2, i2[inum], MAXFILE) == i2[inum].addrs[NDIRECT];
    assert Val(blocks, ino[inum], MAXFILE) == ino[inum].addrs[NDIRECT];
  }

  // ----- how much of a long write is accepted -----

  const CHUNK := 1536

  /** How many bytes filewrite can write at off: all of them, or the whole chunks below the largest file size. */
  function Accepted(ip: Inode, off: nat, n: nat): (a: nat)
    ensures a <= n
  {
    if n == 0 || off > ip.size then 0
    else if off + n <= MAXFILE * BSIZE then n
    else if off > MAXFILE * BSIZE then 0
    else (MAXFILE * BSIZE - off) / CHUNK * CHUNK
  }

  /** It is the whole chunks of 1536 bytes before the first refused one, which may be shorter. */
  lemma AcceptedIs(ip: Inode, off: nat, n: nat)
    requires ip.size <= MAXFILE * BSIZE
    ensures var a := Accepted(ip, off, n);
      && (a == n || (a < n && a % 1536 == 0))
      && (a > 0 ==> off <= ip.size && off + a <= 140 * 512)
      && (a < n ==> off > ip.size || off + a + (if n - a < 1536 then n - a else 1536) > 140 * 512)
  {
    if off <= ip.size && off + n > MAXFILE * BSIZE {
      var room := MAXFILE * BSIZE - off;
      assert room / CHUNK * CHUNK + room % CHUNK == room;
    }
  }

  /** The 32-bit sums hide nothing: a range is refused exactly if it starts past the end or ends past the largest
      file. */
  lemma RejectedIs(ip: Inode, off: word, n: nat)
    requires n < WORDLIMIT
    ensures Rejected(ip, off, n) <==> off > ip.size || off + n > MAXFILE * BSIZE
  {
  }

  lemma AcceptedStep(ip: Inode, off: nat, n: nat, i: nat)
    requires ip.size <= MAXFILE * BSIZE && i < n && i % CHUNK == 0 && i <= Accepted(ip, off, n)
    ensures var m := if n - i < CHUNK then n - i else CHUNK;
      if off > ip.size || off + i + m > MAXFILE * BSIZE then Accepted(ip, off, n) == i
      else i + m <= Accepted(ip, off, n) && (i + m == n || (i + m) % CHUNK == 0)
  {
  }

  lemma AcceptedFits(ip: Inode, off: nat, n: nat)
    requires ip.size <= MAXFILE * BSIZE
    ensures off <= ip.size || Accepted(ip, off, n) == 0
    ensures Accepted(ip, off, n) > 0 ==> off + Accepted(ip, off, n) <= MAXFILE * BSIZE
  {
  }

  // ----- free blocks -----

  /** The blocks that the bitmap does not mark, in order, as balloc's scan meets them from block c on. */
  ghost function ClearFrom(l: Layout, blocks: seq<Block>, c: nat): seq<word>
    decreases l.size - c
  {
    if c >= l.size || c >= WORDLIMIT || l.BBlock(c) >= |blocks| then []
    else if BitmapBit(l, blocks, c) then ClearFrom(l, blocks, c + 1)
    else [c] + ClearFrom(l, blocks, c + 1)
  }

  ghost function Clear(l: Layout, blocks: seq<Block>): seq<word> {
    ClearFrom(l, blocks, 0)
  }

  /** Every block has its bit on the disk. */
  ghost predicate BitsThere(l: Layout, blocks: seq<Block>) {
    l.size <= WORDLIMIT && forall c: nat | c < l.size :: l.BBlock(c) < |blocks|
  }

  lemma {:induction false} ClearFromAt(l: Layout, blocks: seq<Block>, c: nat)
    requires BitsThere(l, blocks)
    ensures forall x: word :: x in ClearFrom(l, blocks, c) <==> c <= x < l.size && !BitmapBit(l, blocks, x)
    ensures forall i, j | 0 <= i < j < |ClearFrom(l, blocks, c)| ::
              ClearFrom(l, blocks, c)[i] < ClearFrom(l, blocks, c)[j]
    decreases l.size - c
  {
    hide BitmapBit;
    if c < l.size {
      ClearFromAt(l, blocks, c + 1);
      var rest := ClearFrom(l, blocks, c + 1);
      assert forall i | 0 <= i < |rest| :: rest[i] in rest && c < rest[i];
    }
  }

  /** Bitmaps that agree from block c on. */
  lemma {:induction false} ClearFromSame(l: Layout, b1: seq<Block>, b2: seq<Block>, c: nat)
    requires BitsThere(l, b1) && |b2| == |b1|
    requires forall x: nat {:trigger BitmapBit(l, b2, x)} | c <= x < l.size ::
               BitmapBit(l, b2, x) <==> BitmapBit(l, b1, x)
    ensures ClearFrom(l, b2, c) == ClearFrom(l, b1, c)
    decreases l.size - c
  {
    hide BitmapBit;
    if c < l.size { ClearFromSame(l, b1, b2, c + 1); }
  }

  /** Marked blocks are passed over. */
  lemma {:induction false} ClearSkip(l: Layout, blocks: seq<Block>, c: nat, d: nat)
    requires BitsThere(l, blocks) && c <= d <= l.size
    requires forall x: nat {:trigger BitmapBit(l, blocks, x)} | c <= x < d :: BitmapBit(l, blocks, x)
    ensures ClearFrom(l, blocks, c) == ClearFrom(l, blocks, d)
    decreases d - c
  {
    hide BitmapBit;
    if c < d { ClearSkip(l, blocks, c + 1, d); }
  }

  /** Taking the first clear block. */
  lemma ClearTaken(l: Layout, b1: seq<Block>, b2: seq<Block>, b: word)
    requires BitsThere(l, b1) && |b2| == |b1| && Marks(l, b1, b2, b) && b < l.size && !BitmapBit(l, b1, b)
    requires forall c: nat {:trigger BitmapBit(l, b1, c)} | c < b :: BitmapBit(l, b1, c)
    ensures Clear(l, b1) == [b] + Clear(l, b2)
  {
    hide BitmapBit, ClearFrom;
    ClearSkip(l, b1, 0, b);
    assert forall c: nat {:trigger BitmapBit(l, b2, c)} | c < b + 1 :: BitmapBit(l, b2, c);
    ClearSkip(l, b2, 0, b + 1);
    ClearFromSame(l, b1, b2, b + 1);
    ClearNext(l, b1, b);
  }

  /** Below the first clear block everything is marked. */
  lemma FirstClear(l: Layout, blocks: seq<Block>, b: word)
    requires BitsThere(l, blocks) && Clear(l, blocks) != [] && Clear(l, blocks)[0] == b
    ensures forall c: nat {:trigger BitmapBit(l, blocks, c)} | c < b :: c < l.size && BitmapBit(l, blocks, c)
    ensures b < l.size && !BitmapBit(l, blocks, b)
  {
    hide BitmapBit;
    ClearFromAt(l, blocks, 0);
    var clear := Clear(l, blocks);
    assert b in clear && forall i | 0 <= i < |clear| :: clear[i] >= b;
    forall c: nat | c < b ensures c < l.size && BitmapBit(l, blocks, c) {
      var w: word := c;
      assert w !in clear;
    }
  }

  lemma ClearNext(l: Layout, blocks: seq<Block>, b: word)
    requires BitsThere(l, blocks) && b < l.size && !BitmapBit(l, blocks, b)
    ensures ClearFrom(l, blocks, b) == [b] + ClearFrom(l, blocks, b + 1)
  {
  }

  lemma ClearSame(l: Layout, b1: seq<Block>, b2: seq<Block>)
    requires BitsThere(l, b1) && SameBits(l, b1, b2) && |b2| == |b1|
    ensures Clear(l, b2) == Clear(l, b1)
  {
    hide BitmapBit;
    ClearFromSame(l, b1, b2, 0);
  }

  lemma BitsOfOwned(l: Layout, blocks: seq<Block>, ino: seq<Inode>, owner: map<word, Slot>)
    requires Owned(l, blocks, ino, owner)
    ensures BitsThere(l, blocks) && l.Valid() && |blocks| == l.size
  {
    forall c: nat | c < l.size ensures l.BBlock(c) < |blocks| { BitmapIsMetadata(l, blocks, ino, owner, c); }
  }

  function Interval(lo: nat, hi: nat): (s: set<word>)
    requires lo <= hi <= WORDLIMIT
    ensures |s| == hi - lo && forall c: word :: c in s <==> lo <= c < hi
    decreases hi - lo
  {
    if lo == hi then {} else Interval(lo, hi - 1) + {(hi - 1) as word}
  }

  function Elems(s: seq<word>): set<word> {
    set x | x in s
  }

  lemma ClearAt(l: Layout, blocks: seq<Block>, ino: seq<Inode>, owner: map<word, Slot>, c: word)
    requires Owned(l, blocks, ino, owner)
    ensures c in Elems(Clear(l, blocks)) <==> l.data <= c < l.size && c !in owner
    ensures c in owner ==> l.data <= c < l.size
    ensures l.data <= l.size <= WORDLIMIT
  {
    hide Owned, BitOf;
    BitsOfOwned(l, blocks, ino, owner);
    ClearFromAt(l, blocks, 0);
    if c in owner {
      OwnerInRange(l, blocks, ino, owner, c);
    }
    if c < l.size {
      SlotFacts(l, blocks, ino, owner, c);
    }
  }

  lemma OwnerInRange(l: Layout, blocks: seq<Block>, ino: seq<Inode>, owner: map<word, Slot>, c: word)
    requires Owned(l, blocks, ino, owner) && c in owner
    ensures l.data <= c < l.size
  {
  }

  lemma {:induction false} DistinctCount(s: seq<word>)
    requires forall i, j | 0 <= i < j < |s| :: s[i] < s[j]
    ensures |Elems(s)| == |s|
  {
    if s != [] {
      var t, last := s[..|s|-1], s[|s|-1];
      DistinctCount(t);
      assert Elems(s) == Elems(t) + {last};
      assert forall i | 0 <= i < |t| :: t[i] < last;
      assert last !in Elems(t);
    }
  }

  /** Every block behind the metadata is either owned or clear. */
  lemma ClearCount(l: Layout, blocks: seq<Block>, ino: seq<Inode>, owner: map<word, Slot>)
    requires Owned(l, blocks, ino, owner)
    ensures |Clear(l, blocks)| + |owner| == l.size - l.data
  {
    hide Owned, Clear, Elems;
    ClearAt(l, blocks, ino, owner, 0);
    var all, clear := Interval(l.data, l.size), Elems(Clear(l, blocks));
    forall c: word ensures (c in clear <==> c in all && c !in owner) && (c in owner ==> c in all) {
      ClearAt(l, blocks, ino, owner, c);
    }
    assert clear == all - owner.Keys;
    assert all == clear + owner.Keys;
    ClearSorted(l, blocks, ino, owner);
    DistinctCount(Clear(l, blocks));
  }

  lemma ClearSorted(l: Layout, blocks: seq<Block>, ino: seq<Inode>, owner: map<word, Slot>)
    requires Owned(l, blocks, ino, owner)
    ensures forall i, j | 0 <= i < j < |Clear(l, blocks)| :: Clear(l, blocks)[i] < Clear(l, blocks)[j]
  {
    BitsOfOwned(l, blocks, ino, owner);
    ClearFromAt(l, blocks, 0);
  }

  lemma NoneClear(l: Layout, blocks: seq<Block>, ino: seq<Inode>, owner: map<word, Slot>)
    requires Owned(l, blocks, ino, owner)
    requires forall c: nat | c < l.size :: l.BBlock(c) < |blocks| && BitmapBit(l, blocks, c)
    ensures |owner| == l.size - l.data && Clear(l, blocks) == []
  {
    hide BitmapBit;
    ClearCount(l, blocks, ino, owner);
    BitsOfOwned(l, blocks, ino, owner);
    ClearSkip(l, blocks, 0, l.size);
  }

  /** Part of a write is done: blocks lo..hi-1 of the file are there, and d was written from off on. */
  ghost predicate Progress(blocks: seq<Block>, ino: seq<Inode>, b: seq<Block>, i: seq<Inode>, inum: nat, off: nat,
                           hi: nat, d: seq<byte>)
  {
    && hi <= MAXFILE && Grew(blocks, ino, b, i, inum, off / BSIZE, hi) && BytesWritten(blocks, ino, b, i, inum, off, d)
    && (forall k | off / BSIZE <= k < hi :: Val(b, i[inum], k) != 0)
    && ((forall k | off / BSIZE <= k < hi :: Val(blocks, ino[inum], k) != 0) ==> i == ino)
  }

  lemma ProgressNone(blocks: seq<Block>, ino: seq<Inode>, inum: nat, off: nat)
    requires inum < |ino| && off / BSIZE <= MAXFILE
    ensures Progress(blocks, ino, blocks, ino, inum, off, off / BSIZE, [])
  {
  }

  lemma ProgressStep(blocks: seq<Block>, ino: seq<Inode>, b1: seq<Block>, i1: seq<Inode>, b2: seq<Block>,
                     i2: seq<Inode>,
                     inum: nat, off: nat, k: nat, d: seq<byte>, piece: seq<byte>)
    requires Progress(blocks, ino, b1, i1, inum, off, k, d) && off / BSIZE <= k < MAXFILE
    requires Grew(b1, i1, b2, i2, inum, k, k + 1) && BytesWritten(b1, i1, b2, i2, inum, off + |d|, piece)
    requires Val(b2, i2[inum], k) != 0 && (Val(b1, i1[inum], k) != 0 ==> i2 == i1)
    ensures Progress(blocks, ino, b2, i2, inum, off, k + 1, d + piece)
    ensures Need(b1, i1[inum], k) == (if Val(blocks, ino[inum], k) == 0 then 1 else 0)
                                     + if k >= NDIRECT && i1[inum].addrs[NDIRECT] == 0 then 1 else 0
    ensures ino[inum].addrs[NDIRECT] != 0 ==> i1[inum].addrs[NDIRECT] != 0
    ensures k >= NDIRECT ==> i2[inum].addrs[NDIRECT] != 0
    ensures i1[inum].addrs[NDIRECT] == 0 || i2[inum].addrs[NDIRECT] == i1[inum].addrs[NDIRECT]
  {
    BytesWrittenTwice(blocks, ino, b1, i1, b2, i2, inum, off, d, piece);
    hide BytesWritten;
    assert Grew(blocks, ino, b1, i1, inum, off / BSIZE, k + 1);
    GrewTwice(blocks, ino, b1, i1, b2, i2, inum, off / BSIZE, k, k + 1);
    assert Val(b1, i1[inum], k) == Val(blocks, ino[inum], k);
    assert Val(b2, i2[inum], MAXFILE) == Val(b1, i1[inum], MAXFILE) || Val(b1, i1[inum], MAXFILE) == 0;
  }

  /** What block k needs, seen from where the write started. */
  lemma NeedIs(blocks: seq<Block>, ino: seq<Inode>, b1: seq<Block>, i1: seq<Inode>, inum: nat, off: nat, k: nat,
               d: seq<byte>)
    requires Progress(blocks, ino, b1, i1, inum, off, k, d) && off / BSIZE <= k < MAXFILE
    ensures Need(b1, i1[inum], k) == (if Val(blocks, ino[inum], k) == 0 then 1 else 0)
                                     + if k >= NDIRECT && i1[inum].addrs[NDIRECT] == 0 then 1 else 0
    ensures ino[inum].addrs[NDIRECT] != 0 ==> i1[inum].addrs[NDIRECT] != 0
  {
    hide BytesWritten;
    assert Grew(blocks, ino, b1, i1, inum, off / BSIZE, k);
    assert Val(b1, i1[inum], k) == Val(blocks, ino[inum], k);
    assert Val(blocks, ino[inum], MAXFILE) != 0 ==> Val(b1, i1[inum], MAXFILE) == Val(blocks, ino[inum], MAXFILE);
  }

  lemma HiStart(off: nat)
    ensures Hi(off, 0) == off / BSIZE
  {
  }

  lemma HiGrows(off: nat, m: nat, n: nat)
    requires m <= n && off + n <= MAXFILE * BSIZE
    ensures off / BSIZE <= Hi(off, m) <= Hi(off, n) <= MAXFILE
  {
  }

  lemma HiStep(off: nat, tot: nat, m: nat, n: nat)
    requires tot < n && off + n <= MAXFILE * BSIZE && (tot == 0 || (off + tot) % BSIZE == 0)
    requires m == if n - tot < BSIZE - (off + tot) % BSIZE then n - tot else BSIZE - (off + tot) % BSIZE
    ensures 0 < m && tot + m <= n && (off + tot) % BSIZE + m <= BSIZE
    ensures Hi(off, tot) == (off + tot) / BSIZE && Hi(off, tot + m) == (off + tot) / BSIZE + 1 <= MAXFILE
    ensures tot + m < n ==> (off + (tot + m)) % BSIZE == 0
  {
  }

  /** The file after a write: exactly the written bytes changed, and the size covers them. */
  lemma SplicedContent(blocks: seq<Block>, ino: seq<Inode>, b: seq<Block>, i: seq<Inode>, inum: nat, off: nat,
                       d: seq<byte>)
    requires BytesWritten(blocks, ino, b, i, inum, off, d) && off <= ino[inum].size && off + |d| <= MAXFILE * BSIZE
    requires ino[inum].size <= MAXFILE * BSIZE
    requires i[inum].size == if |d| > 0 && off + |d| > ino[inum].size then off + |d| else ino[inum].size
    ensures Content(b, i[inum]) == Splice(Content(blocks, ino[inum]), off, d)
  {
    var c, c2 := Content(blocks, ino[inum]), Content(b, i[inum]);
    forall p | 0 <= p < |c2| ensures c2[p] == Splice(c, off, d)[p] {
      assert ByteAt(b, i[inum], p) == Overlaid(blocks, ino, inum, off, d, inum, p);
    }
  }

  /** Reading back what was written. */
  lemma SpliceReads(c: seq<byte>, off: nat, d: seq<byte>)
    requires off <= |c|
    ensures |Splice(c, off, d)| == if off + |d| > |c| then off + |d| else |c|
    ensures Splice(c, off, d)[off..off + |d|] == d
    ensures Splice(c, off, d)[..off] == c[..off]
    ensures off + |d| < |c| ==> Splice(c, off, d)[off + |d|..] == c[off + |d|..]
  {
  }

  lemma SpliceTwice(c: seq<byte>, off: nat, d: seq<byte>, e: seq<byte>)
    requires off <= |c|
    ensures off + |d| <= |Splice(c, off, d)|
    ensures Splice(Splice(c, off, d), off + |d|, e) == Splice(c, off, d + e)
  {
  }

  /** A write that starts inside the file or at its end leaves no hole. */
  lemma StillNoHoles(blocks: seq<Block>, ino: seq<Inode>, b: seq<Block>, i: seq<Inode>, inum: nat, off: nat,
                     d: seq<byte>, size: word)
    requires Progress(blocks, ino, b, i, inum, off, Hi(off, |d|), d) && NoHoles(blocks, ino[inum])
               && off <= ino[inum].size
    requires off + |d| <= MAXFILE * BSIZE
    requires size == if |d| > 0 && off + |d| > ino[inum].size then off + |d| else ino[inum].size
    ensures NoHoles(b, i[inum].(size := size))
  {
    var ip2 := i[inum].(size := size);
    forall k | 0 <= k < MAXFILE && k * BSIZE < size ensures Val(b, ip2, k) != 0 {
      assert Val(b, ip2, k) == Val(b, i[inum], k);
      if k * BSIZE < ino[inum].size {
        assert Val(blocks, ino[inum], k) != 0;
      }
    }
  }

  /** Within a file without holes only blocks past its end are missing: a chunk of at most three
      blocks' bytes touches at most four blocks and finds at most three of them missing. */
  lemma ChunkCost(blocks: seq<Block>, ip: Inode, off: nat, n: nat)
    requires NoHoles(blocks, ip) && off <= ip.size && n <= 3 * BSIZE && off + n <= MAXFILE * BSIZE
    ensures off / BSIZE <= Hi(off, n) <= MAXFILE && Hi(off, n) - off / BSIZE <= 4
    ensures Missing(blocks, ip, off / BSIZE, Hi(off, n)) <= 3
  {
    if Hi(off, n) - off / BSIZE == 4 {
      assert off % BSIZE != 0;
      assert Val(blocks, ip, off / BSIZE) != 0;
    }
  }

  /** Overwriting inside a file without holes allocates nothing. */
  lemma NothingMissing(blocks: seq<Block>, ip: Inode, off: nat, n: nat)
    requires NoHoles(blocks, ip) && (n == 0 || off + n <= ip.size)
    ensures forall k | off / BSIZE <= k < Hi(off, n) :: k < MAXFILE && Val(blocks, ip, k) != 0
  {
  }

  // ----- the inode on the disk: struct dinode as sixteen words -----

  function DinodeWord(ip: Inode, w: nat): word
    requires w < 16
  {
    if w == 0 then ip.typ % 0x1_0000 + 0x1_0000 * (ip.major % 0x1_0000)
    else if w == 1 then ip.minor % 0x1_0000 + 0x1_0000 * (ip.nlink % 0x1_0000)
    else if w == 2 then ip.size
    else ip.addrs[w - 3]
  }

  function PutDinode(b: Block, at: nat, ip: Inode, n: nat): (r: Block)
    requires at + 16 <= NWORDS && n <= 16
  {
    if n == 0 then b else PutWord(PutDinode(b, at, ip, n - 1), at + n - 1, DinodeWord(ip, n - 1))
  }

  lemma {:induction false} DinodeAt(b: Block, at: nat, ip: Inode, n: nat, i: nat)
    requires at + 16 <= NWORDS && n <= 16 && i < NWORDS
    ensures WordAt(PutDinode(b, at, ip, n), i) == if at <= i < at + n then DinodeWord(ip, i - at) else WordAt(b, i)
  {
    if n > 0 {
      DinodeAt(b, at, ip, n - 1, i);
      WordRoundTrip(PutDinode(b, at, ip, n - 1), at + n - 1, DinodeWord(ip, n - 1), i);
    }
  }

  /** The disk's copy of inode inum is ip. */
  ghost predicate Synced(l: Layout, blocks: seq<Block>, ip: Inode, inum: nat) {
    && l.IBlock(inum) < |blocks|
    && forall w | 0 <= w < 16 :: WordAt(blocks[l.IBlock(inum)], inum % IPB * 16 + w) == DinodeWord(ip, w)
  }

  function AfterUpdate(l: Layout, blocks: seq<Block>, ip: Inode, inum: nat): (r: seq<Block>)
    requires l.IBlock(inum) < |blocks|
  {
    blocks[l.IBlock(inum) := PutDinode(blocks[l.IBlock(inum)], inum % IPB * 16, ip, 16)]
  }

  // ----- what ilock reads back -----

  /** The low and the high 16 bits of a word. */
  function LowShort(w: word): short {
    if w % 0x1_0000 < 0x8000 then w % 0x1_0000 else w % 0x1_0000 - 0x1_0000
  }

  function HighShort(w: word): short {
    LowShort(w / 0x1_0000)
  }

  function WordsFrom(b: Block, at: nat, n: nat): (ws: seq<word>)
    requires at + n <= NWORDS
    ensures |ws| == n && forall k | 0 <= k < n :: ws[k] == WordAt(b, at + k)
  {
    if n == 0 then [] else WordsFrom(b, at, n - 1) + [WordAt(b, at + n - 1)]
  }

  /** ilock's copy of the dinode that starts at word `at`. */
  function GetDinode(b: Block, at: nat): (ip: Inode)
    requires at + 16 <= NWORDS
  {
    Inode(LowShort(WordAt(b, at)), HighShort(WordAt(b, at)), LowShort(WordAt(b, at + 1)), HighShort(WordAt(b, at + 1)),
      WordAt(b, at + 2), WordsFrom(b, at + 3, NDIRECT + 1))
  }

  /** The inode as a boot reads it. */
  function DiskInode(l: Layout, blocks: seq<Block>, inum: nat): Inode
    requires l.IBlock(inum) < |blocks|
  {
    GetDinode(blocks[l.IBlock(inum)], inum % IPB * 16)
  }

  lemma ShortsBack(lo: short, hi: short)
    ensures var w := lo % 0x1_0000 + 0x1_0000 * (hi % 0x1_0000);
      0 <= w < WORDLIMIT && LowShort(w) == lo && HighShort(w) == hi
  {
    var w := lo % 0x1_0000 + 0x1_0000 * (hi % 0x1_0000);
    assert w % 0x1_0000 == lo % 0x1_0000 && w / 0x1_0000 == hi % 0x1_0000;
  }

  lemma WordsBack(w: word)
    ensures w == LowShort(w) % 0x1_0000 + 0x1_0000 * (HighShort(w) % 0x1_0000)
  {
  }

  /** Where each field lies. */
  lemma DiskWords(l: Layout, blocks: seq<Block>, inum: nat)
    requires l.IBlock(inum) < |blocks|
    ensures var b, at, ip := blocks[inum / 8 + l.inodestart], inum % 8 * 16, DiskInode(l, blocks, inum);
      && ip.typ % 0x1_0000 == WordAt(b, at) % 0x1_0000 && ip.major % 0x1_0000 == WordAt(b, at) / 0x1_0000
      && ip.minor % 0x1_0000 == WordAt(b, at + 1) % 0x1_0000 && ip.nlink % 0x1_0000 == WordAt(b, at + 1) / 0x1_0000
      && ip.size == WordAt(b, at + 2) && (forall k | 0 <= k < 13 :: ip.addrs[k] == WordAt(b, at + (3 + k)))
  {
    hide WordAt;
    WordsBack(WordAt(blocks[l.IBlock(inum)], inum % IPB * 16));
    WordsBack(WordAt(blocks[l.IBlock(inum)], inum % IPB * 16 + 1));
  }

  /** The disk's copy is up to date exactly when reading it gives the inode: type, device numbers, links, size and all
      thirteen block numbers. */
  lemma SyncedReads(l: Layout, blocks: seq<Block>, ip: Inode, inum: nat)
    ensures Synced(l, blocks, ip, inum) <==> l.IBlock(inum) < |blocks| && DiskInode(l, blocks, inum) == ip
  {
    hide WordAt, LowShort, HighShort;
    if l.IBlock(inum) < |blocks| {
      var b, at := blocks[l.IBlock(inum)], inum % IPB * 16;
      var ip2 := DiskInode(l, blocks, inum);
      ShortsBack(ip.typ, ip.major);
      ShortsBack(ip.minor, ip.nlink);
      if Synced(l, blocks, ip, inum) {
        assert WordAt(b, at + 0) == DinodeWord(ip, 0) && WordAt(b, at + 1) == DinodeWord(ip, 1);
        assert WordAt(b, at + 2) == DinodeWord(ip, 2);
        forall k | 0 <= k <= NDIRECT ensures ip2.addrs[k] == ip.addrs[k] {
          assert WordAt(b, at + (3 + k)) == DinodeWord(ip, 3 + k);
        }
        assert ip2.addrs == ip.addrs;
      }
      if ip2 == ip {
        WordsBack(WordAt(b, at));
        WordsBack(WordAt(b, at + 1));
        forall w | 0 <= w < 16 ensures WordAt(b, at + w) == DinodeWord(ip, w) {
          if w >= 3 { assert ip2.addrs[w - 3] == WordAt(b, at + 3 + (w - 3)); }
        }
      }
    }
  }

  /** iupdate brings the disk's copy of its inode up to date ... */
  lemma UpdateSyncs(l: Layout, blocks: seq<Block>, ip: Inode, inum: nat)
    requires l.IBlock(inum) < |blocks|
    ensures Synced(l, AfterUpdate(l, blocks, ip, inum), ip, inum)
    ensures DiskInode(l, AfterUpdate(l, blocks, ip, inum), inum) == ip
  {
    hide WordAt, PutDinode, DinodeWord, DiskInode;
    SyncedReads(l, AfterUpdate(l, blocks, ip, inum), ip, inum);
    var b, at := blocks[l.IBlock(inum)], inum % IPB * 16;
    forall w | 0 <= w < 16 ensures WordAt(PutDinode(b, at, ip, 16), at + w) == DinodeWord(ip, w) {
      DinodeAt(b, at, ip, 16, at + w);
    }
  }

  /** ... and leaves every other copy alone. */
  lemma UpdateKeepsOthers(l: Layout, blocks: seq<Block>, ip: Inode, inum: nat, other: nat, iq: Inode)
    requires l.IBlock(inum) < |blocks| && other != inum && Synced(l, blocks, iq, other)
    ensures Synced(l, AfterUpdate(l, blocks, ip, inum), iq, other)
  {
    hide WordAt, PutDinode, DinodeWord;
    if l.IBlock(other) == l.IBlock(inum) {
      var b, at, to := blocks[l.IBlock(inum)], inum % IPB * 16, other % IPB * 16;
      forall w | 0 <= w < 16 ensures WordAt(PutDinode(b, at, ip, 16), to + w) == DinodeWord(iq, w) {
        DinodeAt(b, at, ip, 16, to + w);
      }
    }
  }

  /** A change to an inode block, or to an inode's fields other than block numbers, moves nothing. */
  lemma MetaWrite(l: Layout, blocks: seq<Block>, ino: seq<Inode>, owner: map<word, Slot>, x: nat, d: Block, inum: nat,
                  size: word)
    requires Owned(l, blocks, ino, owner) && x < l.bmapstart && inum < |ino|
    ensures x < |blocks|
    ensures var ino2 := ino[inum := ino[inum].(size := size)];
      && Owned(l, blocks[x := d], ino2, owner) && SameVals(blocks, ino, blocks[x := d], ino2)
      && SameBytes(blocks, ino, blocks[x := d], ino2)
  {
    var ino2 := ino[inum := ino[inum].(size := size)];
    SameOutside(l, blocks, blocks[x := d], ino, owner);
    forall i, k | 0 <= i < |ino| && 0 <= k <= MAXFILE
      ensures Val(blocks[x := d], ino2[i], k) == Val(blocks, ino[i], k)
    {
      assert Val(blocks[x := d], ino[i], k) == Val(blocks, ino[i], k);
    }
    forall i, pos | 0 <= i < |ino| && 0 <= pos < MAXFILE * BSIZE
      ensures ByteAt(blocks[x := d], ino2[i], pos) == ByteAt(blocks, ino[i], pos)
    {
      assert ByteAt(blocks[x := d], ino[i], pos) == ByteAt(blocks, ino[i], pos);
    }
    forall c: nat | c < l.size
      ensures l.BBlock(c) < |blocks| && (BitmapBit(l, blocks[x := d], c) <==> BitmapBit(l, blocks, c))
    {
      BitmapIsMetadata(l, blocks, ino, owner, c);
    }
    KeepOwned(l, blocks, ino, owner, blocks[x := d], ino2);
  }

  /** The boot block, superblock, log and inode blocks are the same. */
  ghost predicate InodesKept(l: Layout, blocks: seq<Block>, blocks2: seq<Block>) {
    && |blocks2| == |blocks| && forall x | 0 <= x < l.bmapstart && x < |blocks| :: blocks2[x] == blocks[x]
  }

  /** Every inode but one, and every byte of its file, is the same. */
  ghost predicate OthersKept(blocks: seq<Block>, ino: seq<Inode>, b: seq<Block>, i: seq<Inode>, inum: nat) {
    && |i| == |ino|
    && (forall j | 0 <= j < |ino| && j != inum :: i[j] == ino[j])
    && (forall j, pos | 0 <= j < |ino| && j != inum && 0 <= pos < MAXFILE * BSIZE ::
       ByteAt(b, i[j], pos) == ByteAt(blocks, ino[j], pos))
  }

  function NewSize(ip: Inode, off: nat, n: nat): nat {
    if n > 0 && off + n > ip.size then off + n else ip.size
  }

  /** The write's effect on the files, once the size is set. */
  lemma WriteDone(blocks: seq<Block>, ino: seq<Inode>, b1: seq<Block>, i1: seq<Inode>, b2: seq<Block>, i2: seq<Inode>,
                  inum: nat, off: nat, d: seq<byte>)
    requires Progress(blocks, ino, b1, i1, inum, off, Hi(off, |d|), d) && off <= ino[inum].size <= MAXFILE * BSIZE
    requires off + |d| <= MAXFILE * BSIZE && NewSize(ino[inum], off, |d|) < WORDLIMIT
    requires SameVals(b1, i1, b2, i2) && SameBytes(b1, i1, b2, i2)
    requires i2 == i1[inum := i1[inum].(size := NewSize(ino[inum], off, |d|))]
    ensures i2[inum].size <= MAXFILE * BSIZE && OthersKept(blocks, ino, b2, i2, inum)
    ensures i2[inum] == ino[inum].(addrs := i2[inum].addrs, size := NewSize(ino[inum], off, |d|))
    ensures Content(b2, i2[inum]) == Splice(Content(blocks, ino[inum]), off, d)
    ensures NoHoles(blocks, ino[inum]) ==> NoHoles(b2, i2[inum])
  {
    forall i, pos | 0 <= i < |ino| && 0 <= pos < MAXFILE * BSIZE
      ensures ByteAt(b2, i2[i], pos) == Overlaid(blocks, ino, inum, off, d, i, pos)
    {
      assert ByteAt(b2, i2[i], pos) == ByteAt(b1, i1[i], pos);
      assert ByteAt(b1, i1[i], pos) == Overlaid(blocks, ino, inum, off, d, i, pos);
    }
    SplicedContent(blocks, ino, b2, i2, inum, off, d);
    if NoHoles(blocks, ino[inum]) {
      StillNoHoles(blocks, ino, b1, i1, inum, off, d, NewSize(ino[inum], off, |d|));
      forall k | 0 <= k < MAXFILE && k * BSIZE < i2[inum].size ensures Val(b2, i2[inum], k) != 0 {
        assert Val(b2, i2[inum], k) == Val(b1, i1[inum], k);
      }
    }
  }

  lemma OthersKeptTwice(b0: seq<Block>, i0: seq<Inode>, b1: seq<Block>, i1: seq<Inode>, b2: seq<Block>, i2: seq<Inode>,
                        inum: nat)
    requires OthersKept(b0, i0, b1, i1, inum) && OthersKept(b1, i1, b2, i2, inum)
    ensures OthersKept(b0, i0, b2, i2, inum)
  {
    forall j, pos | 0 <= j < |i0| && j != inum && 0 <= pos < MAXFILE * BSIZE
      ensures ByteAt(b2, i2[j], pos) == ByteAt(b0, i0[j], pos)
    {
      assert ByteAt(b2, i2[j], pos) == ByteAt(b1, i1[j], pos);
    }
  }

  /** The first n bytes of src have been written at off0, and the file offset followed. */
  ghost predicate WrittenSoFar(b0: seq<Block>, i0: seq<Inode>, b: seq<Block>, i: seq<Inode>,
                               inum: nat, off0: nat, off: nat, src: seq<byte>, n: nat)
  {
    && inum < |i| == |i0| && n <= |src| && off == off0 + n
    && NoHoles(b, i[inum]) && i0[inum].size <= MAXFILE * BSIZE && OthersKept(b0, i0, b, i, inum)
    && (n > 0 ==> off0 <= i0[inum].size)
    && Content(b, i[inum]) == (if n == 0 then Content(b0, i0[inum]) else Splice(Content(b0, i0[inum]), off0, src[..n]))
  }

  lemma NextChunk(b0: seq<Block>, i0: seq<Inode>, b1: seq<Block>, i1: seq<Inode>, b2: seq<Block>, i2: seq<Inode>,
                  inum: nat, off0: nat, off: nat, src: seq<byte>, n: nat, m: nat)
    requires WrittenSoFar(b0, i0, b1, i1, inum, off0, off, src, n) && n + m <= |src| && m > 0
    requires OthersKept(b1, i1, b2, i2, inum) && NoHoles(b2, i2[inum]) && off <= i1[inum].size
    requires Content(b2, i2[inum]) == Splice(Content(b1, i1[inum]), off, src[n..n + m])
    ensures WrittenSoFar(b0, i0, b2, i2, inum, off0, off + m, src, n + m)
  {
    hide OthersKept, NoHoles, Splice, Content;
    OthersKeptTwice(b0, i0, b1, i1, b2, i2, inum);
    var c0 := Content(b0, i0[inum]);
    SizeBound(b1, i1[inum]);
    ContentSize(b0, i0[inum]);
    ContentSize(b1, i1[inum]);
    assert src[..n] + src[n..n + m] == src[..n + m];
    if n > 0 {
      SpliceTwice(c0, off0, src[..n], src[n..n + m]);
    } else {
      assert src[n..n + m] == src[..n + m];
    }
  }

  lemma ContentSize(b: seq<Block>, ip: Inode)
    requires ip.size <= MAXFILE * BSIZE
    ensures |Content(b, ip)| == ip.size
  {
  }

  // ----- a long write, chunk by chunk -----

  /** writei's two range tests, with 32-bit sums. */
  predicate Rejected(ip: Inode, off: word, n: nat) {
    || off > ip.size || (off + n) % WORDLIMIT < off
    || (off + n) % WORDLIMIT > MAXFILE * BSIZE
  }

  /** The first i bytes of src have been written; only what they cost has been allocated: o blocks are owned
      now, o0 were before. */
  ghost predicate GoingAt(b0: seq<Block>, i0: seq<Inode>, o0: nat, b: seq<Block>, ino: seq<Inode>, o: nat,
                          inum: nat, off0: nat, off: nat, src: seq<byte>, i: nat)
  {
    && WrittenSoFar(b0, i0, b, ino, inum, off0, off, src, i)
    && o == o0 + WriteCost(b0, i0[inum], off0, i)
    && ino[inum] == i0[inum].(addrs := ino[inum].addrs, size := ino[inum].size)
    && (off0 <= i0[inum].size ==> Filled(b0, i0[inum], b, ino[inum], off0 / BSIZE, Hi(off0, i)))
    && i <= Accepted(i0[inum], off0, |src|) && (i % CHUNK == 0 || i == |src|)
  }

  lemma GoingFacts(b0: seq<Block>, i0: seq<Inode>, o0: nat, b1: seq<Block>, i1: seq<Inode>, o1: nat,
                   inum: nat, off0: nat, off: nat, src: seq<byte>, i: nat)
    requires GoingAt(b0, i0, o0, b1, i1, o1, inum, off0, off, src, i)
    ensures inum < |i1| == |i0| && NoHoles(b1, i1[inum]) && i1[inum].size <= MAXFILE * BSIZE
    ensures i1[inum] == i0[inum].(addrs := i1[inum].addrs, size := i1[inum].size)
    ensures i <= |src| && o1 == o0 + WriteCost(b0, i0[inum], off0, i)
    ensures i == |src| ==> Accepted(i0[inum], off0, |src|) == |src|
    ensures WrittenSoFar(b0, i0, b1, i1, inum, off0, off, src, i)
  {
  }

  function NextLength(n: nat, i: nat): nat
    requires i <= n
  {
    if n - i > CHUNK then CHUNK else n - i
  }

  /** A chunk that is not rejected is accepted, and its cost adds up with that of the ones before it. */
  lemma ChunkFits(b0: seq<Block>, i0: seq<Inode>, o0: nat, b1: seq<Block>, i1: seq<Inode>, o1: nat,
                  inum: nat, off0: nat, off: nat, src: seq<byte>, i: nat, n1: nat)
    requires GoingAt(b0, i0, o0, b1, i1, o1, inum, off0, off, src, i) && i < |src| && off < WORDLIMIT
    requires n1 == NextLength(|src|, i) && !Rejected(i1[inum], off, n1)
    ensures i + n1 <= Accepted(i0[inum], off0, |src|) && off0 + i + n1 <= MAXFILE * BSIZE
    ensures (i + n1 == |src| || (i + n1) % CHUNK == 0) && off0 <= i0[inum].size
    ensures WriteCost(b0, i0[inum], off0, i + n1) == WriteCost(b0, i0[inum], off0, i) + WriteCost(b1, i1[inum], off, n1)
    ensures WriteCost(b0, i0[inum], off0, i + n1) <= WriteCost(b0, i0[inum], off0, Accepted(i0[inum], off0, |src|))
  {
    hide Filled, WriteCost, Content, Splice, OthersKept, NoHoles, Accepted;
    SizeBound(b1, i1[inum]);
    AcceptedStep(i0[inum], off0, |src|, i);
    AcceptedFits(i0[inum], off0, |src|);
    if i == 0 { SameSize(b0, i0[inum], b1, i1[inum]); }
    WriteCostTwice(b0, i0[inum], b1, i1[inum], off0, i, n1);
    CostGrows(b0, i0[inum], off0, i + n1, Accepted(i0[inum], off0, |src|));
  }

  /** A chunk that is rejected is the first that is not accepted. */
  lemma ChunkRejected(b0: seq<Block>, i0: seq<Inode>, o0: nat, b1: seq<Block>, i1: seq<Inode>, o1: nat,
                      inum: nat, off0: nat, off: nat, src: seq<byte>, i: nat, n1: nat)
    requires GoingAt(b0, i0, o0, b1, i1, o1, inum, off0, off, src, i) && i < |src| < 0x8000_0000 && off < WORDLIMIT
    requires n1 == NextLength(|src|, i) && Rejected(i1[inum], off, n1)
    ensures Accepted(i0[inum], off0, |src|) == i
  {
    hide Filled, WriteCost, Content, Splice, OthersKept, NoHoles, Accepted;
    SizeBound(b1, i1[inum]);
    AcceptedStep(i0[inum], off0, |src|, i);
    AcceptedFits(i0[inum], off0, |src|);
    if i == 0 {
      SameSize(b0, i0[inum], b1, i1[inum]);
    } else {
      SplicedSize(b0, i0[inum], b1, i1[inum], off0, src[..i]);
    }
  }

  lemma ChunkDone(b0: seq<Block>, i0: seq<Inode>, o0: nat, b1: seq<Block>, i1: seq<Inode>, o1: nat,
                  b2: seq<Block>, i2: seq<Inode>, o2: nat, inum: nat, off0: nat, off: nat, src: seq<byte>, i: nat,
                    n1: nat)
    requires GoingAt(b0, i0, o0, b1, i1, o1, inum, off0, off, src, i) && i < |src|
    requires n1 == NextLength(|src|, i) && i + n1 <= Accepted(i0[inum], off0, |src|)
               && (i + n1 == |src| || (i + n1) % CHUNK == 0)
    requires off <= i1[inum].size && off0 <= i0[inum].size && OthersKept(b1, i1, b2, i2, inum) && NoHoles(b2, i2[inum])
    requires Content(b2, i2[inum]) == Splice(Content(b1, i1[inum]), off, src[i..i + n1])
    requires Filled(b1, i1[inum], b2, i2[inum], off / BSIZE, Hi(off, n1))
    requires inum < |i2| && i2[inum] == i1[inum].(addrs := i2[inum].addrs, size := i2[inum].size)
    requires o2 == o1 + WriteCost(b1, i1[inum], off, n1)
    requires WriteCost(b0, i0[inum], off0, i + n1)
               == WriteCost(b0, i0[inum], off0, i) + WriteCost(b1, i1[inum], off, n1)
    ensures GoingAt(b0, i0, o0, b2, i2, o2, inum, off0, off + n1, src, i + n1)
  {
    hide Filled, WriteCost, Content, Splice, OthersKept, NoHoles, Accepted;
    NextChunk(b0, i0, b1, i1, b2, i2, inum, off0, off, src, i, n1);
    HiTwice(off0, i, n1);
    FilledTwice(b0, i0[inum], b1, i1[inum], b2, i2[inum], off0 / BSIZE, Hi(off0, i), off / BSIZE, Hi(off0, i + n1));
  }

  lemma SplicedSize(b0: seq<Block>, ip0: Inode, b1: seq<Block>, ip1: Inode, off0: nat, d: seq<byte>)
    requires ip0.size <= MAXFILE * BSIZE && ip1.size <= MAXFILE * BSIZE && off0 <= ip0.size
    requires Content(b1, ip1) == Splice(Content(b0, ip0), off0, d)
    ensures off0 + |d| <= ip1.size
  {
    assert |Content(b1, ip1)| == ip1.size && |Content(b0, ip0)| == ip0.size;
    SpliceReads(Content(b0, ip0), off0, d);
  }

  lemma SizeBound(b: seq<Block>, ip: Inode)
    requires NoHoles(b, ip)
    ensures ip.size <= MAXFILE * BSIZE
  {
  }

  lemma SameSize(b0: seq<Block>, ip0: Inode, b1: seq<Block>, ip1: Inode)
    requires ip0.size <= MAXFILE * BSIZE && ip1.size <= MAXFILE * BSIZE && Content(b1, ip1) == Content(b0, ip0)
    ensures ip1.size == ip0.size
  {
    assert |Content(b1, ip1)| == ip1.size && |Content(b0, ip0)| == ip0.size;
  }

  // ----- reading, which allocates where a file has holes -----

  /** Blocks lo..hi-1 of the file are there. */
  ghost predicate AllThere(blocks: seq<Block>, ip: Inode, lo: nat, hi: nat) {
    forall k | lo <= k < hi && k < MAXFILE :: Val(blocks, ip, k) != 0
  }

  lemma {:induction false} MissingZero(blocks: seq<Block>, ip: Inode, lo: nat, hi: nat)
    requires lo <= hi <= MAXFILE
    ensures Missing(blocks, ip, lo, hi) == 0 ==> AllThere(blocks, ip, lo, hi)
  {
    if lo < hi { MissingZero(blocks, ip, lo, hi - 1); }
  }

  /** A read takes no block if and only if all it touches is there, as in a file without holes. */
  lemma NothingToFill(blocks: seq<Block>, ip: Inode, off: nat, m: nat)
    requires off + m <= ip.size <= MAXFILE * BSIZE
    ensures WriteCost(blocks, ip, off, m) == 0 <==> AllThere(blocks, ip, off / BSIZE, Hi(off, m))
    ensures NoHoles(blocks, ip) ==> WriteCost(blocks, ip, off, m) == 0
  {
    HiGrows(off, m, m);
    var lo, hi := off / BSIZE, Hi(off, m);
    MissingZero(blocks, ip, lo, hi);
    if AllThere(blocks, ip, lo, hi) {
      MissingNone(blocks, ip, lo, hi);
    }
  }

  /** d has been read from off on: only places it touches have been filled, and no byte of any file changed. */
  ghost predicate ReadTo(b0: seq<Block>, i0: seq<Inode>, o0: nat, b: seq<Block>, ino: seq<Inode>, o: nat,
                         inum: nat, off: nat, d: seq<byte>)
  {
    && |ino| == |i0| && inum < |i0| && ino[inum] == i0[inum].(addrs := ino[inum].addrs)
    && (forall i | 0 <= i < |ino| && i != inum :: ino[i] == i0[i])
    && SameBytes(b0, i0, b, ino) && o == o0 + WriteCost(b0, i0[inum], off, |d|)
    && i0[inum].size <= MAXFILE * BSIZE && off + |d| <= i0[inum].size && d == Content(b0, i0[inum])[off..off + |d|]
    && Filled(b0, i0[inum], b, ino[inum], off / BSIZE, Hi(off, |d|))
  }

  lemma ReadNothing(b0: seq<Block>, i0: seq<Inode>, o0: nat, inum: nat, off: nat)
    requires inum < |i0| && off <= i0[inum].size <= MAXFILE * BSIZE
    ensures ReadTo(b0, i0, o0, b0, i0, o0, inum, off, [])
  {
  }

  lemma SameContent(b0: seq<Block>, i0: seq<Inode>, b: seq<Block>, ino: seq<Inode>, inum: nat)
    requires SameBytes(b0, i0, b, ino) && inum < |i0| == |ino| && ino[inum].size == i0[inum].size <= MAXFILE * BSIZE
    ensures Content(b, ino[inum]) == Content(b0, i0[inum])
  {
    forall pos | 0 <= pos < i0[inum].size ensures Content(b, ino[inum])[pos] == Content(b0, i0[inum])[pos] {
      assert ByteAt(b, ino[inum], pos) == ByteAt(b0, i0[inum], pos);
    }
  }

  lemma SameBytesTwice(b0: seq<Block>, i0: seq<Inode>, b1: seq<Block>, i1: seq<Inode>, b2: seq<Block>, i2: seq<Inode>)
    requires SameBytes(b0, i0, b1, i1) && SameBytes(b1, i1, b2, i2) && |i0| == |i1| == |i2|
    ensures SameBytes(b0, i0, b2, i2)
  {
    forall i, pos | 0 <= i < |i0| && 0 <= pos < MAXFILE * BSIZE
      ensures ByteAt(b2, i2[i], pos) == ByteAt(b0, i0[i], pos)
    {
      assert ByteAt(b1, i1[i], pos) == ByteAt(b0, i0[i], pos);
    }
  }

  /** Mapping one block fills that block's place, at its cost. */
  lemma BmapFills(b0: seq<Block>, i0: seq<Inode>, b: seq<Block>, ino: seq<Inode>, inum: nat, k: nat)
    requires Mapped(b0, i0, b, ino, inum, k) && k < MAXFILE && Val(b, ino[inum], k) != 0
    requires k < NDIRECT ==> ino[inum].addrs[NDIRECT] == i0[inum].addrs[NDIRECT]
    ensures Filled(b0, i0[inum], b, ino[inum], k, k + 1)
  {
    hide SameBytes;
    assert Val(b, ino[inum], MAXFILE) == ino[inum].addrs[NDIRECT]
        && Val(b0, i0[inum], MAXFILE) == i0[inum].addrs[NDIRECT];
  }

  lemma NeedIsCost(blocks: seq<Block>, ip: Inode, pos: nat, len: nat)
    requires 0 < len && pos % BSIZE + len <= BSIZE && pos + len <= MAXFILE * BSIZE
    ensures pos / BSIZE < MAXFILE && Hi(pos, len) == pos / BSIZE + 1
              && WriteCost(blocks, ip, pos, len) == Need(blocks, ip, pos / BSIZE)
  {
    MissingNext(blocks, ip, pos / BSIZE, pos / BSIZE);
  }

  /** One block more. */
  lemma ReadMore(b0: seq<Block>, i0: seq<Inode>, o0: nat, b1: seq<Block>, i1: seq<Inode>, o1: nat,
                 b2: seq<Block>, i2: seq<Inode>, o2: nat, inum: nat, off: nat, d: seq<byte>, piece: seq<byte>)
    requires ReadTo(b0, i0, o0, b1, i1, o1, inum, off, d)
    requires var pos := off + |d|; var k := pos / BSIZE;
      && 0 < |piece| && pos % BSIZE + |piece| <= BSIZE && pos + |piece| <= i0[inum].size
      && k < MAXFILE && Mapped(b1, i1, b2, i2, inum, k) && 0 != Val(b2, i2[inum], k) < |b2|
      && (k < NDIRECT ==> i2[inum].addrs[NDIRECT] == i1[inum].addrs[NDIRECT])
      && o2 == o1 + Need(b1, i1[inum], k)
      && piece == b2[Val(b2, i2[inum], k)][pos % BSIZE..pos % BSIZE + |piece|]
    ensures ReadTo(b0, i0, o0, b2, i2, o2, inum, off, d + piece)
  {
    hide SameBytes, Filled, Content, Val, Need, WriteCost, Hi;
    var pos, n := off + |d|, |piece|;
    var k := pos / BSIZE;
    BmapFills(b1, i1, b2, i2, inum, k);
    NeedIsCost(b1, i1[inum], pos, n);
    HiTwice(off, |d|, n);
    WriteCostTwice(b0, i0[inum], b1, i1[inum], off, |d|, n);
    FilledTwice(b0, i0[inum], b1, i1[inum], b2, i2[inum], off / BSIZE, Hi(off, |d|), k, k + 1);
    SameBytesTwice(b0, i0, b1, i1, b2, i2);
    SameContent(b0, i0, b2, i2, inum);
    SliceOfContent(b2, i2[inum], pos, n);
    ContentSize(b0, i0[inum]);
    SliceJoin(Content(b0, i0[inum]), off, pos, pos + n);
  }

  lemma SliceJoin(c: seq<byte>, a: nat, b: nat, d: nat)
    requires a <= b <= d <= |c|
    ensures c[a..b] + c[b..d] == c[a..d]
  {
  }

  // ----- truncation -----

  /** The blocks in places 0..k-1 of inode inum have been freed in the bitmap, and nothing else. */
  ghost predicate Freed(l: Layout, b0: seq<Block>, owner: map<word, Slot>, blocks: seq<Block>, inum: nat, k: nat) {
    && |blocks| == |b0|
    && (forall x | 0 <= x < |b0| && (x < l.bmapstart || l.data <= x) :: blocks[x] == b0[x])
    && (forall c: nat {:trigger BitmapBit(l, blocks, c)} | c < l.size ::
          && l.BBlock(c) < |blocks|
          && (BitmapBit(l, blocks, c) <==>
               BitmapBit(l, b0, c) && !(c in owner && owner[c].inum == inum && owner[c].k < k)))
  }

  lemma FreedNone(l: Layout, b0: seq<Block>, ino: seq<Inode>, owner: map<word, Slot>, inum: nat)
    requires Owned(l, b0, ino, owner)
    ensures Freed(l, b0, owner, b0, inum, 0)
  {
    forall c: nat | c < l.size ensures l.BBlock(c) < |b0| {
      BitmapIsMetadata(l, b0, ino, owner, c);
    }
  }

  /** An empty place has nothing to free. */
  lemma FreedSkip(l: Layout, b0: seq<Block>, ino: seq<Inode>, owner: map<word, Slot>, blocks: seq<Block>, inum: nat,
                  k: nat, k2: nat)
    requires Owned(l, b0, ino, owner) && inum < |ino| && k <= k2 <= MAXFILE + 1 && Freed(l, b0, owner, blocks, inum, k)
    requires forall j | k <= j < k2 :: Val(b0, ino[inum], j) == 0
    ensures Freed(l, b0, owner, blocks, inum, k2)
  {
    forall c: nat | c < l.size
      ensures l.BBlock(c) < |blocks|
      ensures BitmapBit(l, blocks, c) <==>
                BitmapBit(l, b0, c) && !(c in owner && owner[c].inum == inum && owner[c].k < k2)
    {
      SlotFacts(l, b0, ino, owner, c);
      assert BitmapBit(l, blocks, c) <==>
               BitmapBit(l, b0, c) && !(c in owner && owner[c].inum == inum && owner[c].k < k);
    }
  }

  /** What a slot of the owner map says, and what the bitmap says of its block. */
  lemma SlotFacts(l: Layout, b0: seq<Block>, ino: seq<Inode>, owner: map<word, Slot>, c: nat)
    requires Owned(l, b0, ino, owner) && c < l.size
    ensures l.BBlock(c) < l.data && l.BBlock(c) < |b0| && (BitmapBit(l, b0, c) <==> c < l.data || c in owner)
    ensures c in owner ==>
              0 < c && owner[c].inum < |ino| && owner[c].k <= MAXFILE && Val(b0, ino[owner[c].inum], owner[c].k) == c
  {
    assert BitmapBit(l, b0, c) <==> c < l.data || c in owner by { BitmapIsMetadata(l, b0, ino, owner, c); }
  }

  /** The block in place k is marked when its turn comes, and freeing it clears just its bit. */
  lemma FreedOne(l: Layout, b0: seq<Block>, ino: seq<Inode>, owner: map<word, Slot>, blocks: seq<Block>, inum: nat,
                 k: nat)
    requires Owned(l, b0, ino, owner) && inum < |ino| && k <= MAXFILE && Freed(l, b0, owner, blocks, inum, k)
    requires Val(b0, ino[inum], k) != 0
    ensures Val(b0, ino[inum], k) < l.size && l.BBlock(Val(b0, ino[inum], k)) < |blocks| == |b0| <= WORDLIMIT
    ensures BitmapBit(l, blocks, Val(b0, ino[inum], k))
    ensures Freed(l, b0, owner, AfterFree(l, blocks, Val(b0, ino[inum], k)), inum, k + 1)
  {
    hide Owned;
    var a := Val(b0, ino[inum], k);
    OwnedShape(l, b0, ino, owner);
    OwnedVal(l, b0, ino, owner, inum, k);
    SlotFacts(l, b0, ino, owner, a);
    var r := AfterFree(l, blocks, a);
    forall c: nat | c < l.size
      ensures l.BBlock(c) < |r|
      ensures BitmapBit(l, r, c) <==>
                BitmapBit(l, b0, c) && !(c in owner && owner[c].inum == inum && owner[c].k < k + 1)
    {
      SlotFacts(l, b0, ino, owner, c);
      assert BitmapBit(l, blocks, c) <==>
               BitmapBit(l, b0, c) && !(c in owner && owner[c].inum == inum && owner[c].k < k);
      if l.BBlock(c) == l.BBlock(a) {
        BitUpdates(blocks[l.BBlock(a)], a % BPB, c % BPB);
      }
    }
  }

  lemma FreedKeepsInodes(l: Layout, b0: seq<Block>, owner: map<word, Slot>, blocks: seq<Block>, inum: nat, k: nat)
    requires Freed(l, b0, owner, blocks, inum, k)
    ensures InodesKept(l, b0, blocks)
  {
  }

  function AfterFree(l: Layout, blocks: seq<Block>, b: nat): (r: seq<Block>)
    requires l.BBlock(b) < |blocks|
  {
    blocks[l.BBlock(b) := ClearBit(blocks[l.BBlock(b)], b % BPB)]
  }

  function Emptied(ip: Inode): (r: Inode) {
    ip.(addrs := seq(NDIRECT + 1, _ => 0))
  }

  function WithoutInode(owner: map<word, Slot>, inum: nat): map<word, Slot> {
    map b | b in owner && owner[b].inum != inum :: owner[b]
  }

  /** With every place of one inode freed and emptied, ownership loses exactly its blocks. */
  lemma TruncOwned(l: Layout, b0: seq<Block>, ino: seq<Inode>, owner: map<word, Slot>, blocks: seq<Block>, inum: nat)
    requires Owned(l, b0, ino, owner) && inum < |ino| && Freed(l, b0, owner, blocks, inum, MAXFILE + 1)
    ensures Owned(l, blocks, ino[inum := Emptied(ino[inum])], WithoutInode(owner, inum))
    ensures OthersKept(b0, ino, blocks, ino[inum := Emptied(ino[inum])], inum)
  {
    var ino2 := ino[inum := Emptied(ino[inum])];
    SameOutside(l, b0, blocks, ino, owner);
    forall i, k | 0 <= i < |ino| && 0 <= k <= MAXFILE
      ensures Val(blocks, ino2[i], k) == if i == inum then 0 else Val(b0, ino[i], k)
    {
      assert Val(blocks, ino[i], k) == Val(b0, ino[i], k);
    }
    forall j, pos | 0 <= j < |ino| && j != inum && 0 <= pos < MAXFILE * BSIZE
      ensures ByteAt(blocks, ino2[j], pos) == ByteAt(b0, ino[j], pos)
    {
      assert ByteAt(blocks, ino[j], pos) == ByteAt(b0, ino[j], pos);
    }
    TruncParts(l, b0, ino, owner, blocks, ino2, inum);
  }

  lemma TruncParts(l: Layout, b0: seq<Block>, ino: seq<Inode>, owner: map<word, Slot>, blocks: seq<Block>,
                   ino2: seq<Inode>, inum: nat)
    requires Owned(l, b0, ino, owner) && inum < |ino| == |ino2| && Freed(l, b0, owner, blocks, inum, MAXFILE + 1)
    requires forall i, k | 0 <= i < |ino| && 0 <= k <= MAXFILE ::
               Val(blocks, ino2[i], k) == (if i == inum then 0 else Val(b0, ino[i], k))
    ensures Owned(l, blocks, ino2, WithoutInode(owner, inum))
  {
    forall b: nat | b < l.size
      ensures l.BBlock(b) < l.data && (BitmapBit(l, blocks, b) <==> b < l.data || b in WithoutInode(owner, inum))
    {
      BitmapIsMetadata(l, b0, ino, owner, b);
      assert BitmapBit(l, b0, b) <==> b < l.data || b in owner;
    }
  }

  // ----- the log records of an operation -----

  datatype Write = Write(b: word, data: Block)

  function Replay(img: seq<Block>, ws: seq<Write>): (r: seq<Block>)
    ensures |r| == |img|
  {
    if ws == [] then img
    else
      var r, w := Replay(img, ws[..|ws|-1]), ws[|ws|-1];
      if w.b < |r| then r[w.b := w.data] else r
  }

  function Written(ws: seq<Write>): set<word> {
    set w | w in ws :: w.b
  }

  lemma ReplaySnoc(img: seq<Block>, ws: seq<Write>, w: Write)
    requires w.b < |img|
    ensures Replay(img, ws + [w]) == Replay(img, ws)[w.b := w.data]
    ensures Written(ws + [w]) == Written(ws) + {w.b}
  {
    assert (ws + [w])[..|ws|] == ws;
    forall x | x in Written(ws) + {w.b} ensures x in Written(ws + [w]) {
      if x in Written(ws) {
        var v :| v in ws && v.b == x;
        assert v in ws + [w];
      } else {
        assert w in ws + [w];
      }
    }
  }

  lemma ReplayNothing(img: seq<Block>)
    ensures Replay(img, []) == img && Written([]) == {}
  {
  }

  // ----- operations one after the other -----

  /** The image after the log records of whole operations, in order. */
  function ReplayAll(img: seq<Block>, wss: seq<seq<Write>>): (r: seq<Block>)
    ensures |r| == |img|
  {
    if wss == [] then img else Replay(ReplayAll(img, wss[..|wss|-1]), wss[|wss|-1])
  }

  ghost predicate AllSynced(l: Layout, blocks: seq<Block>, ino: seq<Inode>) {
    forall i | 0 <= i < |ino| :: Synced(l, blocks, ino[i], i)
  }

  /** A file system with these inodes on the disk and every block accounted for. */
  ghost predicate Intact(l: Layout, img: seq<Block>, ino: seq<Inode>, owner: map<word, Slot>) {
    Owned(l, img, ino, owner) && AllSynced(l, img, ino)
  }

  ghost predicate Consistent(l: Layout, img: seq<Block>) {
    exists ino, owner :: Intact(l, img, ino, owner)
  }

  /** The log records of one operation: within its budget, and nothing below the inode blocks. */
  ghost predicate FineOp(l: Layout, ws: seq<Write>) {
    |Written(ws)| <= MAXOPBLOCKS && forall b | b in Written(ws) :: l.inodestart <= b < l.size
  }

  lemma FineInLog(l: Layout, ws: seq<Write>, lh: set<word>)
    requires Written(ws) <= lh && |lh| <= MAXOPBLOCKS && forall b | b in Written(ws) :: l.inodestart <= b < l.size
    ensures FineOp(l, ws)
  {
    assert lh == Written(ws) + (lh - Written(ws));
  }

  /** At the start and after each of the operations the image is consistent. */
  ghost predicate Past(l: Layout, origin: seq<Block>, ended: seq<seq<Write>>) {
    && (forall k | 0 <= k < |ended| :: FineOp(l, ended[k]))
    && (forall k {:trigger ended[..k]} | 0 <= k <= |ended| :: Consistent(l, ReplayAll(origin, ended[..k])))
  }

  lemma PastStep(l: Layout, origin: seq<Block>, ended: seq<seq<Write>>, ws: seq<Write>, ino: seq<Inode>,
                 owner: map<word, Slot>)
    requires Past(l, origin, ended) && FineOp(l, ws)
    requires Intact(l, Replay(ReplayAll(origin, ended), ws), ino, owner)
    ensures Past(l, origin, ended + [ws])
    ensures ReplayAll(origin, ended + [ws]) == Replay(ReplayAll(origin, ended), ws)
  {
    var more := ended + [ws];
    assert more[..|ended|] == ended;
    forall k | 0 <= k <= |more| ensures Consistent(l, ReplayAll(origin, more[..k])) {
      if k <= |ended| {
        assert more[..k] == ended[..k];
      } else {
        assert more[..k] == more;
      }
    }
  }
}
