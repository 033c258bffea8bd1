/** The buffer cache of bio.c over the in-memory disk of memide.c: a fixed pool of buffers on a
    circular doubly linked list, most recently released first. */
module BufferCache {
  import opened Blocks

  const NBUF := 30
  const DISKDEV := 1

  class Buf {
    var valid: bool       // B_VALID
    var dirty: bool       // B_DIRTY
    var dev: nat
    var blockno: word
    var locked: bool      // the sleep lock
    var refcnt: nat
    var prev: Buf?
    var next: Buf?
    var data: Block
    ghost var released: nat   // when refcnt last dropped to 0, or when binit linked it

    /** A static buffer: zero in every field. */
    constructor ()
      ensures !valid && !dirty && dev == 0 && blockno == 0 && !locked && refcnt == 0
    {
      valid, dirty, dev, blockno, locked, refcnt := false, false, 0, 0, false, 0;
      prev, next, data, released := null, null, Zeros(), 0;
    }

    /** Holds block `no` of the disk and its contents. */
    ghost predicate Holds(no: int)
      reads this`valid, this`blockno
    {
      valid && blockno == no
    }

    /** The test of bget's second loop. */
    predicate Recyclable()
      reads this`refcnt, this`dirty
    {
      refcnt == 0 && !dirty
    }
  }

  datatype Snap = Snap(dev: nat, blockno: word, dirty: bool, valid: bool, data: Block)

  class Bcache {
    const head: Buf
    const bufs: seq<Buf>
    var disk: seq<Block>

    ghost var order: seq<Buf>     // the list from head.next on
    ghost var view: seq<Block>    // the latest contents of every block
    ghost var clock: nat

    ghost function Repr(): set<object> {
      {this, head} + set b | b in bufs
    }

    /** `o` is the linked list, head excluded. */
    ghost predicate Ring(o: seq<Buf>)
      reads head`prev, head`next, o`prev, o`next
    {
      && head !in bufs
      && (forall i | 0 <= i < |o| :: o[i] in bufs)
      && (forall i, j | 0 <= i < j < |o| :: o[i] != o[j])
      && head.next == Node(o, 0) && head.prev == Node(o, |o| - 1)
      && (forall i {:trigger o[i].next} | 0 <= i < |o| :: o[i].next == Node(o, i + 1))
      && (forall i {:trigger o[i].prev} | 0 <= i < |o| :: o[i].prev == Node(o, i - 1))
    }

    /** The i-th buffer of `o`, and head at either end. */
    ghost function Node(o: seq<Buf>, i: int): Buf {
      if 0 <= i < |o| then o[i] else head
    }

    ghost predicate Distinct() {
      forall i, j | 0 <= i < j < |bufs| :: bufs[i] != bufs[j]
    }

    /** Most recently released first. */
    ghost predicate ByRelease(o: seq<Buf>)
      reads o`released, this`clock
    {
      && (forall i, j | 0 <= i < j < |o| :: o[i].released > o[j].released)
      && (forall i | 0 <= i < |o| :: o[i].released < clock)
    }

    ghost predicate OneBufferPerBlock()
      reads bufs`dev, bufs`blockno
    {
      forall b, c {:trigger b.blockno, c.blockno} | b in bufs && c in bufs && b.dev == c.dev != 0
          && b.blockno == c.blockno :: b == c
    }

    /** Every flag, lock and content field of one buffer is consistent with the disk and the view. */
    ghost predicate Coherent(b: Buf)
      reads b`valid, b`dirty, b`dev, b`blockno, b`locked, b`refcnt, b`data, this`disk, this`view
    {
      && |view| == |disk|
      && (b.locked ==> b.refcnt > 0)
      && (b.dirty ==> b.valid)
      && (b.valid ==> b.dev == DISKDEV && b.blockno < |disk| && b.data == view[b.blockno])
      && (b.valid && !b.locked && !b.dirty ==> b.data == disk[b.blockno])
    }

    /** The list links every buffer of the pool once. */
    ghost predicate Linked()
      reads this`order, this`clock, head`prev, head`next, order`prev, order`next, order`released
    {
      && |bufs| == |order| == NBUF && Distinct()
      && Ring(order) && (forall b | b in bufs :: b in order) && ByRelease(order)
    }

    ghost predicate Contents()
      reads this`disk, this`view, bufs`valid, bufs`dirty, bufs`dev, bufs`blockno, bufs`locked, bufs`refcnt, bufs`data
    {
      && |view| == |disk|
      && OneBufferPerBlock()
      && (forall b | b in bufs :: Coherent(b))
      && (forall k | 0 <= k < |disk| && view[k] != disk[k] :: SomeHolds(k))
    }

    ghost predicate SomeHolds(k: int)
      reads bufs`valid, bufs`blockno
    {
      exists b :: b in bufs && b.Holds(k)
    }

    ghost predicate Valid()
      reads this, head, bufs, order
    {
      Linked() && Contents()
    }

    /** A static buffer as it is before any use. */
    ghost predicate Blank(b: Buf)
      reads b`valid, b`dirty, b`dev, b`locked, b`refcnt
    {
      !b.valid && !b.dirty && b.dev == 0 && !b.locked && b.refcnt == 0
    }

    /** The static pool over an image of the disk, linked by binit. */
    constructor (image: seq<Block>)
      ensures Valid() && fresh(Repr()) && disk == image && view == image
      ensures Quiet() && Pinned() == {}
    {
      var h := new Buf();
      var pool: seq<Buf> := [];
      while |pool| < NBUF
        invariant |pool| <= NBUF
        invariant fresh(h) && forall b | b in pool :: fresh(b) && b != h
        invariant forall i, j | 0 <= i < j < |pool| :: pool[i] != pool[j]
        invariant forall b | b in pool ::
          !b.valid && !b.dirty && b.dev == 0 && !b.locked && b.refcnt == 0
      {
        var b := new Buf();
        pool := pool + [b];
      }
      head, bufs, disk := h, pool, image;
      order, view, clock := [], image, 0;
      new;
      assert forall x | x in Repr() :: fresh(x);
      Binit();
      assert forall b | b in bufs :: Blank(b);
    }

    method Binit()
      requires |bufs| == NBUF && Distinct() && head !in bufs && disk == view && clock == 0 && order == []
      requires forall b | b in bufs :: Blank(b)
      modifies Repr()
      ensures Valid() && disk == old(disk)
      ensures forall b | b in bufs :: Blank(b)
    {
      head.prev := head;
      head.next := head;
      for i := 0 to |bufs|
        invariant |order| == i && Ring(order) && ByRelease(order)
        invariant disk == old(disk) && view == old(view)
        invariant forall k | 0 <= k < i :: order[k] == bufs[i - 1 - k]
        invariant forall b | b in bufs :: Blank(b)
      {
        assert bufs[i] !in order;
        PushFront(bufs[i]);
      }
      forall b | b in bufs ensures b in order {
        var j :| 0 <= j < |bufs| && bufs[j] == b;
        assert order[|bufs| - 1 - j] == b;
      }
    }

    /** Link b at the front of the list as the most recently released. */
    method PushFront(b: Buf)
      requires Ring(order) && ByRelease(order) && b in bufs && b !in order && head !in bufs
      requires forall x | x in order :: x in bufs
      modifies bufs`prev, bufs`next, bufs`released, head`prev, head`next, this`order, this`clock
      ensures order == [b] + old(order) && Ring(order) && ByRelease(order)
    {
      InsertFront(b, order);
      Stamp(b, order);
      order := [b] + order;
    }

    /** Record that b is now the most recently released. */
    ghost method Stamp(b: Buf, o: seq<Buf>)
      requires b in bufs && b !in o && ByRelease(o)
      modifies this`clock, bufs`released
      ensures ByRelease([b] + o)
    {
      b.released := clock;
      clock := clock + 1;
    }

    /** Insert at the front of the list. */
    method InsertFront(b: Buf, ghost o: seq<Buf>)
      requires Ring(o) && b in bufs && b !in o
      modifies bufs`prev, bufs`next, head`prev, head`next
      ensures Ring([b] + o)
    {
      b.next := head.next;
      b.prev := head;
      head.next.prev := b;
      head.next := b;
    }

    method Unlink(b: Buf, ghost o: seq<Buf>, ghost k: nat)
      requires Ring(o) && k < |o| && o[k] == b
      modifies bufs`prev, bufs`next, head`prev, head`next
      ensures Ring(Without(o, k))
    {
      WithoutNodes(o, k);
      b.next.prev := b.prev;
      b.prev.next := b.next;
      ghost var r := Without(o, k);
      assert forall i | 0 <= i < |r| :: r[i] in bufs;
      assert head.next == Node(r, 0) && head.prev == Node(r, |r| - 1);
      assert forall i {:trigger r[i].next} | 0 <= i < |r| :: r[i].next == Node(r, i + 1);
      assert forall i {:trigger r[i].prev} | 0 <= i < |r| :: r[i].prev == Node(r, i - 1);
    }

    ghost function Without(o: seq<Buf>, k: nat): (r: seq<Buf>)
      requires k < |o|
      ensures |r| == |o| - 1
      ensures forall i | 0 <= i < |r| :: r[i] == if i < k then o[i] else o[i + 1]
    {
      o[..k] + o[k+1..]
    }

    lemma WithoutNodes(o: seq<Buf>, k: nat)
      requires k < |o| && forall i, j | 0 <= i < j < |o| :: o[i] != o[j]
      ensures var r := Without(o, k);
        && |r| == |o| - 1 && (forall i | 0 <= i < |r| :: r[i] == if i < k then o[i] else o[i + 1])
        && o[k] !in r && (forall c | c in o && c != o[k] :: c in r)
        && (forall i {:trigger Node(r, i)} | -1 <= i <= |r| :: Node(r, i) == Node(o, if i < k then i else i + 1))
        && (forall i, j | 0 <= i < j < |r| :: r[i] != r[j])
    {
      var r := Without(o, k);
      forall c | c in o && c != o[k] ensures c in r {
        var j :| 0 <= j < |o| && o[j] == c;
        assert r[if j < k then j else j - 1] == c;
      }
    }

    // ----- bget, bread, bwrite, brelse -----

    ghost predicate Cached(c: Buf, dev: nat, blockno: word)
      reads c`dev, c`blockno
    {
      c in bufs && c.dev == dev && c.blockno == blockno
    }

    /** Return the buffer of a block, found or recycled, with a reference counted; null where the
        kernel panics with "no buffers". A found buffer keeps its contents; otherwise the buffer
        released longest ago among those unused and clean is emptied for the block. */
    method Bget(dev: nat, blockno: word) returns (b: Buf?)
      requires Valid() && dev != 0
      modifies bufs`refcnt, bufs`dev, bufs`blockno, bufs`valid, bufs`dirty
      ensures Valid()
      ensures b != null ==> Cached(b, dev, blockno) && b.refcnt == old(b.refcnt) + 1
      ensures b != null ==> forall c | c in bufs && c != b :: unchanged(c)
      ensures forall c | c in bufs && old(Cached(c, dev, blockno)) ::
                b == c && c.valid == old(c.valid) && c.dirty == old(c.dirty)
      ensures (forall c | c in bufs :: !old(Cached(c, dev, blockno))) ==>
                && (b == null <==> forall c | c in bufs :: !old(c.Recyclable()))
                && (b != null ==> old(b.Recyclable()) && !b.valid && !b.dirty)
                && (b != null ==> forall c | c in bufs && old(c.Recyclable()) :: b.released <= c.released)
      ensures b == null ==> forall c | c in bufs :: unchanged(c)
    {
      hide Linked;
      b := FindCached(dev, blockno);
      if b != null {
        assert forall c | c in bufs && Cached(c, dev, blockno) :: c == b;
        AddReference(b);
      } else {
        b := FindVictim();
        if b != null {
          Recycle(b, dev, blockno);
        }
      }
      LinksKept();
    }

    /** Changing contents, flags and locks leaves the list as it was. */
    twostate lemma LinksKept()
      requires old(Linked()) && order == old(order) && clock == old(clock)
      requires unchanged(head`prev) && unchanged(head`next)
      requires forall b | b in bufs :: unchanged(b`prev) && unchanged(b`next) && unchanged(b`released)
      ensures Linked()
    {
    }

    /** Moving buffers on the list changes no contents. */
    twostate lemma ContentsKept()
      requires old(Contents()) && disk == old(disk) && view == old(view)
      requires forall b | b in bufs ::
        && unchanged(b`valid) && unchanged(b`dirty) && unchanged(b`dev) && unchanged(b`blockno)
        && unchanged(b`locked) && unchanged(b`refcnt) && unchanged(b`data)
      ensures Contents()
    {
    }

    /** bget's first loop. */
    method FindCached(dev: nat, blockno: word) returns (b: Buf?)
      requires Linked()
      ensures b != null ==> Cached(b, dev, blockno)
      ensures b == null ==> forall c | c in bufs :: !Cached(c, dev, blockno)
    {
      b := head.next;
      ghost var i := 0;
      while b != head
        invariant 0 <= i <= |order| && b == Node(order, i)
        invariant forall j | 0 <= j < i :: !Cached(order[j], dev, blockno)
        decreases |order| - i
      {
        if b.dev == dev && b.blockno == blockno {
          return;
        }
        b, i := b.next, i + 1;
      }
      return null;
    }

    /** bget's second loop: the unused clean buffer released longest ago. */
    method FindVictim() returns (b: Buf?)
      requires Linked()
      ensures b != null ==> b in bufs && b.Recyclable()
      ensures b != null ==> forall c | c in bufs && c.Recyclable() :: b.released <= c.released
      ensures b == null ==> forall c | c in bufs :: !c.Recyclable()
    {
      b := head.prev;
      ghost var i := |order| - 1;
      while b != head
        invariant -1 <= i < |order| && b == Node(order, i)
        invariant forall j | i < j < |order| :: !order[j].Recyclable()
        decreases i
      {
        if b.refcnt == 0 && !b.dirty {
          forall c | c in bufs && c.Recyclable() ensures b.released <= c.released {
            var j :| 0 <= j < |order| && order[j] == c;
          }
          return;
        }
        b, i := b.prev, i - 1;
      }
      return null;
    }

    method AddReference(b: Buf)
      requires Contents() && b in bufs
      modifies b`refcnt
      ensures Contents() && b.refcnt == old(b.refcnt) + 1
    {
      b.refcnt := b.refcnt + 1;
    }

    method Recycle(b: Buf, dev: nat, blockno: word)
      requires Contents() && dev != 0 && b in bufs && b.Recyclable()
      requires forall c | c in bufs :: !Cached(c, dev, blockno)
      modifies b`refcnt, b`dev, b`blockno, b`valid, b`dirty
      ensures Contents()
      ensures Cached(b, dev, blockno) && b.refcnt == 1 && !b.valid && !b.dirty
    {
      assert Coherent(b);
      assert b.valid ==> view[b.blockno] == disk[b.blockno];
      b.dev := dev;
      b.blockno := blockno;
      b.valid, b.dirty := false, false;
      b.refcnt := 1;
      forall k | 0 <= k < |disk| && view[k] != disk[k] ensures SomeHolds(k) {
        assert old(SomeHolds(k));
        var c: Buf :| c in bufs && old(c.Holds(k));
        assert c != b;
        assert c.Holds(k);
      }
    }

    /** A buffer that bread has returned and nobody has released. */
    ghost predicate Held(b: Buf)
      reads b`locked, b`valid
    {
      b in bufs && b.locked && b.valid
    }

    method AcquireSleep(b: Buf)
      requires Contents() && b in bufs && !b.locked && b.refcnt > 0
      modifies b`locked
      ensures Contents() && b.locked
    {
      b.locked := true;
    }

    /** Synchronous transfer: a dirty buffer goes to the disk, one not valid comes from it. */
    method Iderw(b: Buf)
      requires Contents() && b in bufs && b.locked && b.dev == DISKDEV && b.blockno < |disk|
      requires !b.valid || b.dirty
      modifies this`disk, b`dirty, b`valid, b`data
      ensures Contents() && b.valid && !b.dirty && b.data == view[b.blockno]
      ensures disk == if old(b.dirty) then old(disk)[b.blockno := old(b.data)] else old(disk)
    {
      if b.dirty {
        b.dirty := false;
        disk := disk[b.blockno := b.data];
      } else {
        assert !SomeHolds(b.blockno);
        b.data := disk[b.blockno];
      }
      b.valid := true;
      forall k | 0 <= k < |disk| && view[k] != disk[k] ensures SomeHolds(k) {
        assert old(SomeHolds(k));
        var c: Buf :| c in bufs && old(c.Holds(k));
        assert c.Holds(k);
      }
    }

    /** The rest of bread: lock the buffer and read the block in unless it is there. */
    method Fill(b: Buf)
      requires Valid() && b in bufs && !b.locked && b.refcnt > 0
      requires b.dev == DISKDEV && b.blockno < |disk|
      modifies this`disk, b`locked, b`dirty, b`valid, b`data
      ensures Valid() && Held(b) && b.dirty == old(b.dirty) && disk == old(disk)
      ensures b.data == view[b.blockno] && (!b.dirty ==> b.data == disk[b.blockno])
    {
      hide Linked;
      AcquireSleep(b);
      if !b.valid {
        Iderw(b);
      }
      LinksKept();
    }

    /** The block's buffer, locked, with the latest contents of the block; null where the kernel panics because
        every buffer is in use or pinned. Where another process has the buffer locked, this one has its reference
        and waits in acquiresleep; when it gets in, Fill is what is left to do. Nothing else changes. */
    method Bread(dev: nat, blockno: word) returns (b: Buf?, waits: bool)
      requires Valid() && dev == DISKDEV && blockno < |disk|
      modifies this`disk, bufs`refcnt, bufs`dev, bufs`blockno, bufs`valid, bufs`dirty, bufs`locked, bufs`data
      ensures Valid() && disk == old(disk)
      ensures b == null <==> forall c | c in bufs :: !old(c.Recyclable()) && !old(Cached(c, dev, blockno))
      ensures waits <==> b != null && b in bufs && old(b.locked)
      ensures b != null ==>
                Cached(b, dev, blockno) && b.locked && b.refcnt == old(b.refcnt) + 1 && b.dirty == old(b.dirty)
      ensures b != null ==> old(Cached(b, dev, blockno)) || old(b.Recyclable())
      ensures waits && b != null && b in bufs ==> b.data == old(b.data) && b.valid == old(b.valid)
      ensures b != null && !waits ==> Held(b) && b.data == view[blockno] && (!b.dirty ==> b.data == disk[blockno])
      ensures forall c | c in bufs && c != b :: unchanged(c)
    {
      hide Linked, Contents;
      Unlocked();
      b := Bget(dev, blockno);
      waits := b != null && b.locked;
      if b != null && !waits {
        Fill(b);
      }
    }

    lemma Unlocked()
      requires Contents()
      ensures forall c | c in bufs && c.locked :: c.refcnt > 0
    {
      assert forall c | c in bufs :: Coherent(c);
    }

    /** The holder stores new contents: every later bread of the block delivers them. */
    method Modify(b: Buf, data: Block)
      requires Valid() && Held(b)
      modifies this`view, b`data
      ensures Valid() && b.data == data && view == old(view)[b.blockno := data]
    {
      hide Linked;
      b.data := data;
      view := view[b.blockno := data];
      forall k | 0 <= k < |disk| && view[k] != disk[k] ensures SomeHolds(k) {
        if k == b.blockno {
          assert b.Holds(k);
        } else {
          assert old(SomeHolds(k));
        }
      }
      LinksKept();
    }

    /** b->flags |= B_DIRTY: from now on the buffer cannot be recycled. */
    method Pin(b: Buf)
      requires Valid() && Held(b)
      modifies b`dirty
      ensures Valid() && b.dirty && Pinned() == old(Pinned()) + {b.blockno}
    {
      hide Linked;
      b.dirty := true;
      LinksKept();
    }

    lemma HeldInRange(b: Buf)
      requires Valid() && Held(b)
      ensures b.dev == DISKDEV && b.blockno < |disk| == |view| && b.data == view[b.blockno]
    {
      hide Linked;
      assert Coherent(b);
    }

    /** The buffer's contents reach the disk. */
    method Bwrite(b: Buf)
      requires Contents() && Held(b)
      modifies this`disk, b`dirty, b`valid, b`data
      ensures Contents() && Held(b) && !b.dirty && b.data == old(b.data)
      ensures disk == old(disk)[b.blockno := b.data]
    {
      b.dirty := true;
      Iderw(b);
    }

    /** Where b stands in the list. */
    ghost function Index(b: Buf): (k: nat)
      requires b in order
      reads this`order
      ensures k < |order| && order[k] == b
    {
      var k :| 0 <= k < |order| && order[k] == b;
      k
    }

    ghost function ToFront(o: seq<Buf>, k: nat): seq<Buf>
      requires k < |o|
    {
      [o[k]] + Without(o, k)
    }

    /** Unlock b and drop a reference; the last drop makes it the most recently released.
        A holder that changed the contents has pinned b or written it to the disk. */
    method Brelse(b: Buf)
      requires Valid() && b in bufs && b.locked
      requires b.valid && !b.dirty ==> b.data == disk[b.blockno]
      modifies b`locked, b`refcnt, bufs`prev, bufs`next, bufs`released, head`prev, head`next, this`order, this`clock
      ensures Valid() && !b.locked && b.refcnt == old(b.refcnt) - 1
      ensures order == if b.refcnt == 0 then ToFront(old(order), old(Index(b))) else old(order)
    {
      hide Linked, Contents, ToFront, Without, Index;
      ListHasAll(b);
      DropReference(b);
      LinksKept();
      label Dropped:
      if b.refcnt == 0 {
        MoveToFront(b);
        ContentsKept@Dropped();
      }
    }

    method DropReference(b: Buf)
      requires Contents() && b in bufs && b.locked
      requires b.valid && !b.dirty ==> b.data == disk[b.blockno]
      modifies b`locked, b`refcnt
      ensures Contents() && !b.locked && b.refcnt == old(b.refcnt) - 1
    {
      b.locked := false;
      b.refcnt := b.refcnt - 1;
    }

    method MoveToFront(b: Buf)
      requires Linked() && b in bufs
      modifies bufs`prev, bufs`next, bufs`released, head`prev, head`next, this`order, this`clock
      ensures Linked() && order == ToFront(old(order), old(Index(b)))
    {
      hide Without, Index, Ring, ByRelease;
      ghost var k, o := Index(b), order;
      RingFacts(o);
      ByReleaseWithout(o, k);
      WithoutNodes(o, k);
      Unlink(b, o, k);
      order := Without(o, k);
      PushFront(b);
    }

    lemma ListHasAll(b: Buf)
      requires Linked() && b in bufs
      ensures b in order
    {
    }

    lemma RingFacts(o: seq<Buf>)
      requires Ring(o)
      ensures head !in bufs && (forall i | 0 <= i < |o| :: o[i] in bufs)
      ensures forall i, j | 0 <= i < j < |o| :: o[i] != o[j]
    {
    }

    lemma ByReleaseWithout(o: seq<Buf>, k: nat)
      requires k < |o| && ByRelease(o)
      ensures ByRelease(Without(o, k))
    {
    }

    // ----- what a client of several buffers sees -----

    /** Blocks that cannot leave the cache until they are written. */
    ghost function Pinned(): set<word>
      reads bufs`dirty, bufs`blockno
    {
      set c | c in bufs && c.dirty :: c.blockno
    }

    /** Nobody holds a buffer. */
    ghost predicate Quiet()
      reads bufs`refcnt
    {
      HeldBy({})
    }

    /** The buffers in `held`, and no others, are in use. */
    ghost predicate HeldBy(held: set<Buf>)
      reads bufs`refcnt
    {
      forall c | c in bufs :: c.refcnt > 0 <==> c in held
    }

    /** None of the buffers in `held` is for the block. */
    ghost predicate Apart(held: set<Buf>, blockno: word)
      reads bufs`dev, bufs`blockno
    {
      forall c | c in bufs && c in held :: !(c.dev == DISKDEV && c.blockno == blockno)
    }

    /** Which block each of the buffers in `held` is for, and what it holds. */
    ghost function Snapshot(held: set<Buf>): map<Buf, Snap>
      reads bufs`dev, bufs`blockno, bufs`dirty, bufs`valid, bufs`data
    {
      map c | c in held && c in bufs :: Snap(c.dev, c.blockno, c.dirty, c.valid, c.data)
    }

    /** bread can find or recycle a buffer for the block that nobody uses. */
    ghost predicate Available(blockno: word)
      reads bufs`refcnt, bufs`dirty, bufs`dev, bufs`blockno
    {
      exists c | c in bufs :: c.refcnt == 0 && (!c.dirty || Cached(c, DISKDEV, blockno))
    }

    /** Buffers for two blocks can be had at once. */
    ghost predicate Room(first: word, second: word)
      reads bufs`refcnt, bufs`dirty, bufs`dev, bufs`blockno
    {
      exists c, d | c in bufs && d in bufs :: Roomy(c, d, first, second)
    }

    ghost predicate Roomy(c: Buf, d: Buf, first: word, second: word)
      requires c in bufs && d in bufs
      reads bufs`refcnt, bufs`dirty, bufs`dev, bufs`blockno
    {
      && c != d && c.refcnt == d.refcnt == 0
      && (!c.dirty || Cached(c, DISKDEV, first)) && (!d.dirty || Cached(d, DISKDEV, second))
    }

    /** Two blocks that the holders of buffers leave alone, and a buffer for the second if there is one for the
        first. */
    ghost predicate CanRead(first: word, second: word, held: set<Buf>)
      reads bufs`refcnt, bufs`dirty, bufs`dev, bufs`blockno, this`disk
    {
      && first != second && first < |disk| && second < |disk| && Apart(held, first) && Apart(held, second)
      && (Available(first) ==> Room(first, second))
    }

    twostate lemma CacheKeepsPins(b: Buf)
      requires b in bufs && forall c | c in bufs && c != b :: unchanged(c)
      requires b.dirty <==> old(b.dirty)
      requires b.dirty ==> b.blockno == old(b.blockno)
      ensures Pinned() == old(Pinned())
    {
    }

    /** bread of a block that those who hold buffers leave alone; null where the kernel panics. */
    method BreadApart(blockno: word, ghost held: set<Buf>, ghost kept: set<Buf>) returns (b: Buf?)
      requires Valid() && HeldBy(held) && Apart(held, blockno) && blockno < |disk| && kept <= held
      modifies this`disk, bufs`refcnt, bufs`dev, bufs`blockno, bufs`valid, bufs`dirty, bufs`locked, bufs`data
      ensures Valid() && disk == old(disk) && Pinned() == old(Pinned()) && Snapshot(kept) == old(Snapshot(kept))
      ensures b != null <==> old(Available(blockno))
      ensures b == null ==> HeldBy(held) && forall c | c in bufs :: unchanged(c)
      ensures b != null ==> HeldBy(held + {b}) && b !in held && forall c | c in bufs && c != b :: unchanged(c)
      ensures b != null ==> Got(b, blockno) && Cached(b, DISKDEV, blockno)
    {
      hide Linked, Contents;
      NotLocked(blockno, held);
      Unlocked();
      var waits;
      b, waits := Bread(DISKDEV, blockno);
      if b != null {
        HeldInRange(b);
        CacheKeepsPins(b);
      } else {
        NoChange();
      }
    }

    lemma NotLocked(blockno: word, held: set<Buf>)
      requires Contents() && HeldBy(held) && Apart(held, blockno)
      ensures forall c | c in bufs && c.dev == DISKDEV && c.blockno == blockno :: !c.locked
    {
      assert forall c | c in bufs :: Coherent(c);
    }

    twostate lemma NoChange()
      requires forall c | c in bufs :: unchanged(c)
      ensures Pinned() == old(Pinned())
    {
    }

    /** Copy the contents of one held buffer into another and write that to the disk. */
    method WriteCopy(dst: Buf, src: Buf, ghost kept: set<Buf>)
      requires Valid() && Held(dst) && Held(src) && dst != src && dst !in kept
      requires !src.dirty ==> src.data == disk[src.blockno]
      modifies this`view, this`disk, dst`data, dst`dirty, dst`valid
      ensures Valid() && Held(dst) && Held(src) && dst.data == src.data && !dst.dirty
                && Snapshot(kept) == old(Snapshot(kept))
      ensures disk == old(disk)[dst.blockno := src.data] && view == old(view)[dst.blockno := src.data]
      ensures Pinned() == old(Pinned()) - {dst.blockno}
      ensures !src.dirty ==> src.data == disk[src.blockno]
    {
      hide Linked, Snapshot;
      StoreThrough(dst, src.data, kept);
    }

    /** brelse, without saying where on the list the buffer goes. */
    method ReleaseOne(b: Buf)
      requires Valid() && b in bufs && b.locked
      requires b.valid && !b.dirty ==> b.data == disk[b.blockno]
      modifies b`locked, b`refcnt, bufs`prev, bufs`next, bufs`released, head`prev, head`next, this`order, this`clock
      ensures Valid() && b.refcnt == old(b.refcnt) - 1
    {
      Brelse(b);
    }

    method ReleaseTwo(b: Buf, c: Buf, ghost held: set<Buf>)
      requires Valid() && Held(b) && Held(c) && b != c && b.refcnt == c.refcnt == 1
      requires HeldBy(held + {b} + {c}) && b !in held && c !in held
      requires !b.dirty ==> b.data == disk[b.blockno]
      requires !c.dirty ==> c.data == disk[c.blockno]
      modifies bufs`locked, bufs`refcnt, bufs`prev, bufs`next, bufs`released, head`prev, head`next
      modifies this`order, this`clock
      ensures Valid() && HeldBy(held)
    {
      hide Linked;
      ReleaseOne(b);
      ReleaseOne(c);
    }

    method WriteAndRelease(dst: Buf, src: Buf, ghost held: set<Buf>)
      requires Valid() && Held(dst) && Held(src) && dst != src && dst.refcnt == src.refcnt == 1
      requires HeldBy(held + {dst} + {src}) && dst !in held && src !in held
      requires !src.dirty ==> src.data == disk[src.blockno]
      modifies Repr()
      ensures Valid() && HeldBy(held) && Snapshot(held) == old(Snapshot(held))
      ensures disk == old(disk)[old(dst.blockno) := old(src.data)]
      ensures view == old(view)[old(dst.blockno) := old(src.data)]
      ensures Pinned() == old(Pinned()) - {old(dst.blockno)}
    {
      hide Linked, Snapshot, Pinned;
      HeldSwap(dst, src, held);
      WriteCopy(dst, src, held);
      ReleaseTwo(src, dst, held);
    }

    /** One iteration of write_log or install_trans, while others hold the buffers in `held`: bread both
        blocks, copy one buffer into the other, bwrite it, release both. False where the first bread panics. */
    method CopyBlock(first: word, second: word, intoFirst: bool, ghost held: set<Buf>) returns (ok: bool)
      requires Valid() && HeldBy(held) && CanRead(first, second, held)
      modifies Repr()
      ensures Valid() && HeldBy(held) && Snapshot(held) == old(Snapshot(held)) && ok == old(Available(first))
      ensures !ok ==> disk == old(disk) && view == old(view) && Pinned() == old(Pinned())
      ensures ok && intoFirst ==>
                disk == old(disk)[first := old(view)[second]] && view == old(view)[first := old(view)[second]]
      ensures ok && intoFirst ==> Pinned() == old(Pinned()) - {first}
      ensures ok && !intoFirst ==>
                disk == old(disk)[second := old(view)[first]] && view == old(view)[second := old(view)[first]]
      ensures ok && !intoFirst ==> Pinned() == old(Pinned()) - {second}
    {
      hide Linked, Contents, CanRead, Available, Pinned;
      var b, c;
      ok, b, c := ReadTwo(first, second, held);
      if ok {
        HeldSwap(b, c, held);
        var dst, src := if intoFirst then b else c, if intoFirst then c else b;
        WriteAndRelease(dst, src, held);
      }
    }

    method ReadTwo(first: word, second: word, ghost held: set<Buf>) returns (ok: bool, b: Buf, c: Buf)
      requires Valid() && HeldBy(held) && CanRead(first, second, held)
      modifies this`disk, bufs`refcnt, bufs`dev, bufs`blockno, bufs`valid, bufs`dirty, bufs`locked, bufs`data
      ensures Valid() && disk == old(disk) && Pinned() == old(Pinned()) && Snapshot(held) == old(Snapshot(held))
      ensures ok == old(Available(first)) && (!ok ==> HeldBy(held))
      ensures ok ==> b != c && Got(b, first) && Got(c, second) && HeldBy(held + {b} + {c}) && b !in held && c !in held
    {
      hide Linked, Contents, Pinned, Available, Snapshot;
      ghost var x, y := head, head;
      if Available(first) {
        x, y :| x in bufs && y in bufs && Roomy(x, y, first, second);
      }
      b, c := head, head;
      var r := BreadApart(first, held, held);
      ok := r != null;
      if r != null {
        b := r;
        SecondAvailable(b, x, y, first, second);
        ApartFrom(b, first, second, held);
        var t := BreadApart(second, held + {b}, held);
        if t != null {
          c := t;
        }
      }
    }

    /** The block's buffer, held by one process, with the latest contents. */
    ghost predicate Got(b: Buf, blockno: word)
      reads bufs, this`disk, this`view
    {
      && b in bufs && Held(b) && b.blockno == blockno && b.refcnt == 1 && blockno < |view| && blockno < |disk|
      && b.data == view[blockno] && (!b.dirty ==> b.data == disk[blockno])
    }

    /** Of two buffers that could be had, taking one for the first block leaves one for the second. */
    lemma SecondAvailable(b: Buf, x: Buf, y: Buf, first: word, second: word)
      requires Contents() && b in bufs && x in bufs && y in bufs && x != y && Cached(b, DISKDEV, first)
      requires b != x ==> x.refcnt == 0 && (!x.dirty || Cached(x, DISKDEV, first))
      requires b != y ==> y.refcnt == 0 && (!y.dirty || Cached(y, DISKDEV, second))
      ensures Available(second)
    {
    }

    lemma ApartFrom(b: Buf, first: word, second: word, held: set<Buf>)
      requires first != second && Apart(held, second) && Cached(b, DISKDEV, first)
      ensures Apart(held + {b}, second)
    {
    }

    lemma HeldSwap(b: Buf, c: Buf, held: set<Buf>)
      requires HeldBy(held + {b} + {c})
      ensures HeldBy(held + {c} + {b})
    {
      assert held + {b} + {c} == held + {c} + {b};
    }

    /** Store new contents in a buffer, write it to the disk and release it. */
    method WriteBack(b: Buf, data: Block, ghost held: set<Buf>)
      requires Valid() && Held(b) && b.refcnt == 1 && HeldBy(held + {b}) && b !in held
      modifies Repr()
      ensures Valid() && HeldBy(held) && Snapshot(held) == old(Snapshot(held))
      ensures disk == old(disk)[old(b.blockno) := data] && view == old(view)[old(b.blockno) := data]
      ensures Pinned() == old(Pinned()) - {old(b.blockno)}
    {
      hide Linked, Snapshot, Pinned;
      StoreThrough(b, data, held);
      ReleaseOne(b);
    }

    method StoreThrough(b: Buf, data: Block, ghost kept: set<Buf>)
      requires Valid() && Held(b) && b !in kept
      modifies this`view, this`disk, b`data, b`dirty, b`valid
      ensures Valid() && Held(b) && b.data == data && !b.dirty && Snapshot(kept) == old(Snapshot(kept))
      ensures disk == old(disk)[b.blockno := data] && view == old(view)[b.blockno := data]
      ensures Pinned() == old(Pinned()) - {b.blockno}
    {
      hide Linked;
      Modify(b, data);
      Bwrite(b);
      assert Coherent(b);
      forall c | c in bufs && c != b && c.dirty ensures c.blockno != b.blockno {
        assert Coherent(c);
      }
      LinksKept();
    }

    // ----- when no buffer can be had -----

    ghost function Dirty(): set<Buf>
      reads bufs`dirty
    {
      set c | c in bufs && c.dirty
    }

    /** Buffers in use whose block is not pinned. */
    ghost function CleanHeld(): set<Buf>
      reads bufs`dirty, bufs`refcnt
    {
      set c | c in bufs && !c.dirty && c.refcnt > 0
    }

    /** As many blocks are pinned as buffers are dirty. */
    lemma PinnedCount()
      requires Contents()
      ensures |Pinned()| == |Dirty()|
    {
      assert forall c | c in Dirty() :: Coherent(c);
      BlockCount(Dirty());
      assert Pinned() == Blocks(Dirty());
    }

    ghost function Blocks(cs: set<Buf>): set<word>
      reads cs`blockno
    {
      set c | c in cs :: c.blockno
    }

    lemma {:induction false} BlockCount(cs: set<Buf>)
      requires forall c, d | c in cs && d in cs && c != d :: c.blockno != d.blockno
      ensures |Blocks(cs)| == |cs|
      decreases |cs|
    {
      if cs == {} {
        assert Blocks(cs) == {};
      } else {
        var c :| c in cs;
        BlockCount(cs - {c});
        assert Blocks(cs) == Blocks(cs - {c}) + {c.blockno};
      }
    }

    ghost function All(): set<Buf> {
      set c | c in bufs
    }

    lemma BufCount()
      requires Linked()
      ensures |All()| == NBUF
    {
      Elements(bufs);
    }

    static lemma {:induction false} Elements(s: seq<Buf>)
      requires forall i, j | 0 <= i < j < |s| :: s[i] != s[j]
      ensures |set c | c in s| == |s|
    {
      if s == [] {
        assert (set c | c in s) == {};
      } else {
        Elements(s[1..]);
        assert s == [s[0]] + s[1..];
        assert (set c | c in s) == (set c | c in s[1..]) + {s[0]};
      }
    }

    /** No buffer can be recycled if and only if the pinned blocks and the clean buffers in use are as many as
        there are buffers. */
    lemma NoneRecyclable()
      requires Valid()
      ensures (forall c | c in bufs :: !c.Recyclable()) <==> |Pinned()| + |CleanHeld()| == NBUF
      ensures |Pinned()| + |CleanHeld()| <= NBUF
    {
      hide Linked, Contents;
      PinnedCount();
      BufCount();
      var busy := Dirty() + CleanHeld();
      assert |busy| == |Dirty()| + |CleanHeld()|;
      assert All() == busy + (All() - busy);
      if |busy| == NBUF { assert All() - busy == {}; }
      if forall c | c in bufs :: !c.Recyclable() { assert All() == busy; }
      assert forall c | c in bufs :: c.Recyclable() <==> c in All() - busy;
    }

    /** bread panics for a block that is neither pinned nor in use, as a log slot is during a commit, if and
        only if pinned blocks and held clean buffers take up the whole cache. */
    lemma BreadPanics(blockno: word, held: set<Buf>)
      requires Valid() && HeldBy(held) && Apart(held, blockno) && blockno !in Pinned()
      ensures !Available(blockno) <==> |Pinned()| + |CleanHeld()| == NBUF
    {
      hide Linked, Contents;
      NoneRecyclable();
      assert forall c | c in bufs && c.dirty :: c.blockno in Pinned();
      assert forall c | c in bufs && c.Recyclable() :: c.refcnt == 0;
    }
  }
}
