/** Two-level page tables (vm.c) over the frame allocator (kalloc.c), as one partial map from virtual pages to
    frames, with an account of every frame. An entry is a frame and its permission bits. */
module PageTables {
  import opened Common

  const PGSIZE := 4096
  const ENTRIES := 1024
  /** Directory entries, and pages, of the user half. */
  const USERDIRS := 512
  const USERPAGES := 524288
  const KERNBASE := 0x8000_0000
  const EXTMEM := 0x10_0000
  const KERNLINK := 0x8010_0000
  const PHYSTOP := 0xE00_0000
  const DEVSPACE := 0xFE00_0000
  const PTE_W := 2
  const PTE_U := 4

  datatype Entry = Absent | Present(frame: nat, perm: nat)

  /** Page tables by the frame they lie in. */
  type Tables = map<nat, seq<Entry>>

  function Zeroed(): (t: seq<Entry>)
    ensures |t| == ENTRIES && forall i | 0 <= i < ENTRIES :: t[i] == Absent
  {
    seq(ENTRIES, i => Absent)
  }

  function Pde(ts: Tables, dir: nat, d: nat): Entry {
    if dir in ts && d < |ts[dir]| then ts[dir][d] else Absent
  }

  function Pte(ts: Tables, dir: nat, d: nat, t: nat): Entry {
    match Pde(ts, dir, d)
    case Absent => Absent
    case Present(f, _) => if f in ts && t < |ts[f]| then ts[f][t] else Absent
  }

  /** What virtual page v is mapped to. */
  function Page(ts: Tables, dir: nat, v: nat): Entry {
    Pte(ts, dir, v / ENTRIES, v % ENTRIES)
  }

  // ----- who uses a frame -----

  /** The places of an address space that own a frame: the directory, its tables, and the user pages. */
  datatype Slot = Dir | TableOf(d: nat) | Leaf(d: nat, t: nat)

  function FrameOf(e: Entry): Option<nat> {
    match e case Absent => None case Present(f, _) => Some(f)
  }

  function Val(ts: Tables, dir: nat, s: Slot): Option<nat> {
    match s
    case Dir => Some(dir)
    case TableOf(d) => FrameOf(Pde(ts, dir, d))
    case Leaf(d, t) => if d < USERDIRS then FrameOf(Pte(ts, dir, d, t)) else None
  }

  ghost predicate TableAt(ts: Tables, f: nat) {
    f in ts && |ts[f]| == ENTRIES
  }

  /** The tables are there, and every directory entry leaves the permissions to them. */
  ghost predicate Shaped(ts: Tables, dir: nat) {
    && TableAt(ts, dir)
    && forall d {:trigger Pde(ts, dir, d)} | 0 <= d < ENTRIES ::
         Pde(ts, dir, d).Present? ==> TableAt(ts, Pde(ts, dir, d).frame) && Pde(ts, dir, d).perm == PTE_W + PTE_U
  }

  /** `own` says of each frame of the address space which place owns it, and every owner is listed: no frame
      is used twice. */
  ghost predicate Owned(ts: Tables, dir: nat, own: map<nat, Slot>) {
    && (forall s {:trigger Val(ts, dir, s)} ::
          Val(ts, dir, s).Some? ==> Val(ts, dir, s).value in own && own[Val(ts, dir, s).value] == s)
    && (forall f {:trigger own[f]} | f in own :: Val(ts, dir, own[f]) == Some(f))
  }

  ghost predicate Space(ts: Tables, dir: nat, own: map<nat, Slot>) {
    Shaped(ts, dir) && Owned(ts, dir, own)
  }

  // ----- what a page allows -----

  predicate Has(perm: nat, bit: nat)
    requires bit > 0
  {
    perm / bit % 2 == 1
  }

  /** Paging allows what the directory entry and the table entry both allow. */
  predicate Allows(ts: Tables, dir: nat, v: nat, bit: nat)
    requires bit > 0
  {
    Page(ts, dir, v).Present? && Has(Pde(ts, dir, v / ENTRIES).perm, bit) && Has(Page(ts, dir, v).perm, bit)
  }

  lemma PageOfTable(ts: Tables, dir: nat, v: nat)
    ensures Page(ts, dir, v).Present? ==> Pde(ts, dir, v / ENTRIES).Present?
  {
  }

  /** So the table entry decides. */
  lemma Access(ts: Tables, dir: nat, v: nat, bit: nat)
    requires Shaped(ts, dir) && (bit == PTE_W || bit == PTE_U)
    ensures Page(ts, dir, v).Present? ==> Pde(ts, dir, v / ENTRIES).Present?
    ensures Allows(ts, dir, v, bit) <==> Page(ts, dir, v).Present? && Has(Page(ts, dir, v).perm, bit)
  {
    PageOfTable(ts, dir, v);
    if Pde(ts, dir, v / ENTRIES).Present? {
      assert v / ENTRIES < ENTRIES && Pde(ts, dir, v / ENTRIES).perm == 6;
    }
  }

  /** All pages at once. */
  lemma AccessAll(ts: Tables, dir: nat, own: map<nat, Slot>)
    requires Space(ts, dir, own)
    ensures forall v: nat :: Allows(ts, dir, v, PTE_U)
              <==> Page(ts, dir, v).Present? && Page(ts, dir, v).perm / 4 % 2 == 1
    ensures forall v: nat :: Allows(ts, dir, v, PTE_W)
              <==> Page(ts, dir, v).Present? && Page(ts, dir, v).perm / 2 % 2 == 1
  {
    hide Page, Pde;
    forall v: nat
      ensures Allows(ts, dir, v, PTE_U) <==> Page(ts, dir, v).Present? && Page(ts, dir, v).perm / 4 % 2 == 1
      ensures Allows(ts, dir, v, PTE_W) <==> Page(ts, dir, v).Present? && Page(ts, dir, v).perm / 2 % 2 == 1
    {
      Access(ts, dir, v, PTE_U);
      Access(ts, dir, v, PTE_W);
    }
  }

  // ----- the three changes to an address space -----

  /** A fresh, zeroed table for directory entry d. */
  function WithTable(ts: Tables, dir: nat, d: nat, f: nat): Tables
    requires dir in ts && d < |ts[dir]|
  {
    ts[dir := ts[dir][d := Present(f, PTE_W + PTE_U)]][f := Zeroed()]
  }

  lemma TableAdded(ts: Tables, dir: nat, own: map<nat, Slot>, d: nat, f: nat)
    requires Space(ts, dir, own) && d < ENTRIES && Pde(ts, dir, d) == Absent && f !in own
    ensures var ts2 := WithTable(ts, dir, d, f);
      && Space(ts2, dir, own[f := TableOf(d)]) && Pde(ts2, dir, d) == Present(f, PTE_W + PTE_U)
      && (forall e: nat | e != d :: Pde(ts2, dir, e) == Pde(ts, dir, e))
      && forall e, t :: Pte(ts2, dir, e, t) == Pte(ts, dir, e, t)
  {
    var ts2, own2 := WithTable(ts, dir, d, f), own[f := TableOf(d)];
    assert Val(ts, dir, Dir) == Some(dir);
    forall e ensures e != d ==> Pde(ts2, dir, e) == Pde(ts, dir, e) {}
    forall e, t ensures Pte(ts2, dir, e, t) == Pte(ts, dir, e, t) {
      assert Val(ts, dir, TableOf(e)) == FrameOf(Pde(ts, dir, e));
    }
    forall s ensures Val(ts2, dir, s) == if s == TableOf(d) then Some(f) else Val(ts, dir, s) {}
  }

  /** Entry t of the table of d. */
  function WithEntry(ts: Tables, dir: nat, d: nat, t: nat, e: Entry): Tables
    requires Pde(ts, dir, d).Present? && Pde(ts, dir, d).frame in ts && t < |ts[Pde(ts, dir, d).frame]|
  {
    var f := Pde(ts, dir, d).frame;
    ts[f := ts[f][t := e]]
  }

  lemma EntrySet(ts: Tables, dir: nat, own: map<nat, Slot>, d: nat, t: nat, e: Entry)
    requires Space(ts, dir, own) && d < ENTRIES && t < ENTRIES && Pde(ts, dir, d).Present?
    ensures Pde(ts, dir, d).frame in ts && |ts[Pde(ts, dir, d).frame]| == ENTRIES
    ensures var ts2 := WithEntry(ts, dir, d, t, e);
      && Shaped(ts2, dir) && (forall x :: Pde(ts2, dir, x) == Pde(ts, dir, x))
      && forall x, y :: Pte(ts2, dir, x, y) == if x == d && y == t then e else Pte(ts, dir, x, y)
  {
    var ts2 := WithEntry(ts, dir, d, t, e);
    var f := Pde(ts, dir, d).frame;
    assert Val(ts, dir, TableOf(d)) == Some(f) && Val(ts, dir, Dir) == Some(dir);
    forall x, y ensures Pte(ts2, dir, x, y) == if x == d && y == t then e else Pte(ts, dir, x, y) {
      assert Val(ts, dir, TableOf(x)) == FrameOf(Pde(ts, dir, x));
    }
    forall x | 0 <= x < ENTRIES && Pde(ts2, dir, x).Present?
      ensures TableAt(ts2, Pde(ts2, dir, x).frame) && Pde(ts2, dir, x).perm == PTE_W + PTE_U
    {
      assert Pde(ts2, dir, x) == Pde(ts, dir, x) && TableAt(ts, Pde(ts, dir, x).frame);
    }
  }

  lemma LeafAdded(ts: Tables, dir: nat, own: map<nat, Slot>, d: nat, t: nat, f: nat, perm: nat)
    requires Space(ts, dir, own) && d < USERDIRS && t < ENTRIES && Pde(ts, dir, d).Present?
    requires Pte(ts, dir, d, t) == Absent && f !in own
    ensures Pde(ts, dir, d).frame in ts && |ts[Pde(ts, dir, d).frame]| == ENTRIES
    ensures Space(WithEntry(ts, dir, d, t, Present(f, perm)), dir, own[f := Leaf(d, t)])
  {
    EntrySet(ts, dir, own, d, t, Present(f, perm));
    var ts2 := WithEntry(ts, dir, d, t, Present(f, perm));
    assert Val(ts, dir, Leaf(d, t)) == None;
    forall s ensures Val(ts2, dir, s) == if s == Leaf(d, t) then Some(f) else Val(ts, dir, s) {}
  }

  lemma KernelEntrySet(ts: Tables, dir: nat, own: map<nat, Slot>, d: nat, t: nat, e: Entry)
    requires Space(ts, dir, own) && USERDIRS <= d < ENTRIES && t < ENTRIES && Pde(ts, dir, d).Present?
    ensures Pde(ts, dir, d).frame in ts && |ts[Pde(ts, dir, d).frame]| == ENTRIES
    ensures Space(WithEntry(ts, dir, d, t, e), dir, own)
  {
    EntrySet(ts, dir, own, d, t, e);
    var ts2 := WithEntry(ts, dir, d, t, e);
    forall s ensures Val(ts2, dir, s) == Val(ts, dir, s) {}
  }

  lemma LeafRemoved(ts: Tables, dir: nat, own: map<nat, Slot>, d: nat, t: nat)
    requires Space(ts, dir, own) && d < USERDIRS && t < ENTRIES && Pte(ts, dir, d, t).Present?
    ensures Pde(ts, dir, d).Present? && Pde(ts, dir, d).frame in ts && |ts[Pde(ts, dir, d).frame]| == ENTRIES
    ensures var f := Pte(ts, dir, d, t).frame;
      && f in own && own[f] == Leaf(d, t) && Space(WithEntry(ts, dir, d, t, Absent), dir, own - {f})
  {
    EntrySet(ts, dir, own, d, t, Absent);
    var ts2, f := WithEntry(ts, dir, d, t, Absent), Pte(ts, dir, d, t).frame;
    assert Val(ts, dir, Leaf(d, t)) == Some(f);
    forall s ensures Val(ts2, dir, s) == if s == Leaf(d, t) then None else Val(ts, dir, s) {}
  }

  /** Forgetting what lies in frames that are nobody's table. */
  lemma JunkKeeps(ts: Tables, dir: nat, own: map<nat, Slot>, f: nat)
    requires Space(ts, dir, own) && f !in own
    ensures Space(ts - {f}, dir, own)
    ensures forall d :: Pde(ts - {f}, dir, d) == Pde(ts, dir, d)
    ensures forall d, t :: Pte(ts - {f}, dir, d, t) == Pte(ts, dir, d, t)
  {
    var ts2 := ts - {f};
    assert Val(ts, dir, Dir) == Some(dir);
    forall d, t ensures Pte(ts2, dir, d, t) == Pte(ts, dir, d, t) {
      assert Val(ts, dir, TableOf(d)) == FrameOf(Pde(ts, dir, d));
    }
    forall d | 0 <= d < ENTRIES && Pde(ts2, dir, d).Present?
      ensures TableAt(ts2, Pde(ts2, dir, d).frame) && Pde(ts2, dir, d).perm == PTE_W + PTE_U
    {
      assert Val(ts, dir, TableOf(d)) == FrameOf(Pde(ts, dir, d)) && TableAt(ts, Pde(ts, dir, d).frame);
    }
    forall s ensures Val(ts2, dir, s) == Val(ts, dir, s) {}
  }

  // ----- the pool of free frames -----

  /** The free list and the address space share no frame, no frame is free twice, and all lie between the
      kernel's end and PHYSTOP, where kfree accepts them. */
  ghost predicate Pool(free: seq<nat>, own: map<nat, Slot>, first: nat, last: nat) {
    && (forall i, j | 0 <= i < j < |free| :: free[i] != free[j])
    && (forall f | f in free :: f !in own && first <= f < last)
    && (forall f | f in own :: first <= f < last)
  }

  ghost function FrameSet(free: seq<nat>, own: map<nat, Slot>): set<nat> {
    (set f | f in free) + own.Keys
  }

  lemma Popped(free: seq<nat>, own: map<nat, Slot>, first: nat, last: nat)
    requires Pool(free, own, first, last) && free != []
    ensures Pool(free[1..], own, first, last) && first <= free[0] < last && free[0] !in own && free[0] !in free[1..]
    ensures FrameSet(free, own) == FrameSet(free[1..], own) + {free[0]} && free[0] !in FrameSet(free[1..], own)
  {
    assert free[0] in free && forall f | f in free[1..] :: f in free;
  }

  lemma Pushed(free: seq<nat>, own: map<nat, Slot>, first: nat, last: nat, f: nat)
    requires Pool(free, own, first, last) && first <= f < last && f !in FrameSet(free, own)
    ensures Pool([f] + free, own, first, last) && FrameSet([f] + free, own) == FrameSet(free, own) + {f}
  {
  }

  lemma Given(free: seq<nat>, own: map<nat, Slot>, first: nat, last: nat, f: nat, s: Slot)
    requires Pool(free, own, first, last) && first <= f < last && f !in FrameSet(free, own)
    ensures Pool(free, own[f := s], first, last) && FrameSet(free, own[f := s]) == FrameSet(free, own) + {f}
  {
  }

  lemma Taken(free: seq<nat>, own: map<nat, Slot>, first: nat, last: nat, f: nat)
    requires Pool(free, own, first, last) && f in own
    ensures Pool(free, own - {f}, first, last) && FrameSet(free, own - {f}) == FrameSet(free, own) - {f}
    ensures f !in FrameSet(free, own - {f}) && first <= f < last
  {
  }

  /** The walk of the paging hardware: ten bits of the address choose the directory entry, ten the table's. */
  lemma Translation(ts: Tables, dir: nat, va: nat)
    requires Shaped(ts, dir) && va < 0x1_0000_0000
    ensures dir in ts && va / 0x40_0000 < |ts[dir]| == 1024
    ensures match ts[dir][va / 0x40_0000]
      case Absent => Page(ts, dir, va / 4096) == Absent
      case Present(f, _) => f in ts && |ts[f]| == 1024 && Page(ts, dir, va / 4096) == ts[f][va / 4096 % 1024]
  {
    var d := va / 0x40_0000;
    assert va / 4096 / ENTRIES == d;
    assert Pde(ts, dir, d).Present? ==> TableAt(ts, Pde(ts, dir, d).frame);
  }

  // ----- addresses -----

  function PDX(va: nat): nat { va / 0x40_0000 % ENTRIES }

  function PTX(va: nat): nat { va / PGSIZE % ENTRIES }

  function PageUp(a: nat): nat { (a + PGSIZE - 1) / PGSIZE }

  /** The least number of pages that hold a bytes. */
  lemma PageUpIs(a: nat, n: nat)
    ensures n == PageUp(a) <==> a <= n * 4096 < a + 4096
  {
  }

  lemma Indices(va: nat)
    requires va < 0x1_0000_0000
    ensures PDX(va) == va / PGSIZE / ENTRIES < ENTRIES && PTX(va) == va / PGSIZE % ENTRIES < ENTRIES
    ensures PDX(va) < USERDIRS <==> va < KERNBASE
  {
  }

  lemma PageAt(ts: Tables, ts2: Tables, dir: nat, v: nat, e: Entry)
    requires forall x, y :: Pte(ts2, dir, x, y) == if x == v / ENTRIES && y == v % ENTRIES then e
               else Pte(ts, dir, x, y)
    ensures forall w: nat :: Page(ts2, dir, w) == if w == v then e else Page(ts, dir, w)
  {
    forall w: nat ensures Page(ts2, dir, w) == if w == v then e else Page(ts, dir, w) {
      assert w == w / ENTRIES * ENTRIES + w % ENTRIES && v == v / ENTRIES * ENTRIES + v % ENTRIES;
    }
  }

  ghost predicate SamePages(ts: Tables, ts2: Tables, dir: nat) {
    forall v: nat :: Page(ts2, dir, v) == Page(ts, dir, v)
  }

  datatype Mapping = Mapped | NoMemory | Remap

  // ----- how many frames new tables take -----

  /** How many of the tables for pages v..w-1 are missing. */
  function NewTables(ts: Tables, dir: nat, v: nat, w: nat): nat {
    if w <= v then 0
    else NewTables(ts, dir, v, w - 1)
         + if Pde(ts, dir, (w - 1) / ENTRIES) == Absent && (w - 1 == v || (w - 1) % ENTRIES == 0) then 1 else 0
  }

  lemma {:induction false} NewTablesBound(ts: Tables, dir: nat, v: nat, w: nat, x: nat)
    requires v <= w <= x
    ensures NewTables(ts, dir, v, w) <= NewTables(ts, dir, v, x) <= NewTables(ts, dir, v, w) + (x - w)
    decreases x - w
  {
    if w < x { NewTablesBound(ts, dir, v, w, x - 1); }
  }

  /** The tables for pages v..w-1 are there, besides those that were there before. */
  ghost predicate TablesMade(ts: Tables, ts2: Tables, dir: nat, v: nat, w: nat) {
    forall d: nat :: Pde(ts2, dir, d).Present? <==>
        Pde(ts, dir, d).Present? || (v < w && v / ENTRIES <= d <= (w - 1) / ENTRIES)
  }

  lemma TablesNone(ts: Tables, dir: nat, v: nat)
    ensures TablesMade(ts, ts, dir, v, v) && NewTables(ts, dir, v, v) == 0
  {
  }

  /** One page more. */
  lemma TablesNext(ts: Tables, ts1: Tables, dir: nat, v: nat, w: nat)
    requires TablesMade(ts, ts1, dir, v, w) && v <= w
    ensures NewTables(ts, dir, v, w + 1)
         == NewTables(ts, dir, v, w) + if Pde(ts1, dir, w / ENTRIES) == Absent then 1 else 0
    ensures forall ts2 | TableMade(ts1, ts2, dir, w / ENTRIES) :: TablesMade(ts, ts2, dir, v, w + 1)
  {
    hide Pde;
    var d := w / ENTRIES;
    assert Pde(ts1, dir, d).Present? <==> Pde(ts, dir, d).Present? || (v < w && v / ENTRIES <= d <= (w - 1) / ENTRIES);
    assert v < w ==> (d <= (w - 1) / ENTRIES <==> w % ENTRIES != 0) && v / ENTRIES <= d;
  }

  ghost predicate TableMade(ts: Tables, ts2: Tables, dir: nat, d: nat) {
    forall e: nat :: Pde(ts2, dir, e).Present? <==> Pde(ts, dir, e).Present? || e == d
  }

  function CeilDiv(w: nat): nat { (w + ENTRIES - 1) / ENTRIES }

  /** Pages v to w where just the table of the pages before v is there, if v lies inside it. */
  lemma {:induction false} AllNew(ts: Tables, dir: nat, v: nat, w: nat)
    requires v <= w && (v % ENTRIES != 0 ==> Pde(ts, dir, v / ENTRIES).Present?)
    requires forall d: nat | CeilDiv(v) <= d < CeilDiv(w) :: Pde(ts, dir, d) == Absent
    ensures NewTables(ts, dir, v, w) == CeilDiv(w) - CeilDiv(v)
    decreases w - v
  {
    hide Pde;
    if v < w {
      AllNew(ts, dir, v, w - 1);
      CeilNext(v, w - 1);
    }
  }

  lemma CeilNext(v: nat, w: nat)
    requires v <= w
    ensures CeilDiv(w + 1) == CeilDiv(w) + if w % ENTRIES == 0 then 1 else 0
    ensures CeilDiv(v) <= CeilDiv(w) <= CeilDiv(w + 1)
              && (w % ENTRIES == 0 ==> CeilDiv(v) <= w / ENTRIES < CeilDiv(w + 1))
    ensures v % ENTRIES == 0 ==> CeilDiv(v) == v / ENTRIES
  {
  }

  /** The frames that n pages from va on take, where those pages lie in the user half. */
  ghost function UserFrames(pa: nat, va: nat, n: nat): set<nat> {
    if n == 0 then {}
    else UserFrames(pa, va, n - 1) + if va / PGSIZE + (n - 1) < USERPAGES then {pa / PGSIZE + (n - 1)} else {}
  }

  lemma NoUserFrames(pa: nat, va: nat)
    ensures UserFrames(pa, va, 0) == {}
  {
  }

  lemma KernelFrames(pa: nat, va: nat)
    requires va >= KERNBASE
    ensures forall n: nat :: UserFrames(pa, va, n) == {}
  {
    forall n: nat ensures UserFrames(pa, va, n) == {} {
      forall f: nat ensures f !in UserFrames(pa, va, n) { UserFrameAt(pa, va, n, f); }
    }
  }

  lemma {:induction false} UserFrameAt(pa: nat, va: nat, n: nat, f: nat)
    ensures f in UserFrames(pa, va, n) <==>
              pa / PGSIZE <= f < pa / PGSIZE + n && va / PGSIZE + (f - pa / PGSIZE) < USERPAGES
  {
    if n > 0 { UserFrameAt(pa, va, n - 1, f); }
  }

  lemma NextUserFrame(pa: nat, va: nat, m: nat, n: nat)
    requires m < n
    ensures UserFrames(pa, va, m + 1)
         == UserFrames(pa, va, m) + if va / PGSIZE + m < USERPAGES then {pa / PGSIZE + m} else {}
    ensures va / PGSIZE + m < USERPAGES ==>
              pa / PGSIZE + m in UserFrames(pa, va, n) && pa / PGSIZE + m !in UserFrames(pa, va, m)
  {
    UserFrameAt(pa, va, n, pa / PGSIZE + m);
    UserFrameAt(pa, va, m, pa / PGSIZE + m);
  }

  class Vm {
    var free: seq<nat>
    var tables: Tables
    /** The place that owns each frame of the address space. */
    ghost var own: map<nat, Slot>
    const first: nat
    const last: nat

    ghost predicate Valid(dir: nat)
      reads this
    {
      Space(tables, dir, own) && Pool(free, own, first, last)
    }

    ghost function Frames(): set<nat>
      reads this
    {
      FrameSet(free, own)
    }

    /** An empty pool between the kernel's end and PHYSTOP, and no address space yet. */
    constructor (first: nat, last: nat)
      ensures free == [] && own == map[] && this.first == first && this.last == last && Pool(free, own, first, last)
    {
      free, tables, own := [], map[], map[];
      this.first, this.last := first, last;
    }

    /** Every whole page of the range becomes free. */
    method FreeRange(vstart: nat, vend: nat)
      requires Pool(free, own, first, last) && first <= PageUp(vstart) && vend <= last * PGSIZE
      requires forall f | PageUp(vstart) <= f < last :: f !in Frames()
      modifies this`free, this`tables
      ensures Pool(free, own, first, last)
      ensures forall f :: f in Frames() <==> f in old(Frames()) || PageUp(vstart) <= f < vend / PGSIZE
    {
      hide Pool, FrameSet;
      var p := PageUp(vstart) * PGSIZE;
      ghost var f, was := PageUp(vstart), Frames();
      while p + PGSIZE <= vend
        invariant p == f * PGSIZE && PageUp(vstart) <= f && (f <= vend / PGSIZE || f == PageUp(vstart))
        invariant Pool(free, own, first, last)
        invariant forall g :: g in FrameSet(free, own) <==> g in was || PageUp(vstart) <= g < f
      {
        Aligned(f);
        Pushed(free, own, first, last, f);
        Kfree(p / PGSIZE);
        p := p + PGSIZE;
        f := f + 1;
      }
    }

    method Kalloc() returns (r: Option<nat>)
      modifies this`free
      ensures r == None ==> free == old(free) == []
      ensures r.Some? ==> old(free) == [r.value] + free
    {
      if free == [] { return None; }
      r := Some(free[0]);
      free := free[1..];
    }

    /** The page is filled with junk: whatever table lay in it is gone. */
    method Kfree(f: nat)
      requires first <= f < last
      modifies this`free, this`tables
      ensures free == [f] + old(free) && tables == old(tables) - {f}
    {
      tables := tables - {f};
      free := [f] + free;
    }

    /** The frame of the table for va, made if asked for; no page changes. */
    method WalkPgdir(dir: nat, va: nat, alloc: bool) returns (r: Option<nat>)
      requires Valid(dir) && va < 0x1_0000_0000
      modifies this
      ensures Valid(dir) && Frames() == old(Frames()) && SamePages(old(tables), tables, dir)
      ensures r.Some? ==>
                && Pde(tables, dir, PDX(va)).Present? && Pde(tables, dir, PDX(va)).frame == r.value
                && TableAt(tables, r.value)
      ensures r == None <==> old(Pde(tables, dir, PDX(va)) == Absent && (!alloc || free == []))
      ensures r == None || !alloc ==> tables == old(tables) && own == old(own) && free == old(free)
      ensures r.Some? ==> |free| == |old(free)| - (if old(Pde(tables, dir, PDX(va))) == Absent then 1 else 0)
      ensures r.Some? ==> TableMade(old(tables), tables, dir, PDX(va))
      ensures r.Some? && old(Pde(tables, dir, PDX(va))) == Absent ==> Pde(tables, dir, PDX(va)).perm == PTE_W + PTE_U
      ensures forall f | f in free :: f in old(free)
    {
      hide Owned, Pool, FrameSet;
      Indices(va);
      var pde := Pde(tables, dir, PDX(va));
      if pde.Present? { return Some(pde.frame); }
      if !alloc { return None; }
      if free != [] { Popped(free, own, first, last); }
      var page := Kalloc();
      if page == None { return None; }
      var f := page.value;
      ghost var ts := tables;
      assert old(free)[1..] == free;
      TableAdded(tables, dir, own, PDX(va), f);
      Given(free, own, first, last, f, TableOf(PDX(va)));
      tables := tables[dir := tables[dir][PDX(va) := Present(f, PTE_W + PTE_U)]];
      tables := tables[f := Zeroed()];
      own := own[f := TableOf(PDX(va))];
      return Some(f);
    }

    /** One page: the body of the loop of mappages. */
    method MapOne(dir: nat, va: nat, frame: nat, perm: nat) returns (r: Mapping)
      requires Valid(dir) && va < 0x1_0000_0000
      requires va < KERNBASE ==> first <= frame < last && frame !in Frames()
      modifies this
      ensures Valid(dir) && forall f | f in free :: f in old(free)
      ensures r == Mapped ==>
                |free| == |old(free)| - (if old(Pde(tables, dir, va / PGSIZE / ENTRIES)) == Absent then 1 else 0)
      ensures r == Mapped ==> TableMade(old(tables), tables, dir, va / PGSIZE / ENTRIES)
      ensures r == NoMemory ==> old(Pde(tables, dir, va / PGSIZE / ENTRIES)) == Absent
      ensures r == Mapped ==> Page(old(tables), dir, va / PGSIZE) == Absent
      ensures r == Mapped ==> forall v: nat ::
                Page(tables, dir, v) == if v == va / PGSIZE then Present(frame, perm) else Page(old(tables), dir, v)
      ensures r == Mapped ==> Frames() == old(Frames()) + if va < KERNBASE then {frame} else {}
      ensures r != Mapped ==> SamePages(old(tables), tables, dir) && Frames() == old(Frames())
      ensures r == NoMemory ==> free == old(free) == []
      ensures r == Remap ==> Page(old(tables), dir, va / PGSIZE).Present?
    {
      hide Owned, Pool, FrameSet, Shaped;
      Indices(va);
      var tab := WalkPgdir(dir, va, true);
      if tab == None { return NoMemory; }
      var pte := tables[tab.value][PTX(va)];
      if pte.Present? { return Remap; }
      ghost var ts, d, t := tables, PDX(va), PTX(va);
      EntrySet(ts, dir, own, d, t, Present(frame, perm));
      tables := tables[tab.value := tables[tab.value][PTX(va) := Present(frame, perm)]];
      assert tables == WithEntry(ts, dir, d, t, Present(frame, perm));
      PageAt(ts, tables, dir, va / PGSIZE, Present(frame, perm));
      if va < KERNBASE {
        NotOwned(free, own, frame);
        LeafAdded(ts, dir, own, d, t, frame, perm);
        Given(free, own, first, last, frame, Leaf(d, t));
        own := own[frame := Leaf(d, t)];
      } else {
        KernelEntrySet(ts, dir, own, d, t, Present(frame, perm));
      }
      return Mapped;
    }

    /** Maps the pages that va..va+size-1 touches to the frames from pa on. Those in the user half become the
        address space's own, so they must be nobody's before. */
    method MapPages(dir: nat, va: nat, size: nat, pa: nat, perm: nat) returns (r: Mapping, ghost m: nat)
      requires Valid(dir) && 0 < size && va + size <= 0x1_0000_0000 && pa % PGSIZE == 0
      requires forall f | f in UserFrames(pa, va, PageUp(va + size) - va / PGSIZE) ::
                 first <= f < last && f !in Frames()
      modifies this
      ensures Valid(dir) && forall f | f in free :: f in old(free)
      ensures forall v: nat :: Page(tables, dir, v) ==
                if va / PGSIZE <= v < va / PGSIZE + m then Present(pa / PGSIZE + (v - va / PGSIZE), perm)
                    else Page(old(tables), dir, v)
      ensures Frames() == old(Frames()) + UserFrames(pa, va, m)
      ensures m <= PageUp(va + size) - va / PGSIZE && (r == Mapped <==> m == PageUp(va + size) - va / PGSIZE)
      ensures r == Remap ==> Page(old(tables), dir, va / PGSIZE + m).Present?
      ensures r != Remap ==> |free| == |old(free)| - NewTables(old(tables), dir, va / PGSIZE, va / PGSIZE + m)
      ensures r == NoMemory ==> free == [] && |old(free)| < NewTables(old(tables), dir, va / PGSIZE, PageUp(va + size))
      ensures r == Mapped ==> TablesMade(old(tables), tables, dir, va / PGSIZE, PageUp(va + size))
      ensures forall v: nat | va / PGSIZE <= v < va / PGSIZE + m :: Page(old(tables), dir, v) == Absent
    {
      hide Space, Pool, FrameSet, Page, UserFrames, Pde, TablesMade, TableMade, NewTables;
      var a := va / PGSIZE * PGSIZE;
      var end := (va + size - 1) / PGSIZE * PGSIZE;
      var frame := pa / PGSIZE;
      m := 0;
      ghost var v0, n := va / PGSIZE, PageUp(va + size) - va / PGSIZE;
      Bounds(va, size);
      NoUserFrames(pa, va);
      TablesNone(tables, dir, v0);
      while true
        invariant Valid(dir) && a == (v0 + m) * PGSIZE <= end && (forall f | f in free :: f in old(free))
        invariant frame == pa / PGSIZE + m && Frames() == old(Frames()) + UserFrames(pa, va, m) && m < n
        invariant forall v: nat :: Page(tables, dir, v) ==
                    if v0 <= v < v0 + m then Present(pa / PGSIZE + (v - v0), perm) else Page(old(tables), dir, v)
        invariant forall v: nat | v0 <= v < v0 + m :: Page(old(tables), dir, v) == Absent
        invariant TablesMade(old(tables), tables, dir, v0, v0 + m)
        invariant |free| == |old(free)| - NewTables(old(tables), dir, v0, v0 + m)
        decreases end - a
      {
        Aligned(v0 + m);
        NextUserFrame(pa, va, m, n);
        TablesNext(old(tables), tables, dir, v0, v0 + m);
        NewTablesBound(old(tables), dir, v0, v0 + m + 1, v0 + n);
        assert a < KERNBASE ==> v0 + m < USERPAGES && frame !in UserFrames(pa, va, m) && frame !in old(Frames());
        r := MapOne(dir, a, frame, perm);
        if r != Mapped { return; }
        m := m + 1;
        if a == end { break; }
        a, frame := a + PGSIZE, frame + 1;
      }
    }

    /** Unmaps the pages between the two sizes and gives their frames back. Where a whole table is missing
        the loop skips to the next; it passes over no page that is present. */
    method DeallocUvm(dir: nat, oldsz: nat, newsz: nat) returns (r: nat)
      requires Valid(dir) && oldsz <= KERNBASE
      modifies this
      ensures Valid(dir) && r == (if newsz >= oldsz then oldsz else newsz) && Frames() == old(Frames())
      ensures forall v: nat ::
                Page(tables, dir, v) == if PageUp(newsz) <= v < PageUp(oldsz) then Absent else Page(old(tables), dir, v)
    {
      hide Space, Pool, FrameSet, Page, PDX;
      if newsz >= oldsz { SizesUp(oldsz, newsz); return oldsz; }
      var a := PageUp(newsz) * PGSIZE;
      ghost var ts, v := tables, PageUp(newsz);
      while a < oldsz
        invariant Valid(dir) && a == v * PGSIZE && PageUp(newsz) <= v && Frames() == old(Frames())
        invariant forall w: nat ::
                    Page(tables, dir, w) == if PageUp(newsz) <= w < v && w < PageUp(oldsz) then Absent
                      else Page(ts, dir, w)
        decreases oldsz - a
      {
        Aligned(v);
        Inside(v, oldsz);
        var tab := WalkPgdir(dir, a, false);
        if tab == None {
          a := (PDX(a) + 1) * 0x40_0000 - PGSIZE;
          v := SkipTable(tables, dir, v);
        } else {
          Unmap(dir, a, tab.value);
        }
        a := a + PGSIZE;
        v := v + 1;
      }
      Outside(v, oldsz);
      r := newsz;
    }

    /** Clears the entry for the user address va, if there is one, and frees its frame. */
    method Unmap(dir: nat, va: nat, tab: nat)
      requires Valid(dir) && va < KERNBASE
      requires Pde(tables, dir, PDX(va)).Present? && Pde(tables, dir, PDX(va)).frame == tab && TableAt(tables, tab)
      modifies this
      ensures Valid(dir) && Frames() == old(Frames())
      ensures forall v: nat :: Page(tables, dir, v) == if v == va / PGSIZE then Absent else Page(old(tables), dir, v)
    {
      hide Owned, Pool, FrameSet, Shaped, PDX, PTX;
      Indices(va);
      var pte := tables[tab][PTX(va)];
      if pte == Absent { return; }
      ghost var ts, d, t := tables, PDX(va), PTX(va);
      LeafRemoved(ts, dir, own, d, t);
      EntrySet(ts, dir, own, d, t, Absent);
      Taken(free, own, first, last, pte.frame);
      ghost var own2 := own - {pte.frame};
      PageAt(ts, WithEntry(ts, dir, d, t, Absent), dir, va / PGSIZE, Absent);
      JunkKeeps(WithEntry(ts, dir, d, t, Absent), dir, own2, pte.frame);
      Pushed(free, own2, first, last, pte.frame);
      TakenBack(free, own, pte.frame);
      LeafIsNoTable(ts, dir, own, d, t);
      Kfree(pte.frame);
      own := own2;
      tables := tables[tab := tables[tab][PTX(va) := Absent]];
      assert tables == WithEntry(ts, dir, d, t, Absent) - {pte.frame};
    }

    /** Grows the process: every new page gets a frame of its own that was free. It fails exactly when there are fewer
        free frames than new pages and missing tables, and then the user's mappings are what they were. */
    method AllocUvm(dir: nat, oldsz: nat, newsz: nat) returns (r: nat)
      requires Valid(dir)
      requires newsz < KERNBASE ==> forall v: nat | PageUp(oldsz) <= v < PageUp(newsz) :: Page(tables, dir, v) == Absent
      modifies this
      ensures Valid(dir) && Frames() == old(Frames())
      ensures newsz >= KERNBASE ==> r == 0 && SamePages(old(tables), tables, dir)
      ensures newsz < oldsz && newsz < KERNBASE ==> r == oldsz && SamePages(old(tables), tables, dir)
      ensures oldsz <= newsz < KERNBASE ==>
                r == (if |old(free)| < FramesFor(old(tables), dir, oldsz, newsz) then 0 else newsz)
      ensures oldsz <= newsz < KERNBASE && r != newsz ==> SamePages(old(tables), tables, dir)
      ensures oldsz <= newsz < KERNBASE && r == newsz > 0 ==>
                |free| == |old(free)| - FramesFor(old(tables), dir, oldsz, newsz)
      ensures oldsz <= newsz < KERNBASE && r == newsz && newsz > 0 ==>
                Grown(old(tables), tables, dir, PageUp(oldsz), PageUp(newsz), old(free))
      ensures oldsz <= newsz < KERNBASE && r == newsz && newsz > 0 ==>
                forall v: nat | PageUp(oldsz) <= v < PageUp(newsz) ::
                  && Page(tables, dir, v).Present? && Page(tables, dir, v).frame in old(free)
                  && Allows(tables, dir, v, PTE_U) && Allows(tables, dir, v, PTE_W)
    {
      hide Space, Pool, FrameSet, Page, Pde, TablesMade, NewTables;
      if newsz >= KERNBASE { return 0; }
      if newsz < oldsz { return oldsz; }
      var a := PageUp(oldsz) * PGSIZE;
      ghost var ts, free0, v := tables, free, PageUp(oldsz);
      TablesNone(tables, dir, v);
      SizesUp(oldsz, newsz);
      while a < newsz
        invariant Valid(dir) && a == v * PGSIZE && PageUp(oldsz) <= v && Frames() == old(Frames())
        invariant v <= PageUp(newsz) || v == PageUp(oldsz)
        invariant TablesMade(ts, tables, dir, PageUp(oldsz), v)
        invariant |free| == |free0| - (v - PageUp(oldsz)) - NewTables(ts, dir, PageUp(oldsz), v)
        invariant Grown(ts, tables, dir, PageUp(oldsz), v, free0) && forall f | f in free :: f in free0
        decreases newsz - a
      {
        Aligned(v);
        Inside(v, newsz);
        ghost var free1, ts1 := free, tables;
        TablesNext(ts, tables, dir, PageUp(oldsz), v);
        NewTablesBound(ts, dir, PageUp(oldsz), v + 1, PageUp(newsz));
        var mem := Kalloc();
        if mem == None {
          var _ := DeallocUvm(dir, newsz, oldsz);
          Restored(ts, ts1, tables, dir, PageUp(oldsz), v, PageUp(newsz), free0);
          return 0;
        }
        PoppedHead(free1, free, own, first, last, mem.value);
        var mapped := MapUser(dir, a, mem.value);
        if mapped == NoMemory {
          ghost var ts2 := tables;
          var _ := DeallocUvm(dir, newsz, oldsz);
          Restored(ts, ts2, tables, dir, PageUp(oldsz), v, PageUp(newsz), free0);
          Pushed(free, own, first, last, mem.value);
          DropFrame(tables, dir, free, own, mem.value);
          Kfree(mem.value);
          return 0;
        }
        a := a + PGSIZE;
        v := v + 1;
      }
      Outside(v, newsz);
      SizesUp(oldsz, newsz);
      GrownAllows(ts, tables, dir, own, PageUp(oldsz), v, free0);
      return newsz;
    }

    /** The call allocuvm makes for each page; "remap" cannot happen there. */
    method MapUser(dir: nat, va: nat, frame: nat) returns (r: Mapping)
      requires Valid(dir) && va < KERNBASE && va % PGSIZE == 0 && Page(tables, dir, va / PGSIZE) == Absent
      requires first <= frame < last && frame !in Frames()
      modifies this
      ensures Valid(dir) && r != Remap && forall f | f in free :: f in old(free)
      ensures if old(Pde(tables, dir, va / PGSIZE / ENTRIES)) == Absent then r == NoMemory <==> old(free) == []
              else r == Mapped
      ensures r == NoMemory ==> free == old(free)
      ensures r == Mapped ==>
                |free| == |old(free)| - (if old(Pde(tables, dir, va / PGSIZE / ENTRIES)) == Absent then 1 else 0)
      ensures r == Mapped ==> TableMade(old(tables), tables, dir, va / PGSIZE / ENTRIES)
      ensures forall v: nat :: Page(tables, dir, v) ==
                if r == Mapped && v == va / PGSIZE then Present(frame, PTE_W + PTE_U) else Page(old(tables), dir, v)
      ensures Frames() == old(Frames()) + if r == Mapped then {frame} else {}
    {
      hide Space, Pool, FrameSet, Page;
      Aligned(frame);
      Bounds(va, PGSIZE);
      ghost var m;
      r, m := MapPages(dir, va, PGSIZE, frame * PGSIZE, PTE_W + PTE_U);
    }

    /** Gives back every frame of the address space, each exactly once. */
    method FreeVm(dir: nat)
      requires Valid(dir)
      modifies this
      ensures own == map[] && Frames() == old(Frames()) && Pool(free, own, first, last)
    {
      hide Space, Pool, FrameSet, Tearing;
      var _ := DeallocUvm(dir, KERNBASE, 0);
      StartTearing(tables, dir, own);
      ghost var pdes := tables[dir];
      var i := 0;
      while i < ENTRIES
        invariant i <= ENTRIES && dir in tables && tables[dir] == pdes && |pdes| == ENTRIES
        invariant Tearing(pdes, dir, own, i) && Pool(free, own, first, last) && Frames() == old(Frames())
      {
        var pde := tables[dir][i];
        TearOne(pdes, dir, own, i);
        if pde.Present? {
          Taken(free, own, first, last, pde.frame);
          Pushed(free, own - {pde.frame}, first, last, pde.frame);
          TakenBack(free, own, pde.frame);
          own := own - {pde.frame};
          Kfree(pde.frame);
        }
        i := i + 1;
      }
      LastTorn(pdes, dir, own);
      Taken(free, own, first, last, dir);
      Pushed(free, own - {dir}, first, last, dir);
      TakenBack(free, own, dir);
      own := own - {dir};
      Kfree(dir);
    }

    /** A new address space with the kernel's pages and no others, or nothing and all frames back. `data` is
        where the kernel's writable part starts. It takes 65 frames: the directory and 64 tables. */
    method SetupKvm(data: nat) returns (r: Option<nat>)
      requires own == map[] && Pool(free, own, first, last)
      requires KERNLINK < data < KERNBASE + PHYSTOP && data % PGSIZE == 0
      modifies this
      ensures Frames() == old(Frames())
      ensures r == None <==> |old(free)| < KVMFRAMES
      ensures r == None ==> own == map[] && Pool(free, own, first, last)
      ensures r.Some? ==> Valid(r.value) && forall v: nat :: Page(tables, r.value, v) == KernelPage(data, v)
      ensures r.Some? ==> forall v: nat ::
                Page(tables, r.value, v) == (
                  if 0x8_0000 <= v < 0x8_0100 then Present(v - 0x8_0000, PTE_W)
                  else if 0x8_0100 <= v < data / 4096 then Present(v - 0x8_0000, 0)
                  else if data / 4096 <= v < 0x8_E000 then Present(v - 0x8_0000, PTE_W)
                  else if 0xF_E000 <= v < 0x10_0000 then Present(v, PTE_W) else Absent)
      ensures r.Some? ==> forall v: nat :: !Allows(tables, r.value, v, PTE_U)
      ensures r.Some? ==> forall v: nat | 0x8_0100 <= v < data / 4096 :: !Allows(tables, r.value, v, PTE_W)
      ensures r.Some? ==> |free| == |old(free)| - KVMFRAMES
    {
      hide Space, Pool, FrameSet, Page, Pde, KernelUpTo, KmapTables, Allows, KernelPage;
      ghost var free0 := free;
      var page := NewDirectory(data);
      if page == None { return None; }
      var dir := page.value;
      var kmap := Kmap(data);
      var k := 0;
      while k < 4
        invariant k <= 4 && Valid(dir) && Frames() == old(Frames())
        invariant KernelUpTo(tables, dir, data, k) && |free| == |free0| - 1 - KmapTables(data, k)
      {
        KmapEntry(data, k);
        var mapped := MapKernel(dir, data, k, kmap[k].0, kmap[k].2 - kmap[k].1, kmap[k].1, kmap[k].3);
        if mapped != Mapped {
          FreeVm(dir);
          return None;
        }
        k := k + 1;
      }
      KernelDone(tables, dir, data);
      KernelAllows(tables, dir, own, data);
      return Some(dir);
    }

    /** mappages of the k-th range of kmap; "remap" cannot happen. */
    method MapKernel(dir: nat, ghost data: nat, ghost k: nat, va: nat, size: nat, pa: nat, perm: nat)
      returns (r: Mapping)
      requires Valid(dir) && k < 4 && KernelUpTo(tables, dir, data, k)
      requires KERNLINK < data < KERNBASE + PHYSTOP && data % PGSIZE == 0 && IsRange(data, k, va, size, pa, perm)
      modifies this
      ensures Valid(dir) && Frames() == old(Frames()) && r != Remap
      ensures r == Mapped ==> KernelUpTo(tables, dir, data, k + 1)
      ensures r == Mapped ==> |free| == |old(free)| - (KmapTables(data, k + 1) - KmapTables(data, k))
      ensures r == NoMemory ==> |old(free)| < KmapTables(data, k + 1) - KmapTables(data, k)
      ensures 0 <= KmapTables(data, k) <= KmapTables(data, k + 1) <= KVMFRAMES - 1
    {
      hide Space, Pool, FrameSet, Page, Pde, TablesMade, NewTables, UserFrames, KernelTables, KmapTables;
      ghost var ts := tables;
      KernelFrames(pa, va);
      KmapCost(ts, dir, data, k);
      ghost var m;
      r, m := MapPages(dir, va, size, pa, perm);
      if r == Mapped { KmapMade(ts, tables, dir, data, k); }
    }

    /** A directory without tables. */
    method NewDirectory(ghost data: nat) returns (r: Option<nat>)
      requires own == map[] && Pool(free, own, first, last)
      requires KERNLINK < data < KERNBASE + PHYSTOP && data % PGSIZE == 0
      modifies this
      ensures r == None <==> old(free) == []
      ensures r == None ==> own == map[] && free == old(free)
      ensures r.Some? ==> Valid(r.value) && KernelUpTo(tables, r.value, data, 0) && |free| == |old(free)| - 1
      ensures KmapTables(data, 0) == 0
      ensures Frames() == old(Frames())
    {
      hide Space, Pool, FrameSet, Page, Pde, KernelTables;
      ghost var free0 := free;
      r := Kalloc();
      if r.Some? {
        PoppedHead(free0, free, own, first, last, r.value);
        Given(free, own, first, last, r.value, Dir);
        tables := tables[r.value := Zeroed()];
        own := own[r.value := Dir];
        EmptySpace(tables, r.value, own);
        NoTables(tables, r.value);
        NothingBelow(data);
      }
    }

    /** sbrk's work: the process's size after it. Shrinking to exactly 0 is reported as a failure and leaves
        the size as it was, although the pages are gone; that is the one case in which the pages below the
        size are no longer just the ones mapped. */
    method GrowProc(dir: nat, sz: nat, n: int) returns (ok: bool, sz2: nat)
      requires Valid(dir) && sz < KERNBASE && -0x8000_0000 <= n < 0x8000_0000
      requires forall v: nat | PageUp(sz) <= v < USERPAGES :: Page(tables, dir, v) == Absent
      modifies this
      ensures Valid(dir) && Frames() == old(Frames()) && sz2 < KERNBASE
      ensures forall v: nat | PageUp(sz2) <= v < USERPAGES :: Page(tables, dir, v) == Absent
      ensures sz2 == if ok && sz + n >= 0 then sz + n else sz
      ensures forall v: nat | v < PageUp(sz) && v < PageUp(sz2) && !(n < 0 && sz + n == 0) ::
                Page(tables, dir, v) == old(Page(tables, dir, v))
      ensures forall v: nat | v >= USERPAGES :: Page(tables, dir, v) == old(Page(tables, dir, v))
      ensures n <= 0 && sz + n != 0 && sz > 0 ==> ok
      ensures n > 0 ==> (ok <==> sz + n < KERNBASE && |old(free)| >= FramesFor(old(tables), dir, sz, sz + n))
      ensures old(Exact(tables, dir, sz)) ==> (Exact(tables, dir, sz2) <==> !(n < 0 && sz + n == 0))
    {
      hide Space, Pool, FrameSet, Page;
      var r := sz;
      if n > 0 {
        if sz + n < KERNBASE { SizeBelow(sz + n); }
        r := AllocUvm(dir, sz, sz + n);
        if r == 0 { return false, sz; }
        SizesUp(sz, sz + n);
      } else if n < 0 {
        SizeBelow(sz);
        r := DeallocUvm(dir, sz, (sz + n) % 0x1_0000_0000);
        if r == 0 {
          if sz > 0 { SizePositive(sz); }
          assert Page(tables, dir, 0) == Absent || sz == 0;
          return false, sz;
        }
      }
      return true, r;
    }

    /** A whole life: set up, grown and shrunk any number of times, torn down. Every frame is free again. */
    method Life(data: nat, changes: seq<int>)
      requires own == map[] && Pool(free, own, first, last)
      requires KERNLINK < data < KERNBASE + PHYSTOP && data % PGSIZE == 0
      requires forall k | 0 <= k < |changes| :: -0x8000_0000 <= changes[k] < 0x8000_0000
      modifies this
      ensures own == map[] && Pool(free, own, first, last) && multiset(free) == multiset(old(free))
    {
      hide Pool, Space, Page;
      var dir := SetupKvm(data);
      if dir.Some? {
        forall v: nat | v < USERPAGES ensures Page(tables, dir.value, v) == Absent { NoUserPage(data, v); }
        var sz: nat, k: nat := 0, 0;
        while k < |changes|
          invariant k <= |changes| && Valid(dir.value) && sz < KERNBASE && Frames() == old(Frames())
          invariant forall v: nat | PageUp(sz) <= v < USERPAGES :: Page(tables, dir.value, v) == Absent
        {
          var _, sz2 := GrowProc(dir.value, sz, changes[k]);
          sz, k := sz2, k + 1;
        }
        FreeVm(dir.value);
      }
      SameFrames(free, old(free), own, first, last);
    }
  }

  /** The pages mapped are those below the size. */
  ghost predicate Exact(ts: Tables, dir: nat, sz: nat) {
    forall v: nat | v < USERPAGES :: Page(ts, dir, v).Present? <==> v < PageUp(sz)
  }

  lemma SizeBelow(sz: nat)
    requires sz < KERNBASE
    ensures PageUp(sz) <= USERPAGES
  {
  }

  lemma SizePositive(sz: nat)
    requires 0 < sz
    ensures 0 < PageUp(sz)
  {
  }

  lemma NoUserPage(data: nat, v: nat)
    requires v < USERPAGES
    ensures KernelPage(data, v) == Absent
  {
  }

  lemma {:induction false} NoDuplicates(s: seq<nat>, f: nat)
    requires forall i, j | 0 <= i < j < |s| :: s[i] != s[j]
    ensures multiset(s)[f] == if f in s then 1 else 0
  {
    if s != [] {
      NoDuplicates(s[1..], f);
      assert s == [s[0]] + s[1..];
    }
  }

  lemma SameFrames(free: seq<nat>, free0: seq<nat>, own: map<nat, Slot>, first: nat, last: nat)
    requires own == map[] && Pool(free, own, first, last) && Pool(free0, own, first, last)
    requires FrameSet(free, own) == FrameSet(free0, own)
    ensures multiset(free) == multiset(free0)
  {
    forall f ensures multiset(free)[f] == multiset(free0)[f] {
      NoDuplicates(free, f);
      NoDuplicates(free0, f);
      assert f in FrameSet(free, own) <==> f in FrameSet(free0, own);
    }
  }

  /** What setupkvm maps page v to: the kernel's view of physical memory, and the devices at their own place. */
  function KernelPage(data: nat, v: nat): Entry {
    var a := v * PGSIZE;
    if KERNBASE <= a < KERNLINK then Present(v - USERPAGES, PTE_W)
    else if KERNLINK <= a < data then Present(v - USERPAGES, 0)
    else if KERNLINK <= data <= a < KERNBASE + PHYSTOP then Present(v - USERPAGES, PTE_W)
    else if DEVSPACE <= a < 0x1_0000_0000 then Present(v, PTE_W)
    else Absent
  }

  /** The first page beyond the first k ranges. */
  function KmapUpTo(data: nat, k: nat): nat {
    if k == 0 then KERNBASE / PGSIZE else if k == 1 then KERNLINK / PGSIZE else if k == 2 then data / PGSIZE
    else if k == 3 then DEVSPACE / PGSIZE else 0x10_0000
  }

  /** The frames for growing from one size to another: new pages and missing tables. */
  function FramesFor(ts: Tables, dir: nat, oldsz: nat, newsz: nat): nat
    requires oldsz <= newsz
  {
    PageUp(newsz) - PageUp(oldsz) + NewTables(ts, dir, PageUp(oldsz), PageUp(newsz))
  }

  /** The directory, 56 tables for memory and 8 for the devices. */
  const KVMFRAMES := 65

  /** The first directory entry behind those that the first k ranges of kmap take, the devices' apart. */
  function KmapDirs(data: nat, k: nat): nat {
    if k == 0 then 512 else if k == 1 then 513 else if k == 2 then CeilDiv(data / PGSIZE) else 568
  }

  function KmapTables(data: nat, k: nat): int {
    KmapDirs(data, k) - 512 + if k == 4 then 8 else 0
  }

  ghost predicate KernelTables(ts: Tables, dir: nat, data: nat, k: nat) {
    forall d: nat :: Pde(ts, dir, d).Present? <==> 512 <= d < KmapDirs(data, k) || (k == 4 && 1016 <= d < 1024)
  }

  /** The ranges up to the k-th are mapped, and nothing else. */
  ghost predicate KernelUpTo(ts: Tables, dir: nat, data: nat, k: nat) {
    && (forall v: nat :: Page(ts, dir, v) == if v < KmapUpTo(data, k) then KernelPage(data, v) else Absent)
    && KernelTables(ts, dir, data, k)
  }

  lemma KernelDone(ts: Tables, dir: nat, data: nat)
    requires KernelUpTo(ts, dir, data, 4) && KERNLINK < data < KERNBASE + PHYSTOP && data % PGSIZE == 0
    ensures (forall v: nat :: Page(ts, dir, v) == KernelPage(data, v)) && KmapTables(data, 4) == KVMFRAMES - 1
  {
    hide Page;
    KmapRange(data, 3);
  }

  /** The kernel's pages are no user's, its text is not written, and all but the devices lie at a fixed distance. */
  lemma KernelAllows(ts: Tables, dir: nat, own: map<nat, Slot>, data: nat)
    requires Space(ts, dir, own) && KERNLINK < data < KERNBASE + PHYSTOP && data % PGSIZE == 0
    requires forall v: nat :: Page(ts, dir, v) == KernelPage(data, v)
    ensures forall v: nat ::
              Page(ts, dir, v) == (
                if 0x8_0000 <= v < 0x8_0100 then Present(v - 0x8_0000, PTE_W)
                else if 0x8_0100 <= v < data / 4096 then Present(v - 0x8_0000, 0)
                else if data / 4096 <= v < 0x8_E000 then Present(v - 0x8_0000, PTE_W)
                else if 0xF_E000 <= v < 0x10_0000 then Present(v, PTE_W) else Absent)
    ensures forall v: nat :: !Allows(ts, dir, v, PTE_U)
    ensures forall v: nat | 0x8_0100 <= v < data / 4096 :: !Allows(ts, dir, v, PTE_W)
  {
    hide Page, Pde, Space, Allows;
    AccessAll(ts, dir, own);
    KmapRange(data, 0);
  }

  lemma NothingBelow(data: nat)
    ensures forall v: nat | v < KmapUpTo(data, 0) :: KernelPage(data, v) == Absent
  {
    forall v: nat | v < USERPAGES ensures KernelPage(data, v) == Absent { NoUserPage(data, v); }
  }

  /** The table in vm.c. */
  function Kmap(data: nat): (kmap: seq<(nat, nat, nat, nat)>)
    requires KERNLINK < data < KERNBASE + PHYSTOP
    ensures |kmap| == 4
  {
    [(KERNBASE, 0, EXTMEM, PTE_W), (KERNLINK, KERNLINK - KERNBASE, data - KERNBASE, 0),
     (data, data - KERNBASE, PHYSTOP, PTE_W), (DEVSPACE, DEVSPACE, 0x1_0000_0000, PTE_W)]
  }

  /** The k-th range of kmap. */
  ghost predicate IsRange(data: nat, k: nat, va: nat, size: nat, pa: nat, perm: nat) {
    && KERNBASE <= va && 0 < size && va + size <= 0x1_0000_0000 && pa % PGSIZE == 0
    && va / PGSIZE == KmapFrom(data, k) && PageUp(va + size) == KmapTo(data, k)
    && KmapUpTo(data, k) <= KmapFrom(data, k)
    && (forall v: nat | KmapFrom(data, k) <= v < KmapTo(data, k) ::
          KernelPage(data, v) == Present(pa / PGSIZE + (v - va / PGSIZE), perm))
    && (forall v: nat | KmapUpTo(data, k) <= v < KmapFrom(data, k) || KmapTo(data, k) <= v < KmapUpTo(data, k + 1) ::
          KernelPage(data, v) == Absent)
  }

  lemma KmapEntry(data: nat, k: nat)
    requires KERNLINK < data < KERNBASE + PHYSTOP && data % PGSIZE == 0 && k < 4
    ensures var e := Kmap(data)[k]; e.1 <= e.2 && IsRange(data, k, e.0, e.2 - e.1, e.1, e.3)
  {
    KmapRange(data, k);
  }

  lemma NoTables(ts: Tables, dir: nat)
    requires dir in ts && ts[dir] == Zeroed()
    ensures forall data :: KernelTables(ts, dir, data, 0)
  {
  }

  /** The pages of the k-th range of kmap. */
  function KmapFrom(data: nat, k: nat): nat {
    if k == 0 then KERNBASE / PGSIZE else if k == 1 then KERNLINK / PGSIZE else if k == 2 then data / PGSIZE
        else DEVSPACE / PGSIZE
  }

  function KmapTo(data: nat, k: nat): nat {
    if k == 2 then PHYSTOP / PGSIZE + USERPAGES else KmapUpTo(data, k + 1)
  }

  /** The tables that the k-th range of kmap lacks. */
  lemma KmapCost(ts: Tables, dir: nat, data: nat, k: nat)
    requires KERNLINK < data < KERNBASE + PHYSTOP && data % PGSIZE == 0 && k < 4 && KernelTables(ts, dir, data, k)
    ensures NewTables(ts, dir, KmapFrom(data, k), KmapTo(data, k)) == KmapTables(data, k + 1) - KmapTables(data, k)
    ensures 0 <= KmapTables(data, k) <= KmapTables(data, k + 1) <= KVMFRAMES - 1 == KmapTables(data, 4)
  {
    hide Pde;
    AllNew(ts, dir, KmapFrom(data, k), KmapTo(data, k));
  }

  lemma KmapMade(ts: Tables, ts2: Tables, dir: nat, data: nat, k: nat)
    requires KERNLINK < data < KERNBASE + PHYSTOP && data % PGSIZE == 0 && k < 4 && KernelTables(ts, dir, data, k)
    requires TablesMade(ts, ts2, dir, KmapFrom(data, k), KmapTo(data, k))
    ensures KernelTables(ts2, dir, data, k + 1)
  {
    hide Pde;
  }

  lemma KmapRange(data: nat, k: nat)
    requires KERNLINK < data < KERNBASE + PHYSTOP && data % PGSIZE == 0 && k < 4
    ensures forall v: nat | v < KERNBASE / PGSIZE || v >= 0x10_0000 :: KernelPage(data, v) == Absent
    ensures forall v: nat | PHYSTOP / PGSIZE + USERPAGES <= v < DEVSPACE / PGSIZE :: KernelPage(data, v) == Absent
    ensures forall v: nat | KERNBASE / PGSIZE <= v < KERNLINK / PGSIZE ::
              KernelPage(data, v) == Present(v - USERPAGES, PTE_W)
    ensures forall v: nat | KERNLINK / PGSIZE <= v < data / PGSIZE :: KernelPage(data, v) == Present(v - USERPAGES, 0)
    ensures forall v: nat | data / PGSIZE <= v < PHYSTOP / PGSIZE + USERPAGES ::
              KernelPage(data, v) == Present(v - USERPAGES, PTE_W)
    ensures forall v: nat | DEVSPACE / PGSIZE <= v < 0x10_0000 :: KernelPage(data, v) == Present(v, PTE_W)
  {
  }

  lemma EmptySpace(ts: Tables, dir: nat, own: map<nat, Slot>)
    requires dir in ts && ts[dir] == Zeroed() && own == map[dir := Dir]
    ensures Space(ts, dir, own) && forall v: nat :: Page(ts, dir, v) == Absent
  {
    forall s ensures Val(ts, dir, s) == if s == Dir then Some(dir) else None {}
  }

  /** Only the directory and its tables from i on are left, each in its own frame. */
  ghost predicate Tearing(pdes: seq<Entry>, dir: nat, own: map<nat, Slot>, i: nat) {
    && dir in own && own[dir] == Dir
    && (forall d | i <= d < |pdes| && pdes[d].Present? :: pdes[d].frame in own && own[pdes[d].frame] == TableOf(d))
    && (forall f | f in own && f != dir ::
          own[f].TableOf? && i <= own[f].d < |pdes| && pdes[own[f].d].Present? && pdes[own[f].d].frame == f)
  }

  lemma StartTearing(ts: Tables, dir: nat, own: map<nat, Slot>)
    requires Space(ts, dir, own) && forall v: nat | v < USERPAGES :: Page(ts, dir, v) == Absent
    ensures dir in ts && |ts[dir]| == ENTRIES && Tearing(ts[dir], dir, own, 0)
  {
    assert Val(ts, dir, Dir) == Some(dir);
    var pdes := ts[dir];
    forall d | 0 <= d < ENTRIES && pdes[d].Present? ensures pdes[d].frame in own && own[pdes[d].frame] == TableOf(d) {
      assert Val(ts, dir, TableOf(d)) == FrameOf(Pde(ts, dir, d));
    }
    forall f | f in own
      ensures f == dir || (own[f].TableOf? && own[f].d < |pdes| && pdes[own[f].d].Present? && pdes[own[f].d].frame == f)
    {
      assert Val(ts, dir, own[f]) == Some(f);
      match own[f]
      case Leaf(d, t) => NoLeaf(ts, dir, d, t);
      case _ =>
    }
  }

  lemma NoLeaf(ts: Tables, dir: nat, d: nat, t: nat)
    requires Shaped(ts, dir) && forall v: nat | v < USERPAGES :: Page(ts, dir, v) == Absent
    ensures Val(ts, dir, Leaf(d, t)) == None
  {
    if d < USERDIRS && t < ENTRIES {
      var v := d * ENTRIES + t;
      assert v / ENTRIES == d && v % ENTRIES == t && Page(ts, dir, v) == Absent;
    } else if d < USERDIRS {
      assert Pde(ts, dir, d).Present? ==> TableAt(ts, Pde(ts, dir, d).frame);
    }
  }

  lemma TearOne(pdes: seq<Entry>, dir: nat, own: map<nat, Slot>, i: nat)
    requires Tearing(pdes, dir, own, i) && i < |pdes|
    ensures pdes[i] == Absent ==> Tearing(pdes, dir, own, i + 1)
    ensures pdes[i].Present? ==>
              pdes[i].frame in own && pdes[i].frame != dir && Tearing(pdes, dir, own - {pdes[i].frame}, i + 1)
  {
  }

  lemma LastTorn(pdes: seq<Entry>, dir: nat, own: map<nat, Slot>)
    requires Tearing(pdes, dir, own, |pdes|)
    ensures dir in own && own - {dir} == map[]
  {
  }

  /** The new pages are writable user pages through both levels. */
  lemma GrownAllows(ts: Tables, ts2: Tables, dir: nat, own: map<nat, Slot>, lo: nat, hi: nat, free: seq<nat>)
    requires Space(ts2, dir, own) && Grown(ts, ts2, dir, lo, hi, free)
    ensures forall v: nat | lo <= v < hi ::
              && Page(ts2, dir, v).Present? && Page(ts2, dir, v).frame in free
              && Allows(ts2, dir, v, PTE_U) && Allows(ts2, dir, v, PTE_W)
  {
    hide Page, Pde, Space, Allows;
    AccessAll(ts2, dir, own);
  }

  /** Pages lo to hi are new: writable user pages on frames that were free; all other pages are the same. */
  ghost predicate Grown(ts: Tables, ts2: Tables, dir: nat, lo: nat, hi: nat, free: seq<nat>) {
    && (forall v: nat | lo <= v < hi :: Page(ts2, dir, v).Present? && Page(ts2, dir, v).perm == PTE_W + PTE_U
                                      && Page(ts2, dir, v).frame in free)
    && (forall v: nat | v < lo || hi <= v :: Page(ts2, dir, v) == Page(ts, dir, v))
  }

  lemma Restored(ts: Tables, ts1: Tables, ts2: Tables, dir: nat, lo: nat, v: nat, hi: nat, free: seq<nat>)
    requires Grown(ts, ts1, dir, lo, v, free) && v <= hi
    requires forall w: nat | lo <= w < hi :: Page(ts, dir, w) == Absent
    requires forall w: nat :: Page(ts2, dir, w) == if lo <= w < hi then Absent else Page(ts1, dir, w)
    ensures SamePages(ts, ts2, dir)
  {
  }

  lemma PoppedHead(free: seq<nat>, rest: seq<nat>, own: map<nat, Slot>, first: nat, last: nat, f: nat)
    requires Pool(free, own, first, last) && free == [f] + rest
    ensures Pool(rest, own, first, last) && first <= f < last && f !in FrameSet(rest, own) && f in free
    ensures FrameSet(free, own) == FrameSet(rest, own) + {f} && forall g | g in rest :: g in free
  {
    Popped(free, own, first, last);
    assert rest == free[1..];
  }

  /** A frame outside the address space may be filled with junk. */
  lemma DropFrame(ts: Tables, dir: nat, free: seq<nat>, own: map<nat, Slot>, f: nat)
    requires Space(ts, dir, own) && f !in FrameSet(free, own)
    ensures Space(ts - {f}, dir, own) && SamePages(ts, ts - {f}, dir)
  {
    hide Space;
    NotOwned(free, own, f);
    JunkKeeps(ts, dir, own, f);
  }

  lemma SizesUp(oldsz: nat, newsz: nat)
    requires newsz >= oldsz
    ensures PageUp(newsz) >= PageUp(oldsz)
  {
  }

  lemma Inside(v: nat, oldsz: nat)
    requires v * PGSIZE < oldsz
    ensures v < PageUp(oldsz)
  {
  }

  lemma Outside(v: nat, oldsz: nat)
    requires v * PGSIZE >= oldsz
    ensures v >= PageUp(oldsz)
  {
  }

  /** The last page of the missing table that would hold page v; all its pages are absent. */
  lemma SkipTable(ts: Tables, dir: nat, v: nat) returns (w: nat)
    requires v < USERPAGES && Pde(ts, dir, PDX(v * PGSIZE)) == Absent
    ensures v <= w && (PDX(v * PGSIZE) + 1) * 0x40_0000 - PGSIZE == w * PGSIZE
    ensures forall u: nat | v <= u <= w :: Page(ts, dir, u) == Absent
  {
    Aligned(v);
    Indices(v * PGSIZE);
    w := (v / ENTRIES + 1) * ENTRIES - 1;
    forall u: nat | v <= u <= w ensures Page(ts, dir, u) == Absent { assert u / ENTRIES == v / ENTRIES; }
  }

  lemma TakenBack(free: seq<nat>, own: map<nat, Slot>, f: nat)
    requires f in own
    ensures FrameSet([f] + free, own - {f}) == FrameSet(free, own)
  {
  }

  lemma LeafIsNoTable(ts: Tables, dir: nat, own: map<nat, Slot>, d: nat, t: nat)
    requires Owned(ts, dir, own) && d < USERDIRS && Pte(ts, dir, d, t).Present?
    ensures Pde(ts, dir, d).Present? && Pde(ts, dir, d).frame != Pte(ts, dir, d, t).frame
  {
    assert Val(ts, dir, TableOf(d)) == FrameOf(Pde(ts, dir, d));
    assert Val(ts, dir, Leaf(d, t)) == FrameOf(Pte(ts, dir, d, t));
  }

  lemma Aligned(v: nat)
    ensures v * PGSIZE / PGSIZE == v
  {
  }

  lemma Bounds(va: nat, size: nat)
    requires 0 < size
    ensures va / PGSIZE <= (va + size - 1) / PGSIZE == PageUp(va + size) - 1
    ensures va >= KERNBASE ==> va / PGSIZE * PGSIZE >= KERNBASE
    ensures va % PGSIZE == 0 && size == PGSIZE ==> (va + size - 1) / PGSIZE == va / PGSIZE
  {
  }

  lemma NotOwned(free: seq<nat>, own: map<nat, Slot>, f: nat)
    requires f !in FrameSet(free, own)
    ensures f !in own
  {
  }

  /** Two pages of the user half never share a frame, and none of them lies in a free frame or a table. */
  lemma NoAliasing(ts: Tables, dir: nat, own: map<nat, Slot>, free: seq<nat>, first: nat, last: nat, v: nat, w: nat)
    requires Space(ts, dir, own) && Pool(free, own, first, last)
    requires v < USERPAGES && w < USERPAGES && v != w && Page(ts, dir, v).Present? && Page(ts, dir, w).Present?
    ensures Page(ts, dir, v).frame != Page(ts, dir, w).frame && Page(ts, dir, v).frame !in free
    ensures Page(ts, dir, v).frame != dir
    ensures forall d :: Pde(ts, dir, d).Present? ==> Pde(ts, dir, d).frame != Page(ts, dir, v).frame
  {
    assert Val(ts, dir, Leaf(v / ENTRIES, v % ENTRIES)) == FrameOf(Page(ts, dir, v));
    assert Val(ts, dir, Leaf(w / ENTRIES, w % ENTRIES)) == FrameOf(Page(ts, dir, w));
    assert v == v / ENTRIES * ENTRIES + v % ENTRIES && w == w / ENTRIES * ENTRIES + w % ENTRIES;
    assert Val(ts, dir, Dir) == Some(dir);
    forall d | Pde(ts, dir, d).Present? ensures Pde(ts, dir, d).frame != Page(ts, dir, v).frame {
      assert Val(ts, dir, TableOf(d)) == FrameOf(Pde(ts, dir, d));
    }
  }

  /** A process of one page that shrinks to nothing: the call fails, the size stays, the page is gone. */
  method ShrinkToNothing(vm: Vm, data: nat) returns (dir: nat)
    requires vm.own == map[] && Pool(vm.free, vm.own, vm.first, vm.last) && |vm.free| >= KVMFRAMES + 2
    requires KERNLINK < data < KERNBASE + PHYSTOP && data % PGSIZE == 0
    modifies vm
    ensures vm.Valid(dir) && Page(vm.tables, dir, 0) == Absent && !Exact(vm.tables, dir, PGSIZE)
  {
    var d := vm.SetupKvm(data);
    dir := d.value;
    forall v: nat | v < USERPAGES ensures Page(vm.tables, dir, v) == Absent { NoUserPage(data, v); }
    NewTablesBound(vm.tables, dir, 0, 0, 1);
    var grown, size := vm.GrowProc(dir, 0, PGSIZE);
    assert grown && size == PGSIZE && Exact(vm.tables, dir, PGSIZE);
    var shrunk, size2 := vm.GrowProc(dir, PGSIZE, -PGSIZE);
    assert !shrunk && size2 == PGSIZE;
  }
}
