/** The K&R allocator of umalloc.c over one flat memory of header-sized units. An address is a unit
    index; 0 is the null pointer and the static `base` sits below everything sbrk returns. */
module KrAllocator {
  datatype Header = Header(ptr: nat, size: nat)

  const BASE: nat := 1
  const HEADERSIZE := 8
  const MINUNITS := 4096

  function Size(mem: seq<Header>, a: nat): nat {
    if a < |mem| then mem[a].size else 0
  }

  // ----- the free list -----

  function Succ(ring: seq<nat>, i: nat): nat
    requires i < |ring|
  {
    if i + 1 < |ring| then i + 1 else 0
  }

  ghost predicate Ascending(mem: seq<Header>, ring: seq<nat>) {
    && 1 <= |ring| && ring[0] == BASE
    && (forall i, j | 0 <= i < j < |ring| :: ring[i] < ring[j])
    && (forall i | 0 <= i < |ring| :: ring[i] < |mem|)
  }

  ghost predicate LinkAt(mem: seq<Header>, ring: seq<nat>, i: nat) {
    i < |ring| && ring[i] < |mem| && mem[ring[i]].ptr == ring[Succ(ring, i)]
  }

  /** From base on, the list visits the addresses of `ring`, which ascend, and returns to base. */
  ghost predicate Circular(mem: seq<Header>, ring: seq<nat>) {
    && Ascending(mem, ring) && mem[BASE].size == 0
    && forall i {:trigger LinkAt(mem, ring, i)} | 0 <= i < |ring| :: LinkAt(mem, ring, i)
  }

  /** No free block touches the next one. */
  ghost predicate Coalesced(mem: seq<Header>, ring: seq<nat>) {
    forall i, j | 0 <= i < j < |ring| :: ring[i] + Size(mem, ring[i]) < ring[j]
  }

  ghost function FreeSet(ring: seq<nat>): set<nat> {
    set a | a in ring && a != BASE
  }

  predicate Fits(mem: seq<Header>, ring: seq<nat>, nunits: nat) {
    exists a | a in ring :: Size(mem, a) >= nunits
  }

  // ----- blocks tile the memory from sbrk -----

  /** The n units from a on are owned by a. */
  ghost predicate Covers(own: map<nat, nat>, a: nat, n: nat) {
    forall u {:trigger u in own} {:trigger own[u]} | a <= u < a + n :: u in own && own[u] == a
  }

  /** Every unit from sbrk lies in exactly the block `own` names, and every block lies in such units. */
  ghost predicate Tiles(mem: seq<Header>, blocks: set<nat>, own: map<nat, nat>) {
    && (forall a | a in blocks :: BASE < a && 1 <= Size(mem, a) && a + Size(mem, a) <= |mem|)
    && (forall a | a in blocks :: Covers(own, a, Size(mem, a)))
    && (forall u | u in own :: own[u] in blocks && own[u] <= u < own[u] + Size(mem, own[u]))
  }

  /** Distinct blocks do not overlap. */
  lemma Disjoint(mem: seq<Header>, blocks: set<nat>, own: map<nat, nat>, a: nat, b: nat)
    requires Tiles(mem, blocks, own) && a in blocks && b in blocks && a < b
    ensures a + Size(mem, a) <= b
  {
    assert Covers(own, a, Size(mem, a)) && Covers(own, b, Size(mem, b));
    assert b in own && own[b] == b;
  }

  function MergeOwn(own: map<nat, nat>, a: nat, b: nat): map<nat, nat> {
    map u | u in own :: if own[u] == b then a else own[u]
  }

  /** A block absorbs the one right behind it. */
  lemma MergeTiles(mem: seq<Header>, blocks: set<nat>, own: map<nat, nat>, a: nat, b: nat, mem2: seq<Header>)
    requires Tiles(mem, blocks, own) && a in blocks && b in blocks && b == a + Size(mem, a)
    requires |mem2| == |mem| && Size(mem2, a) == Size(mem, a) + Size(mem, b)
    requires forall c | c in blocks && c != a && c != b :: Size(mem2, c) == Size(mem, c)
    ensures Tiles(mem2, blocks - {b}, MergeOwn(own, a, b))
  {
    var own2 := MergeOwn(own, a, b);
    forall c | c in blocks - {b} ensures Covers(own2, c, Size(mem2, c)) {
      assert Covers(own, c, Size(mem, c)) && Covers(own, b, Size(mem, b));
    }
  }

  function SplitOwn(own: map<nat, nat>, a: nat, q: nat): map<nat, nat> {
    map u | u in own :: if own[u] == a && u >= q then q else own[u]
  }

  /** The tail of a block becomes a block of its own. */
  lemma SplitTiles(mem: seq<Header>, blocks: set<nat>, own: map<nat, nat>, a: nat, q: nat, mem2: seq<Header>)
    requires Tiles(mem, blocks, own) && a in blocks && a < q < a + Size(mem, a)
    requires |mem2| == |mem| && Size(mem2, a) == q - a && Size(mem2, q) == Size(mem, a) - (q - a)
    requires forall c | c in blocks && c != a :: Size(mem2, c) == Size(mem, c)
    ensures q !in blocks && Tiles(mem2, blocks + {q}, SplitOwn(own, a, q))
  {
    assert Covers(own, a, Size(mem, a)) && q in own && own[q] == a;
    assert q in blocks ==> Covers(own, q, Size(mem, q));
    var own2 := SplitOwn(own, a, q);
    forall c | c in blocks + {q} ensures Covers(own2, c, Size(mem2, c)) {
      assert c != q ==> Covers(own, c, Size(mem, c));
    }
  }

  function GrowOwn(own: map<nat, nat>, p: nat, n: nat): (r: map<nat, nat>)
    ensures forall u :: u in r <==> u in own || p <= u < p + n
    ensures forall u | u in r :: r[u] == if p <= u < p + n then p else own[u]
  {
    if n == 0 then own else GrowOwn(own, p, n - 1)[p + n - 1 := p]
  }

  /** Units beyond all memory so far become a new block. */
  lemma GrowTiles(mem: seq<Header>, blocks: set<nat>, own: map<nat, nat>, p: nat, mem2: seq<Header>)
    requires Tiles(mem, blocks, own) && |mem| <= p && BASE < p && 1 <= Size(mem2, p) && p + Size(mem2, p) == |mem2|
    requires forall c | c in blocks :: Size(mem2, c) == Size(mem, c)
    ensures p !in blocks && Tiles(mem2, blocks + {p}, GrowOwn(own, p, Size(mem2, p)))
  {
    var own2 := GrowOwn(own, p, Size(mem2, p));
    forall c | c in blocks + {p} ensures Covers(own2, c, Size(mem2, c)) {
      assert c != p ==> Covers(own, c, Size(mem, c));
    }
  }

  // ----- the whole state -----

  /** Free and live blocks are disjoint and exactly tile the memory from sbrk; the free list is
      circular and address-ordered, contains base, and is fully coalesced. */
  ghost predicate Inv(mem: seq<Header>, ring: seq<nat>, live: map<nat, nat>, own: map<nat, nat>) {
    && Circular(mem, ring) && Coalesced(mem, ring)
    && FreeSet(ring) !! live.Keys
    && Tiles(mem, FreeSet(ring) + live.Keys, own)
    && (forall a | a in live :: Size(mem, a) == live[a])
  }

  // ----- list surgery -----

  function Remove(ring: seq<nat>, i: nat): (r: seq<nat>)
    requires i < |ring|
    ensures |r| == |ring| - 1 && forall j | 0 <= j < |r| :: r[j] == if j < i then ring[j] else ring[j + 1]
  {
    ring[..i] + ring[i + 1..]
  }

  function Insert(ring: seq<nat>, i: nat, a: nat): (r: seq<nat>)
    requires i <= |ring|
    ensures |r| == |ring| + 1
    ensures forall j | 0 <= j < |r| :: r[j] == if j < i then ring[j] else if j == i then a else ring[j - 1]
  {
    ring[..i] + [a] + ring[i..]
  }

  /** Where bp belongs: after ring[t]. */
  ghost predicate Between(ring: seq<nat>, t: nat, bp: nat) {
    t < |ring| && ring[t] < bp && (t + 1 < |ring| ==> bp < ring[t + 1])
  }

  lemma AscendingInsert(mem: seq<Header>, ring: seq<nat>, t: nat, bp: nat)
    requires Ascending(mem, ring) && Between(ring, t, bp) && bp < |mem|
    ensures Ascending(mem, Insert(ring, t + 1, bp))
  {
    var r := Insert(ring, t + 1, bp);
    forall i, j | 0 <= i < j < |r| ensures r[i] < r[j] {
      assert ring[0] == BASE && forall k | 0 <= k <= t :: ring[k] <= ring[t];
    }
  }

  lemma CircularInsert(mem: seq<Header>, ring: seq<nat>, t: nat, bp: nat, mem2: seq<Header>)
    requires Circular(mem, ring) && Between(ring, t, bp) && bp < |mem2| == |mem|
    requires mem2[ring[t]].ptr == bp && mem2[bp].ptr == ring[Succ(ring, t)] && mem2[BASE].size == 0
    requires forall i | 0 <= i < |ring| && i != t :: mem2[ring[i]].ptr == mem[ring[i]].ptr
    ensures Circular(mem2, Insert(ring, t + 1, bp))
  {
    AscendingInsert(mem2, ring, t, bp);
    var r := Insert(ring, t + 1, bp);
    forall i | 0 <= i < |r| ensures LinkAt(mem2, r, i) {
      InsertLink(mem, ring, t, bp, mem2, i);
    }
  }

  lemma InsertLink(mem: seq<Header>, ring: seq<nat>, t: nat, bp: nat, mem2: seq<Header>, i: nat)
    requires Circular(mem, ring) && t < |ring| && bp < |mem2| == |mem| && i <= |ring|
    requires mem2[ring[t]].ptr == bp && mem2[bp].ptr == ring[Succ(ring, t)]
    requires forall i | 0 <= i < |ring| && i != t :: mem2[ring[i]].ptr == mem[ring[i]].ptr
    ensures LinkAt(mem2, Insert(ring, t + 1, bp), i)
  {
    if i < t {
      assert LinkAt(mem, ring, i);
    } else if i > t + 1 {
      assert LinkAt(mem, ring, i - 1);
    }
  }

  lemma CircularRemove(mem: seq<Header>, ring: seq<nat>, k: nat, mem2: seq<Header>)
    requires Circular(mem, ring) && 0 < k < |ring| && |mem2| == |mem| && mem2[BASE].size == 0
    requires mem2[ring[k - 1]].ptr == mem[ring[k]].ptr
    requires forall i | 0 <= i < |ring| && i != k - 1 && i != k :: mem2[ring[i]].ptr == mem[ring[i]].ptr
    ensures Circular(mem2, Remove(ring, k))
  {
    var r := Remove(ring, k);
    forall i | 0 <= i < |r| ensures LinkAt(mem2, r, i) {
      assert LinkAt(mem, ring, if i < k then i else i + 1) && LinkAt(mem, ring, k);
    }
  }

  lemma CircularSame(mem: seq<Header>, ring: seq<nat>, mem2: seq<Header>)
    requires Circular(mem, ring) && |mem2| >= |mem| && mem2[BASE].size == 0
    requires forall i | 0 <= i < |ring| :: mem2[ring[i]].ptr == mem[ring[i]].ptr
    ensures Circular(mem2, ring)
  {
    forall i | 0 <= i < |ring| ensures LinkAt(mem2, ring, i) {
      assert LinkAt(mem, ring, i);
    }
  }

  lemma CoalescedInsert(mem: seq<Header>, ring: seq<nat>, t: nat, bp: nat, mem2: seq<Header>)
    requires Coalesced(mem, ring) && t < |ring|
    requires forall i | 0 <= i <= t :: ring[i] + Size(mem, ring[i]) < bp
    requires forall i | t < i < |ring| :: bp + Size(mem2, bp) < ring[i]
    requires forall i | 0 <= i < |ring| :: Size(mem2, ring[i]) == Size(mem, ring[i])
    ensures Coalesced(mem2, Insert(ring, t + 1, bp))
  {
    var r := Insert(ring, t + 1, bp);
    forall i, j | 0 <= i < j < |r| ensures r[i] + Size(mem2, r[i]) < r[j] {
      if i != t + 1 { assert r[i] == ring[if i <= t then i else i - 1]; }
      if j != t + 1 { assert r[j] == ring[if j <= t then j else j - 1]; }
    }
  }

  lemma CoalescedRemove(mem: seq<Header>, ring: seq<nat>, k: nat)
    requires Coalesced(mem, ring) && k < |ring|
    ensures Coalesced(mem, Remove(ring, k))
  {
  }

  /** The sizes of free blocks other than ring[t] are at most what they were. */
  lemma CoalescedGrow(mem: seq<Header>, ring: seq<nat>, t: nat, mem2: seq<Header>)
    requires Coalesced(mem, ring) && t < |ring|
    requires forall i | t < i < |ring| :: ring[t] + Size(mem2, ring[t]) < ring[i]
    requires forall i | 0 <= i < |ring| && i != t :: Size(mem2, ring[i]) <= Size(mem, ring[i])
    ensures Coalesced(mem2, ring)
  {
  }

  lemma CoalescedNext(mem: seq<Header>, ring: seq<nat>, i: nat, j: nat)
    requires Coalesced(mem, ring) && i < j < |ring|
    ensures ring[i] + Size(mem, ring[i]) < ring[j]
  {
  }

  lemma CoalescedSame(mem: seq<Header>, ring: seq<nat>, mem2: seq<Header>)
    requires Coalesced(mem, ring) && forall i | 0 <= i < |ring| :: Size(mem2, ring[i]) <= Size(mem, ring[i])
    ensures Coalesced(mem2, ring)
  {
  }

  lemma BlockBounds(mem: seq<Header>, blocks: set<nat>, own: map<nat, nat>, a: nat)
    requires Tiles(mem, blocks, own) && a in blocks
    ensures BASE < a < |mem| && a + Size(mem, a) <= |mem|
  {
  }

  lemma RemoveSet(ring: seq<nat>, i: nat)
    requires 0 < i < |ring| && ring[0] == BASE && forall i, j | 0 <= i < j < |ring| :: ring[i] < ring[j]
    ensures FreeSet(Remove(ring, i)) == FreeSet(ring) - {ring[i]} && ring[i] in FreeSet(ring)
  {
    var r := Remove(ring, i);
    forall a | a in FreeSet(ring) - {ring[i]} ensures a in r {
      var j :| 0 <= j < |ring| && ring[j] == a;
      assert r[if j < i then j else j - 1] == a;
    }
  }

  lemma InsertSet(ring: seq<nat>, i: nat, a: nat)
    requires i <= |ring| && a != BASE
    ensures FreeSet(Insert(ring, i, a)) == FreeSet(ring) + {a}
  {
    var r := Insert(ring, i, a);
    forall b | b in FreeSet(ring) + {a} ensures b in r {
      if b == a { assert r[i] == a; } else {
        var j :| 0 <= j < |ring| && ring[j] == b;
        assert r[if j < i then j else j + 1] == b;
      }
    }
  }

  lemma SameTiles(mem: seq<Header>, blocks: set<nat>, own: map<nat, nat>, mem2: seq<Header>)
    requires Tiles(mem, blocks, own) && |mem2| >= |mem| && forall c | c in blocks :: Size(mem2, c) == Size(mem, c)
    ensures Tiles(mem2, blocks, own)
  {
  }

  // ----- free: joining the upper and then the lower neighbour -----

  /** bp takes over the block behind it, or points at p's successor. */
  function LinkUpper(mem: seq<Header>, p: nat, bp: nat): (r: seq<Header>)
    requires p < |mem| && bp < |mem| && mem[p].ptr < |mem|
    ensures |r| == |mem| && forall u | 0 <= u < |mem| && u != bp :: r[u] == mem[u]
  {
    var next := mem[p].ptr;
    if bp + mem[bp].size == next
    then mem[bp := Header(mem[next].ptr, mem[bp].size + mem[next].size)]
    else mem[bp := Header(next, mem[bp].size)]
  }

  /** p takes over bp, or points at it. */
  function LinkLower(mem: seq<Header>, p: nat, bp: nat): (r: seq<Header>)
    requires p < |mem| && bp < |mem|
    ensures |r| == |mem| && forall u | 0 <= u < |mem| && u != p :: r[u] == mem[u]
  {
    if p + mem[p].size == bp
    then mem[p := Header(mem[bp].ptr, mem[p].size + mem[bp].size)]
    else mem[p := Header(bp, mem[p].size)]
  }

  /** The list with bp's upper neighbour already unlinked, while bp is still live. */
  function Bypass(mem: seq<Header>, p: nat, bp: nat): seq<Header>
    requires p < |mem| && bp < |mem|
  {
    mem[p := Header(mem[bp].ptr, mem[p].size)]
  }

  ghost predicate Above(mem: seq<Header>, ring: seq<nat>, t: nat, bp: nat) {
    t + 1 < |ring| && bp + Size(mem, bp) == ring[t + 1]
  }

  /** A live block starts past every free block before it and ends before every free block behind it. */
  lemma Apart(mem: seq<Header>, ring: seq<nat>, live: map<nat, nat>, own: map<nat, nat>, bp: nat, i: nat)
    requires Inv(mem, ring, live, own) && bp in live && i < |ring|
    ensures bp != ring[i] && bp < |mem|
    ensures ring[i] < bp ==> ring[i] + Size(mem, ring[i]) <= bp
    ensures bp < ring[i] ==> bp + Size(mem, bp) <= ring[i]
  {
    var blocks := FreeSet(ring) + live.Keys;
    if i > 0 {
      assert ring[i] in FreeSet(ring);
      if ring[i] < bp { Disjoint(mem, blocks, own, ring[i], bp); }
      if bp < ring[i] { Disjoint(mem, blocks, own, bp, ring[i]); }
    }
  }

  lemma UpperKeeps(mem: seq<Header>, ring: seq<nat>, live: map<nat, nat>, own: map<nat, nat>, t: nat, bp: nat)
      returns (ring1: seq<nat>, size1: nat, own1: map<nat, nat>)
    requires Inv(mem, ring, live, own) && bp in live && Between(ring, t, bp)
    ensures bp < |mem| && ring[t] < |mem| && mem[ring[t]].ptr < |mem|
    ensures own1.Keys == own.Keys && Between(ring1, t, bp) && ring1[t] == ring[t] && live[bp] <= size1
    ensures t + 1 < |ring1| ==> bp + size1 < ring1[t + 1]
    ensures var mem1 := Bypass(LinkUpper(mem, ring[t], bp), ring[t], bp);
      Inv(mem1, ring1, live[bp := size1], own1) && mem1[bp].ptr == ring1[Succ(ring1, t)]
  {
    hide Tiles, Coalesced;
    hide LinkUpper, Bypass;
    LinkFollow(mem, ring, t);
    forall i | 0 <= i < |ring| ensures ring[i] != bp { Apart(mem, ring, live, own, bp, i); }
    Apart(mem, ring, live, own, bp, t);
    var mem1 := Bypass(LinkUpper(mem, ring[t], bp), ring[t], bp);
    if Above(mem, ring, t, bp) {
      UpperMerges(mem, ring, live, own, t, bp, mem1);
      ring1, size1, own1 := Remove(ring, t + 1), live[bp] + Size(mem, ring[t + 1]), MergeOwn(own, bp, ring[t + 1]);
    } else {
      UpperSame(mem, ring, live, own, t, bp, mem1);
      ring1, size1, own1 := ring, live[bp], own;
      assert live[bp := size1] == live;
    }
  }

  lemma LinkFollow(mem: seq<Header>, ring: seq<nat>, i: nat)
    requires Circular(mem, ring) && i < |ring|
    ensures ring[i] < |mem| && mem[ring[i]].ptr == ring[Succ(ring, i)] < |mem|
  {
    assert LinkAt(mem, ring, i);
  }

  lemma UpperSame(mem: seq<Header>, ring: seq<nat>, live: map<nat, nat>, own: map<nat, nat>, t: nat, bp: nat,
                  mem1: seq<Header>)
    requires Inv(mem, ring, live, own) && bp in live && Between(ring, t, bp) && !Above(mem, ring, t, bp)
    requires ring[t] < |mem| && bp < |mem| && mem[ring[t]].ptr == ring[Succ(ring, t)] < |mem| && bp !in ring
    requires mem1 == Bypass(LinkUpper(mem, ring[t], bp), ring[t], bp)
    ensures t + 1 < |ring| ==> bp + live[bp] < ring[t + 1]
    ensures Inv(mem1, ring, live, own) && mem1[bp].ptr == ring[Succ(ring, t)]
  {
    hide Tiles, Coalesced, LinkAt;
    assert ring[t] < bp && BASE in ring by { RingFirst(mem, ring); }
    CircularSame(mem, ring, mem1);
    assert forall a :: Size(mem1, a) == Size(mem, a);
    CoalescedSame(mem, ring, mem1);
    SameTiles(mem, FreeSet(ring) + live.Keys, own, mem1);
    if t + 1 < |ring| { Apart(mem, ring, live, own, bp, t + 1); }
  }

  lemma RingFirst(mem: seq<Header>, ring: seq<nat>)
    requires Circular(mem, ring)
    ensures BASE in ring
  {
    assert ring[0] == BASE;
  }

  lemma UpperMergesMemory(mem: seq<Header>, p: nat, bp: nat, mem1: seq<Header>)
    requires p < |mem| && p != bp && bp < |mem| && mem[p].ptr == bp + mem[bp].size < |mem| && mem[p].ptr != p
    requires mem1 == Bypass(LinkUpper(mem, p, bp), p, bp)
    ensures |mem1| == |mem| && mem1[bp].ptr == mem1[p].ptr == mem[mem[p].ptr].ptr
    ensures Size(mem1, bp) == Size(mem, bp) + Size(mem, mem[p].ptr)
    ensures forall a | 0 <= a < |mem| && a != bp :: mem1[a].size == mem[a].size && (a != p ==> mem1[a] == mem[a])
  {
  }

  lemma UpperMerges(mem: seq<Header>, ring: seq<nat>, live: map<nat, nat>, own: map<nat, nat>, t: nat, bp: nat,
                    mem1: seq<Header>)
    requires Inv(mem, ring, live, own) && bp in live && Between(ring, t, bp) && Above(mem, ring, t, bp)
    requires ring[t] < |mem| && bp < |mem| && mem[ring[t]].ptr == ring[t + 1] && bp !in ring
    requires mem1 == Bypass(LinkUpper(mem, ring[t], bp), ring[t], bp)
    ensures var ring1, size1 := Remove(ring, t + 1), live[bp] + Size(mem, ring[t + 1]);
      && (t + 1 < |ring1| ==> bp + size1 < ring1[t + 1]) && mem1[bp].ptr == ring1[Succ(ring1, t)]
      && Inv(mem1, ring1, live[bp := size1], MergeOwn(own, bp, ring[t + 1]))
  {
    hide Tiles, Coalesced, LinkUpper, Bypass;
    var next := ring[t + 1];
    var ring1, size1 := Remove(ring, t + 1), live[bp] + Size(mem, next);
    assert LinkAt(mem, ring, t + 1);
    UpperMergesMemory(mem, ring[t], bp, mem1);
    CircularRemove(mem, ring, t + 1, mem1);
    CoalescedRemove(mem, ring, t + 1);
    CoalescedSame(mem, ring1, mem1);
    if t + 2 < |ring| { CoalescedNext(mem, ring, t + 1, t + 2); }
    UpperMergesTiles(mem, ring, live, own, t, bp, mem1);
  }

  lemma UpperMergesTiles(mem: seq<Header>, ring: seq<nat>, live: map<nat, nat>, own: map<nat, nat>, t: nat, bp: nat,
                         mem1: seq<Header>)
    requires Inv(mem, ring, live, own) && bp in live && t + 1 < |ring| && bp !in ring
    requires bp + Size(mem, bp) == ring[t + 1] && |mem1| == |mem|
    requires Size(mem1, bp) == Size(mem, bp) + Size(mem, ring[t + 1])
    requires forall a | 0 <= a < |mem| && a != bp :: mem1[a].size == mem[a].size
    ensures var ring1 := Remove(ring, t + 1);
      var live1 := live[bp := live[bp] + Size(mem, ring[t + 1])];
      && FreeSet(ring1) !! live1.Keys && (forall a | a in live1 :: Size(mem1, a) == live1[a])
      && Tiles(mem1, FreeSet(ring1) + live1.Keys, MergeOwn(own, bp, ring[t + 1]))
  {
    hide Tiles, Coalesced, LinkAt;
    var next := ring[t + 1];
    RemoveSet(ring, t + 1);
    MergeTiles(mem, FreeSet(ring) + live.Keys, own, bp, next, mem1);
    assert FreeSet(Remove(ring, t + 1)) + live.Keys == FreeSet(ring) + live.Keys - {next};
    assert live[bp := live[bp] + Size(mem, next)].Keys == live.Keys;
    forall a | a in live ensures a < |mem| { BlockBounds(mem, FreeSet(ring) + live.Keys, own, a); }
  }

  lemma LowerKeeps(mem: seq<Header>, ring: seq<nat>, live: map<nat, nat>, own: map<nat, nat>, t: nat, bp: nat)
      returns (ring2: seq<nat>, own2: map<nat, nat>)
    requires Inv(mem, ring, live, own) && bp in live && Between(ring, t, bp)
    requires t + 1 < |ring| ==> bp + live[bp] < ring[t + 1]
    requires bp < |mem| && mem[bp].ptr == ring[Succ(ring, t)]
    ensures own2.Keys == own.Keys && t < |ring2| && ring2[t] == ring[t] < |mem|
    ensures Inv(LinkLower(mem, ring[t], bp), ring2, live - {bp}, own2)
    ensures Fits(LinkLower(mem, ring[t], bp), ring2, live[bp])
  {
    hide Tiles, Coalesced, Fits, LinkLower;
    assert LinkAt(mem, ring, t);
    forall i | 0 <= i < |ring|
      ensures ring[i] != bp
      ensures i <= t ==> ring[i] + Size(mem, ring[i]) <= bp
      ensures i > t ==> bp + Size(mem, bp) < ring[i]
    {
      Apart(mem, ring, live, own, bp, i);
      assert t + 1 < i ==> ring[t + 1] < ring[i];
    }
    if ring[t] + mem[ring[t]].size == bp {
      ring2, own2 := ring, MergeOwn(own, ring[t], bp);
      LowerMerges(mem, ring, live, own, t, bp);
    } else {
      ring2, own2 := Insert(ring, t + 1, bp), own;
      LowerInserts(mem, ring, live, own, t, bp);
    }
  }

  lemma LowerMerges(mem: seq<Header>, ring: seq<nat>, live: map<nat, nat>, own: map<nat, nat>, t: nat, bp: nat)
    requires Inv(mem, ring, live, own) && bp in live && t < |ring| && bp !in ring && bp < |mem| && ring[t] < |mem|
    requires mem[bp].ptr == mem[ring[t]].ptr && ring[t] + mem[ring[t]].size == bp
    requires forall i | t < i < |ring| :: bp + Size(mem, bp) < ring[i]
    ensures Inv(LinkLower(mem, ring[t], bp), ring, live - {bp}, MergeOwn(own, ring[t], bp))
    ensures Fits(LinkLower(mem, ring[t], bp), ring, live[bp])
  {
    hide Tiles, Coalesced, LinkAt;
    var p := ring[t];
    var mem2 := LinkLower(mem, p, bp);
    BlockBounds(mem, FreeSet(ring) + live.Keys, own, bp);
    assert p in FreeSet(ring);
    CircularSame(mem, ring, mem2);
    CoalescedGrow(mem, ring, t, mem2);
    MergeTiles(mem, FreeSet(ring) + live.Keys, own, p, bp, mem2);
    assert FreeSet(ring) + (live - {bp}).Keys == FreeSet(ring) + live.Keys - {bp};
  }

  lemma LowerInserts(mem: seq<Header>, ring: seq<nat>, live: map<nat, nat>, own: map<nat, nat>, t: nat, bp: nat)
    requires Inv(mem, ring, live, own) && bp in live && Between(ring, t, bp) && bp !in ring && bp < |mem|
    requires ring[t] < |mem| && ring[t] + mem[ring[t]].size != bp && mem[bp].ptr == ring[Succ(ring, t)]
    requires forall i | 0 <= i <= t :: ring[i] + Size(mem, ring[i]) <= bp
    requires forall i | t < i < |ring| :: bp + Size(mem, bp) < ring[i]
    ensures Inv(LinkLower(mem, ring[t], bp), Insert(ring, t + 1, bp), live - {bp}, own)
    ensures Fits(LinkLower(mem, ring[t], bp), Insert(ring, t + 1, bp), live[bp])
  {
    hide Tiles, Coalesced, Circular, Fits, LinkLower;
    var mem2, ring2 := LinkLower(mem, ring[t], bp), Insert(ring, t + 1, bp);
    RingBounds(mem, ring);
    LinkedBehind(mem, ring[t], bp);
    LowerOrdered(mem, ring, live, own, t, bp);
    InsertBlocks(ring, live, t + 1, bp);
    SameTiles(mem, FreeSet(ring) + live.Keys, own, mem2);
    FitsAt(mem2, ring2, bp, live[bp]);
  }

  lemma LowerOrdered(mem: seq<Header>, ring: seq<nat>, live: map<nat, nat>, own: map<nat, nat>, t: nat, bp: nat)
    requires Inv(mem, ring, live, own) && bp in live && Between(ring, t, bp) && bp !in ring && bp < |mem|
    requires ring[t] < |mem| && ring[t] + mem[ring[t]].size != bp && mem[bp].ptr == ring[Succ(ring, t)]
    requires forall i | 0 <= i <= t :: ring[i] + Size(mem, ring[i]) <= bp
    requires forall i | t < i < |ring| :: bp + Size(mem, bp) < ring[i]
    ensures Circular(LinkLower(mem, ring[t], bp), Insert(ring, t + 1, bp))
    ensures Coalesced(LinkLower(mem, ring[t], bp), Insert(ring, t + 1, bp))
  {
    hide Tiles, Coalesced, Circular, LinkLower, Insert;
    var mem2 := LinkLower(mem, ring[t], bp);
    RingBounds(mem, ring);
    LinkedBehind(mem, ring[t], bp);
    CircularInsert(mem, ring, t, bp, mem2);
    forall i | 0 <= i < t ensures ring[i] + Size(mem, ring[i]) < ring[t] { CoalescedNext(mem, ring, i, t); }
    CoalescedInsert(mem, ring, t, bp, mem2);
  }

  lemma LinkedBehind(mem: seq<Header>, p: nat, bp: nat)
    requires p < |mem| && bp < |mem| && p != bp && p + mem[p].size != bp
    ensures var mem2 := LinkLower(mem, p, bp);
      && |mem2| == |mem| && mem2[p].ptr == bp && (forall a :: Size(mem2, a) == Size(mem, a))
      && mem2[p].size == mem[p].size && forall a | 0 <= a < |mem| && a != p :: mem2[a] == mem[a]
  {
  }

  lemma FitsAt(mem: seq<Header>, ring: seq<nat>, a: nat, n: nat)
    requires a in ring && Size(mem, a) >= n
    ensures Fits(mem, ring, n)
  {
  }

  lemma InsertBlocks(ring: seq<nat>, live: map<nat, nat>, k: nat, bp: nat)
    requires k <= |ring| && bp != BASE && bp in live && FreeSet(ring) !! live.Keys
    ensures var ring2 := Insert(ring, k, bp);
      && FreeSet(ring2) + (live - {bp}).Keys == FreeSet(ring) + live.Keys && FreeSet(ring2) !! (live - {bp}).Keys
      && bp in ring2
  {
    InsertSet(ring, k, bp);
    assert Insert(ring, k, bp)[k] == bp;
  }

  /** Freeing a live block keeps the whole invariant and takes exactly that block out of the live ones. */
  lemma FreeKeeps(mem: seq<Header>, ring: seq<nat>, live: map<nat, nat>, own: map<nat, nat>, t: nat, bp: nat)
      returns (ring2: seq<nat>, own2: map<nat, nat>)
    requires Inv(mem, ring, live, own) && bp in live && Between(ring, t, bp)
    ensures bp < |mem| && ring[t] < |mem| && mem[ring[t]].ptr < |mem|
    ensures own2.Keys == own.Keys && ring[t] in ring2
    ensures Inv(LinkLower(LinkUpper(mem, ring[t], bp), ring[t], bp), ring2, live - {bp}, own2)
    ensures Fits(LinkLower(LinkUpper(mem, ring[t], bp), ring[t], bp), ring2, live[bp])
  {
    var ring1, size1, own1 := UpperKeeps(mem, ring, live, own, t, bp);
    var mem0 := LinkUpper(mem, ring[t], bp);
    var mem1 := Bypass(mem0, ring[t], bp);
    ring2, own2 := LowerKeeps(mem1, ring1, live[bp := size1], own1, t, bp);
    assert live[bp := size1] - {bp} == live - {bp};
    assert LinkLower(mem1, ring[t], bp) == LinkLower(mem0, ring[t], bp);
  }

  // ----- malloc: taking a block off the list, or the tail of one -----

  lemma ExactKeeps(mem: seq<Header>, ring: seq<nat>, live: map<nat, nat>, own: map<nat, nat>, k: nat, mem2: seq<Header>)
    requires Inv(mem, ring, live, own) && 0 < k < |ring|
    requires ring[k - 1] < |mem| && ring[k] < |mem|
    requires mem2 == mem[ring[k - 1] := mem[ring[k - 1]].(ptr := mem[ring[k]].ptr)]
    ensures Inv(mem2, Remove(ring, k), live[ring[k] := mem[ring[k]].size], own) && ring[k - 1] in Remove(ring, k)
  {
    hide Tiles, Coalesced, LinkAt;
    CircularRemove(mem, ring, k, mem2);
    CoalescedRemove(mem, ring, k);
    CoalescedSame(mem, Remove(ring, k), mem2);
    RemoveSet(ring, k);
    assert forall a :: Size(mem2, a) == Size(mem, a);
    SameTiles(mem, FreeSet(ring) + live.Keys, own, mem2);
    assert FreeSet(Remove(ring, k)) + live[ring[k] := mem[ring[k]].size].Keys == FreeSet(ring) + live.Keys;
    assert Remove(ring, k)[k - 1] == ring[k - 1];
  }

  lemma SplitKeeps(mem: seq<Header>, ring: seq<nat>, live: map<nat, nat>, own: map<nat, nat>, k: nat, n: nat,
                   mem2: seq<Header>)
    requires Inv(mem, ring, live, own) && 0 < k < |ring| && 0 < n < Size(mem, ring[k])
    requires var p := ring[k]; var q := p + Size(mem, p) - n;
      q < |mem| && mem2 == mem[p := mem[p].(size := mem[p].size - n)][q := mem[q].(size := n)]
    ensures var p := ring[k]; var q := p + Size(mem, p) - n;
      q !in live && Inv(mem2, ring, live[q := n], SplitOwn(own, p, q))
  {
    hide Tiles, Coalesced, LinkAt;
    var p := ring[k];
    var q := p + Size(mem, p) - n;
    var blocks := FreeSet(ring) + live.Keys;
    assert p in FreeSet(ring);
    BlockBounds(mem, blocks, own, p);
    forall c | c in blocks ensures c != q {
      if p < c { Disjoint(mem, blocks, own, p, c); }
    }
    SplitTiles(mem, blocks, own, p, q, mem2);
    assert FreeSet(ring) + live[q := n].Keys == blocks + {q};
    assert q !in ring;
    CircularSame(mem, ring, mem2);
    CoalescedSame(mem, ring, mem2);
  }

  lemma GrowKeeps(mem: seq<Header>, ring: seq<nat>, live: map<nat, nat>, own: map<nat, nat>, p: nat, mem2: seq<Header>)
    requires Inv(mem, ring, live, own) && |mem| <= p < |mem2| && 1 <= mem2[p].size && p + mem2[p].size == |mem2|
    requires forall u | 0 <= u < |mem| :: mem2[u] == mem[u]
    ensures p !in live && Inv(mem2, ring, live[p := mem2[p].size], GrowOwn(own, p, mem2[p].size))
  {
    hide Tiles, Coalesced, LinkAt;
    var blocks := FreeSet(ring) + live.Keys;
    forall c | c in blocks ensures c < |mem| { BlockBounds(mem, blocks, own, c); }
    GrowTiles(mem, blocks, own, p, mem2);
    assert FreeSet(ring) + live[p := mem2[p].size].Keys == blocks + {p};
    CircularSame(mem, ring, mem2);
    CoalescedSame(mem, ring, mem2);
  }

  // ----- the search of free -----

  /** Links to follow from ring[i] to ring[t]. */
  function Dist(n: nat, i: nat, t: nat): nat
    requires i < n && t < n
  {
    if i <= t then t - i else n - i + t
  }

  lemma FindPlace(mem: seq<Header>, ring: seq<nat>, bp: nat) returns (t: nat)
    requires Ascending(mem, ring) && bp !in ring && BASE < bp
    ensures Between(ring, t, bp)
  {
    t := 0;
    while t + 1 < |ring| && ring[t + 1] < bp
      invariant t < |ring| && ring[t] < bp
    {
      t := t + 1;
    }
  }

  function Units(nbytes: nat): nat { (nbytes + HEADERSIZE - 1) / HEADERSIZE + 1 }

  /** A block of Units(n) units holds its header and n bytes, and one unit fewer would not. */
  lemma UnitsFit(nbytes: nat)
    ensures HEADERSIZE * (Units(nbytes) - 1) >= nbytes
    ensures nbytes > 0 ==> HEADERSIZE * (Units(nbytes) - 2) < nbytes
  {
  }

  /** What sbrk answers: a refusal, or the break, which lies `gap` units past the memory known so far
      when somebody else called sbrk in between. */
  datatype Sbrk = Refused | Granted(gap: nat)

  ghost predicate AllSmall(mem: seq<Header>, ring: seq<nat>, nunits: nat) {
    forall i | 0 <= i < |ring| :: Size(mem, ring[i]) < nunits
  }

  /** An exact fit is large enough. */
  lemma AllSmallIs(mem: seq<Header>, ring: seq<nat>, n: nat)
    ensures AllSmall(mem, ring, n) <==> forall i | 0 <= i < |ring| :: Size(mem, ring[i]) < n
  {
  }


  /** Every unit of a's block, the header included, is as it was. */
  ghost predicate SameUnits(mem: seq<Header>, mem2: seq<Header>, a: nat, n: nat) {
    a + n <= |mem| <= |mem2| && forall u | a <= u < a + n :: mem2[u] == mem[u]
  }

  /** No unit of one block lies in another live block; nor does base. */
  lemma Outside(mem: seq<Header>, ring: seq<nat>, live: map<nat, nat>, own: map<nat, nat>, a: nat, b: nat, u: nat)
    requires Inv(mem, ring, live, own) && a in live && b != a && (b in ring || b in live)
    requires u == b || b <= u < b + Size(mem, b)
    ensures !(a <= u < a + live[a]) && a + live[a] <= |mem| && BASE < a
  {
    hide Circular, Coalesced, Tiles;
    var blocks := FreeSet(ring) + live.Keys;
    BlockBounds(mem, blocks, own, a);
    if b == BASE {
      if b in live { BlockBounds(mem, blocks, own, b); }
      BaseSize(mem, ring);
    } else {
      BlockSize(mem, blocks, own, b);
      if a < b { Disjoint(mem, blocks, own, a, b); } else { Disjoint(mem, blocks, own, b, a); }
    }
  }

  lemma BaseSize(mem: seq<Header>, ring: seq<nat>)
    requires Circular(mem, ring)
    ensures Size(mem, BASE) == 0
  {
  }

  lemma BlockSize(mem: seq<Header>, blocks: set<nat>, own: map<nat, nat>, a: nat)
    requires Tiles(mem, blocks, own) && a in blocks
    ensures 1 <= Size(mem, a)
  {
  }

  ghost predicate OnlyAt(mem: seq<Header>, mem2: seq<Header>, x: nat, y: nat) {
    |mem2| == |mem| && forall u | 0 <= u < |mem| && u != x && u != y :: mem2[u] == mem[u]
  }

  ghost predicate AllSame(mem: seq<Header>, mem2: seq<Header>, live: map<nat, nat>) {
    forall a | a in live :: SameUnits(mem, mem2, a, live[a])
  }

  /** Writing the headers of a list element and of another block leaves every other live block alone. */
  lemma Untouched(mem: seq<Header>, ring: seq<nat>, live: map<nat, nat>, own: map<nat, nat>,
                  b: nat, x: nat, c: nat, y: nat, mem2: seq<Header>)
    requires Inv(mem, ring, live, own) && OnlyAt(mem, mem2, x, y)
    requires b in ring || b in live
    requires c in ring || c in live
    requires x == b || b <= x < b + Size(mem, b)
    requires y == c || c <= y < c + Size(mem, c)
    ensures AllSame(mem, mem2, live - {b, c})
  {
    hide Inv;
    forall a | a in live && a != b && a != c ensures SameUnits(mem, mem2, a, live[a]) {
      Outside(mem, ring, live, own, a, b, x);
      Outside(mem, ring, live, own, a, c, y);
    }
  }

  lemma FreeTouches(mem: seq<Header>, ring: seq<nat>, live: map<nat, nat>, own: map<nat, nat>, p: nat, bp: nat)
    requires Inv(mem, ring, live, own) && bp in live && p in ring
    requires p < |mem| && bp < |mem| && mem[p].ptr < |mem|
    ensures AllSame(mem, LinkLower(LinkUpper(mem, p, bp), p, bp), live - {bp})
  {
    hide Inv;
    Untouched(mem, ring, live, own, p, p, bp, bp, LinkLower(LinkUpper(mem, p, bp), p, bp));
    NotLive(mem, ring, live, own, p);
    assert live - {p, bp} == live - {bp};
  }

  lemma NotLive(mem: seq<Header>, ring: seq<nat>, live: map<nat, nat>, own: map<nat, nat>, p: nat)
    requires Inv(mem, ring, live, own) && p in ring
    ensures p !in live && p < |mem|
  {
    hide Coalesced, Tiles;
    if p in live { BlockBounds(mem, FreeSet(ring) + live.Keys, own, p); }
  }

  lemma StoreKeeps(mem: seq<Header>, ring: seq<nat>, live: map<nat, nat>, own: map<nat, nat>, a: nat, u: nat, h: Header)
    requires Inv(mem, ring, live, own) && a in live && a < u < a + live[a]
    ensures u < |mem| && Inv(mem[u := h], ring, live, own)
    ensures AllSame(mem, mem[u := h], live - {a})
  {
    hide Circular, Coalesced, Tiles, LinkAt;
    var blocks := FreeSet(ring) + live.Keys;
    BlockBounds(mem, blocks, own, a);
    var mem2 := mem[u := h];
    forall b | b in ring || b in live ensures b != u {
      if b != a { Outside(mem, ring, live, own, a, b, b); }
    }
    assert forall i | 0 <= i < |ring| :: ring[i] in ring;
    RingBounds(mem, ring);
    CircularSame(mem, ring, mem2);
    CoalescedSame(mem, ring, mem2);
    SameTiles(mem, blocks, own, mem2);
    Untouched(mem, ring, live, own, a, u, a, u, mem2);
    assert live - {a, a} == live - {a};
  }

  lemma RingBounds(mem: seq<Header>, ring: seq<nat>)
    requires Circular(mem, ring)
    ensures BASE < |mem| && BASE in ring && mem[BASE].size == 0
    ensures forall i | 0 <= i < |ring| :: ring[i] < |mem|
    ensures forall i, j | 0 <= i < j < |ring| :: ring[i] < ring[j]
  {
    assert ring[0] == BASE;
  }

  lemma SameThenSame(mem: seq<Header>, mem1: seq<Header>, mem2: seq<Header>, live: map<nat, nat>)
    requires AllSame(mem, mem1, live) && AllSame(mem1, mem2, live)
    ensures AllSame(mem, mem2, live)
  {
    forall a | a in live ensures SameUnits(mem, mem2, a, live[a]) {
      assert SameUnits(mem, mem1, a, live[a]) && SameUnits(mem1, mem2, a, live[a]);
    }
  }

  lemma GrowSame(mem: seq<Header>, ring: seq<nat>, live: map<nat, nat>, own: map<nat, nat>, mem2: seq<Header>)
    requires Inv(mem, ring, live, own) && |mem| <= |mem2| && forall u | 0 <= u < |mem| :: mem2[u] == mem[u]
    ensures AllSame(mem, mem2, live)
  {
    hide Circular, Coalesced, Tiles;
    forall a | a in live ensures SameUnits(mem, mem2, a, live[a]) {
      BlockBounds(mem, FreeSet(ring) + live.Keys, own, a);
    }
  }

  // ----- the search of malloc -----

  /** Every free block passed since the search left ring[s] is too small; ring[c] is the next to look at. */
  ghost predicate Passed(mem: seq<Header>, ring: seq<nat>, s: nat, c: nat, nunits: nat) {
    s < |ring| && c < |ring| &&
    forall j: nat | j < |ring| :: Dist(|ring|, c, s) < Dist(|ring|, j, s) ==> Size(mem, ring[j]) < nunits
  }

  /** ap is the tail of the first large enough free block behind freep, and prev the element before that block. */
  ghost predicate NextFit(mem: seq<Header>, ring: seq<nat>, freep: nat, nunits: nat, ap: nat, prev: nat) {
    exists s: nat, c: nat {:trigger Passed(mem, ring, s, c, nunits)} :: Passed(mem, ring, s, c, nunits) &&
      ring[s] == freep && Size(mem, ring[c]) >= nunits && ap == ring[c] + Size(mem, ring[c]) - nunits + 1 &&
      prev == ring[if c == 0 then |ring| - 1 else c - 1]
  }

  lemma NextFitAt(mem: seq<Header>, ring: seq<nat>, s: nat, c: nat, nunits: nat, ap: nat)
    requires Passed(mem, ring, s, c, nunits) && Size(mem, ring[c]) >= nunits
               && ap == ring[c] + Size(mem, ring[c]) - nunits + 1
    ensures NextFit(mem, ring, ring[s], nunits, ap, ring[if c == 0 then |ring| - 1 else c - 1])
  {
  }

  lemma PassedStart(mem: seq<Header>, ring: seq<nat>, s: nat, nunits: nat)
    requires s < |ring|
    ensures Passed(mem, ring, s, Succ(ring, s), nunits)
  {
  }

  lemma PassedStep(mem: seq<Header>, ring: seq<nat>, s: nat, c: nat, nunits: nat)
    requires Passed(mem, ring, s, c, nunits) && Size(mem, ring[c]) < nunits
    ensures c == s ==> AllSmall(mem, ring, nunits)
    ensures c != s ==>
              Passed(mem, ring, s, Succ(ring, c), nunits) && Dist(|ring|, Succ(ring, c), s) < Dist(|ring|, c, s)
  {
  }

  /** The arena is what it was and max(nu, 4096) units from the break on. */
  ghost predicate Grown(top0: nat, arena0: set<nat>, top: nat, arena: set<nat>, nu: nat, sbrk: Sbrk)
    requires sbrk.Granted?
  {
    var n := if nu < MINUNITS then MINUNITS else nu;
    var brk := top0 + sbrk.gap;
    top == brk + n && forall u :: u in arena <==> u in arena0 || brk <= u < brk + n
  }

  /** sbrk is asked for at least 4096 units, and for what is needed if that is more. */
  lemma GrownSize(top0: nat, arena0: set<nat>, top: nat, arena: set<nat>, nu: nat, sbrk: Sbrk)
    requires sbrk.Granted? && Grown(top0, arena0, top, arena, nu, sbrk)
    ensures top == top0 + sbrk.gap + if nu < 4096 then 4096 else nu
  {
  }

  class Heap {
    var mem: seq<Header>
    var freep: nat
    ghost var ring: seq<nat>
    ghost var live: map<nat, nat>
    ghost var own: map<nat, nat>

    ghost predicate Valid()
      reads this
    {
      BASE < |mem| &&
      if freep == 0 then ring == [] && live == map[] && own == map[]
      else Inv(mem, ring, live, own) && freep in ring
    }

    constructor (image: seq<Header>)
      requires BASE < |image|
      ensures Valid() && freep == 0 && mem == image
    {
      mem, freep, ring, live, own := image, 0, [], map[], map[];
    }

    /** The program stores into a unit of a live block's payload. */
    method Store(a: nat, u: nat, h: Header)
      requires Valid() && a in live && a < u < a + live[a]
      modifies this`mem
      ensures Valid() && u < |old(mem)| && mem == old(mem)[u := h] && AllSame(old(mem), mem, live - {a})
    {
      StoreKeeps(mem, ring, live, own, a, u, h);
      mem := mem[u := h];
    }

    /** The block leaves the live ones and nothing else does; the arena stays the same. */
    method Free(ap: nat)
      requires Valid() && 1 <= ap && ap - 1 in live
      modifies this
      ensures Valid() && live == old(live) - {ap - 1} && own.Keys == old(own).Keys && freep != 0
      ensures |mem| == |old(mem)| && AllSame(old(mem), mem, live) && Fits(mem, ring, old(live)[ap - 1])
      ensures exists t: nat {:trigger old(ring)[t]} ::
                t < |old(ring)| && old(ring)[t] == freep && Between(old(ring), t, ap - 1)
    {
      hide Inv, Between, AllSame, Fits;
      var bp := ap - 1;
      var p;
      ghost var t;
      p, t := FindPredecessor(bp);
      ghost var ring2, own2 := FreeKeeps(mem, ring, live, own, t, bp);
      FreeTouches(mem, ring, live, own, p, bp);
      Join(p, bp);
      ring, own, live := ring2, own2, live - {bp};
      freep := p;
    }

    method FindPredecessor(bp: nat) returns (p: nat, ghost t: nat)
      requires Valid() && bp in live
      ensures t < |ring| && ring[t] == p && Between(ring, t, bp) && BASE <= p
    {
      hide Coalesced, Tiles;
      NotInRing(bp);
      p := freep;
      ghost var i: nat :| i < |ring| && ring[i] == p;
      t := FindPlace(mem, ring, bp);
      assert LinkAt(mem, ring, i);
      while !(bp > p && bp < mem[p].ptr)
        invariant i < |ring| && ring[i] == p && LinkAt(mem, ring, i)
        decreases Dist(|ring|, i, t)
      {
        if p >= mem[p].ptr && (bp > p || bp < mem[p].ptr) {
          assert i + 1 == |ring|;
          break;
        }
        assert i != t;
        p := mem[p].ptr;
        i := Succ(ring, i);
        assert LinkAt(mem, ring, i);
      }
      t := i;
    }

    lemma NotInRing(bp: nat)
      requires Valid() && bp in live
      ensures bp !in ring && BASE < bp && freep in ring && freep != 0 && Circular(mem, ring)
    {
      if bp in ring { NotLive(mem, ring, live, own, bp); }
      BlockBounds(mem, FreeSet(ring) + live.Keys, own, bp);
    }

    /** Joins bp to the upper and then the lower neighbour. */
    method Join(p: nat, bp: nat)
      requires p < |mem| && bp < |mem| && mem[p].ptr < |mem|
      modifies this`mem
      ensures mem == LinkLower(LinkUpper(old(mem), p, bp), p, bp)
    {
      var next := mem[p].ptr;
      if bp + mem[bp].size == next {
        mem := mem[bp := mem[bp].(size := mem[bp].size + mem[next].size)];
        mem := mem[bp := mem[bp].(ptr := mem[next].ptr)];
      } else {
        mem := mem[bp := mem[bp].(ptr := next)];
      }
      if p + mem[p].size == bp {
        mem := mem[p := mem[p].(size := mem[p].size + mem[bp].size)];
        mem := mem[p := mem[p].(ptr := mem[bp].ptr)];
      } else {
        mem := mem[p := mem[p].(ptr := bp)];
      }
    }

    /** NULL exactly when no free block is large enough and sbrk refuses. Otherwise the answer is a new live
        block of just the units asked for, cut from the first large enough free block behind freep, if there is
        one; no unit of a live block changes, and the arena grows only when no free block is large enough. */
    method Malloc(nbytes: nat, sbrk: Sbrk) returns (ap: nat)
      requires Valid()
      modifies this
      ensures Valid() && freep != 0 && AllSame(old(mem), mem, old(live))
      ensures ap == 0 <==> sbrk.Refused? && AllSmall(old(mem), old(ring), Units(nbytes))
      ensures ap == 0 ==> live == old(live) && own == old(own)
      ensures ap != 0 ==> ap - 1 !in old(live) && live == old(live)[ap - 1 := Units(nbytes)]
      ensures ap != 0 ==> if AllSmall(old(mem), old(ring), Units(nbytes))
                then Grown(|old(mem)|, old(own).Keys, |mem|, own.Keys, Units(nbytes), sbrk)
                          else own.Keys == old(own).Keys && |mem| == |old(mem)|
      ensures !AllSmall(old(mem), old(ring), Units(nbytes)) ==>
                NextFit(old(mem), old(ring), old(freep), Units(nbytes), ap, freep)
    {
      hide Inv, AllSame, Fits, Passed, AllSmall, Units, Dist, Grown, NextFit;
      GrowSameOrNone();
      var nunits := (nbytes + HEADERSIZE - 1) / HEADERSIZE + 1;
      UnitsDef(nbytes, nunits);
      if freep == 0 { Start(nunits); }
      ghost var mem0, ring0, live0, own0, freep0 := mem, ring, live, own, freep;
      SameThenSame(old(mem), mem, mem, live);
      var prevp: nat := freep;
      ghost var s: nat, grown := FreepIndex(), false;
      Follow(s);
      var p: nat := mem[prevp].ptr;
      ghost var c: nat := Succ(ring, s);
      PassedStart(mem, ring, s, nunits);
      while true
        invariant Valid() && freep != 0 && live == live0 && AllSame(old(mem), mem, live)
        invariant s < |ring| && ring[s] == freep && c < |ring| && p == ring[c] && Previous(prevp, c)
        invariant Passed(mem, ring, s, c, nunits)
        invariant if grown then
                    AllSmall(mem0, ring0, nunits) && sbrk.Granted? && Fits(mem, ring, nunits)
                      && Grown(|mem0|, own0.Keys, |mem|, own.Keys, nunits, sbrk)
                  else mem == mem0 && ring == ring0 && own == own0 && freep == freep0
        decreases if grown then 0 else 1, Dist(|ring|, c, s)
      {
        Follow(c);
        if mem[p].size >= nunits {
          ghost var mem1 := mem;
          ap := TakeFound(prevp, p, nunits, s, c);
          SameThenSame(old(mem), mem1, mem, live0);
          return;
        }
        PassedStep(mem, ring, s, c, nunits);
        if p == freep {
          Distinct(c, s);
          if grown { SmallNotFits(mem, ring, nunits); }
          ghost var mem1 := mem;
          p := Morecore(nunits, sbrk);
          SameThenSame(old(mem), mem1, mem, live0);
          if p == 0 { return 0; }
          grown := true;
          s := FreepIndex();
          c := s;
          Follow(c);
          PassedStart(mem, ring, s, nunits);
        }
        prevp := p;
        p := mem[p].ptr;
        c := Succ(ring, c);
      }
    }

    /** prevp is the list element before ring[c]. */
    ghost predicate Previous(prevp: nat, c: nat)
      reads this
    {
      c < |ring| && prevp == ring[if c == 0 then |ring| - 1 else c - 1]
    }

    /** The list starts as base alone, which points at itself. */
    method Start(nunits: nat)
      requires Valid() && freep == 0 && 1 <= nunits
      modifies this
      ensures Valid() && freep == BASE && live == old(live) && own == old(own) && |mem| == |old(mem)|
      ensures AllSame(old(mem), mem, live) && AllSmall(mem, ring, nunits) && AllSmall(old(mem), old(ring), nunits)
    {
      mem := mem[BASE := Header(BASE, 0)];
      freep := BASE;
      ring := [BASE];
      assert FreeSet(ring) == {} && LinkAt(mem, ring, 0);
    }

    lemma GrowSameOrNone()
      requires Valid()
      ensures AllSame(mem, mem, live)
    {
      if freep != 0 { GrowSame(mem, ring, live, own, mem); }
    }

    ghost function FreepIndex(): (s: nat)
      requires Valid() && freep != 0
      reads this
      ensures s < |ring| && ring[s] == freep
    {
      var s: nat :| s < |ring| && ring[s] == freep;
      s
    }

    lemma Follow(i: nat)
      requires Valid() && freep != 0 && i < |ring|
      ensures ring[i] < |mem| && mem[ring[i]].ptr == ring[Succ(ring, i)]
      ensures i == 0 ==> mem[ring[i]].size == 0
    {
      assert LinkAt(mem, ring, i);
    }

    lemma Distinct(i: nat, j: nat)
      requires Valid() && freep != 0 && i < |ring| && j < |ring| && ring[i] == ring[j]
      ensures i == j
    {
      RingBounds(mem, ring);
    }

    /** Asks for max(nu, 4096) units; what sbrk grants joins the free list, which then holds a block of
        at least nu units. */
    method Morecore(nu: nat, sbrk: Sbrk) returns (p: nat)
      requires Valid() && freep != 0
      modifies this
      ensures Valid() && freep != 0 && live == old(live)
      ensures sbrk.Refused? ==> p == 0 && Unchanged(old(mem), old(own), old(ring)) && freep == old(freep)
      ensures sbrk.Granted? ==>
                p == freep && Fits(mem, ring, nu) && Grown(|old(mem)|, old(own).Keys, |mem|, own.Keys, nu, sbrk)
      ensures sbrk.Granted? ==> |mem| == |old(mem)| + sbrk.gap + if nu < 4096 then 4096 else nu
      ensures AllSame(old(mem), mem, live)
    {
      hide Inv, AllSame, Fits;
      GrowSame(mem, ring, live, own, mem);
      if sbrk.Refused? { return 0; }
      var n := if nu < MINUNITS then MINUNITS else nu;
      var hp := Extend(n, sbrk.gap);
      ghost var mem1 := mem;
      Free(hp + 1);
      assert live == old(live);
      SameThenSame(old(mem), mem1, mem, live);
      FitsLess(mem, ring, n, nu);
      p := freep;
    }

    /** The units from the new break on form one live block, whose header says so. */
    method Extend(n: nat, gap: nat) returns (hp: nat)
      requires Valid() && freep != 0 && 1 <= n
      modifies this`mem, this`live, this`own
      ensures Valid() && hp == |old(mem)| + gap && hp !in old(live) && live == old(live)[hp := n]
      ensures |mem| == hp + n && own == GrowOwn(old(own), hp, n) && AllSame(old(mem), mem, old(live))
    {
      hide Inv, AllSame, GrowOwn;
      hp := |mem| + gap;
      ghost var mem0 := mem;
      mem := mem + seq(gap + n, i => Header(0, 0));
      mem := mem[hp := mem[hp].(size := n)];
      GrowKeeps(mem0, ring, live, own, hp, mem);
      GrowSame(mem0, ring, live, own, mem);
      own, live := GrowOwn(own, hp, n), live[hp := n];
    }

    ghost predicate Unchanged(mem0: seq<Header>, own0: map<nat, nat>, ring0: seq<nat>)
      reads this
    {
      mem == mem0 && own == own0 && ring == ring0
    }

    /** The search has come to a large enough block: the first one behind freep. */
    method TakeFound(prevp: nat, p: nat, nunits: nat, ghost s: nat, ghost c: nat) returns (ap: nat)
      requires Valid() && freep != 0 && 1 <= nunits && s < |ring| && ring[s] == freep && c < |ring| && p == ring[c]
      requires Previous(prevp, c) && Passed(mem, ring, s, c, nunits) && p < |mem| && mem[p].size >= nunits
      modifies this
      ensures Valid() && freep == prevp != 0 && own.Keys == old(own).Keys && |mem| == |old(mem)|
      ensures ap != 0 && ap - 1 !in old(live) && live == old(live)[ap - 1 := nunits]
      ensures AllSame(old(mem), mem, old(live))
      ensures !AllSmall(old(mem), old(ring), nunits)
      ensures NextFit(old(mem), old(ring), old(freep), nunits, ap, freep)
    {
      hide Inv, AllSame, Fits, Passed, AllSmall, Dist, NextFit;
      Follow(c);
      BigEnough(mem, ring, c, nunits);
      NextFitAt(mem, ring, s, c, nunits, p + mem[p].size - nunits + 1);
      ap := Take(prevp, p, nunits, c);
    }

    /** Hands out the block p, or the last nunits units of it. */
    method Take(prevp: nat, p: nat, nunits: nat, ghost k: nat) returns (ap: nat)
      requires Valid() && freep != 0 && 0 < k < |ring| && ring[k - 1] == prevp && ring[k] == p
      requires 1 <= nunits <= Size(mem, p)
      modifies this
      ensures Valid() && freep == prevp != 0 && own.Keys == old(own).Keys && |mem| == |old(mem)|
      ensures ap == p + old(Size(mem, p)) - nunits + 1 && ap - 1 !in old(live) && live == old(live)[ap - 1 := nunits]
      ensures AllSame(old(mem), mem, old(live))
    {
      hide Inv, AllSame;
      TakeBounds(prevp, p, k);
      NotLive(mem, ring, live, own, p);
      NotLive(mem, ring, live, own, prevp);
      ghost var mem0 := mem;
      if mem[p].size == nunits {
        mem := mem[prevp := mem[prevp].(ptr := mem[p].ptr)];
        ExactKeeps(mem0, ring, live, own, k, mem);
        Untouched(mem0, ring, live, own, prevp, prevp, prevp, prevp, mem);
        assert live - {prevp, prevp} == live;
        ring, live := Remove(ring, k), live[p := nunits];
        ap := p + 1;
      } else {
        var q := p + mem[p].size - nunits;
        mem := mem[p := mem[p].(size := mem[p].size - nunits)];
        mem := mem[q := mem[q].(size := nunits)];
        SplitKeeps(mem0, ring, live, own, k, nunits, mem);
        Untouched(mem0, ring, live, own, p, p, p, q, mem);
        assert live - {p, p} == live;
        live, own := live[q := nunits], SplitOwn(own, p, q);
        ap := q + 1;
      }
      freep := prevp;
    }

    lemma TakeBounds(prevp: nat, p: nat, k: nat)
      requires Valid() && freep != 0 && 0 < k < |ring| && ring[k - 1] == prevp && ring[k] == p
      ensures prevp in ring && p in ring && prevp < |mem| && p + Size(mem, p) <= |mem| && 1 <= Size(mem, p)
                && BASE <= prevp
    {
      hide Coalesced, Tiles;
      RingBounds(mem, ring);
      assert p in FreeSet(ring);
      BlockBounds(mem, FreeSet(ring) + live.Keys, own, p);
      BlockSize(mem, FreeSet(ring) + live.Keys, own, p);
    }
  }

  lemma UnitsDef(nbytes: nat, n: nat)
    requires n == (nbytes + HEADERSIZE - 1) / HEADERSIZE + 1
    ensures n == Units(nbytes) && 1 <= n
  {
  }

  lemma BigEnough(mem: seq<Header>, ring: seq<nat>, c: nat, nunits: nat)
    requires c < |ring| && nunits <= Size(mem, ring[c])
    ensures !AllSmall(mem, ring, nunits)
  {
  }

  lemma SmallNotFits(mem: seq<Header>, ring: seq<nat>, nunits: nat)
    requires AllSmall(mem, ring, nunits)
    ensures !Fits(mem, ring, nunits)
  {
  }

  lemma FitsLess(mem: seq<Header>, ring: seq<nat>, n: nat, m: nat)
    requires Fits(mem, ring, n) && m <= n
    ensures Fits(mem, ring, m)
  {
  }
}
