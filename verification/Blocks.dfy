/** Disk blocks as 512 bytes, and the little-endian 32-bit words the kernel reads
    and writes in them by casting `buf.data` to a `uint` array. */
module Blocks {
  import opened Common

  const BSIZE := 512
  const NWORDS := 128
  const LOGSIZE := 30
  const MAXOPBLOCKS := 10
  const WORDLIMIT := 0x1_0000_0000

  type word = x: int | 0 <= x < 0x1_0000_0000
  type Block = b: seq<byte> | |b| == BSIZE witness seq(512, _ => 0)

  function Zeros(): (b: Block)
    ensures forall i | 0 <= i < BSIZE :: b[i] == 0
  {
    seq(BSIZE, _ => 0)
  }

  // ----- little-endian words -----

  function Pow256(n: nat): nat {
    if n == 0 then 1 else 256 * Pow256(n - 1)
  }

  /** The n low bytes of w, lowest first. */
  function Bytes(w: nat, n: nat): (s: seq<byte>)
    ensures |s| == n
  {
    if n == 0 then [] else [w % 256] + Bytes(w / 256, n - 1)
  }

  function LittleEndian(s: seq<byte>): nat {
    if s == [] then 0 else s[0] + 256 * LittleEndian(s[1..])
  }

  lemma {:induction false} LittleEndianBound(s: seq<byte>)
    ensures LittleEndian(s) < Pow256(|s|)
  {
    if s != [] { LittleEndianBound(s[1..]); }
  }

  lemma {:induction false} BytesRoundTrip(w: nat, n: nat)
    requires w < Pow256(n)
    ensures LittleEndian(Bytes(w, n)) == w
  {
    if n > 0 {
      BytesRoundTrip(w / 256, n - 1);
      assert Bytes(w, n)[1..] == Bytes(w / 256, n - 1);
    }
  }

  function WordAt(b: Block, i: nat): (w: word)
    requires i < NWORDS
  {
    LittleEndianBound(b[4*i..4*i+4]);
    assert Pow256(4) == WORDLIMIT;
    LittleEndian(b[4*i..4*i+4])
  }

  function PutWord(b: Block, i: nat, w: word): (r: Block)
    requires i < NWORDS
  {
    b[..4*i] + Bytes(w, 4) + b[4*i+4..]
  }

  /** Storing a word and reading any word back: the aligned words of a block are independent. */
  lemma WordRoundTrip(b: Block, i: nat, w: word, j: nat)
    requires i < NWORDS && j < NWORDS
    ensures WordAt(PutWord(b, i, w), j) == if i == j then w else WordAt(b, j)
  {
    var r := PutWord(b, i, w);
    assert Pow256(4) == WORDLIMIT;
    BytesRoundTrip(w, 4);
    if i == j {
      assert r[4*j..4*j+4] == Bytes(w, 4);
    } else {
      assert r[4*j..4*j+4] == b[4*j..4*j+4];
    }
  }

  /** On the disk a word is four bytes, the lowest first. */
  lemma WordBytes(b: Block, i: nat)
    requires i < NWORDS
    ensures var b0: int, b1: int, b2: int, b3: int := b[4*i], b[4*i+1], b[4*i+2], b[4*i+3];
      WordAt(b, i) == b0 + 0x100 * b1 + 0x1_0000 * b2 + 0x100_0000 * b3
  {
    var s := b[4*i..4*i+4];
    assert LittleEndian(s) == s[0] + 256 * LittleEndian(s[1..]);
    assert LittleEndian(s[1..]) == s[1] + 256 * LittleEndian(s[1..][1..]);
    assert LittleEndian(s[1..][1..]) == s[2] + 256 * LittleEndian(s[1..][1..][1..]);
    assert LittleEndian(s[1..][1..][1..]) == s[3];
  }

  lemma {:induction false} ZeroBytes(s: seq<byte>)
    requires forall i | 0 <= i < |s| :: s[i] == 0
    ensures LittleEndian(s) == 0
  {
    if s != [] { ZeroBytes(s[1..]); }
  }

  /** A block of zeros reads as zero in every word. */
  lemma ZeroWords(i: nat)
    requires i < NWORDS
    ensures WordAt(Zeros(), i) == 0
  {
    var s := Zeros()[4*i..4*i+4];
    ZeroBytes(s);
  }

  // ----- the log header: `struct logheader { int n; int block[LOGSIZE]; }` -----

  /** Words n, block[0], block[1], ... stored over the start of a block; the rest is untouched. */
  function PutHeader(b: Block, bl: seq<word>): (r: Block)
    requires |bl| <= LOGSIZE
  {
    PutEntries(PutWord(b, 0, |bl|), bl, |bl|)
  }

  function PutEntries(b: Block, bl: seq<word>, n: nat): (r: Block)
    requires n <= |bl| <= LOGSIZE
  {
    if n == 0 then b else PutWord(PutEntries(b, bl, n-1), n, bl[n-1])
  }

  ghost predicate HeaderOk(b: Block) {
    WordAt(b, 0) <= LOGSIZE
  }

  function Header(b: Block): (bl: seq<word>)
    requires HeaderOk(b)
  {
    Entries(b, WordAt(b, 0))
  }

  /** Words 1 to n. */
  function Entries(b: Block, n: nat): (bl: seq<word>)
    requires n < NWORDS
    ensures |bl| == n
  {
    if n == 0 then [] else Entries(b, n - 1) + [WordAt(b, n)]
  }

  lemma {:induction false} EntryIs(b: Block, n: nat, k: nat)
    requires k < n < NWORDS
    ensures Entries(b, n)[k] == WordAt(b, 1 + k)
  {
    if k < n - 1 { EntryIs(b, n - 1, k); }
  }

  lemma {:induction false} EntriesAt(b: Block, bl: seq<word>, n: nat, j: nat)
    requires n <= |bl| <= LOGSIZE
    requires j < NWORDS
    ensures WordAt(PutEntries(b, bl, n), j) == if 1 <= j <= n then bl[j-1] else WordAt(b, j)
  {
    if n > 0 {
      EntriesAt(b, bl, n-1, j);
      WordRoundTrip(PutEntries(b, bl, n-1), n, bl[n-1], j);
    }
  }

  /** The header read back is the block list written, whatever the block held before. On the disk it is the length
      and then the block numbers; the rest of the block is untouched. */
  lemma HeaderRoundTrip(b: Block, bl: seq<word>)
    requires |bl| <= LOGSIZE
    ensures HeaderOk(PutHeader(b, bl)) && Header(PutHeader(b, bl)) == bl
    ensures forall j | 0 <= j < NWORDS ::
              WordAt(PutHeader(b, bl), j) == if j == 0 then |bl| else if j <= |bl| then bl[j-1] else WordAt(b, j)
  {
    hide WordAt, PutWord;
    var c := PutWord(b, 0, |bl|);
    forall j | 0 <= j < NWORDS
      ensures WordAt(PutHeader(b, bl), j) == if j == 0 then |bl| else if j <= |bl| then bl[j-1] else WordAt(b, j)
    {
      WordRoundTrip(b, 0, |bl|, j);
      EntriesAt(c, bl, |bl|, j);
    }
    forall i | 0 <= i < |bl| ensures Header(PutHeader(b, bl))[i] == bl[i] {
      EntryIs(PutHeader(b, bl), |bl|, i);
    }
  }
}
