/** Pipes (pipe.c): a ring buffer of 512 bytes between 32-bit counters that wrap around. Each method is what
    one process does between taking the pipe's lock and giving it up, by returning or by going to sleep, so
    every interleaving of readers, writers, closers and kills is a sequence of calls. */
module Pipe {
  import opened Common

  const PIPESIZE := 512
  const WRAP := 0x1_0000_0000

  datatype WriteOutcome = WriteFailed | WriteSleeps(next: nat) | WriteDone
  datatype ReadOutcome = ReadFailed | ReadSleeps | ReadDone(bytes: seq<byte>)

  // ----- counters -----

  lemma WrapIndex(k: nat)
    ensures k % WRAP % PIPESIZE == k % PIPESIZE
  {
    var q := k / WRAP;
    assert k == PIPESIZE * (8388608 * q) + k % WRAP;
    ModShift(k % WRAP, 8388608 * q);
  }

  lemma {:induction false} ModShift(a: nat, m: nat)
    ensures (PIPESIZE * m + a) % PIPESIZE == a % PIPESIZE
  {
    var q, r := a / PIPESIZE, a % PIPESIZE;
    assert PIPESIZE * m + a == PIPESIZE * (m + q) + r;
  }

  /** Equal counters mean equal totals, as long as the totals are less than a wrap apart. */
  lemma WrapEqual(a: nat, b: nat)
    requires a <= b < a + WRAP
    ensures a % WRAP == b % WRAP <==> a == b
  {
  }

  lemma WrapAdd(a: nat, d: nat)
    ensures (a % WRAP + d) % WRAP == (a + d) % WRAP
  {
    var q := a / WRAP;
    assert a + d == q * WRAP + (a % WRAP + d);
    WrapShift(a % WRAP + d, q);
  }

  lemma WrapShift(a: nat, m: nat)
    ensures (m * WRAP + a) % WRAP == a % WRAP
  {
    var q, r := a / WRAP, a % WRAP;
    assert m * WRAP + a == WRAP * (m + q) + r;
  }

  /** Places less than a buffer apart are different. */
  lemma Apart(a: nat, b: nat)
    requires a < b < a + PIPESIZE
    ensures a % PIPESIZE != b % PIPESIZE
  {
  }

  class Pipe {
    const data: array<byte>
    var nread: nat
    var nwrite: nat
    var readopen: bool
    var writeopen: bool
    /** All bytes ever stored, and all bytes ever read. */
    ghost var stored: seq<byte>
    ghost var taken: seq<byte>
    /** The processes asleep on &nread and on &nwrite. */
    ghost var readers: set<nat>
    ghost var writers: set<nat>

    ghost predicate Valid()
      reads this, data
    {
      && data.Length == PIPESIZE
      && |taken| <= |stored| <= |taken| + PIPESIZE && taken == stored[..|taken|]
      && nread == |taken| % WRAP && nwrite == |stored| % WRAP
      && (forall k {:trigger stored[k]} | |taken| <= k < |stored| :: data[k % PIPESIZE] == stored[k])
    }

    /** What a reader would get now. */
    ghost function Buffered(): seq<byte>
      requires Valid()
      reads this, data
    {
      stored[|taken|..]
    }

    /** A reader asleep has nothing to read and somebody who could still write. */
    ghost predicate ReadersRightlyAsleep()
      reads this, data
    {
      Valid() && (readers != {} ==> Buffered() == [] && writeopen)
    }

    /** A writer asleep has no room and somebody who could still read. */
    ghost predicate WritersRightlyAsleep()
      reads this, data
    {
      Valid() && (writers != {} ==> |Buffered()| == PIPESIZE && readopen)
    }

    constructor ()
      ensures Valid() && stored == [] && readers == {} && writers == {} && readopen && writeopen && fresh(data)
      ensures ReadersRightlyAsleep() && WritersRightlyAsleep()
    {
      data := new byte[PIPESIZE];
      nread, nwrite, readopen, writeopen := 0, 0, true, true;
      stored, taken, readers, writers := [], [], {}, {};
    }

    predicate Full()
      requires Valid()
      reads this, data
      ensures Full() <==> |Buffered()| == PIPESIZE
    {
      WrapAdd(|taken|, PIPESIZE);
      WrapEqual(|stored|, |taken| + PIPESIZE);
      nwrite == (nread + PIPESIZE) % WRAP
    }

    predicate Empty()
      requires Valid()
      reads this, data
      ensures Empty() <==> Buffered() == []
    {
      WrapEqual(|taken|, |stored|);
      nread == nwrite
    }

    method Put(b: byte)
      requires Valid() && !Full()
      modifies data, this`nwrite, this`stored
      ensures Valid() && stored == old(stored) + [b]
    {
      WrapIndex(|stored|);
      WrapAdd(|stored|, 1);
      forall k | |taken| <= k < |stored| ensures k % PIPESIZE != |stored| % PIPESIZE { Apart(k, |stored|); }
      data[nwrite % PIPESIZE] := b;
      nwrite := (nwrite + 1) % WRAP;
      stored := stored + [b];
    }

    method Get() returns (b: byte)
      requires Valid() && !Empty()
      modifies this`nread, this`taken
      ensures Valid() && taken == old(taken) + [b] == stored[..|taken|]
    {
      WrapIndex(|taken|);
      WrapAdd(|taken|, 1);
      b := data[nread % PIPESIZE];
      nread := (nread + 1) % WRAP;
      taken := taken + [b];
    }

    /** Writer `pid` goes on from byte i of addr. It stores bytes until all are stored or the pipe is full;
        then it fails when nobody can read or it was killed, and else wakes the readers and sleeps. */
    method Write(pid: nat, addr: seq<byte>, i: nat, killed: bool) returns (out: WriteOutcome)
      requires Valid() && i <= |addr| && WritersRightlyAsleep()
      modifies this, data
      ensures Valid() && WritersRightlyAsleep()
      ensures taken == old(taken) && readopen == old(readopen) && writeopen == old(writeopen)
      ensures exists k :: i <= k <= |addr| && stored == old(stored) + addr[i..k]
                          && (k < |addr| ==> |Buffered()| == PIPESIZE)
                          && out == if k == |addr| then WriteDone
                                    else if !readopen || killed then WriteFailed else WriteSleeps(k)
      ensures out.WriteSleeps? ==> writers == old(writers) + {pid}
      ensures !out.WriteSleeps? ==> writers == old(writers)
      ensures readers == if out.WriteFailed? then old(readers) else {}
      ensures old(ReadersRightlyAsleep()) ==>
                (ReadersRightlyAsleep() <==>
                    !(old(readers) != {} && |addr| - i > PIPESIZE && (killed || !old(readopen))))
    {
      var k := i;
      while k < |addr|
        invariant Valid() && i <= k <= |addr| && stored == old(stored) + addr[i..k]
        invariant taken == old(taken) && readopen == old(readopen) && writeopen == old(writeopen)
        invariant writers == old(writers) && readers == old(readers)
        invariant k > i ==> writers == {} || |old(Buffered())| < PIPESIZE
      {
        if Full() {
          if !readopen || killed {
            return WriteFailed;
          }
          readers := {};
          writers := writers + {pid};
          return WriteSleeps(k);
        }
        Put(addr[k]);
        assert addr[i..k + 1] == addr[i..k] + [addr[k]];
        k := k + 1;
      }
      readers := {};
      return WriteDone;
    }

    /** Reader `pid` asks for n bytes. It fails or sleeps only while the pipe is empty and can still be
        written; else it takes as much as there is, up to n, and wakes the writers. */
    method Read(pid: nat, n: nat, killed: bool) returns (out: ReadOutcome)
      requires Valid() && WritersRightlyAsleep()
      modifies this
      ensures Valid() && WritersRightlyAsleep()
      ensures stored == old(stored) && readopen == old(readopen) && writeopen == old(writeopen)
      ensures !out.ReadDone? <==> old(Buffered()) == [] && old(writeopen)
      ensures !out.ReadDone? ==> taken == old(taken) && out == if killed then ReadFailed else ReadSleeps
      ensures !out.ReadDone? ==> writers == old(writers) && readers == old(readers) + if killed then {} else {pid}
      ensures out.ReadDone? ==>
                var m := if n < |old(Buffered())| then n else |old(Buffered())|;
                out.bytes == old(Buffered())[..m] && taken == old(taken) + out.bytes && writers == {}
                  && readers == old(readers)
      ensures out == ReadDone([]) && n > 0 ==> Buffered() == [] && !writeopen
      ensures old(ReadersRightlyAsleep()) ==> ReadersRightlyAsleep()
    {
      if Empty() && writeopen {
        if killed {
          return ReadFailed;
        }
        readers := readers + {pid};
        return ReadSleeps;
      }
      var bytes: seq<byte> := [];
      while |bytes| < n
        invariant Valid() && |bytes| <= n && taken == old(taken) + bytes && stored == old(stored)
        invariant readers == old(readers) && writers == old(writers)
        invariant readopen == old(readopen) && writeopen == old(writeopen)
      {
        if Empty() { break; }
        var b := Get();
        bytes := bytes + [b];
      }
      writers := {};
      assert bytes == taken[|old(taken)|..] == old(Buffered())[..|bytes|];
      return ReadDone(bytes);
    }

    /** kill of a process that may be asleep here: it runs again, and goes on in Read or Write as killed. */
    method Kill(pid: nat)
      requires Valid() && WritersRightlyAsleep()
      modifies this`readers, this`writers
      ensures Valid() && WritersRightlyAsleep() && (old(ReadersRightlyAsleep()) ==> ReadersRightlyAsleep())
      ensures readers == old(readers) - {pid} && writers == old(writers) - {pid}
    {
      readers := readers - {pid};
      writers := writers - {pid};
    }

    /** Closing an end wakes everybody who could wait for it; true when the pipe itself is given back. */
    method Close(writable: bool) returns (freed: bool)
      requires Valid() && WritersRightlyAsleep()
      modifies this
      ensures Valid() && WritersRightlyAsleep()
      ensures (writable || old(ReadersRightlyAsleep())) ==> ReadersRightlyAsleep()
      ensures stored == old(stored) && taken == old(taken)
      ensures writeopen == (old(writeopen) && !writable) && readopen == (old(readopen) && writable)
      ensures freed <==> !readopen && !writeopen
      ensures readers == (if writable then {} else old(readers)) && writers == (if writable then old(writers) else {})
    {
      if writable {
        writeopen := false;
        readers := {};
      } else {
        readopen := false;
        writers := {};
      }
      freed := !readopen && !writeopen;
    }
  }

  /** The one way to leave a reader asleep beside bytes: a writer that was killed, or has no reader left, with
      more bytes than the pipe holds fills it, finds it full and returns without waking anybody. */
  method StrandReader(addr: seq<byte>) returns (p: Pipe)
    requires |addr| == PIPESIZE + 1
    ensures p.Valid() && p.readers == {1} && p.Buffered() == addr[..PIPESIZE] && p.readopen && p.writeopen
    ensures fresh(p) && p.WritersRightlyAsleep() && !p.ReadersRightlyAsleep()
  {
    p := new Pipe();
    var r := p.Read(1, 1, false);
    var w := p.Write(2, addr, 0, true);
    assert w == WriteFailed;
  }

  /** A reader asleep on an empty pipe, killed, does not go back to sleep: its read fails. */
  method KilledReader() returns (p: Pipe, out: ReadOutcome)
    ensures p.Valid() && p.readers == {} && out == ReadFailed
  {
    p := new Pipe();
    out := p.Read(1, 1, false);
    p.Kill(1);
    out := p.Read(1, 1, true);
  }

  /** The close that follows when that writer exits wakes the reader, who then gets the bytes. */
  method RescueReader(addr: seq<byte>) returns (p: Pipe, out: ReadOutcome)
    requires |addr| == PIPESIZE + 1
    ensures p.Valid() && p.readers == {} && p.ReadersRightlyAsleep() && out == ReadDone(addr[..1])
  {
    p := StrandReader(addr);
    var freed := p.Close(true);
    out := p.Read(1, 1, false);
  }
}
