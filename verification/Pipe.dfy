/** pipe.c: a ring of PIPESIZE bytes between counters that wrap at 2^32. Each method is one section under
    the pipe's lock, from acquire (or from waking up) to sleep or release; any interleaving of processes
    is a sequence of such sections. */
module Pipe {
  import opened Blocks

  const PIPESIZE: nat := 512
  const WRAP: int := 0x1_0000_0000

  /** How a section ends: the call returns a value, or the caller sleeps and will come back. */
  datatype Outcome = Return(value: int) | Sleep

  // ----- counters that wrap -----

  /** nwrite == nread + PIPESIZE, in 32 bits, exactly when the ring is full. */
  lemma FullTest(r: nat, w: nat)
    requires r <= w <= r + 512
    ensures w % WRAP == (r % WRAP + 512) % WRAP <==> w == r + 512
  {
  }

  lemma EmptyTest(r: nat, w: nat)
    requires r <= w <= r + 512
    ensures r % WRAP == w % WRAP <==> r == w
  {
  }

  lemma RingIndex(k: nat)
    ensures k % WRAP % 512 == k % 512
  {
  }

  lemma NextCounter(k: nat)
    ensures (k % WRAP + 1) % WRAP == (k + 1) % WRAP
  {
  }

  lemma ApartInRing(k: nat, w: nat)
    requires k < w < k + 512
    ensures k % 512 != w % 512
  {
  }

  class Pipe {
    var data: seq<Byte>
    var nread: Word
    var nwrite: Word
    var readopen: bool
    var writeopen: bool
    ghost var written: seq<Byte>   // every byte ever written, in order
    ghost var consumed: seq<Byte>  // every byte ever read, in order

    /** The bytes read are a prefix of the bytes written; the rest, at most PIPESIZE, is in the ring. */
    ghost predicate Valid()
      reads this
    {
      && |data| == PIPESIZE
      && consumed <= written && |written| - |consumed| <= PIPESIZE
      && nread == |consumed| % WRAP && nwrite == |written| % WRAP
      && forall k :: |consumed| <= k < |written| ==> data[k % PIPESIZE] == written[k]
    }

    /** pipealloc. */
    constructor ()
      ensures Valid() && readopen && writeopen && written == [] && consumed == []
    {
      data := seq(PIPESIZE, _ => 0);
      nread, nwrite, readopen, writeopen := 0, 0, true, true;
      written, consumed := [], [];
    }

    /** A section of pipewrite with i bytes of addr already written: it writes until it is done or the
        pipe is full. It wakes readers except when it gives up with -1. */
    method WriteSection(addr: seq<Byte>, i: nat, killed: bool) returns (j: nat, o: Outcome, wakesReaders: bool)
      requires Valid() && i <= |addr|
      modifies this`data, this`nwrite, this`written
      ensures Valid()
      ensures i <= j <= |addr| && written == old(written) + addr[i..j]
      ensures j == |addr| || |written| - |consumed| == PIPESIZE
      ensures o == if j == |addr| then Return(|addr|) else if !readopen || killed then Return(-1) else Sleep
      ensures wakesReaders <==> o != Return(-1)
    {
      j := i;
      while j < |addr|
        invariant Valid() && i <= j <= |addr|
        invariant written == old(written) + addr[i..j]
      {
        FullTest(|consumed|, |written|);
        if nwrite == (nread + PIPESIZE) % WRAP {
          wakesReaders := readopen && !killed;
          o := if wakesReaders then Sleep else Return(-1);
          return;
        }
        Put(addr[j]);
        j := j + 1;
      }
      return j, Return(|addr|), true;
    }

    /** p->data[p->nwrite++ % PIPESIZE] = c */
    method Put(c: Byte)
      requires Valid() && |written| - |consumed| < PIPESIZE
      modifies this`data, this`nwrite, this`written
      ensures Valid() && written == old(written) + [c]
    {
      RingIndex(|written|);
      data := data[nwrite % PIPESIZE := c];
      nwrite := (nwrite + 1) % WRAP;
      NextCounter(|written|);
      forall k | |consumed| <= k < |written|
        ensures k % PIPESIZE != |written| % PIPESIZE
      {
        ApartInRing(k, |written|);
      }
      written := written + [c];
    }

    /** A section of piperead: sleep on an empty pipe that may still be written, else take up to n bytes. It wakes
        writers exactly when it returns bytes or their end. */
    method ReadSection(n: nat, killed: bool) returns (got: seq<Byte>, o: Outcome, wakesWriters: bool)
      requires Valid()
      modifies this`nread, this`consumed
      ensures Valid()
      ensures consumed == old(consumed) + got
      ensures var avail := |written| - |old(consumed)|;
              if avail == 0 && writeopen then got == [] && o == (if killed then Return(-1) else Sleep)
              else |got| == (if n < avail then n else avail) && o == Return(|got|)
      ensures wakesWriters <==> |written| > |old(consumed)| || !writeopen
    {
      EmptyTest(|consumed|, |written|);
      got := [];
      if nread == nwrite && writeopen {
        return got, if killed then Return(-1) else Sleep, false;
      }
      while |got| < n
        invariant Valid() && |got| <= n && |got| <= |written| - |old(consumed)|
        invariant consumed == old(consumed) + got
        decreases n - |got|
      {
        EmptyTest(|consumed|, |written|);
        if nread == nwrite {
          break;
        }
        RingIndex(|consumed|);
        NextCounter(|consumed|);
        got := got + [data[nread % PIPESIZE]];
        consumed := consumed + [data[nread % PIPESIZE]];
        nread := (nread + 1) % WRAP;
      }
      o, wakesWriters := Return(|got|), true;
    }

    /** pipeclose. True says that both ends are closed and the page is freed. Closing an end wakes the other one. */
    method Close(writable: bool) returns (freed: bool, wakesReaders: bool, wakesWriters: bool)
      requires Valid()
      modifies this`readopen, this`writeopen
      ensures Valid()
      ensures writeopen == (old(writeopen) && !writable) && readopen == (old(readopen) && writable)
      ensures freed <==> !readopen && !writeopen
      ensures (old(writeopen) && !writeopen ==> wakesReaders) && (old(readopen) && !readopen ==> wakesWriters)
    {
      if writable {
        writeopen := false;
      } else {
        readopen := false;
      }
      wakesReaders, wakesWriters := writable, !writable;
      freed := !readopen && !writeopen;
    }
  }
}
