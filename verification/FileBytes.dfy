/** A file as its users see it, a sequence of bytes, with readi and writei as operations on it, and the
    chunked writes of file.c on top. */
module FileBytes {
  import opened Basics
  import opened Blocks
  import BlockMap

  const MAXBYTES: nat := BlockMap.MAXFILE * BSIZE

  /** From this byte on all blocks of a file are one block on disk (block 16522; xv6-public/fs.c line 441). */
  const SHARED: nat := 8459264

  /** The longest file whose blocks are all different blocks on disk. */
  const GOODBYTES: nat := 8459776

  /** From this byte on bmap leaves its index block (block 32906). */
  const STRAYBYTES: nat := 16847872

  /** `max` in filewrite and filepwrite, ((MAXOPBLOCKS-1-1-2) / 2) * 512: three blocks, to stay
      within one transaction. */
  const CHUNK: nat := 1536

  type Content = seq<Byte>

  /** d overwrites and, past the end, extends c from off on. */
  function WriteAt(c: Content, off: nat, d: seq<Byte>): (r: Content)
    requires off <= |c|
    ensures |r| == if off + |d| > |c| then off + |d| else |c|
    ensures r[off..off + |d|] == d
    ensures forall i :: 0 <= i < |c| && !(off <= i < off + |d|) ==> r[i] == c[i]
  {
    c[..off] + d + (if off + |d| < |c| then c[off + |d|..] else [])
  }

  /** The last position before e at the same place in its block as o. */
  function LastTwin(o: nat, e: nat): int {
    e - 1 - (e - 1 - o) % 512
  }

  /** A write to [off, e) reaches byte o through a block that shares its walk. */
  predicate Reached(off: nat, e: nat, o: nat) {
    SHARED <= o && SHARED <= LastTwin(o, e) && off <= LastTwin(o, e)
  }

  function StoredByte(c: Content, off: nat, d: seq<Byte>, o: nat): Byte
    requires off <= |c| && o < Max(|c|, off + |d|)
  {
    if Reached(off, off + |d|, o) then d[LastTwin(o, off + |d|) - off]
    else if off <= o < off + |d| then d[o - off]
    else c[o]
  }

  /** What the file holds after writei as written: d at off, and in the shared block the last byte stored wins. */
  function Store(c: Content, off: nat, d: seq<Byte>): (r: Content)
    requires off <= |c|
    ensures |r| == Max(|c|, off + |d|)
    ensures forall o :: 0 <= o < |r| ==> r[o] == StoredByte(c, off, d, o)
  {
    seq(Max(|c|, off + |d|), o requires 0 <= o < Max(|c|, off + |d|) => StoredByte(c, off, d, o))
  }

  /** At the same place in their blocks. */
  predicate Twins(o: int, p: int) {
    o % 512 == p % 512
  }

  /** Bytes of the shared block agree, as they do in every file on disk. */
  ghost predicate Consistent(c: Content) {
    forall o, p :: SHARED <= o < |c| && SHARED <= p < |c| && Twins(o, p) ==> c[o] == c[p]
  }

  lemma TwinOf(o: nat, e: nat)
    ensures Twins(LastTwin(o, e), o) && e - 512 <= LastTwin(o, e) < e
  {
  }

  lemma TwinsApart(p: int, q: int)
    requires Twins(p, q) && p < q
    ensures p + 512 <= q
  {
    assert q - p == 512 * (q / 512 - p / 512);
  }

  lemma TwinIsLast(o: nat, e: nat, p: int)
    requires p < e && Twins(p, o)
    ensures p <= LastTwin(o, e)
  {
    hide LastTwin, Twins;
    TwinOf(o, e);
    if LastTwin(o, e) < p {
      assert Twins(LastTwin(o, e), p) by {
        TwinsCompose(LastTwin(o, e), o, p);
      }
      TwinsApart(LastTwin(o, e), p);
    }
  }

  lemma TwinsCompose(a: int, b: int, c: int)
    requires Twins(a, b) && Twins(c, b)
    ensures Twins(a, c)
  {
  }

  lemma SameLastTwin(o: nat, p: nat, e: nat)
    requires Twins(o, p)
    ensures LastTwin(o, e) == LastTwin(p, e)
  {
    hide LastTwin;
    TwinOf(o, e);
    TwinOf(p, e);
    TwinIsLast(o, e, LastTwin(p, e));
    TwinIsLast(p, e, LastTwin(o, e));
  }

  /** What a write stores at its own positions in the shared block is reached. */
  lemma OwnIsReached(off: nat, e: nat, o: nat)
    requires off <= o < e && SHARED <= o
    ensures Reached(off, e, o)
  {
    hide LastTwin;
    TwinIsLast(o, e, o);
  }

  lemma StoreConsistent(c: Content, off: nat, d: seq<Byte>)
    requires off <= |c| && Consistent(c)
    ensures Consistent(Store(c, off, d))
  {
    hide LastTwin, Twins, Store;
    var r, e := Store(c, off, d), off + |d|;
    forall o, p | SHARED <= o < |r| && SHARED <= p < |r| && Twins(o, p)
      ensures r[o] == r[p]
    {
      SameLastTwin(o, p, e);
      if off <= o < e {
        OwnIsReached(off, e, o);
      }
      if off <= p < e {
        OwnIsReached(off, e, p);
      }
    }
  }

  /** writei as written does what it should if and only if the bytes it should leave in the shared block agree. */
  lemma StoreIsWriteExactly(c: Content, off: nat, d: seq<Byte>)
    requires off <= |c| && Consistent(c)
    ensures Store(c, off, d) == WriteAt(c, off, d) <==> Consistent(WriteAt(c, off, d))
  {
    hide LastTwin, Twins, Store, WriteAt;
    StoreConsistent(c, off, d);
    var r, w := Store(c, off, d), WriteAt(c, off, d);
    if Consistent(w) {
      forall o | 0 <= o < |r|
        ensures r[o] == w[o]
      {
        WrittenByte(c, off, d, o);
        if Reached(off, off + |d|, o) {
          TwinOf(o, off + |d|);
          WrittenByte(c, off, d, LastTwin(o, off + |d|));
        }
      }
    }
  }

  lemma WrittenByte(c: Content, off: nat, d: seq<Byte>, o: nat)
    requires off <= |c| && o < Max(|c|, off + |d|)
    ensures WriteAt(c, off, d)[o] == if off <= o < off + |d| then d[o - off] else c[o]
  {
    if off <= o < off + |d| {
      assert WriteAt(c, off, d)[off..off + |d|][o - off] == d[o - off];
    }
  }

  /** Within GOODBYTES writei does what it should. */
  lemma ShortStoreIsWrite(c: Content, off: nat, d: seq<Byte>)
    requires off <= |c| <= GOODBYTES && off + |d| <= GOODBYTES
    ensures Store(c, off, d) == WriteAt(c, off, d) && Consistent(c)
  {
    hide WriteAt, Store;
    ShortIsConsistent(c);
    ShortIsConsistent(WriteAt(c, off, d));
    StoreIsWriteExactly(c, off, d);
  }

  lemma ShortIsConsistent(c: Content)
    requires |c| <= GOODBYTES
    ensures Consistent(c)
  {
    forall o, p | SHARED <= o < |c| && SHARED <= p < |c| && Twins(o, p)
      ensures o == p
    {
      if o < p {
        TwinsApart(o, p);
      } else if p < o {
        TwinsApart(p, o);
      }
    }
  }

  /** One byte written behind a file of GOODBYTES zeros shows up 512 bytes earlier as well. */
  lemma TailWriteShowsTwice()
    ensures var c: Content := seq(GOODBYTES, _ => 0);
            Store(c, GOODBYTES, [1])[SHARED] == 1 && WriteAt(c, GOODBYTES, [1])[SHARED] == 0
  {
    assert LastTwin(SHARED, GOODBYTES + 1) == GOODBYTES;
  }

  // ----- readi and writei -----

  /** What comes of writei: -1, the stray access of line 441, or the new content. */
  datatype Outcome = Refused | Strayed | Done(content: Content)

  /** writei on an ordinary file without holes. */
  function Writei(c: Content, off: nat, d: seq<Byte>): Outcome {
    if off > |c| || off + |d| > MAXBYTES then Refused
    else if |d| > 0 && off + |d| > STRAYBYTES then Strayed
    else Done(Store(c, off, d))
  }

  /** readi on an ordinary file; None is -1. Offsets and counts are 32-bit. */
  function Readi(c: Content, off: Word, n: Word): Option<seq<Byte>> {
    if off > |c| || off + n >= 0x1_0000_0000 then None
    else Some(c[off..if off + n > |c| then |c| else off + n])
  }

  /** -1 exactly for an offset behind the end or an end that wraps in 32 bits; otherwise as many of the n bytes at off as
      the file has, each the file's own. */
  lemma ReadiReturns(c: Content, off: Word, n: Word)
    ensures Readi(c, off, n).None? <==> off > |c| || off + n >= 0x1_0000_0000
    ensures Readi(c, off, n).Some? ==>
              var dst := Readi(c, off, n).value;
              && |dst| == Min(n, |c| - off)
              && forall i :: 0 <= i < |dst| ==> dst[i] == c[off + i]
  {
  }

  /** What decides between the three outcomes of writei. */
  lemma WriteiOutcome(c: Content, off: nat, d: seq<Byte>)
    ensures Writei(c, off, d).Refused? <==> off > |c| || off + |d| > MAXBYTES
    ensures Writei(c, off, d).Strayed? <==> d != [] && off <= |c| && STRAYBYTES < off + |d| <= MAXBYTES
    ensures |c| <= GOODBYTES && off <= |c| && off + |d| <= GOODBYTES ==> Writei(c, off, d) == Done(WriteAt(c, off, d))
  {
    if |c| <= GOODBYTES && off <= |c| && off + |d| <= GOODBYTES {
      ShortStoreIsWrite(c, off, d);
    }
  }

  /** Reading back what was just written returns it, in any file within GOODBYTES and elsewhere whenever the write was a
      plain one. */
  lemma ReadAfterWrite(c: Content, off: Word, d: seq<Byte>)
    requires off <= |c| && off + |d| < 0x1_0000_0000 && Consistent(c) && Consistent(WriteAt(c, off, d))
    ensures Readi(Store(c, off, d), off, |d|) == Some(d)
  {
    hide Store, WriteAt, Consistent;
    StoreIsWriteExactly(c, off, d);
    assert WriteAt(c, off, d)[off..off + |d|] == d;
  }

  /** In a file within GOODBYTES that needs no premise, and bytes outside the write read as before. */
  lemma ReadAfterShortWrite(c: Content, off: Word, d: seq<Byte>, at: Word, n: Word)
    requires off <= |c| <= GOODBYTES && off + |d| <= GOODBYTES && at + n <= |c| && (at + n <= off || off + |d| <= at)
    ensures Readi(Store(c, off, d), off, |d|) == Some(d)
    ensures Readi(Store(c, off, d), at, n) == Readi(c, at, n)
  {
    hide Store, WriteAt, Consistent;
    ShortStoreIsWrite(c, off, d);
    ShortIsConsistent(WriteAt(c, off, d));
    ReadAfterWrite(c, off, d);
    var w := WriteAt(c, off, d);
    assert w[at..at + n] == c[at..at + n];
  }

  lemma StoreNothing(c0: Content, off: nat)
    requires off <= |c0|
    ensures Store(c0, off, []) == c0
  {
    hide LastTwin;
    forall o | 0 <= o < |c0|
      ensures StoredByte(c0, off, [], o) == c0[o]
    {
      TwinOf(o, off);
    }
  }

  /** Two adjoining writes are one write. */
  lemma WritesCompose(c: Content, off: nat, d: seq<Byte>, e: seq<Byte>)
    requires off <= |c|
    ensures Store(Store(c, off, d), off + |d|, e) == Store(c, off, d + e)
  {
    hide LastTwin, Store;
    var x, y := Store(Store(c, off, d), off + |d|, e), Store(c, off, d + e);
    forall o | 0 <= o < |x|
      ensures x[o] == y[o]
    {
      SecondWrite(c, off, d, e, o);
    }
  }

  lemma SecondWrite(c: Content, off: nat, d: seq<Byte>, e: seq<Byte>, o: nat)
    requires off <= |c| && o < Max(|c|, off + |d + e|)
    ensures StoredByte(Store(c, off, d), off + |d|, e, o) == StoredByte(c, off, d + e, o)
  {
    hide LastTwin, Twins;
    var mid, end := off + |d|, off + |d + e|;
    TwinOf(o, mid);
    TwinOf(o, end);
    TwinIsLast(o, end, LastTwin(o, mid));
    if LastTwin(o, end) < mid {
      TwinIsLast(o, mid, LastTwin(o, end));
    }
    if SHARED <= o && mid <= o < end {
      OwnIsReached(mid, end, o);
    }
    if SHARED <= o && off <= o < mid {
      OwnIsReached(off, mid, o);
    }
  }

  // ----- chunks -----

  /** How many of the first |data| bytes chunked writing gets down before a chunk strays. */
  function Accepted(c: Content, off: nat, len: nat): (k: nat)
    ensures k <= len
  {
    if off > |c| || off > STRAYBYTES then 0
    else if off + len <= STRAYBYTES then len
    else (STRAYBYTES - off) / CHUNK * CHUNK
  }

  /** What a file holds after filepwrite got down the first k bytes of data. */
  function Put(c: Content, off: nat, data: seq<Byte>, k: nat): Content
    requires k <= |data| && (k > 0 ==> off <= |c|)
  {
    if k == 0 then c else Store(c, off, data[..k])
  }

  lemma PutLength(c: Content, off: nat, data: seq<Byte>, i: nat)
    requires i <= |data| && off <= |c|
    ensures |Put(c, off, data, i)| == Max(|c|, off + i)
  {
    hide StoredByte;
  }

  lemma PutMore(c: Content, off: nat, data: seq<Byte>, i: nat, n: nat)
    requires i + n <= |data| && n > 0 && off <= |c|
    ensures off + i <= |Put(c, off, data, i)|
    ensures Store(Put(c, off, data, i), off + i, data[i..i + n]) == Put(c, off, data, i + n)
    ensures |Put(c, off, data, i)| <= Max(|c|, off + i)
  {
    hide Store, StoredByte;
    PutLength(c, off, data, i);
    if i > 0 {
      Slices(data, i, i + n);
      WritesCompose(c, off, data[..i], data[i..i + n]);
    } else {
      assert data[0..n] == data[..n];
    }
  }

  lemma Slices(data: seq<Byte>, i: nat, j: nat)
    requires i <= j <= |data|
    ensures data[..i] + data[i..j] == data[..j]
  {
  }

  /** A chunk reaches into at most four blocks. Counting a bitmap block for each, the inode and an index block, that is
      MAXOPBLOCKS, and a block more would not fit. */
  lemma ChunkBudget(off: nat, n: nat)
    requires 0 < n <= CHUNK
    ensures 2 * ((off + n - 1) / 512 - off / 512 + 1) + 2 <= 10
    ensures 2 * ((511 + CHUNK + 512 - 1) / 512 - 511 / 512 + 1) + 2 > 10
  {
  }

  /** What comes of filepwrite: its return value, or a stray access. */
  datatype Pwrote = Returned(n: int) | LostWay

  /** The loop of filepwrite over one file. A write that fits is one whole write; one past the end leaves
      nothing and returns -1; one that reaches STRAYBYTES gets its whole chunks before it down and strays. */
  method FilePwrite(c: Content, data: seq<Byte>, off: nat) returns (c': Content, ret: Pwrote)
    requires |c| <= STRAYBYTES
    ensures var k := Accepted(c, off, |data|);
            && c' == Put(c, off, data, k)
            && ret == if k == |data| then Returned(|data|) else if off > |c| then Returned(-1) else LostWay
  {
    hide Store, Put;
    var i, offset := 0, off;
    c' := c;
    PutNothing(c, off, data);
    while i < |data|
      invariant 0 <= i <= |data| && offset == off + i
      invariant i > 0 ==> off <= |c| && offset <= STRAYBYTES
      invariant i < |data| ==> i % CHUNK == 0
      invariant c' == Put(c, off, data, i)
    {
      var n1 := |data| - i;
      if n1 > CHUNK {
        n1 := CHUNK;
      }
      if off <= |c| {
        PutMore(c, off, data, i, n1);
      }
      var r := Writei(c', offset, data[i..i + n1]);
      if !r.Done? {
        StoppedAt(c, off, |data|, i);
        return c', if r.Refused? then Returned(-1) else LostWay;
      }
      c', offset, i := r.content, offset + n1, i + n1;
    }
    ret := Returned(|data|);
  }

  lemma PutNothing(c: Content, off: nat, data: seq<Byte>)
    ensures Put(c, off, data, 0) == c
  {
  }

  /** The caller's own tests: for a whole write, and for one that is a plain overwrite or extension. */
  lemma WholeWrite(c: Content, off: nat, data: seq<Byte>)
    requires |c| <= STRAYBYTES && Consistent(c) && |data| > 0
    ensures Accepted(c, off, |data|) == |data| <==> off <= |c| && off + |data| <= STRAYBYTES
    ensures off <= |c| && off + |data| <= STRAYBYTES ==>
              (Put(c, off, data, |data|) == WriteAt(c, off, data) <==> Consistent(WriteAt(c, off, data)))
    ensures off <= |c| && Max(|c|, off + |data|) <= GOODBYTES ==> Put(c, off, data, |data|) == WriteAt(c, off, data)
  {
    hide Store, WriteAt, Consistent;
    assert data[..|data|] == data;
    if off <= |c| {
      StoreIsWriteExactly(c, off, data);
      if Max(|c|, off + |data|) <= GOODBYTES {
        ShortStoreIsWrite(c, off, data);
      }
    }
  }

  lemma StoppedAt(c: Content, off: nat, len: nat, i: nat)
    requires |c| <= STRAYBYTES && i < len && i % CHUNK == 0
    requires i > 0 ==> off <= |c| && off + i <= STRAYBYTES
    requires var n1 := if len - i > CHUNK then CHUNK else len - i;
             off > |c| || off + i + n1 > STRAYBYTES
    ensures Accepted(c, off, len) == i
  {
  }
}
