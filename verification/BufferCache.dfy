/** bio.c over the disk of memide.c: an array of buffers threaded on a circular
    least-recently-used list, in front of a disk of blocks. */
module BufferCache {
  import opened Basics
  import opened Blocks

  const NBUF: nat := 30
  const HEAD: nat := NBUF      // bcache.head in the link arrays
  const DISKDEV: Word := 1      // the only device iderw serves

  datatype Buf = Buf(dev: Word, blockno: Word, valid: bool, dirty: bool, locked: bool, refcnt: nat, data: Block)

  type Disk = seq<Block>

  // ----- the circular list -----

  /** `ring` lists, from the head on, the buffers met by following next; prev walks it backwards. */
  ghost predicate Linked(next: seq<nat>, prev: seq<nat>, ring: seq<nat>) {
    && |next| == |prev| == NBUF + 1
    && |ring| >= 1 && ring[0] == HEAD
    && Distinct(ring)
    && (forall i :: 0 <= i < |ring| ==> ring[i] <= NBUF)
    && (forall i :: 0 <= i < |ring| ==> next[ring[i]] == ring[After(ring, i)])
    && (forall i :: 0 <= i < |ring| ==> prev[ring[After(ring, i)]] == ring[i])
  }

  /** Every buffer is on the list exactly once. */
  ghost predicate FullRing(ring: seq<nat>) {
    |ring| == NBUF + 1 && forall b :: 0 <= b <= NBUF ==> b in ring
  }

  function PushFront(ring: seq<nat>, b: nat): seq<nat>
    requires |ring| >= 1
  {
    [ring[0], b] + ring[1..]
  }

  lemma LinkFront(next: seq<nat>, prev: seq<nat>, ring: seq<nat>, b: nat)
    requires Linked(next, prev, ring) && b < NBUF && b !in ring
    ensures var n1, p1 := next[b := next[HEAD]], prev[b := HEAD];
            var p2 := p1[n1[HEAD] := b];
            Linked(n1[HEAD := b], p2, PushFront(ring, b))
  {
    var n1, p1 := next[b := next[HEAD]], prev[b := HEAD];
    var p2 := p1[n1[HEAD] := b];
    var n2 := n1[HEAD := b];
    var ring2 := PushFront(ring, b);
    assert next[ring[0]] == ring[After(ring, 0)];
    forall i | 0 <= i < |ring2|
      ensures n2[ring2[i]] == ring2[After(ring2, i)] && p2[ring2[After(ring2, i)]] == ring2[i]
    {
      if i >= 2 {
        assert ring2[i] == ring[i - 1];
      }
    }
  }

  lemma Unlink(next: seq<nat>, prev: seq<nat>, ring: seq<nat>, k: nat)
    requires Linked(next, prev, ring) && 1 <= k < |ring|
    ensures var b := ring[k];
            next[b] <= NBUF && prev[b] <= NBUF &&
            Linked(next[prev[b] := next[b]], prev[next[b] := prev[b]], Without(ring, k))
  {
    var b := ring[k];
    assert ring[After(ring, k - 1)] == b;
    assert prev[b] == ring[k - 1] && next[b] == ring[After(ring, k)];
    var n2, p2 := next[prev[b] := next[b]], prev[next[b] := prev[b]];
    var ring2 := Without(ring, k);
    forall i | 0 <= i < |ring2|
      ensures n2[ring2[i]] == ring2[After(ring2, i)] && p2[ring2[After(ring2, i)]] == ring2[i]
    {
      var i' := if i < k then i else i + 1;
      assert ring2[i] == ring[i'];
    }
  }

  lemma WithoutThenFrontFull(ring: seq<nat>, k: nat)
    requires FullRing(ring) && 1 <= k < |ring|
    ensures FullRing(PushFront(Without(ring, k), ring[k]))
  {
    var r2 := PushFront(Without(ring, k), ring[k]);
    forall b | 0 <= b <= NBUF
      ensures b in r2
    {
      assert b in ring;
      var i :| 0 <= i < |ring| && ring[i] == b;
      if i == 0 {
        assert r2[0] == b;
      } else if i < k {
        assert r2[i + 1] == b;
      } else if i == k {
        assert r2[1] == b;
      } else {
        assert r2[i] == b;
      }
    }
  }

  // ----- contents -----

  predicate Holds(bufs: seq<Buf>, i: int, d: nat, b: nat) {
    0 <= i < |bufs| && bufs[i].dev == d && bufs[i].blockno == b
  }

  predicate HoldsValid(bufs: seq<Buf>, i: int, b: nat) {
    Holds(bufs, i, DISKDEV, b) && bufs[i].valid
  }

  /** No block of a real device sits in two buffers (all buffers start out on device 0). */
  ghost predicate Unique(bufs: seq<Buf>) {
    forall i, j, d, b :: d != 0 && Holds(bufs, i, d, b) && Holds(bufs, j, d, b) ==> i == j
  }

  /** What one buffer's flags promise about its data. */
  ghost predicate Coherent(buf: Buf, disk: Disk) {
    && (buf.locked ==> buf.refcnt > 0)
    && (buf.dirty ==> buf.valid)
    && (buf.valid ==> buf.dev == DISKDEV && buf.blockno < |disk|)
    && (buf.valid && !buf.dirty && !buf.locked ==> buf.data == disk[buf.blockno])
  }

  predicate Recyclable(buf: Buf) {
    buf.refcnt == 0 && !buf.dirty
  }

  /** Buffer i is the last one on the list that may be recycled. */
  ghost predicate LeastRecent(bufs: seq<Buf>, ring: seq<nat>, i: nat) {
    exists k :: 1 <= k < |ring| && ring[k] == i
                && forall j :: k < j < |ring| && ring[j] < |bufs| ==> !Recyclable(bufs[ring[j]])
  }

  /** The latest contents of block b: the cached copy when there is one. */
  ghost function ContentOf(bufs: seq<Buf>, disk: Disk, b: nat): Block
    requires b < |disk|
  {
    if exists i :: HoldsValid(bufs, i, b) then
      var i :| HoldsValid(bufs, i, b);
      bufs[i].data
    else
      disk[b]
  }

  ghost function Contents(bufs: seq<Buf>, disk: Disk): (c: Disk)
    ensures |c| == |disk|
    ensures forall b :: 0 <= b < |disk| ==> c[b] == ContentOf(bufs, disk, b)
  {
    seq(|disk|, b requires 0 <= b < |disk| => ContentOf(bufs, disk, b))
  }

  /** Block b is held in the cache by B_DIRTY and must not be recycled. */
  ghost predicate Pinned(bufs: seq<Buf>, b: nat) {
    exists i :: HoldsValid(bufs, i, b) && bufs[i].dirty
  }

  /** Nobody has the buffer of block b locked. */
  ghost predicate Untaken(bufs: seq<Buf>, b: nat) {
    forall i :: Holds(bufs, i, DISKDEV, b) ==> !bufs[i].locked
  }

  /** What the buffer's holder changed has been logged or written. */
  predicate Tidy(buf: Buf, disk: Disk) {
    buf.valid && !buf.dirty ==> buf.blockno < |disk| && buf.data == disk[buf.blockno]
  }

  /** Every buffer that is not pinned agrees with the disk, also those that somebody is reading. */
  ghost predicate Steady(bufs: seq<Buf>, disk: Disk) {
    forall i :: 0 <= i < |bufs| ==> Tidy(bufs[i], disk)
  }

  /** No process holds or waits for a buffer. */
  ghost predicate Quiet(bufs: seq<Buf>) {
    forall i :: 0 <= i < |bufs| ==> bufs[i].refcnt == 0
  }

  /** bget(DISKDEV, b) could return buffer i. */
  predicate Usable(bufs: seq<Buf>, i: int, b: nat) {
    0 <= i < |bufs| && (Holds(bufs, i, DISKDEV, b) || Recyclable(bufs[i]))
  }

  /** There are buffers for two blocks at once. */
  ghost predicate Room(bufs: seq<Buf>, b: nat, c: nat) {
    exists i, j :: i != j && Usable(bufs, i, b) && Usable(bufs, j, c)
  }

  predicate Clean(bufs: seq<Buf>, i: int) {
    0 <= i < |bufs| && Recyclable(bufs[i])
  }

  ghost predicate OneClean(bufs: seq<Buf>) {
    exists i :: Clean(bufs, i)
  }

  ghost predicate TwoClean(bufs: seq<Buf>) {
    exists i, j :: i != j && Clean(bufs, i) && Clean(bufs, j)
  }

  /** Once buffer i has been taken for b, what is left for c. */
  lemma SecondUse(bufs: seq<Buf>, now: seq<Buf>, i: nat, b: nat, c: nat)
    requires b != c && Unique(bufs) && Unique(now) && Usable(bufs, i, b)
    requires |now| == |bufs| && now == bufs[i := now[i]] && Holds(now, i, DISKDEV, b) && now[i].refcnt > 0
    ensures Room(bufs, b, c) <==> exists j :: Usable(now, j, c)
  {
    forall k | Holds(bufs, k, DISKDEV, b)
      ensures k == i
    {
      assert k != i ==> Holds(now, k, DISKDEV, b);
    }
    if Room(bufs, b, c) {
      var k, j :| k != j && Usable(bufs, k, b) && Usable(bufs, j, c);
      assert Usable(now, if j != i then j else k, c);
    }
    if j :| Usable(now, j, c) {
      assert j != i && Usable(bufs, j, c);
    }
  }

  /** Updating a buffer without renaming it keeps who holds what. */
  lemma SameKeys(bufs: seq<Buf>, bufs': seq<Buf>, i: nat)
    requires i < |bufs| && |bufs'| == |bufs| && bufs' == bufs[i := bufs'[i]]
    requires bufs'[i].dev == bufs[i].dev && bufs'[i].blockno == bufs[i].blockno
    ensures forall j, d, b :: Holds(bufs', j, d, b) <==> Holds(bufs, j, d, b)
    ensures Unique(bufs) ==> Unique(bufs')
  {
  }

  lemma ContentOfHeld(bufs: seq<Buf>, disk: Disk, i: nat)
    requires Unique(bufs) && i < |bufs| && HoldsValid(bufs, i, bufs[i].blockno) && bufs[i].blockno < |disk|
    ensures ContentOf(bufs, disk, bufs[i].blockno) == bufs[i].data
    ensures Pinned(bufs, bufs[i].blockno) <==> bufs[i].dirty
  {
  }

  /** In a steady cache an unpinned block reads as it is on disk. */
  lemma SteadyIsOnDisk(bufs: seq<Buf>, disk: Disk, b: nat)
    requires Steady(bufs, disk) && b < |disk| && !Pinned(bufs, b)
    ensures ContentOf(bufs, disk, b) == disk[b]
  {
  }

  /** An unpinned block whose buffer nobody has locked reads as it is on disk. */
  lemma UnpinnedIsOnDisk(bufs: seq<Buf>, disk: Disk, b: nat)
    requires forall i :: 0 <= i < |bufs| ==> Coherent(bufs[i], disk)
    requires forall i :: HoldsValid(bufs, i, b) ==> !bufs[i].locked
    requires b < |disk| && !Pinned(bufs, b)
    ensures ContentOf(bufs, disk, b) == disk[b]
  {
  }

  lemma AfterUse(before: seq<Buf>, bufs: seq<Buf>, i: nat)
    requires |bufs| == |before| && i < |bufs| && (Quiet(before) ==> bufs[i].refcnt == 0)
    requires forall k :: 0 <= k < |bufs| && k != i ==> bufs[k].refcnt == before[k].refcnt
    ensures Quiet(before) ==> Quiet(bufs) && (!bufs[i].dirty ==> OneClean(bufs))
  {
    if Quiet(before) && !bufs[i].dirty {
      assert Clean(bufs, i);
    }
  }

  lemma UntakenMeans(bufs: seq<Buf>, b: nat)
    requires Untaken(bufs, b)
    ensures forall i :: Holds(bufs, i, DISKDEV, b) ==> !bufs[i].locked
  {
  }

  lemma StillUntaken(before: seq<Buf>, bufs: seq<Buf>, f: nat, t: nat)
    requires |bufs| == |before| && f < |bufs| && t < |bufs| && !bufs[f].locked && !bufs[t].locked
    requires forall k :: 0 <= k < |bufs| && k != f && k != t ==> bufs[k] == before[k]
    ensures forall x :: Untaken(before, x) ==> Untaken(bufs, x)
  {
    forall x | Untaken(before, x)
      ensures Untaken(bufs, x)
    {
      forall i | Holds(bufs, i, DISKDEV, x)
        ensures !bufs[i].locked
      {
        assert i != f && i != t ==> Holds(before, i, DISKDEV, x);
      }
    }
  }

  /** Writing a block from the only buffer that holds it keeps the others in step with the disk. */
  lemma StillSteady(before: seq<Buf>, disk: Disk, bufs: seq<Buf>, disk': Disk, f: nat, t: nat)
    requires |bufs| == |before| && f < |bufs| && t < |bufs| && Unique(bufs)
    requires HoldsValid(bufs, t, bufs[t].blockno) && bufs[t].blockno < |disk|
    requires disk' == disk[bufs[t].blockno := bufs[t].data]
    requires forall k :: 0 <= k < |bufs| && k != f && k != t ==> bufs[k] == before[k]
    requires forall k :: 0 <= k < |bufs| ==> Coherent(bufs[k], disk')
    requires Tidy(bufs[f], disk')
    ensures Steady(before, disk) ==> Steady(bufs, disk')
  {
    if Steady(before, disk) {
      forall k | 0 <= k < |bufs|
        ensures Tidy(bufs[k], disk')
      {
        if k != f && k != t && bufs[k].valid {
          assert Tidy(before[k], disk) && Coherent(bufs[k], disk');
          assert Holds(bufs, k, DISKDEV, bufs[k].blockno) && Holds(bufs, t, DISKDEV, bufs[t].blockno);
        }
      }
    }
  }

  lemma QuietAt(bufs: seq<Buf>, i: nat)
    requires Quiet(bufs) && i < |bufs|
    ensures bufs[i].refcnt == 0
  {
  }

  lemma AfterCopy(before: seq<Buf>, bufs: seq<Buf>, f: nat, t: nat)
    requires |bufs| == |before| && f < |bufs| && t < |bufs| && f != t && !bufs[t].dirty
    requires forall k :: 0 <= k < |bufs| && k != f && k != t ==> bufs[k].refcnt == before[k].refcnt
    requires Quiet(before) ==> bufs[f].refcnt == bufs[t].refcnt == 0
    ensures Quiet(before) ==> Quiet(bufs) && OneClean(bufs) && (!bufs[f].dirty ==> TwoClean(bufs))
  {
    if Quiet(before) {
      assert Clean(bufs, t);
      assert !bufs[f].dirty ==> Clean(bufs, f);
    }
  }

  lemma NoRoom(bufs: seq<Buf>, b: nat, c: nat)
    ensures Room(bufs, b, c) ==> exists i :: 0 <= i < |bufs| && (Holds(bufs, i, DISKDEV, b) || Recyclable(bufs[i]))
  {
  }

  lemma LockedHeld(bufs: seq<Buf>, disk: Disk, i: nat)
    requires forall k :: 0 <= k < |bufs| ==> Coherent(bufs[k], disk)
    ensures i < |bufs| && bufs[i].locked ==> bufs[i].refcnt > 0
  {
  }

  lemma PinnedHeld(bufs: seq<Buf>, disk: Disk, i: nat)
    requires Unique(bufs) && i < |bufs| && HoldsValid(bufs, i, bufs[i].blockno) && bufs[i].blockno < |disk|
    ensures bufs[i].dirty <==> Pinned(bufs, bufs[i].blockno)
  {
    ContentOfHeld(bufs, disk, i);
  }

  ghost predicate MovedToFront(ring: seq<nat>, ring': seq<nat>, i: nat) {
    exists k :: 1 <= k < |ring| && ring[k] == i && ring' == PushFront(Without(ring, k), i)
  }

  /** A transfer between a buffer and the disk leaves the latest contents as they were. */
  lemma TransferView(bufs: seq<Buf>, bufs': seq<Buf>, disk: Disk, disk': Disk, i: nat)
    requires Unique(bufs) && i < |bufs| && bufs[i].dev == DISKDEV && bufs[i].blockno < |disk|
    requires forall j :: 0 <= j < |bufs| ==> Coherent(bufs[j], disk)
    requires bufs[i].valid ==> bufs[i].dirty
    requires if bufs[i].dirty then
               bufs' == bufs[i := bufs[i].(dirty := false)] && disk' == disk[bufs[i].blockno := bufs[i].data]
             else
               bufs' == bufs[i := bufs[i].(valid := true, data := disk[bufs[i].blockno])] && disk' == disk
    ensures Unique(bufs')
    ensures forall j :: 0 <= j < |bufs| && j != i ==> Coherent(bufs'[j], disk')
    ensures Contents(bufs', disk') == Contents(bufs, disk)
    ensures forall x :: Pinned(bufs', x) <==> Pinned(bufs, x) && x != bufs[i].blockno
  {
    SameKeys(bufs, bufs', i);
    assert forall j, x :: HoldsValid(bufs', j, x) <==> HoldsValid(bufs, j, x) || (j == i && x == bufs[i].blockno);
    ContentOfHeld(bufs', disk', i);
    forall j | 0 <= j < |bufs| && j != i
      ensures Coherent(bufs'[j], disk')
    {
      assert Holds(bufs, i, DISKDEV, bufs[i].blockno);
      assert bufs[j].valid ==> Holds(bufs, j, DISKDEV, bufs[j].blockno);
    }
    forall b | 0 <= b < |disk|
      ensures ContentOf(bufs', disk', b) == ContentOf(bufs, disk, b)
    {
      if j :| HoldsValid(bufs, j, b) {
        ContentOfHeld(bufs, disk, j);
        ContentOfHeld(bufs', disk', j);
      } else if b == bufs[i].blockno {
        assert !HoldsValid(bufs, i, b);
      }
    }
  }

  /** Changing only the count of references changes no contents. */
  lemma SameView(bufs: seq<Buf>, bufs': seq<Buf>, disk: Disk, i: nat)
    requires Unique(bufs) && i < |bufs| && |bufs'| == |bufs|
    requires bufs' == bufs[i := bufs'[i]]
    requires bufs'[i].dev == bufs[i].dev && bufs'[i].blockno == bufs[i].blockno && bufs'[i].valid == bufs[i].valid
    requires bufs'[i].data == bufs[i].data && bufs'[i].dirty == bufs[i].dirty
    ensures Unique(bufs')
    ensures Contents(bufs', disk) == Contents(bufs, disk)
    ensures forall x :: Pinned(bufs', x) <==> Pinned(bufs, x)
  {
    SameKeys(bufs, bufs', i);
    forall j, x
      ensures HoldsValid(bufs', j, x) <==> HoldsValid(bufs, j, x)
    {
    }
    forall b | 0 <= b < |disk|
      ensures ContentOf(bufs', disk, b) == ContentOf(bufs, disk, b)
    {
      if j :| HoldsValid(bufs, j, b) {
        ContentOfHeld(bufs, disk, j);
        ContentOfHeld(bufs', disk, j);
      }
    }
  }

  /** Recycling a clean, unreferenced buffer loses nothing: its data is on the disk. */
  lemma RecycleView(bufs: seq<Buf>, bufs': seq<Buf>, disk: Disk, i: nat, d: Word, b: Word)
    requires Unique(bufs) && i < |bufs|
    requires forall j :: 0 <= j < |bufs| ==> Coherent(bufs[j], disk) && !Holds(bufs, j, d, b)
    requires Recyclable(bufs[i])
    requires bufs' == bufs[i := Buf(d, b, false, false, false, 1, bufs[i].data)]
    ensures Unique(bufs')
    ensures Contents(bufs', disk) == Contents(bufs, disk)
    ensures forall x :: Pinned(bufs', x) <==> Pinned(bufs, x)
  {
    forall j, x
      ensures HoldsValid(bufs', j, x) <==> HoldsValid(bufs, j, x) && j != i
    {
    }
    assert forall j, e, x :: Holds(bufs', j, e, x) && j != i ==> Holds(bufs, j, e, x);
    forall x | 0 <= x < |disk|
      ensures ContentOf(bufs', disk, x) == ContentOf(bufs, disk, x)
    {
      if j :| HoldsValid(bufs, j, x) {
        ContentOfHeld(bufs, disk, j);
        if j != i {
          ContentOfHeld(bufs', disk, j);
        }
      }
    }
  }

  class Cache {
    var bufs: seq<Buf>
    var next: seq<nat>
    var prev: seq<nat>
    var disk: Disk
    ghost var ring: seq<nat>
    ghost var images: seq<Disk>      // the disk after every single block write, in order

    /** The list is a circular permutation of all buffers, and no block is in two of them. */
    ghost predicate Structured()
      reads this
    {
      |bufs| == NBUF && Linked(next, prev, ring) && FullRing(ring) && Unique(bufs)
    }

    ghost predicate Valid()
      reads this
    {
      && Structured()
      && (forall i :: 0 <= i < NBUF ==> Coherent(bufs[i], disk))
    }

    /** Nobody holds a buffer. */
    ghost predicate Idle()
      reads this
    {
      forall i :: 0 <= i < |bufs| ==> !bufs[i].locked
    }

    ghost function View(): (c: Disk)
      reads this
    {
      Contents(bufs, disk)
    }

    /** binit, on top of a given disk. */
    constructor (d: Disk)
      ensures Valid() && Idle()
      ensures disk == d && View() == d && images == []
      ensures forall b :: !Pinned(bufs, b)
      ensures Quiet(bufs)
    {
      disk := d;
      images := [];
      bufs := seq(NBUF, _ => Buf(0, 0, false, false, false, 0, ZeroBlock()));
      next := seq(NBUF + 1, _ => HEAD);
      prev := seq(NBUF + 1, _ => HEAD);
      ring := [HEAD];
      new;
      LinkAll();
      assert View() == d;
    }

    /** The loop of binit: each buffer in turn goes to the front of the list. */
    method LinkAll()
      requires ring == [HEAD] && Linked(next, prev, ring)
      modifies this`next, this`prev, this`ring
      ensures Linked(next, prev, ring) && FullRing(ring)
    {
      var b := 0;
      while b < NBUF
        invariant 0 <= b <= NBUF
        invariant Linked(next, prev, ring) && |ring| == b + 1
        invariant forall i :: 0 <= i < b ==> i in ring
        invariant forall x :: x in ring ==> x < b || x == HEAD
      {
        LinkFront(next, prev, ring, b);
        next := next[b := next[HEAD]];
        prev := prev[b := HEAD];
        prev := prev[next[HEAD] := b];
        next := next[HEAD := b];
        ghost var was := ring;
        ring := PushFront(ring, b);
        assert ring[1] == b;
        assert forall x :: x in ring ==> x == b || x in was;
        forall i | 0 <= i < b
          ensures i in ring
        {
          assert i in was;
          var j :| 0 <= j < |was| && was[j] == i;
          assert j > 0 && ring[j + 1] == i;
        }
        b := b + 1;
      }
      assert ring[0] == HEAD;
    }

    /** The first loop of bget: follow next from the head until the block turns up. */
    method FindCached(d: Word, b: Word) returns (i: nat)
      requires Valid()
      ensures i <= NBUF
      ensures i < NBUF ==> Holds(bufs, i, d, b)
      ensures i == HEAD ==> forall j :: 0 <= j < NBUF ==> !Holds(bufs, j, d, b)
    {
      assert next[ring[0]] == ring[After(ring, 0)];
      i := next[HEAD];
      ghost var k := 1;
      while i != HEAD
        invariant 1 <= k <= NBUF + 1
        invariant i == if k <= NBUF then ring[k] else HEAD
        invariant forall j :: 1 <= j < k ==> !Holds(bufs, ring[j], d, b)
        decreases NBUF + 1 - k
      {
        assert k <= NBUF && i < NBUF;
        if bufs[i].dev == d && bufs[i].blockno == b {
          return;
        }
        assert next[ring[k]] == ring[After(ring, k)];
        i, k := next[i], k + 1;
      }
      assert k == NBUF + 1;
      forall j | 0 <= j < NBUF
        ensures !Holds(bufs, j, d, b)
      {
        assert j in ring;
        var m :| 0 <= m < |ring| && ring[m] == j;
      }
    }

    /** The second loop of bget: follow prev from the head to the first buffer that may be reused. */
    method FindRecyclable() returns (i: nat)
      requires Valid()
      ensures i <= NBUF
      ensures i < NBUF ==> Recyclable(bufs[i]) && LeastRecent(bufs, ring, i)
      ensures i == HEAD ==> forall j :: 0 <= j < NBUF ==> !Recyclable(bufs[j])
    {
      assert prev[ring[After(ring, NBUF)]] == ring[NBUF];
      i := prev[HEAD];
      ghost var k := NBUF;
      while i != HEAD
        invariant 0 <= k <= NBUF
        invariant i == ring[k]
        invariant forall j :: k < j <= NBUF && ring[j] < NBUF ==> !Recyclable(bufs[ring[j]])
        decreases k
      {
        assert k > 0 && i < NBUF;
        if Recyclable(bufs[i]) {
          return;
        }
        assert prev[ring[After(ring, k - 1)]] == ring[k - 1];
        i, k := prev[i], k - 1;
      }
      assert k == 0;
      forall j | 0 <= j < NBUF
        ensures !Recyclable(bufs[j])
      {
        assert j in ring;
        var m :| 0 <= m < |ring| && ring[m] == j;
      }
    }

    /** bget up to acquiresleep: the section under bcache.lock. None is the panic. */
    method BgetRef(d: Word, b: Word) returns (r: Option<nat>)
      requires Valid()
      modifies this`bufs
      ensures Valid()
      ensures r.None? <==>
                forall i :: 0 <= i < NBUF ==> !Holds(old(bufs), i, d, b) && !Recyclable(old(bufs)[i])
      ensures r.None? ==> bufs == old(bufs)
      ensures r.Some? ==> r.value < NBUF
      ensures r.Some? ==> bufs == old(bufs)[r.value := bufs[r.value]]
      ensures r.Some? && Holds(old(bufs), r.value, d, b) ==>
                bufs[r.value] == old(bufs)[r.value].(refcnt := old(bufs)[r.value].refcnt + 1)
      ensures r.Some? && !Holds(old(bufs), r.value, d, b) ==>
                && (forall i :: 0 <= i < NBUF ==> !Holds(old(bufs), i, d, b))
                && Recyclable(old(bufs)[r.value])
                && bufs[r.value] == Buf(d, b, false, false, false, 1, old(bufs)[r.value].data)
                // the recycled buffer is the least recently used one that may go
                && LeastRecent(old(bufs), ring, r.value)
      ensures r.Some? ==> Holds(bufs, r.value, d, b) && bufs[r.value].refcnt > 0
      ensures View() == old(View())
      ensures forall x :: Pinned(bufs, x) <==> old(Pinned(bufs, x))
    {
      hide Linked, FullRing;
      var i := FindCached(d, b);
      if i != HEAD {
        bufs := bufs[i := bufs[i].(refcnt := bufs[i].refcnt + 1)];
        SameView(old(bufs), bufs, disk, i);
        return Some(i);
      }
      i := FindRecyclable();
      if i != HEAD {
        bufs := bufs[i := Buf(d, b, false, false, false, 1, bufs[i].data)];
        RecycleView(old(bufs), bufs, disk, i, d, b);
        return Some(i);
      }
      r := None;
    }

    /** acquiresleep on a buffer that is free to be taken. */
    method AcquireSleep(i: nat)
      requires Valid() && i < NBUF && bufs[i].refcnt > 0 && !bufs[i].locked
      modifies this`bufs
      ensures Valid() && bufs == old(bufs)[i := old(bufs)[i].(locked := true)]
      ensures View() == old(View())
      ensures forall x :: Pinned(bufs, x) <==> old(Pinned(bufs, x))
    {
      bufs := bufs[i := bufs[i].(locked := true)];
      SameView(old(bufs), bufs, disk, i);
    }

    /** iderw of memide.c: one block moved between the buffer and the disk. False is a panic. */
    method Iderw(i: nat) returns (ok: bool)
      requires Valid() && i < NBUF
      modifies this`bufs, this`disk, this`images
      ensures Valid()
      ensures ok <==> old(bufs)[i].locked && (old(bufs)[i].valid ==> old(bufs)[i].dirty)
                      && old(bufs)[i].dev == DISKDEV && old(bufs)[i].blockno < |old(disk)|
      ensures !ok || !old(bufs)[i].dirty ==> disk == old(disk) && images == old(images)
      ensures !ok ==> bufs == old(bufs)
      ensures ok && old(bufs)[i].dirty ==>
                && disk == old(disk)[old(bufs)[i].blockno := old(bufs)[i].data]
                && images == old(images) + [disk]
                && bufs == old(bufs)[i := old(bufs)[i].(dirty := false)]
      ensures ok && !old(bufs)[i].dirty ==>
                bufs == old(bufs)[i := old(bufs)[i].(valid := true, data := disk[old(bufs)[i].blockno])]
      ensures View() == old(View())
      ensures forall x :: Pinned(bufs, x) <==>
                old(Pinned(bufs, x)) && !(ok && x == bufs[i].blockno)
    {
      var buf := bufs[i];
      if !buf.locked || (buf.valid && !buf.dirty) || buf.dev != DISKDEV || buf.blockno >= |disk| {
        return false;
      }
      if buf.dirty {
        bufs := bufs[i := buf.(dirty := false)];
        disk := disk[buf.blockno := buf.data];
        images := images + [disk];
      } else {
        bufs := bufs[i := buf.(valid := true, data := disk[buf.blockno])];
      }
      TransferView(old(bufs), bufs, old(disk), disk, i);
      return true;
    }

    /** bread, when no one else holds the block: its latest contents, locked. None is a panic. */
    method Bread(d: Word, b: Word) returns (r: Option<nat>)
      requires Valid()
      requires forall i :: Holds(bufs, i, d, b) ==> !bufs[i].locked
      modifies this`bufs, this`disk, this`images
      ensures Valid() && disk == old(disk) && images == old(images)
      ensures r.Some? <==> d == DISKDEV && b < |disk|
                           && exists i :: 0 <= i < NBUF && (Holds(old(bufs), i, d, b) || Recyclable(old(bufs)[i]))
      ensures r.Some? ==>
                && r.value < NBUF && HoldsValid(bufs, r.value, b)
                && !old(bufs)[r.value].locked && bufs[r.value].locked
                && bufs[r.value].data == View()[b]
                && bufs == old(bufs)[r.value := bufs[r.value]]
                && (bufs[r.value].dirty || bufs[r.value].data == disk[b])
                && (Holds(old(bufs), r.value, d, b) || Recyclable(old(bufs)[r.value]))
                && bufs[r.value].refcnt == (if Holds(old(bufs), r.value, d, b) then old(bufs)[r.value].refcnt + 1 else 1)
      ensures View() == old(View())
      ensures forall x :: Pinned(bufs, x) <==> old(Pinned(bufs, x))
    {
      hide Linked, FullRing, ContentOf, LeastRecent;
      r := BgetRef(d, b);
      if r.None? {
        return;
      }
      var i := r.value;
      AcquireSleep(i);
      if !bufs[i].valid {
        var ok := Iderw(i);
        if !ok {
          return None;
        }
      }
      ContentOfHeld(bufs, disk, i);
    }

    /** The holder of a buffer changes its data (the memmove or assignment before log_write or bwrite). */
    method SetData(i: nat, data: Block)
      requires Valid() && i < NBUF && bufs[i].locked && bufs[i].valid
      modifies this`bufs
      ensures Valid() && bufs == old(bufs)[i := old(bufs)[i].(data := data)]
      ensures View() == old(View())[bufs[i].blockno := data]
      ensures forall x :: Pinned(bufs, x) <==> old(Pinned(bufs, x))
    {
      bufs := bufs[i := bufs[i].(data := data)];
      SameKeys(old(bufs), bufs, i);
      assert forall j, x :: HoldsValid(bufs, j, x) <==> HoldsValid(old(bufs), j, x);
      ContentOfHeld(bufs, disk, i);
    }

    /** The `b->flags |= B_DIRTY` of log_write: pin the block. */
    method MarkDirty(i: nat)
      requires Valid() && i < NBUF && bufs[i].locked && bufs[i].valid
      modifies this`bufs
      ensures Valid() && bufs == old(bufs)[i := old(bufs)[i].(dirty := true)]
      ensures View() == old(View())
      ensures forall x :: Pinned(bufs, x) <==> old(Pinned(bufs, x)) || x == bufs[i].blockno
    {
      bufs := bufs[i := bufs[i].(dirty := true)];
      SameKeys(old(bufs), bufs, i);
      assert forall j, x :: HoldsValid(bufs, j, x) <==> HoldsValid(old(bufs), j, x);
      assert HoldsValid(bufs, i, bufs[i].blockno);
      forall b | 0 <= b < |disk|
        ensures ContentOf(bufs, disk, b) == ContentOf(old(bufs), disk, b)
      {
      }
    }

    /** bwrite: the block goes to the disk and is no longer pinned. */
    method Bwrite(i: nat) returns (ok: bool)
      requires Valid() && i < NBUF && bufs[i].valid
      modifies this`bufs, this`disk, this`images
      ensures Valid() && View() == old(View())
      ensures ok <==> old(bufs)[i].locked
      ensures !ok ==> bufs == old(bufs) && disk == old(disk) && images == old(images)
      ensures ok ==>
                && bufs == old(bufs)[i := old(bufs)[i].(dirty := false)]
                && disk == old(disk)[bufs[i].blockno := bufs[i].data]
                && images == old(images) + [disk]
      ensures forall x :: Pinned(bufs, x) <==> old(Pinned(bufs, x)) && !(ok && x == bufs[i].blockno)
    {
      if !bufs[i].locked {
        return false;
      }
      MarkDirty(i);
      ok := Iderw(i);
    }

    /** brelse: give the buffer back; the last holder moves it to the front of the list. The cache stays coherent
        when what the holder changed was logged or written. */
    method Brelse(i: nat) returns (ok: bool)
      requires Valid() && i < NBUF
      modifies this`bufs, this`next, this`prev, this`ring
      ensures Structured() && View() == old(View())
      ensures !ok || Tidy(old(bufs)[i], disk) ==> Valid()
      ensures ok <==> old(bufs)[i].locked
      ensures !ok ==> bufs == old(bufs) && ring == old(ring)
      ensures ok ==> bufs == old(bufs)[i := old(bufs)[i].(locked := false, refcnt := old(bufs)[i].refcnt - 1)]
      ensures ok && old(bufs)[i].refcnt > 1 ==> ring == old(ring)
      ensures ok && old(bufs)[i].refcnt == 1 ==> ring[1] == i && MovedToFront(old(ring), ring, i)
      ensures forall x :: Pinned(bufs, x) <==> old(Pinned(bufs, x))
    {
      if !bufs[i].locked {
        return false;
      }
      bufs := bufs[i := bufs[i].(locked := false, refcnt := bufs[i].refcnt - 1)];
      SameView(old(bufs), bufs, disk, i);
      if bufs[i].refcnt == 0 {
        MoveToFront(i);
      }
      return true;
    }

    /** The list surgery of brelse. */
    method MoveToFront(i: nat)
      requires Linked(next, prev, ring) && FullRing(ring) && i < NBUF
      modifies this`next, this`prev, this`ring
      ensures Linked(next, prev, ring) && FullRing(ring)
      ensures ring[1] == i && MovedToFront(old(ring), ring, i)
    {
      assert i in ring;
      ghost var k :| 0 <= k < |ring| && ring[k] == i;
      Unlink(next, prev, ring, k);
      WithoutThenFrontFull(ring, k);
      ghost var rest := Without(ring, k);
      prev, next := prev[next[i] := prev[i]], next[prev[i] := next[i]];
      LinkFront(next, prev, rest, i);
      next := next[i := next[HEAD]];
      prev := prev[i := HEAD];
      prev := prev[next[HEAD] := i];
      next := next[HEAD := i];
      ring := PushFront(rest, i);
    }

    /** Two breads of different blocks, both kept. */
    method BreadTwo(b: Word, c: Word) returns (r: Option<(nat, nat)>)
      requires Valid() && Untaken(bufs, b) && Untaken(bufs, c) && b != c
      modifies this`bufs, this`disk, this`images
      ensures Valid() && disk == old(disk) && images == old(images)
      ensures r.Some? <==> b < |disk| && c < |disk| && Room(old(bufs), b, c)
      ensures r.Some? ==>
                var (i, j) := r.value;
                && i < NBUF && j < NBUF && i != j
                && HoldsValid(bufs, i, b) && HoldsValid(bufs, j, c)
                && bufs[i].locked && bufs[j].locked
                && b < |disk| && c < |disk| && bufs[i].data == View()[b]
                && (bufs[i].dirty || bufs[i].data == disk[b])
                && (forall k :: 0 <= k < NBUF && k != i && k != j ==> bufs[k] == old(bufs)[k])
                && (Quiet(old(bufs)) ==> bufs[i].refcnt == bufs[j].refcnt == 1)
      ensures View() == old(View())
      ensures forall x :: Pinned(bufs, x) <==> old(Pinned(bufs, x))
    {
      hide Linked, FullRing, ContentOf, Contents, Pinned, Unique, Coherent, Recyclable, Room, Steady;
      ghost var before := bufs;
      var r1 := Bread(DISKDEV, b);
      if r1.None? {
        NoRoom(before, b, c);
        return None;
      }
      LockedHeld(bufs, disk, r1.value);
      assert Usable(before, r1.value, b);
      SecondUse(before, bufs, r1.value, b, c);
      ghost var mid := bufs;
      var r2 := Bread(DISKDEV, c);
      assert (exists j :: Usable(mid, j, c)) <==>
             exists i :: 0 <= i < NBUF && (Holds(mid, i, DISKDEV, c) || Recyclable(mid[i])) by {
        if i :| 0 <= i < NBUF && (Holds(mid, i, DISKDEV, c) || Recyclable(mid[i])) {
          assert Usable(mid, i, c);
        }
      }
      if r2.None? {
        return None;
      }
      return Some((r1.value, r2.value));
    }

    /** The holder of a buffer fills it, writes it and gives it back. */
    method WriteBack(i: nat, data: Block)
      requires Valid() && i < NBUF && bufs[i].locked && bufs[i].valid
      modifies this
      ensures Valid() && |old(disk)| > old(bufs)[i].blockno
      ensures disk == old(disk)[old(bufs)[i].blockno := data]
      ensures View() == old(View())[old(bufs)[i].blockno := data]
      ensures images == old(images) + [disk]
      ensures bufs == old(bufs)[i := old(bufs)[i].(data := data, dirty := false, locked := false,
                                                    refcnt := old(bufs)[i].refcnt - 1)]
      ensures forall x :: Pinned(bufs, x) <==> old(Pinned(bufs, x)) && x != old(bufs)[i].blockno
    {
      hide Linked, FullRing, ContentOf, Contents, Pinned, Unique;
      SetData(i, data);
      var ok := Bwrite(i);
      ok := Brelse(i);
    }

    /** memmove from held buffer f to held buffer t, bwrite t, release both. */
    method CopyHeld(f: nat, t: nat)
      requires Valid() && f < NBUF && t < NBUF && f != t && bufs[f].locked && bufs[t].locked
      requires bufs[f].valid && bufs[t].valid && Tidy(bufs[f], disk) && bufs[f].blockno != bufs[t].blockno
      modifies this
      ensures Valid() && |old(disk)| > old(bufs)[t].blockno
      ensures disk == old(disk)[old(bufs)[t].blockno := old(bufs)[f].data]
      ensures View() == old(View())[old(bufs)[t].blockno := old(bufs)[f].data]
      ensures images == old(images) + [disk]
      ensures bufs == old(bufs)[t := old(bufs)[t].(data := old(bufs)[f].data, dirty := false, locked := false,
                                                    refcnt := old(bufs)[t].refcnt - 1)]
                               [f := old(bufs)[f].(locked := false, refcnt := old(bufs)[f].refcnt - 1)]
      ensures forall x :: Pinned(bufs, x) <==> old(Pinned(bufs, x)) && x != old(bufs)[t].blockno
    {
      hide Linked, FullRing, ContentOf, Contents, Pinned, Unique;
      WriteBack(t, bufs[f].data);
      var ok := Brelse(f);
    }

    /** bread src, bread dst, copy, bwrite dst, release both: the loop body shared by
        write_log and install_trans. False is a panic: a block number is out of range or there are not two buffers. */
    method CopyBlock(src: Word, dst: Word) returns (ok: bool)
      requires Valid() && Untaken(bufs, src) && Untaken(bufs, dst) && src != dst
      modifies this
      ensures Valid()
      ensures ok <==> src < |old(disk)| && dst < |old(disk)| && Room(old(bufs), src, dst)
      ensures ok ==> forall x :: old(Untaken(bufs, x)) ==> Untaken(bufs, x)
      ensures ok && old(Steady(bufs, disk)) ==> Steady(bufs, disk)
      ensures ok ==>
                && disk == old(disk)[dst := old(View())[src]]
                && View() == old(View())[dst := old(View())[src]]
                && images == old(images) + [disk]
                && forall x :: Pinned(bufs, x) <==> old(Pinned(bufs, x)) && x != dst
      ensures ok && Quiet(old(bufs)) ==> Quiet(bufs) && OneClean(bufs) && (!old(Pinned(bufs, src)) ==> TwoClean(bufs))
      ensures !ok ==> disk == old(disk) && images == old(images)
    {
      hide Linked, FullRing, ContentOf, Contents, Pinned, Unique, Coherent, Room, Quiet, OneClean, TwoClean, Recyclable,
           Untaken, Steady;
      var r := BreadTwo(src, dst);
      if r.None? {
        return false;
      }
      var (f, t) := r.value;
      PinnedHeld(bufs, disk, f);
      CopyHeld(f, t);
      ok := true;
      AfterCopy(old(bufs), bufs, f, t);
      StillUntaken(old(bufs), bufs, f, t);
      StillSteady(old(bufs), old(disk), bufs, disk, f, t);
    }
  }
}
