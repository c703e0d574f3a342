/** log.c: the redo log, written over the buffer cache. A false result is a kernel panic:
    the machine stops there, and what is on the disk is what the next boot finds. */
module Log {
  import opened Blocks
  import opened BufferCache
  import opened Recovery

  // ----- the two phases of a commit, seen from the disk -----

  /** Only data blocks of the log, not its header, differ. */
  ghost predicate OnlyLogData(d: Disk, e: Disk, a: Area) {
    |d| == |e| && forall b :: 0 <= b < |d| && !(a.start < b < a.start + a.size) ==> d[b] == e[b]
  }

  /** write_log has copied the first tail blocks; every image since `from` differs from disk0 in log data only. */
  ghost predicate LogFilled(disk0: Disk, view0: Disk, disk: Disk, view: Disk, images: seq<Disk>, from: nat,
                            a: Area, block: seq<Word>, tail: nat)
  {
    && OnlyLogData(disk0, disk, a) && OnlyLogData(view0, view, a) && |view0| == |disk0| && tail <= |block|
    && tail < a.size && a.start + a.size <= |disk0|
    && (forall k :: from <= k < |images| ==> OnlyLogData(disk0, images[k], a))
    && (forall i :: 0 <= i < tail ==> block[i] < |view0| && disk[a.start + 1 + i] == view0[block[i]])
  }

  lemma FilledNone(disk0: Disk, view0: Disk, images: seq<Disk>, a: Area, block: seq<Word>)
    requires |view0| == |disk0| && 0 < a.size && a.start + a.size <= |disk0|
    ensures LogFilled(disk0, view0, disk0, view0, images, |images|, a, block, 0)
  {
  }

  lemma FilledLength(disk0: Disk, view0: Disk, disk: Disk, view: Disk, images: seq<Disk>, from: nat,
                     a: Area, block: seq<Word>, tail: nat)
    requires LogFilled(disk0, view0, disk, view, images, from, a, block, tail)
    ensures |disk| == |view| == |disk0|
  {
  }

  lemma FilledStep(disk0: Disk, view0: Disk, disk: Disk, view: Disk, images: seq<Disk>, from: nat,
                   a: Area, block: seq<Word>, tail: nat)
    requires LogFilled(disk0, view0, disk, view, images, from, a, block, tail)
    requires tail + 1 < a.size && tail < |block| && block[tail] < |view0| && !InLog(a, block[tail])
    ensures |disk| == |view| == |disk0| && a.start + tail + 1 < |disk|
    ensures var x := view[block[tail]];
            var now := disk[a.start + tail + 1 := x];
            LogFilled(disk0, view0, now, view[a.start + tail + 1 := x], images + [now], from, a, block, tail + 1)
  {
    assert view[block[tail]] == view0[block[tail]];
  }

  lemma FilledDone(disk0: Disk, view0: Disk, disk: Disk, view: Disk, images: seq<Disk>, from: nat,
                   a: Area, block: seq<Word>, tail: nat)
    requires LogFilled(disk0, view0, disk, view, images, from, a, block, tail)
    ensures OnlyLogData(disk0, disk, a) && OnlyLogData(view0, view, a)
    ensures forall k :: from <= k < |images| ==> OnlyLogData(disk0, images[k], a)
    ensures |disk| == |disk0| == |view0|
    ensures forall i :: 0 <= i < tail && i < |block| && block[i] < |view0| && a.start + 1 + i < |disk| ==>
              disk[a.start + 1 + i] == view0[block[i]]
  {
  }

  /** While the header says n = 0, whatever the log blocks hold does not matter. */
  lemma UncommittedRecoversToOld(pre: Disk, d: Disk, a: Area)
    requires WellFormed(pre, a) && HeadN(pre, a) == 0 && OnlyLogData(pre, d, a)
    ensures RecoversTo(d, a, pre)
  {
    assert d[a.start] == pre[a.start];
    assert Replay(d, a, 0) == d;
  }

  /** The log holds, for every block its header names, the contents that c gives it;
      all other home blocks already have their contents from c. */
  ghost predicate Logged(d: Disk, a: Area, c: Disk) {
    && WellFormed(d, a) && |c| == |d|
    && (forall i :: 0 <= i < HeadN(d, a) ==> d[a.start + 1 + i] == c[HeadBlock(d, a, i)])
    && (forall b :: 0 <= b < |d| && !InLog(a, b) && d[b] != c[b] ==>
          exists i :: 0 <= i < HeadN(d, a) && HeadBlock(d, a, i) == b)
  }

  lemma {:induction false} StillToInstall(d: Disk, a: Area, c: Disk, k: nat, b: nat) returns (i: nat)
    requires Logged(d, a, c) && k <= HeadN(d, a) && b < |d| && !InLog(a, b) && Replay(d, a, k)[b] != c[b]
    ensures k <= i < HeadN(d, a) && HeadBlock(d, a, i) == b
  {
    if k == 0 {
      i :| 0 <= i < HeadN(d, a) && HeadBlock(d, a, i) == b;
    } else {
      assert d[a.start + 1 + (k - 1)] == c[HeadBlock(d, a, k - 1)];
      i := StillToInstall(d, a, c, k - 1, b);
    }
  }

  lemma ReplayReaches(d: Disk, a: Area, c: Disk, k: nat)
    requires Logged(d, a, c) && k <= HeadN(d, a)
    ensures forall b :: 0 <= b < |d| && !InLog(a, b) && Replay(d, a, k)[b] != c[b] ==>
              exists i :: k <= i < HeadN(d, a) && HeadBlock(d, a, i) == b
  {
    forall b | 0 <= b < |d| && !InLog(a, b) && Replay(d, a, k)[b] != c[b]
      ensures exists i :: k <= i < HeadN(d, a) && HeadBlock(d, a, i) == b
    {
      var i := StillToInstall(d, a, c, k, b);
    }
  }

  /** Once the header is written, the new contents are what recovery produces. */
  lemma CommittedRecoversToNew(d: Disk, a: Area, c: Disk)
    requires Logged(d, a, c)
    ensures RecoversTo(d, a, c)
  {
    var n := HeadN(d, a);
    ReplayReaches(d, a, c, n);
    assert SameHome(Replay(d, a, n), c, a);
    assert InLog(a, a.start);
    assert SameHome(Recovered(d, a), c, a);
  }

  /** From `from` on, the images first all recover to `before`, then all to `after`. */
  ghost predicate Switches(images: seq<Disk>, from: nat, a: Area, before: Disk, after: Disk) {
    exists cut :: from <= cut <= |images| && SwitchesAt(images, from, cut, a, before, after)
  }

  ghost predicate SwitchesAt(images: seq<Disk>, from: nat, cut: nat, a: Area, before: Disk, after: Disk) {
    && (forall k :: from <= k < cut && k < |images| ==> RecoversTo(images[k], a, before))
    && (forall k :: cut <= k < |images| ==> RecoversTo(images[k], a, after))
  }

  /** Crash atomicity. Stop a commit after any block write, then interrupt recovery any number of
      times: the recovery that completes finds all of the transaction or none of it. */
  lemma CrashAtomicity(images: seq<Disk>, from: nat, k: nat, a: Area, before: Disk, after: Disk, run: seq<Disk>)
    requires Switches(images, from, a, before, after) && from <= k < |images|
    requires CrashRun(run, a) && run[0] == images[k]
    ensures var last := run[|run| - 1];
            && WellFormed(last, a)
            && (SameHome(Recovered(last, a), before, a) || SameHome(Recovered(last, a), after, a))
            && HeadN(Recovered(last, a), a) == 0
  {
    assert RecoversTo(images[k], a, before) || RecoversTo(images[k], a, after);
    CrashesDuringRecovery(run, a);
  }

  // ----- the header block -----

  function FillHead(b: Block, block: seq<Word>, k: nat): (r: Block)
    requires k <= |block| <= LOGSIZE
    ensures r[0] == b[0]
    ensures forall i :: 0 <= i < k ==> r[i + 1] == block[i]
    ensures k == 0 ==> r == b
  {
    if k == 0 then b else FillHead(b, block, k - 1)[k := block[k - 1]]
  }

  // ----- are there buffers enough? -----

  lemma BreadUses(bufs: seq<Buf>, b: nat)
    ensures (exists i :: Usable(bufs, i, b)) <==>
            exists i :: 0 <= i < |bufs| && (Holds(bufs, i, DISKDEV, b) || Recyclable(bufs[i]))
  {
    if i :| 0 <= i < |bufs| && (Holds(bufs, i, DISKDEV, b) || Recyclable(bufs[i])) {
      assert Usable(bufs, i, b);
    }
  }

  lemma CleanIsUsable(bufs: seq<Buf>, b: nat)
    ensures OneClean(bufs) ==> exists i :: Usable(bufs, i, b)
  {
    if i :| Clean(bufs, i) {
      assert Usable(bufs, i, b);
    }
  }

  lemma TwoIsOne(bufs: seq<Buf>)
    ensures TwoClean(bufs) ==> OneClean(bufs)
  {
  }

  /** Copying a pinned block into the log needs exactly one clean buffer: in a quiet cache without one, every buffer
      is pinned. */
  lemma RoomToLog(bufs: seq<Buf>, disk: Disk, home: nat, log: nat)
    requires Quiet(bufs) && Pinned(bufs, home) && !Pinned(bufs, log)
    requires forall i :: 0 <= i < |bufs| ==> Coherent(bufs[i], disk)
    ensures Room(bufs, home, log) <==> OneClean(bufs)
  {
    var p :| HoldsValid(bufs, p, home) && bufs[p].dirty;
    if i :| Clean(bufs, i) {
      assert Usable(bufs, p, home) && Usable(bufs, i, log);
    }
    if i, j :| i != j && Usable(bufs, i, home) && Usable(bufs, j, log) {
      HeldUnpinned(bufs, disk, j, log);
      assert Clean(bufs, j);
    }
  }

  lemma HeldUnpinned(bufs: seq<Buf>, disk: Disk, j: int, b: nat)
    requires !Pinned(bufs, b) && 0 <= j < |bufs| && Coherent(bufs[j], disk)
    ensures Holds(bufs, j, DISKDEV, b) ==> !bufs[j].dirty
  {
    assert Holds(bufs, j, DISKDEV, b) && bufs[j].dirty ==> HoldsValid(bufs, j, b);
  }

  lemma RoomFromLog(bufs: seq<Buf>, log: nat, home: nat)
    requires TwoClean(bufs) || (OneClean(bufs) && Pinned(bufs, home))
    ensures Room(bufs, log, home)
  {
    if i, j :| i != j && Clean(bufs, i) && Clean(bufs, j) {
      assert Usable(bufs, i, log) && Usable(bufs, j, home);
    } else {
      var i, p :| Clean(bufs, i) && HoldsValid(bufs, p, home) && bufs[p].dirty;
      assert Usable(bufs, i, log) && Usable(bufs, p, home);
    }
  }

  /** One more block installed, from the disk as it is by then. */
  lemma ReplayOne(d: Disk, a: Area, k: nat, before: seq<Disk>)
    requires WellFormed(d, a) && k < HeadN(d, a)
    ensures Replay(d, a, k + 1) == Replay(d, a, k)[HeadBlock(d, a, k) := Replay(d, a, k)[a.start + 1 + k]]
    ensures before + ReplayImages(d, a, k + 1) == before + ReplayImages(d, a, k) + [Replay(d, a, k + 1)]
  {
    assert InLog(a, a.start + 1 + k);
  }

  lemma ReplayNone(d: Disk, a: Area, before: seq<Disk>)
    requires WellFormed(d, a)
    ensures Replay(d, a, 0) == d && before + ReplayImages(d, a, 0) == before
  {
  }

  /** After one buffer was used and given back, holding what the disk holds. */
  lemma HeadReleased(before: seq<Buf>, disk: Disk, bufs: seq<Buf>, disk': Disk, i: nat)
    requires |bufs| == |before| && i < |bufs| && Unique(bufs)
    requires before[i].refcnt == 0 ==> bufs[i].refcnt == 0
    requires forall k :: 0 <= k < |bufs| && k != i ==> bufs[k] == before[k]
    requires forall k :: 0 <= k < |bufs| ==> Coherent(bufs[k], disk')
    requires HoldsValid(bufs, i, bufs[i].blockno) && bufs[i].blockno < |disk| && !bufs[i].locked && !bufs[i].dirty
    requires disk' == disk[bufs[i].blockno := bufs[i].data]
    ensures forall x :: Untaken(before, x) ==> Untaken(bufs, x)
    ensures Steady(before, disk) ==> Steady(bufs, disk')
    ensures Quiet(before) ==> Quiet(bufs) && OneClean(bufs)
  {
    StillUntaken(before, bufs, i, i);
    StillSteady(before, disk, bufs, disk', i, i);
    if Quiet(before) {
      QuietAt(before, i);
    }
    AfterUse(before, bufs, i);
  }

  lemma IdleIsSteady(bufs: seq<Buf>, disk: Disk)
    requires forall i :: 0 <= i < |bufs| ==> Coherent(bufs[i], disk) && !bufs[i].locked
    ensures Steady(bufs, disk) && forall x :: Untaken(bufs, x)
  {
  }

  lemma AllClean(bufs: seq<Buf>, disk: Disk)
    requires |bufs| == NBUF && (forall x :: !Pinned(bufs, x))
    requires forall i :: 0 <= i < |bufs| ==> Coherent(bufs[i], disk)
    ensures Quiet(bufs) ==> TwoClean(bufs)
  {
    HeldUnpinned(bufs, disk, 0, bufs[0].blockno);
    HeldUnpinned(bufs, disk, 1, bufs[1].blockno);
    assert Coherent(bufs[0], disk) && Coherent(bufs[1], disk);
    assert Quiet(bufs) ==> Clean(bufs, 0) && Clean(bufs, 1);
  }

  /** The blocks in the dirty buffers among the first k. */
  ghost function DirtyBlocks(bufs: seq<Buf>, k: nat): set<nat>
    requires k <= |bufs|
  {
    if k == 0 then {} else DirtyBlocks(bufs, k - 1) + (if bufs[k - 1].dirty then {bufs[k - 1].blockno} else {})
  }

  predicate DirtyHolds(bufs: seq<Buf>, i: int, x: nat) {
    0 <= i < |bufs| && bufs[i].dirty && bufs[i].blockno == x
  }

  lemma {:induction false} DirtyBlocksAre(bufs: seq<Buf>, k: nat)
    requires k <= |bufs|
    ensures forall x :: x in DirtyBlocks(bufs, k) <==> exists i :: 0 <= i < k && DirtyHolds(bufs, i, x)
  {
    if k > 0 {
      DirtyBlocksAre(bufs, k - 1);
      assert bufs[k - 1].dirty ==> DirtyHolds(bufs, k - 1, bufs[k - 1].blockno);
    }
  }

  lemma DirtyApart(bufs: seq<Buf>, disk: Disk, i: nat, j: nat, x: nat)
    requires Unique(bufs) && (forall i :: 0 <= i < |bufs| ==> Coherent(bufs[i], disk))
    requires DirtyHolds(bufs, i, x) && DirtyHolds(bufs, j, x)
    ensures i == j
  {
    assert Coherent(bufs[i], disk) && Coherent(bufs[j], disk);
    assert Holds(bufs, i, DISKDEV, x) && Holds(bufs, j, DISKDEV, x);
  }

  lemma DirtyFresh(bufs: seq<Buf>, disk: Disk, k: nat)
    requires k < |bufs| && Unique(bufs) && forall i :: 0 <= i < |bufs| ==> Coherent(bufs[i], disk)
    requires bufs[k].dirty
    ensures bufs[k].blockno !in DirtyBlocks(bufs, k)
  {
    hide Unique, Coherent, DirtyBlocks;
    DirtyBlocksAre(bufs, k);
    if i :| 0 <= i < k && DirtyHolds(bufs, i, bufs[k].blockno) {
      DirtyApart(bufs, disk, i, k, bufs[k].blockno);
    }
  }

  lemma {:induction false} DirtyCount(bufs: seq<Buf>, disk: Disk, k: nat)
    requires k <= |bufs| && Unique(bufs) && forall i :: 0 <= i < |bufs| ==> Coherent(bufs[i], disk)
    ensures |DirtyBlocks(bufs, k)| <= k
    ensures |DirtyBlocks(bufs, k)| == k <==> forall i :: 0 <= i < k ==> bufs[i].dirty
  {
    hide Unique, Coherent;
    if k > 0 {
      DirtyCount(bufs, disk, k - 1);
      if bufs[k - 1].dirty {
        DirtyFresh(bufs, disk, k - 1);
      }
    }
  }

  /** The dirty blocks are the pinned ones. */
  lemma DirtyIsPinned(bufs: seq<Buf>, disk: Disk, x: nat)
    requires forall i :: 0 <= i < |bufs| ==> Coherent(bufs[i], disk)
    ensures Pinned(bufs, x) <==> exists i :: 0 <= i < |bufs| && DirtyHolds(bufs, i, x)
  {
    if i :| HoldsValid(bufs, i, x) && bufs[i].dirty {
      assert DirtyHolds(bufs, i, x);
    }
    if i :| 0 <= i < |bufs| && DirtyHolds(bufs, i, x) {
      assert Coherent(bufs[i], disk);
      assert HoldsValid(bufs, i, x);
    }
  }

  lemma {:induction false} NamedCount(block: seq<Word>, n: nat) returns (named: set<nat>)
    requires n <= |block| && forall i, j :: 0 <= i < j < n ==> block[i] != block[j]
    ensures |named| == n && forall x: nat :: x in named <==> x in block[..n]
  {
    named := {};
    if n > 0 {
      var rest := NamedCount(block, n - 1);
      named := rest + {block[n - 1]};
      assert block[..n] == block[..n - 1] + [block[n - 1]];
    }
  }

  /** With distinct pinned blocks, one per named block, a clean buffer is left exactly when fewer than NBUF are named. */
  lemma PinnedBuffers(bufs: seq<Buf>, disk: Disk, block: seq<Word>, n: nat)
    requires |bufs| == NBUF && Unique(bufs) && forall i :: 0 <= i < |bufs| ==> Coherent(bufs[i], disk)
    requires n <= |block| && forall i, j :: 0 <= i < j < n ==> block[i] != block[j]
    requires forall x :: Pinned(bufs, x) <==> x in block[..n]
    ensures Quiet(bufs) ==> (OneClean(bufs) <==> n < NBUF)
  {
    hide Unique, Coherent, Pinned, DirtyBlocks, Recyclable;
    var named := NamedCount(block, n);
    DirtyBlocksAre(bufs, NBUF);
    DirtyCount(bufs, disk, NBUF);
    forall x: nat
      ensures x in named <==> x in DirtyBlocks(bufs, NBUF)
    {
      DirtyIsPinned(bufs, disk, x);
    }
    assert named == DirtyBlocks(bufs, NBUF);
    AllDirty(bufs);
  }

  lemma AllDirty(bufs: seq<Buf>)
    ensures Quiet(bufs) ==> (OneClean(bufs) <==> exists i :: 0 <= i < |bufs| && !bufs[i].dirty)
  {
    if Quiet(bufs) {
      if i :| 0 <= i < |bufs| && !bufs[i].dirty {
        assert Clean(bufs, i);
      }
    }
  }

  lemma HeldOnDisk(buf: Buf, disk: Disk)
    requires Coherent(buf, disk) && buf.valid
    ensures buf.dev == DISKDEV && buf.blockno < |disk|
  {
  }

  lemma AllUnpinned(before: seq<Buf>, after: seq<Buf>, block: seq<Word>, n: nat)
    requires n <= |block|
    requires forall x :: Pinned(before, x) ==> x in block[..n]
    requires forall x :: Pinned(after, x) ==> Pinned(before, x)
    requires forall i :: 0 <= i < n ==> !Pinned(after, block[i])
    ensures forall x :: !Pinned(after, x)
  {
    hide Pinned;
  }

  /** The header write makes the filled log a committed transaction. */
  lemma HeaderCommits(pre: Disk, d1: Disk, d2: Disk, a: Area, c: Disk, block: seq<Word>, n: nat)
    requires WellFormed(pre, a) && OnlyLogData(pre, d1, a) && |c| == |pre|
    requires |block| == LOGSIZE && n <= Capacity(a)
    requires forall i :: 0 <= i < n ==> block[i] < |pre| && !InLog(a, block[i])
    requires forall i :: 0 <= i < n ==> d1[a.start + 1 + i] == c[block[i]]
    requires forall b :: 0 <= b < |pre| && c[b] != pre[b] ==> b in block[..n]
    requires d2 == d1[a.start := FillHead(d1[a.start][0 := n], block, n)]
    ensures Logged(d2, a, c) && HeadN(d2, a) == n
    ensures forall i :: 0 <= i < n ==> HeadBlock(d2, a, i) == block[i]
  {
    forall i | 0 <= i < n
      ensures HeadBlock(d2, a, i) == block[i]
    {
    }
    forall b | 0 <= b < |d2| && !InLog(a, b) && d2[b] != c[b]
      ensures exists i :: 0 <= i < HeadN(d2, a) && HeadBlock(d2, a, i) == b
    {
      assert d2[b] == pre[b];
      var i :| 0 <= i < n && block[i] == b;
      assert HeadBlock(d2, a, i) == b;
    }
  }

  /** Images before m only fill the log; image m is the header write; what follows is its recovery. */
  lemma PhasesSwitch(images: seq<Disk>, from: nat, m: nat, a: Area, pre: Disk, c: Disk, d2: Disk)
    requires WellFormed(pre, a) && HeadN(pre, a) == 0 && from <= m <= |images|
    requires forall k :: from <= k < m ==> OnlyLogData(pre, images[k], a)
    requires m < |images| ==>
               && Logged(d2, a, c) && images[m] == d2
               && images[m + 1..] <= RecoveryImages(d2, a)
    ensures Switches(images, from, a, pre, c)
  {
    hide WellFormed, Replay, ReplayImages, Recovered, RecoveryImages, OnlyLogData, Logged, SameHome;
    forall k | from <= k < m
      ensures RecoversTo(images[k], a, pre)
    {
      UncommittedRecoversToOld(pre, images[k], a);
    }
    forall k | m <= k < |images|
      ensures RecoversTo(images[k], a, c)
    {
      CommittedRecoversToNew(d2, a, c);
      if k > m {
        assert images[k] == images[m + 1..][k - m - 1];
        RecoveryRestarts(d2, a, k - m - 1);
      }
    }
    assert SwitchesAt(images, from, m, a, pre, c);
  }

  class Log {
    const bc: Cache
    const area: Area
    var n: nat
    var block: seq<Word>
    var outstanding: nat
    var committing: bool

    constructor (bc: Cache, area: Area)
      ensures this.bc == bc && this.area == area
      ensures n == 0 && |block| == LOGSIZE && outstanding == 0 && !committing
    {
      this.bc, this.area := bc, area;
      n, outstanding, committing := 0, 0, false;
      block := seq(LOGSIZE, _ => 0);
    }

    /** The in-memory header names distinct home blocks, no more than the log holds. */
    ghost predicate HeadOk()
      reads this, bc
    {
      && |block| == LOGSIZE && n <= Capacity(area)
      && (forall i :: 0 <= i < n ==> block[i] < |bc.disk| && !InLog(area, block[i]))
      && (forall i, j :: 0 <= i < j < n ==> block[i] != block[j])
    }

    /** Outside a commit: the disk log is empty and exactly the logged blocks are pinned. */
    ghost predicate Valid()
      reads this, bc
    {
      && bc.Valid()
      && WellFormed(bc.disk, area) && HeadN(bc.disk, area) == 0
      && HeadOk()
      && (forall x :: Pinned(bc.bufs, x) <==> x in block[..n])
      && !committing
    }

    /** The in-memory header is the one on disk. */
    ghost predicate HeadOnDisk()
      reads this, bc
    {
      && WellFormed(bc.disk, area) && |block| == LOGSIZE
      && HeadN(bc.disk, area) == n
      && forall i :: 0 <= i < n ==> HeadBlock(bc.disk, area, i) == block[i]
    }

    ghost predicate NoneInLogPinned()
      reads this, bc
    {
      forall x :: InLog(area, x) ==> !Pinned(bc.bufs, x)
    }

    /** The blocks that the header names from the k-th on are pinned. */
    ghost predicate AllPinned(k: nat)
      reads this, bc
    {
      n <= |block| && forall i :: k <= i < n ==> Pinned(bc.bufs, block[i])
    }

    /** Nobody uses a buffer, and there is room to install: two clean buffers, or one beside the pinned ones. */
    ghost predicate Calm()
      reads this, bc
    {
      Quiet(bc.bufs) && (TwoClean(bc.bufs) || (OneClean(bc.bufs) && AllPinned(0)))
    }

    /** Buffers that others hold, such as readers outside any operation, agree with the disk, and none of them is a log
        block or a block that the header names. */
    ghost predicate Undisturbed()
      reads this, bc
    {
      && Steady(bc.bufs, bc.disk) && n <= |block|
      && (forall b :: InLog(area, b) ==> Untaken(bc.bufs, b))
      && (forall i :: 0 <= i < n ==> Untaken(bc.bufs, block[i]))
    }

    lemma LogAreaView(b: nat)
      requires bc.Valid() && Steady(bc.bufs, bc.disk) && NoneInLogPinned() && InLog(area, b) && b < |bc.disk|
      ensures bc.View()[b] == bc.disk[b]
    {
      SteadyIsOnDisk(bc.bufs, bc.disk, b);
    }

    /** One round of the loop of write_log. */
    method CopyToLog(tail: nat) returns (ok: bool)
      requires bc.Valid() && Undisturbed() && Fits(bc.disk, area) && HeadOk() && NoneInLogPinned() && tail < n
      modifies bc
      ensures bc.Valid()
      ensures ok ==> Undisturbed() && forall x :: old(Untaken(bc.bufs, x)) ==> Untaken(bc.bufs, x)
      ensures ok ==>
                && bc.disk == old(bc.disk)[area.start + tail + 1 := old(bc.View())[block[tail]]]
                && bc.View() == old(bc.View())[area.start + tail + 1 := old(bc.View())[block[tail]]]
                && bc.images == old(bc.images) + [bc.disk]
                && (forall x :: Pinned(bc.bufs, x) <==> old(Pinned(bc.bufs, x)))
      ensures !ok ==> bc.images == old(bc.images)
      ensures Quiet(old(bc.bufs)) && old(Pinned(bc.bufs, block[tail])) ==> (ok <==> OneClean(old(bc.bufs)))
      ensures ok && Quiet(old(bc.bufs)) ==> Quiet(bc.bufs) && OneClean(bc.bufs)
    {
      hide Linked, FullRing, Unique, Coherent, ContentOf, Contents, Pinned, Steady, Untaken, Quiet, OneClean, TwoClean, Room;
      assert InLog(area, area.start + tail + 1);
      if Quiet(bc.bufs) && Pinned(bc.bufs, block[tail]) {
        RoomToLog(bc.bufs, bc.disk, block[tail], area.start + tail + 1);
      }
      ok := bc.CopyBlock(block[tail], area.start + tail + 1);
    }

    /** write_log: copy every logged block from the cache into the log. */
    method WriteLog() returns (ok: bool)
      requires bc.Valid() && Undisturbed() && Fits(bc.disk, area) && HeadOk() && NoneInLogPinned()
      modifies bc
      ensures bc.Valid()
      ensures ok ==> Undisturbed() && forall x :: old(Untaken(bc.bufs, x)) ==> Untaken(bc.bufs, x)
      ensures old(bc.images) <= bc.images
      ensures forall k :: |old(bc.images)| <= k < |bc.images| ==> OnlyLogData(old(bc.disk), bc.images[k], area)
      ensures ok ==>
                && OnlyLogData(old(bc.disk), bc.disk, area)
                && (forall i :: 0 <= i < n ==> bc.disk[area.start + 1 + i] == old(bc.View())[block[i]])
                && OnlyLogData(old(bc.View()), bc.View(), area)
                && (forall x :: Pinned(bc.bufs, x) <==> old(Pinned(bc.bufs, x)))
      ensures old(AllPinned(0)) && Quiet(old(bc.bufs)) ==> (ok <==> n == 0 || OneClean(old(bc.bufs)))
      ensures old(AllPinned(0)) && Quiet(old(bc.bufs)) && ok && n > 0 ==> Quiet(bc.bufs) && OneClean(bc.bufs)
    {
      hide Linked, FullRing, Unique, Coherent, ContentOf, Contents, Pinned, Steady, Untaken, Quiet, OneClean, TwoClean, Room,
           OnlyLogData, LogFilled;
      ghost var calm := AllPinned(0) && Quiet(bc.bufs);
      ghost var disk0, view0 := bc.disk, bc.View();
      var tail := 0;
      FilledNone(disk0, view0, bc.images, area, block);
      while tail < n
        invariant 0 <= tail <= n && bc.Valid() && Undisturbed() && old(bc.images) <= bc.images
        invariant forall x :: old(Untaken(bc.bufs, x)) ==> Untaken(bc.bufs, x)
        invariant LogFilled(disk0, view0, bc.disk, bc.View(), bc.images, |old(bc.images)|, area, block, tail)
        invariant forall x :: Pinned(bc.bufs, x) <==> old(Pinned(bc.bufs, x))
        invariant calm ==> Quiet(bc.bufs) && (if tail == 0 then bc.bufs == old(bc.bufs)
                                              else OneClean(bc.bufs) && OneClean(old(bc.bufs)))
      {
        FilledLength(disk0, view0, bc.disk, bc.View(), bc.images, |old(bc.images)|, area, block, tail);
        ghost var disk, view, images := bc.disk, bc.View(), bc.images;
        ok := CopyToLog(tail);
        if !ok {
          FilledDone(disk0, view0, disk, view, images, |old(bc.images)|, area, block, tail);
          return;
        }
        FilledStep(disk0, view0, disk, view, images, |old(bc.images)|, area, block, tail);
        tail := tail + 1;
      }
      FilledDone(disk0, view0, bc.disk, bc.View(), bc.images, |old(bc.images)|, area, block, n);
      return true;
    }

    /** write_head: one block write, which for n > 0 is the commit point. */
    method WriteHead() returns (ok: bool)
      requires bc.Valid() && Undisturbed() && Fits(bc.disk, area) && HeadOk() && NoneInLogPinned()
      modifies bc
      ensures bc.Valid()
      ensures !ok ==> bc.disk == old(bc.disk) && bc.images == old(bc.images)
      ensures ok ==> Undisturbed() && forall x :: old(Untaken(bc.bufs, x)) ==> Untaken(bc.bufs, x)
      ensures ok ==>
                && bc.disk == old(bc.disk)[area.start := FillHead(old(bc.disk)[area.start][0 := n], block, n)]
                && bc.images == old(bc.images) + [bc.disk]
                && bc.View() == old(bc.View())[area.start := bc.disk[area.start]]
                && (forall x :: Pinned(bc.bufs, x) <==> old(Pinned(bc.bufs, x)))
      ensures ok <==> exists i :: Usable(old(bc.bufs), i, area.start)
      ensures ok && Quiet(old(bc.bufs)) ==> Quiet(bc.bufs) && OneClean(bc.bufs)
    {
      hide Linked, FullRing, Unique, Coherent, ContentOf, Contents, Pinned, Steady, Untaken, Quiet, OneClean, Recyclable;
      BreadUses(bc.bufs, area.start);
      assert InLog(area, area.start);
      LogAreaView(area.start);
      UntakenMeans(bc.bufs, area.start);
      ghost var before, disk := bc.bufs, bc.disk;
      var r := bc.Bread(DISKDEV, area.start);
      if r.None? {
        return false;
      }
      var i, hb := r.value, bc.bufs[r.value].data;
      hb := NewHead(hb);
      bc.WriteBack(i, hb);
      ok := true;
      HeadReleased(before, disk, bc.bufs, bc.disk, i);
    }

    /** The header block as write_head fills it. */
    method NewHead(old0: Block) returns (hb: Block)
      requires |block| == LOGSIZE && n <= LOGSIZE
      ensures hb == FillHead(old0[0 := n], block, n)
    {
      hb := old0[0 := n];
      var i := 0;
      while i < n
        invariant 0 <= i <= n
        invariant hb == FillHead(old0[0 := n], block, i)
      {
        hb := hb[i + 1 := block[i]];
        i := i + 1;
      }
    }

    /** read_head. */
    method ReadHead() returns (ok: bool)
      requires bc.Valid() && Steady(bc.bufs, bc.disk) && Untaken(bc.bufs, area.start)
      requires WellFormed(bc.disk, area) && NoneInLogPinned() && |block| == LOGSIZE
      modifies bc, this`n, this`block
      ensures bc.Valid() && bc.disk == old(bc.disk) && bc.images == old(bc.images)
      ensures |block| == LOGSIZE
      ensures ok ==> Steady(bc.bufs, bc.disk) && forall x :: old(Untaken(bc.bufs, x)) ==> Untaken(bc.bufs, x)
      ensures ok ==>
                && HeadOnDisk()
                && bc.View() == old(bc.View())
                && (forall x :: Pinned(bc.bufs, x) <==> old(Pinned(bc.bufs, x)))
      ensures ok <==> exists i :: Usable(old(bc.bufs), i, area.start)
      ensures ok && Quiet(old(bc.bufs)) ==> Quiet(bc.bufs)
    {
      hide Linked, FullRing, Unique, Coherent, ContentOf, Contents, Pinned, Steady, Untaken, Quiet, OneClean, Recyclable;
      BreadUses(bc.bufs, area.start);
      LogAreaView(area.start);
      UntakenMeans(bc.bufs, area.start);
      ghost var before, disk := bc.bufs, bc.disk;
      var r := bc.Bread(DISKDEV, area.start);
      if r.None? {
        return false;
      }
      assert InLog(area, area.start);
      PinnedHeld(bc.bufs, bc.disk, r.value);
      var lh := bc.bufs[r.value].data;
      n := lh[0];
      var i := 0;
      while i < n
        invariant 0 <= i <= n && |block| == LOGSIZE && n == lh[0]
        invariant forall j :: 0 <= j < i ==> block[j] == lh[j + 1]
        modifies this`block
      {
        block := block[i := lh[i + 1]];
        i := i + 1;
      }
      ok := bc.Brelse(r.value);
      HeadReleased(before, disk, bc.bufs, bc.disk, r.value);
    }

    /** One round of the loop of install_trans. */
    method CopyFromLog(tail: nat) returns (ok: bool)
      requires bc.Valid() && Undisturbed() && Fits(bc.disk, area) && NoneInLogPinned() && |block| == LOGSIZE && tail < n
      requires tail < LOGSIZE && tail < area.size - 1 && block[tail] < |bc.disk| && !InLog(area, block[tail])
      modifies bc
      ensures bc.Valid()
      ensures ok ==> Undisturbed() && forall x :: old(Untaken(bc.bufs, x)) ==> Untaken(bc.bufs, x)
      ensures ok ==>
                && bc.disk == old(bc.disk)[block[tail] := old(bc.disk)[area.start + 1 + tail]]
                && bc.images == old(bc.images) + [bc.disk]
                && (forall x :: Pinned(bc.bufs, x) <==> old(Pinned(bc.bufs, x)) && x != block[tail])
      ensures !ok ==> bc.images == old(bc.images)
      ensures ok <==> Room(old(bc.bufs), area.start + tail + 1, block[tail])
      ensures ok && Quiet(old(bc.bufs)) ==> Quiet(bc.bufs) && TwoClean(bc.bufs)
    {
      hide Linked, FullRing, Unique, Coherent, ContentOf, Contents, Pinned, Steady, Untaken, Quiet, OneClean, TwoClean, Room;
      LogAreaView(area.start + tail + 1);
      ok := bc.CopyBlock(area.start + tail + 1, block[tail]);
    }

    /** install_trans: the disk goes through Replay(1), ..., Replay(n). */
    method InstallTrans() returns (ok: bool, ghost done: nat)
      requires bc.Valid() && Undisturbed() && HeadOnDisk() && NoneInLogPinned()
      modifies bc
      ensures bc.Valid()
      ensures done <= n && bc.images == old(bc.images) + ReplayImages(old(bc.disk), area, done)
      ensures ok ==> Undisturbed() && forall x :: old(Untaken(bc.bufs, x)) ==> Untaken(bc.bufs, x)
      ensures ok ==>
                && done == n
                && bc.disk == Replay(old(bc.disk), area, n)
                && (forall x :: Pinned(bc.bufs, x) ==> old(Pinned(bc.bufs, x)))
                && (forall i :: 0 <= i < n ==> !Pinned(bc.bufs, block[i]))
      ensures old(Calm()) ==> ok && Quiet(bc.bufs) && OneClean(bc.bufs)
    {
      hide Linked, FullRing, Unique, Coherent, ContentOf, Contents, Pinned, Steady, Untaken, Quiet, OneClean, TwoClean, Room,
           Replay, ReplayImages;
      ghost var d, calm := bc.disk, Calm();
      TwoIsOne(bc.bufs);
      ReplayNone(d, area, bc.images);
      done := 0;
      var tail := 0;
      while tail < n
        invariant 0 <= tail <= n && done == tail
        invariant bc.Valid() && Undisturbed()
        invariant forall x :: old(Untaken(bc.bufs, x)) ==> Untaken(bc.bufs, x)
        invariant bc.disk == Replay(d, area, tail)
        invariant bc.images == old(bc.images) + ReplayImages(d, area, tail)
        invariant forall x :: Pinned(bc.bufs, x) ==> old(Pinned(bc.bufs, x))
        invariant forall i :: 0 <= i < tail ==> !Pinned(bc.bufs, block[i])
        invariant calm ==> Quiet(bc.bufs) && OneClean(bc.bufs)
                           && (TwoClean(bc.bufs) || (tail == 0 && bc.bufs == old(bc.bufs) && AllPinned(0)))
      {
        assert HeadBlock(d, area, tail) == block[tail];
        ReplayOne(d, area, tail, old(bc.images));
        if calm {
          RoomFromLog(bc.bufs, area.start + tail + 1, block[tail]);
        }
        ok := CopyFromLog(tail);
        if !ok {
          return;
        }
        TwoIsOne(bc.bufs);
        tail := tail + 1;
        done := tail;
      }
      return true, n;
    }

    /** install_trans, then n = 0 and write_head: the end of both commit and recovery. */
    method InstallAndClear() returns (ok: bool)
      requires bc.Valid() && Undisturbed() && HeadOnDisk() && NoneInLogPinned()
      modifies bc, this`n
      ensures bc.Valid()
      ensures old(bc.images) <= bc.images
      ensures bc.images[|old(bc.images)|..] <= RecoveryImages(old(bc.disk), area)
      ensures ok ==> Undisturbed() && forall x :: old(Untaken(bc.bufs, x)) ==> Untaken(bc.bufs, x)
      ensures ok ==>
                && n == 0
                && bc.disk == Recovered(old(bc.disk), area)
                && bc.images == old(bc.images) + RecoveryImages(old(bc.disk), area)
                && (forall x :: Pinned(bc.bufs, x) ==> old(Pinned(bc.bufs, x)))
                && (forall i :: 0 <= i < old(n) ==> !Pinned(bc.bufs, block[i]))
      ensures old(Calm()) ==> ok && Quiet(bc.bufs)
    {
      hide Linked, FullRing, Unique, Coherent, ContentOf, Contents, Pinned, Steady, Untaken, Quiet, OneClean, TwoClean, Room;
      ghost var d := bc.disk;
      ghost var done;
      ok, done := InstallTrans();
      ReplayImagesPrefix(d, area, done);
      if !ok {
        return;
      }
      n := 0;
      CleanIsUsable(bc.bufs, area.start);
      ok := WriteHead();
      if !ok {
        return;
      }
      assert bc.disk == Recovered(d, area);
      assert bc.images == old(bc.images) + RecoveryImages(d, area);
    }

    /** recover_from_log, at boot: nothing is cached yet. */
    method RecoverFromLog() returns (ok: bool)
      requires bc.Valid() && bc.Idle() && (forall x :: !Pinned(bc.bufs, x))
      requires WellFormed(bc.disk, area) && |block| == LOGSIZE && !committing
      modifies bc, this`n, this`block
      ensures bc.Valid()
      ensures old(bc.images) <= bc.images
      ensures bc.images[|old(bc.images)|..] <= RecoveryImages(old(bc.disk), area)
      ensures ok ==>
                && Valid() && Undisturbed() && n == 0
                && bc.disk == Recovered(old(bc.disk), area)
                && bc.images == old(bc.images) + RecoveryImages(old(bc.disk), area)
      ensures Quiet(old(bc.bufs)) ==> ok && Quiet(bc.bufs)
    {
      hide Linked, FullRing, Unique, Coherent, ContentOf, Contents, Pinned, Steady, Untaken, Quiet, OneClean, TwoClean, Room;
      IdleIsSteady(bc.bufs, bc.disk);
      AllClean(bc.bufs, bc.disk);
      TwoIsOne(bc.bufs);
      CleanIsUsable(bc.bufs, area.start);
      ok := ReadHead();
      if ok {
        AllClean(bc.bufs, bc.disk);
        TwoIsOne(bc.bufs);
        ok := InstallAndClear();
      }
    }

    /** commit: every image on the way recovers to the old home contents or to the new ones,
        switching at the header write. */
    method Commit() returns (ok: bool)
      requires bc.Valid() && Undisturbed() && HeadOk()
      requires WellFormed(bc.disk, area) && HeadN(bc.disk, area) == 0
      requires forall x :: Pinned(bc.bufs, x) <==> x in block[..n]
      modifies bc, this`n
      ensures bc.Valid()
      ensures old(bc.images) <= bc.images
      ensures Switches(bc.images, |old(bc.images)|, area, old(bc.disk), old(bc.View()))
      ensures ok ==> Undisturbed() && forall x :: old(Untaken(bc.bufs, x)) ==> Untaken(bc.bufs, x)
      ensures ok ==>
                && n == 0
                && WellFormed(bc.disk, area) && HeadN(bc.disk, area) == 0
                && SameHome(bc.disk, old(bc.View()), area)
                && (forall x :: !Pinned(bc.bufs, x))
      ensures Quiet(old(bc.bufs)) ==> (ok <==> old(n) < NBUF)
    {
      hide Linked, FullRing, Unique, Coherent, ContentOf, Contents, Pinned, Steady, Untaken, Replay, RecoveryImages,
           Switches, SwitchesAt, FillHead, Quiet, OneClean, TwoClean, Room;
      ghost var from, pre, c, a := |old(bc.images)|, bc.disk, bc.View(), area;
      ViewOfPinned();
      PinnedBuffers(bc.bufs, bc.disk, block, n);
      if n == 0 {
        PhasesSwitch(bc.images, from, |bc.images|, a, pre, c, pre);
        return true;
      }
      ok := WriteLog();
      ghost var d1, m := bc.disk, |bc.images|;
      PhasesSwitch(bc.images, from, m, a, pre, c, pre);
      if !ok {
        return;
      }
      CleanIsUsable(bc.bufs, area.start);
      ok := WriteHead();
      if !ok {
        return;
      }
      ghost var d2 := bc.disk;
      HeaderCommits(pre, d1, d2, a, c, block, n);
      ok := InstallAndClear();
      if ok {
        AllUnpinned(old(bc.bufs), bc.bufs, block, old(n));
      }
      PhasesSwitch(bc.images, from, m, a, pre, c, d2);
      CommittedRecoversToNew(d2, a, c);
    }

    /** One pass of the loop of begin_op: enter, or (false) sleep and try again. */
    method BeginOp() returns (entered: bool)
      modifies this`outstanding
      ensures entered <==> !committing && n + (old(outstanding) + 1) * MAXOPBLOCKS <= LOGSIZE
      ensures outstanding == old(outstanding) + (if entered then 1 else 0)
    {
      if committing {
        return false;
      } else if n + (outstanding + 1) * MAXOPBLOCKS > LOGSIZE {
        return false;
      } else {
        outstanding := outstanding + 1;
        return true;
      }
    }

    /** log_write by the holder of buffer i: the block is pinned and named in the header, once. */
    method LogWrite(i: nat) returns (ok: bool)
      requires Valid() && i < NBUF && bc.bufs[i].locked && bc.bufs[i].valid
      requires !InLog(area, bc.bufs[i].blockno)
      modifies bc, this`n, this`block
      ensures ok <==> old(n) < LOGSIZE && old(n) < area.size - 1 && outstanding >= 1
      ensures !ok ==> n == old(n) && block == old(block) && bc.bufs == old(bc.bufs)
      ensures Valid()
      ensures bc.disk == old(bc.disk) && bc.images == old(bc.images) && bc.View() == old(bc.View())
      ensures ok ==> bc.bufs == old(bc.bufs)[i := old(bc.bufs)[i].(dirty := true)]
      ensures ok ==> block[..n] == (if bc.bufs[i].blockno in old(block)[..old(n)] then old(block)[..old(n)]
                                    else old(block)[..old(n)] + [bc.bufs[i].blockno])
    {
      hide Linked, FullRing, Unique, Coherent, ContentOf, Contents, Pinned, Steady, Untaken;
      HeldOnDisk(bc.bufs[i], bc.disk);
      if n >= LOGSIZE || n >= area.size - 1 {
        return false;
      }
      if outstanding < 1 {
        return false;
      }
      var b := bc.bufs[i].blockno;
      var k := 0;
      while k < n && block[k] != b
        invariant 0 <= k <= n
        invariant forall j :: 0 <= j < k ==> block[j] != b
      {
        k := k + 1;
      }
      ghost var named := block[..n];
      block := block[k := b];
      if k == n {
        n := n + 1;
      } else {
        assert named[k] == b;
      }
      assert block[..n] == if b in named then named else named + [b];
      bc.MarkDirty(i);
      return true;
    }

    /** end_op. When the last operation of the group leaves, the group's updates reach the disk as one
        transaction: every disk image on the way recovers to the contents before the group or to the
        cached contents after it. */
    method EndOp() returns (ok: bool)
      requires Valid() && outstanding >= 1 && (outstanding == 1 ==> Undisturbed())
      modifies bc, this
      ensures outstanding == old(outstanding) - 1
      ensures old(bc.images) <= bc.images
      ensures old(outstanding) > 1 ==> ok && Valid() && n == old(n) && bc.images == old(bc.images) && bc.disk == old(bc.disk)
      ensures Switches(bc.images, |old(bc.images)|, area, old(bc.disk), old(bc.View()))
      ensures ok ==> Valid() && forall x :: old(Untaken(bc.bufs, x)) ==> Untaken(bc.bufs, x)
      ensures ok && old(outstanding) == 1 ==> n == 0 && SameHome(bc.disk, old(bc.View()), area)
      ensures Quiet(old(bc.bufs)) && old(outstanding) == 1 ==> (ok <==> old(n) < NBUF)
    {
      hide Linked, FullRing, Unique, Coherent, ContentOf, Contents, Pinned, Steady, Untaken, Quiet;
      outstanding := outstanding - 1;
      if committing {
        return false;
      }
      var doCommit := outstanding == 0;
      if doCommit {
        committing := true;
        ok := Commit();
        if ok {
          committing := false;
        }
      } else {
        assert SwitchesAt(bc.images, |bc.images|, |bc.images|, area, bc.disk, bc.View());
        ok := true;
      }
    }

    /** With exactly the logged blocks pinned, the cache differs from the disk on those at most. */
    lemma ViewOfPinned()
      requires bc.Valid() && Steady(bc.bufs, bc.disk)
      requires |block| == LOGSIZE && n <= LOGSIZE
      requires forall x :: Pinned(bc.bufs, x) <==> x in block[..n]
      ensures forall b :: 0 <= b < |bc.disk| && bc.View()[b] != bc.disk[b] ==> b in block[..n]
    {
      forall b | 0 <= b < |bc.disk| && b !in block[..n]
        ensures bc.View()[b] == bc.disk[b]
      {
        SteadyIsOnDisk(bc.bufs, bc.disk, b);
      }
    }
  }
}
