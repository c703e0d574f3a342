/** The on-disk log format of log.c and what recovery makes of any disk image. */
module Recovery {
  import opened Blocks
  import opened BufferCache

  const MAXOPBLOCKS: nat := 10
  const LOGSIZE: nat := MAXOPBLOCKS * 3

  /** The log occupies `size` blocks from `start`: a header and size - 1 data blocks. */
  datatype Area = Area(start: nat, size: nat)

  predicate InLog(a: Area, b: nat) {
    a.start <= b < a.start + a.size
  }

  function Capacity(a: Area): int {
    if a.size - 1 < LOGSIZE then a.size - 1 else LOGSIZE
  }

  /** The log lies on the disk, and block numbers are 32-bit words. */
  ghost predicate Fits(d: Disk, a: Area) {
    1 <= a.size && a.start + a.size <= |d| <= 0x1_0000_0000
  }

  function HeadN(d: Disk, a: Area): nat
    requires a.start < |d|
  {
    d[a.start][0]
  }

  function HeadBlock(d: Disk, a: Area, i: nat): Word
    requires a.start < |d| && i < LOGSIZE
  {
    d[a.start][i + 1]
  }

  /** The header names at most a log full of home blocks. */
  ghost predicate WellFormed(d: Disk, a: Area) {
    && Fits(d, a)
    && HeadN(d, a) <= Capacity(a)
    && forall i :: 0 <= i < HeadN(d, a) ==> HeadBlock(d, a, i) < |d| && !InLog(a, HeadBlock(d, a, i))
  }

  /** The disk once the first k logged blocks are installed. */
  ghost function Replay(d: Disk, a: Area, k: nat): (r: Disk)
    requires WellFormed(d, a) && k <= HeadN(d, a)
    ensures |r| == |d|
    ensures forall b :: 0 <= b < |d| && InLog(a, b) ==> r[b] == d[b]
  {
    if k == 0 then d else Replay(d, a, k - 1)[HeadBlock(d, a, k - 1) := d[a.start + k]]
  }

  ghost function Cleared(d: Disk, a: Area): (r: Disk)
    requires Fits(d, a)
    ensures |r| == |d| && HeadN(r, a) == 0
  {
    d[a.start := d[a.start][0 := 0]]
  }

  /** What recover_from_log leaves on the disk. */
  ghost function Recovered(d: Disk, a: Area): (r: Disk)
    requires WellFormed(d, a)
    ensures WellFormed(r, a) && HeadN(r, a) == 0 && |r| == |d|
  {
    Cleared(Replay(d, a, HeadN(d, a)), a)
  }

  /** The disk images of the first k block writes of install_trans. */
  ghost function ReplayImages(d: Disk, a: Area, k: nat): (s: seq<Disk>)
    requires WellFormed(d, a) && k <= HeadN(d, a)
    ensures |s| == k
    ensures forall i :: 0 <= i < k ==> s[i] == Replay(d, a, i + 1)
  {
    if k == 0 then [] else ReplayImages(d, a, k - 1) + [Replay(d, a, k)]
  }

  /** Every disk image recovery passes through, one per block write. */
  ghost function RecoveryImages(d: Disk, a: Area): (s: seq<Disk>)
    requires WellFormed(d, a)
  {
    ReplayImages(d, a, HeadN(d, a)) + [Recovered(d, a)]
  }

  lemma ReplayImagesPrefix(d: Disk, a: Area, k: nat)
    requires WellFormed(d, a) && k <= HeadN(d, a)
    ensures ReplayImages(d, a, k) <= RecoveryImages(d, a)
  {
    assert ReplayImages(d, a, k) == ReplayImages(d, a, HeadN(d, a))[..k];
  }

  ghost predicate SameHome(d: Disk, e: Disk, a: Area) {
    |d| == |e| && forall b :: 0 <= b < |d| && !InLog(a, b) ==> d[b] == e[b]
  }

  /** Recovery of this image yields home contents c. */
  ghost predicate RecoversTo(d: Disk, a: Area, c: Disk) {
    WellFormed(d, a) && SameHome(Recovered(d, a), c, a)
  }

  // ----- replaying a log twice is replaying it once -----

  /** The disk e agrees with d except, perhaps, on blocks that the log still has to install. */
  ghost predicate AgreeButPending(d: Disk, e: Disk, a: Area, k: nat)
    requires WellFormed(d, a) && k <= HeadN(d, a)
  {
    |e| == |d| && forall b :: 0 <= b < |d| && d[b] != e[b] ==>
      exists i :: k <= i < HeadN(d, a) && HeadBlock(d, a, i) == b
  }

  lemma {:induction false} ReplayAgrees(d: Disk, e: Disk, a: Area, k: nat)
    requires WellFormed(d, a) && WellFormed(e, a) && k <= HeadN(d, a)
    requires AgreeButPending(d, e, a, 0)
    ensures HeadN(e, a) == HeadN(d, a)
    ensures |Replay(e, a, k)| == |d|
    ensures forall b :: 0 <= b < |d| && Replay(d, a, k)[b] != Replay(e, a, k)[b] ==>
              exists i :: k <= i < HeadN(d, a) && HeadBlock(d, a, i) == b
  {
    assert forall b :: 0 <= b < |d| && InLog(a, b) ==> d[b] == e[b];
    if k > 0 {
      ReplayAgrees(d, e, a, k - 1);
    }
  }

  lemma {:induction false} ReplayTouches(d: Disk, a: Area, k: nat)
    requires WellFormed(d, a) && k <= HeadN(d, a)
    ensures AgreeButPending(d, Replay(d, a, k), a, 0)
  {
    if k > 0 {
      ReplayTouches(d, a, k - 1);
    }
  }

  lemma ReplayWellFormed(d: Disk, a: Area, k: nat)
    requires WellFormed(d, a) && k <= HeadN(d, a)
    ensures WellFormed(Replay(d, a, k), a)
    ensures HeadN(Replay(d, a, k), a) == HeadN(d, a)
  {
    var r := Replay(d, a, k);
    assert InLog(a, a.start);
    forall i | 0 <= i < HeadN(r, a)
      ensures HeadBlock(r, a, i) < |r| && !InLog(a, HeadBlock(r, a, i))
    {
      assert HeadBlock(r, a, i) == HeadBlock(d, a, i);
    }
  }

  /** A crash after any block write of recovery loses nothing: recovering again gives the same disk. */
  lemma RecoveryRestarts(d: Disk, a: Area, i: nat)
    requires WellFormed(d, a) && i < |RecoveryImages(d, a)|
    ensures WellFormed(RecoveryImages(d, a)[i], a)
    ensures Recovered(RecoveryImages(d, a)[i], a) == Recovered(d, a)
  {
    var n := HeadN(d, a);
    if i == n {
      var r := Recovered(d, a);
      assert Replay(r, a, 0) == r;
      assert r[a.start][0 := 0] == r[a.start];
      assert Cleared(r, a) == r;
    } else {
      var e := Replay(d, a, i + 1);
      ReplayWellFormed(d, a, i + 1);
      ReplayTouches(d, a, i + 1);
      ReplayAgrees(d, e, a, n);
      assert Replay(d, a, n) == Replay(e, a, n);
    }
  }

  /** Boot after boot, each cut short by a crash after some block write of its recovery. */
  ghost predicate CrashRun(run: seq<Disk>, a: Area) {
    && |run| >= 1
    && forall i :: 0 <= i < |run| - 1 ==> WellFormed(run[i], a) && run[i + 1] in RecoveryImages(run[i], a)
  }

  /** However many times recovery is interrupted, a recovery that completes gives the same result. */
  lemma {:induction false} CrashesDuringRecovery(run: seq<Disk>, a: Area)
    requires CrashRun(run, a) && WellFormed(run[0], a)
    ensures WellFormed(run[|run| - 1], a)
    ensures Recovered(run[|run| - 1], a) == Recovered(run[0], a)
  {
    hide WellFormed, Replay, ReplayImages, Recovered, RecoveryImages;
    if |run| > 1 {
      var m := |run| - 1;
      CrashesDuringRecovery(run[..m], a);
      assert run[m - 1 + 1] in RecoveryImages(run[m - 1], a);
      var i :| 0 <= i < |RecoveryImages(run[m - 1], a)| && RecoveryImages(run[m - 1], a)[i] == run[m];
      RecoveryRestarts(run[m - 1], a, i);
    }
  }
}
