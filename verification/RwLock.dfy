/** The xem semaphore and the reader-writer lock of proc.c as an interleaving machine: every xchg,
    load, store and test of shared memory is one step of one of any number of threads. */
module RwLock {
  import opened Counting

  /** Where a thread is. A waiting state is the loop of xem_wait; an unlocking state is about to do
      the xchg of xem_unlock. */
  datatype PC =
    | Out
    // rwlock_acquire_readlock
    | RWaitLock | RLoad | RStore(v: int) | RTest | RWaitWrite | RUnlock
    | Reading
    // rwlock_release_readlock
    | UWaitLock | ULoad | UStore(v: int) | UTest | UUnlockWrite | UUnlock
    // rwlock_acquire_writelock, the section, rwlock_release_writelock
    | WWait | Writing | WUnlock

  datatype Action = StartRead | StartWrite | Go

  datatype State = State(lock: nat, writelock: nat, readers: int, pcs: seq<PC>)

  /** rwlock_init, with n threads outside. */
  function Init(n: nat): State {
    State(1, 1, 0, seq(n, _ => Out))
  }

  predicate Enabled(s: State, t: nat, a: Action) {
    t < |s.pcs| && (a.Go? <==> !s.pcs[t].Out?)
  }

  /** One step of thread t. An xchg that finds the wrong value leaves the thread where it is, to yield
      and try again. */
  function Next(s: State, t: nat, a: Action): State
    requires Enabled(s, t, a)
  {
    var at := (pc: PC) => s.(pcs := s.pcs[t := pc]);
    match s.pcs[t]
    case Out => at(if a.StartRead? then RWaitLock else WWait)
    case RWaitLock => (if s.lock == 1 then at(RLoad) else s).(lock := 0)
    case RLoad => at(RStore(s.readers))
    case RStore(v) => at(RTest).(readers := v + 1)
    case RTest => at(if s.readers == 1 then RWaitWrite else RUnlock)
    case RWaitWrite => (if s.writelock == 1 then at(RUnlock) else s).(writelock := 0)
    case RUnlock => (if s.lock == 0 then at(Reading) else s).(lock := 1)
    case Reading => at(UWaitLock)
    case UWaitLock => (if s.lock == 1 then at(ULoad) else s).(lock := 0)
    case ULoad => at(UStore(s.readers))
    case UStore(v) => at(UTest).(readers := v - 1)
    case UTest => at(if s.readers == 0 then UUnlockWrite else UUnlock)
    case UUnlockWrite => (if s.writelock == 0 then at(UUnlock) else s).(writelock := 1)
    case UUnlock => (if s.lock == 0 then at(Out) else s).(lock := 1)
    case WWait => (if s.writelock == 1 then at(Writing) else s).(writelock := 0)
    case Writing => at(WUnlock)
    case WUnlock => (if s.writelock == 0 then at(Out) else s).(writelock := 1)
  }

  /** Acquiring a read lock, before the section. */
  predicate Entering(pc: PC) {
    pc.RWaitLock? || pc.RLoad? || pc.RStore? || pc.RTest? || pc.RWaitWrite? || pc.RUnlock?
  }

  /** The order in which a thread passes through its program points. */
  lemma Flow(s: State, t: nat)
    requires Enabled(s, t, Go)
    ensures var pc, e := s.pcs[t], Next(s, t, Go);
            && |e.pcs| == |s.pcs| && e.pcs == s.pcs[t := e.pcs[t]]
            && (e.pcs[t].Writing? ==> pc.WWait?)
            && (pc.Writing? ==> e.pcs[t].WUnlock?)
            && (e.pcs[t].WWait? ==> pc.WWait?)
            && (e.pcs[t].Reading? ==> pc.RUnlock?)
            && (Entering(e.pcs[t]) ==> Entering(pc))
  {
  }

  ghost predicate Reaches(s: State, run: seq<(nat, Action)>, e: State)
    decreases |run|
  {
    if run == [] then s == e
    else Enabled(s, run[0].0, run[0].1) && Reaches(Next(s, run[0].0, run[0].1), run[1..], e)
  }

  // ----- classes of program points -----

  predicate HoldsLock(pc: PC) {
    pc.RLoad? || pc.RStore? || pc.RTest? || pc.RWaitWrite? || pc.RUnlock? ||
    pc.ULoad? || pc.UStore? || pc.UTest? || pc.UUnlockWrite? || pc.UUnlock?
  }

  /** Between the increment and the decrement of readers. */
  predicate Counted(pc: PC) {
    pc.RTest? || pc.RWaitWrite? || pc.RUnlock? || pc.Reading? || pc.UWaitLock? || pc.ULoad? || pc.UStore?
  }

  predicate Writer(pc: PC) {
    pc.Writing? || pc.WUnlock?
  }

  /** Whether the readers together hold writelock, as the holder of lock at pc sees it. */
  predicate GroupHolds(pc: PC, readers: int) {
    match pc
    case RTest => readers >= 2
    case RWaitWrite => false
    case UTest => true
    case UUnlockWrite => true
    case _ => readers > 0
  }

  // ----- the invariant -----

  /** 1 when the readers as a group hold writelock. */
  ghost function Group(s: State): int {
    1 - s.writelock - Count(s.pcs, Writer)
  }

  /** What the thread that holds lock knows. */
  ghost predicate HolderOk(s: State, pc: PC) {
    && (pc.RStore? ==> pc.v == s.readers)
    && (pc.UStore? ==> pc.v == s.readers)
    && (pc.RWaitWrite? ==> s.readers == 1)
    && (pc.UUnlockWrite? ==> s.readers == 0)
    && Group(s) == Bit(GroupHolds(pc, s.readers))
  }

  ghost predicate Inv(s: State) {
    && s.lock <= 1 && s.writelock <= 1
    && s.lock + Count(s.pcs, HoldsLock) == 1
    && s.readers == Count(s.pcs, Counted)
    && (s.lock == 1 ==> Group(s) == Bit(s.readers > 0))
    && (forall t :: 0 <= t < |s.pcs| && HoldsLock(s.pcs[t]) ==> HolderOk(s, s.pcs[t]))
  }

  lemma InitInv(n: nat)
    ensures Inv(Init(n))
  {
    CountNone(Init(n).pcs, HoldsLock);
    CountNone(Init(n).pcs, Counted);
    CountNone(Init(n).pcs, Writer);
  }

  /** How the three counts change when thread t moves. */
  lemma CountsAfter(s: State, t: nat, a: Action)
    requires Enabled(s, t, a)
    ensures var e := Next(s, t, a);
            && |e.pcs| == |s.pcs| && e.pcs == s.pcs[t := e.pcs[t]]
            && Count(e.pcs, HoldsLock) == Count(s.pcs, HoldsLock) - Bit(HoldsLock(s.pcs[t])) + Bit(HoldsLock(e.pcs[t]))
            && Count(e.pcs, Counted) == Count(s.pcs, Counted) - Bit(Counted(s.pcs[t])) + Bit(Counted(e.pcs[t]))
            && Count(e.pcs, Writer) == Count(s.pcs, Writer) - Bit(Writer(s.pcs[t])) + Bit(Writer(e.pcs[t]))
    ensures HoldsLock(s.pcs[t]) ==> Count(s.pcs, HoldsLock) >= 1
    ensures HoldsLock(s.pcs[t]) && Count(s.pcs, HoldsLock) == 1 ==>
              forall u :: 0 <= u < |s.pcs| && u != t ==> !HoldsLock(s.pcs[u])
    ensures Count(s.pcs, HoldsLock) == 0 ==> forall u :: 0 <= u < |s.pcs| ==> !HoldsLock(s.pcs[u])
    ensures Writer(s.pcs[t]) ==> Count(s.pcs, Writer) >= 1
    ensures Counted(s.pcs[t]) ==> Count(s.pcs, Counted) >= 1
  {
    var e := Next(s, t, a);
    var pc := e.pcs[t];
    assert s.pcs[t := pc] == e.pcs;
    CountUpdate(s.pcs, t, pc, HoldsLock);
    CountUpdate(s.pcs, t, pc, Counted);
    CountUpdate(s.pcs, t, pc, Writer);
    CountMember(s.pcs, t, HoldsLock);
    CountMember(s.pcs, t, Writer);
    CountMember(s.pcs, t, Counted);
    forall u | 0 <= u < |s.pcs| && HoldsLock(s.pcs[u])
      ensures Count(s.pcs, HoldsLock) >= 1
    {
      CountOne(s.pcs, u, HoldsLock);
    }
  }

  lemma OutsideKeepsInv(s: State, t: nat, a: Action)
    requires Inv(s) && Enabled(s, t, a)
    requires var pc := s.pcs[t]; pc.Out? || pc.Reading? || pc.RWaitLock? || pc.UWaitLock?
    ensures Inv(Next(s, t, a))
  {
    hide Count;
    CountsAfter(s, t, a);
  }

  lemma EntryKeepsInv(s: State, t: nat, a: Action)
    requires Inv(s) && Enabled(s, t, a)
    requires var pc := s.pcs[t]; pc.RLoad? || pc.RStore? || pc.RTest? || pc.RWaitWrite? || pc.RUnlock?
    ensures Inv(Next(s, t, a))
  {
    hide Count;
    CountsAfter(s, t, a);
  }

  lemma ExitKeepsInv(s: State, t: nat, a: Action)
    requires Inv(s) && Enabled(s, t, a)
    requires var pc := s.pcs[t]; pc.ULoad? || pc.UStore? || pc.UTest? || pc.UUnlockWrite? || pc.UUnlock?
    ensures Inv(Next(s, t, a))
  {
    hide Count;
    CountsAfter(s, t, a);
  }

  lemma WriterKeepsInv(s: State, t: nat, a: Action)
    requires Inv(s) && Enabled(s, t, a)
    requires var pc := s.pcs[t]; pc.WWait? || pc.Writing? || pc.WUnlock?
    ensures Inv(Next(s, t, a))
  {
    hide Count;
    CountsAfter(s, t, a);
  }

  lemma StepKeepsInv(s: State, t: nat, a: Action)
    requires Inv(s) && Enabled(s, t, a)
    ensures Inv(Next(s, t, a))
  {
    hide Inv, Next;
    match s.pcs[t] {
      case Out | Reading | RWaitLock | UWaitLock => OutsideKeepsInv(s, t, a);
      case RLoad | RStore(_) | RTest | RWaitWrite | RUnlock => EntryKeepsInv(s, t, a);
      case ULoad | UStore(_) | UTest | UUnlockWrite | UUnlock => ExitKeepsInv(s, t, a);
      case WWait | Writing | WUnlock => WriterKeepsInv(s, t, a);
    }
  }

  lemma {:induction false} ReachableInv(s: State, run: seq<(nat, Action)>, e: State)
    requires Inv(s) && Reaches(s, run, e)
    ensures Inv(e)
    decreases |run|
  {
    if run != [] {
      StepKeepsInv(s, run[0].0, run[0].1);
      ReachableInv(Next(s, run[0].0, run[0].1), run[1..], e);
    }
  }

  // ----- what every reachable state has -----

  /** Never a writer beside a reader or another writer; readers is the number of counted threads. */
  lemma ReaderWriterExclusion(n: nat, run: seq<(nat, Action)>, e: State, t: nat, u: nat)
    requires Reaches(Init(n), run, e) && t < |e.pcs| && u < |e.pcs| && t != u
    ensures e.pcs[t].Writing? ==> !e.pcs[u].Writing? && !e.pcs[u].Reading?
    ensures e.readers == Count(e.pcs, Counted)
  {
    InitInv(n);
    ReachableInv(Init(n), run, e);
    Exclusion(e, t, u);
  }

  lemma Exclusion(e: State, t: nat, u: nat)
    requires Inv(e) && t < |e.pcs| && u < |e.pcs| && t != u
    ensures e.pcs[t].Writing? ==> !e.pcs[u].Writing? && !e.pcs[u].Reading?
  {
    GroupIsBit(e);
    hide Count;
    if e.pcs[t].Writing? {
      CountMember(e.pcs, t, Writer);
      CountMember(e.pcs, u, Counted);
      if e.pcs[u].Reading? {
        ReadersHoldWritelock(e, u);
      }
    }
  }

  /** At most one party, a writer or the readers together, holds writelock. */
  lemma GroupIsBit(e: State)
    requires Inv(e)
    ensures Group(e) == 0 || Group(e) == 1
  {
    if e.lock == 0 {
      var h := CountWitness(e.pcs, HoldsLock);
    }
  }

  /** While some thread reads, the readers hold writelock. */
  lemma ReadersHoldWritelock(e: State, u: nat)
    requires Inv(e) && u < |e.pcs| && e.pcs[u].Reading?
    ensures Group(e) == 1
  {
    CountMember(e.pcs, u, Counted);
    if e.lock == 0 {
      var h := CountWitness(e.pcs, HoldsLock);
      if e.pcs[h].RTest? || e.pcs[h].RWaitWrite? {
        if h < u {
          CountTwo(e.pcs, h, u, Counted);
        } else {
          CountTwo(e.pcs, u, h, Counted);
        }
      }
    }
  }

  /** Every xem_unlock finds the value it expects: the first xchg succeeds. */
  lemma UnlocksSucceed(n: nat, run: seq<(nat, Action)>, e: State, t: nat)
    requires Reaches(Init(n), run, e) && t < |e.pcs|
    ensures e.pcs[t].RUnlock? || e.pcs[t].UUnlock? ==> e.lock == 0
    ensures e.pcs[t].UUnlockWrite? || e.pcs[t].WUnlock? ==> e.writelock == 0
  {
    InitInv(n);
    ReachableInv(Init(n), run, e);
    GroupIsBit(e);
    hide Count;
    CountMember(e.pcs, t, HoldsLock);
    CountMember(e.pcs, t, Writer);
  }

  /** Thread t can leave its program point now. */
  predicate CanMove(s: State, t: nat) {
    t < |s.pcs| && !s.pcs[t].Out? && Next(s, t, Go).pcs[t] != s.pcs[t]
  }

  /** No reachable state is deadlocked: if some thread is inside, some thread can move. */
  lemma NoDeadlock(n: nat, run: seq<(nat, Action)>, e: State, t: nat)
    requires Reaches(Init(n), run, e) && t < |e.pcs| && !e.pcs[t].Out?
    ensures exists u :: CanMove(e, u)
  {
    InitInv(n);
    ReachableInv(Init(n), run, e);
    hide Count;
    if e.lock == 0 {
      var h := CountWitness(e.pcs, HoldsLock);
      HolderOrWriterMoves(e, h);
    } else {
      FreeLockMoves(e, t);
    }
  }

  lemma HolderOrWriterMoves(e: State, h: nat)
    requires Inv(e) && e.lock == 0 && h < |e.pcs| && HoldsLock(e.pcs[h])
    ensures exists u :: CanMove(e, u)
  {
    hide Count;
    if !CanMove(e, h) {
      assert e.pcs[h].RWaitWrite? && e.writelock == 0;
      var w := CountWitness(e.pcs, Writer);
      assert CanMove(e, w);
    }
  }

  lemma FreeLockMoves(e: State, t: nat)
    requires Inv(e) && e.lock == 1 && t < |e.pcs| && !e.pcs[t].Out?
    ensures exists u :: CanMove(e, u)
  {
    hide Count;
    CountMember(e.pcs, t, HoldsLock);
    CountMember(e.pcs, t, Writer);
    if !CanMove(e, t) {
      assert e.pcs[t].WWait? && e.writelock == 0;
      if Count(e.pcs, Writer) >= 1 {
        var w := CountWitness(e.pcs, Writer);
        CountMember(e.pcs, w, Writer);
        assert CanMove(e, w);
      } else {
        var r := CountWitness(e.pcs, Counted);
        CountMember(e.pcs, r, HoldsLock);
        assert CanMove(e, r);
      }
    }
  }

  // ----- readers share -----

  lemma {:induction false} ReachesSnoc(s: State, run: seq<(nat, Action)>, e: State, t: nat, a: Action)
    requires Reaches(s, run, e) && Enabled(e, t, a)
    ensures Reaches(s, run + [(t, a)], Next(e, t, a))
    decreases |run|
  {
    if run == [] {
      assert run + [(t, a)] == [(t, a)];
    } else {
      ReachesSnoc(Next(s, run[0].0, run[0].1), run[1..], e, t, a);
      assert (run + [(t, a)])[1..] == run[1..] + [(t, a)];
    }
  }

  /** The steps of the run are t's own. */
  predicate OnlyBy(run: seq<(nat, Action)>, t: nat) {
    forall k :: 0 <= k < |run| ==> run[k].0 == t
  }

  /** Thread t goes alone, k times. */
  lemma {:induction false} GoesAlone(s: State, t: nat, k: nat) returns (run: seq<(nat, Action)>, e: State)
    requires t < |s.pcs| && !s.pcs[t].Out?
    ensures Reaches(s, run, e) && OnlyBy(run, t) && |run| <= k
    ensures e == Alone(s, t, k)
    decreases k
  {
    run, e := [], s;
    if k > 0 {
      var e1 := Next(s, t, Go);
      assert Enabled(s, t, Go);
      if e1.pcs[t].Out? {
        run, e := [(t, Go)], e1;
        assert Reaches(e1, [], e1) && run[1..] == [];
      } else {
        var rest;
        rest, e := GoesAlone(e1, t, k - 1);
        run := [(t, Go)] + rest;
        assert run[1..] == rest;
      }
    }
  }

  /** The state after t went k times, or until it came out. */
  function Alone(s: State, t: nat, k: nat): State
    requires t < |s.pcs|
    decreases k
  {
    if k == 0 || s.pcs[t].Out? then s else Alone(Next(s, t, Go), t, k - 1)
  }

  /** A reader that finds lock free and another reader inside gets in by its own five steps, changing nobody else. */
  lemma ReaderEnters(s: State, t: nat, u: nat)
    requires Inv(s) && t < |s.pcs| && u < |s.pcs| && s.pcs[t].RWaitLock? && s.pcs[u].Reading? && s.lock == 1
    ensures Alone(s, t, 5) == s.(readers := s.readers + 1, pcs := s.pcs[t := Reading])
  {
    CountMember(s.pcs, u, Counted);
    hide Count, Inv;
    var s1 := Next(s, t, Go);
    var s2 := Next(s1, t, Go);
    var s3 := Next(s2, t, Go);
    var s4 := Next(s3, t, Go);
    var s5 := Next(s4, t, Go);
    assert s4.pcs[t].RUnlock?;
    assert s5 == s.(readers := s.readers + 1, pcs := s.pcs[t := Reading]);
    assert Alone(s, t, 5) == Alone(s1, t, 4) == Alone(s2, t, 3) == Alone(s3, t, 2) == Alone(s4, t, 1) == s5;
  }

  /** Steps from the lock holder at pc to its release of lock, writelock being no obstacle. */
  function ToRelease(pc: PC): nat {
    match pc
    case RLoad => 4
    case RStore(_) => 3
    case RTest => 2
    case RUnlock => 1
    case ULoad => 5
    case UStore(_) => 4
    case UTest => 3
    case UUnlockWrite => 2
    case UUnlock => 1
    case _ => 0
  }

  /** While a thread reads, whoever holds lock is on its way to releasing it: its next step brings it nearer. */
  lemma HolderAdvances(s: State, h: nat, u: nat)
    requires Inv(s) && h < |s.pcs| && u < |s.pcs| && HoldsLock(s.pcs[h]) && s.pcs[u].Reading?
    ensures ToRelease(s.pcs[h]) > 0
    ensures var e := Next(s, h, Go);
            && Inv(e) && |e.pcs| == |s.pcs| && e.pcs == s.pcs[h := e.pcs[h]]
            && if ToRelease(s.pcs[h]) == 1 then e.lock == 1 && (e.pcs[h].Out? || e.pcs[h].Reading?)
               else HoldsLock(e.pcs[h]) && ToRelease(e.pcs[h]) < ToRelease(s.pcs[h])
  {
    assert h != u;
    if h < u {
      if Counted(s.pcs[h]) {
        CountTwo(s.pcs, h, u, Counted);
      }
    } else if Counted(s.pcs[h]) {
      CountTwo(s.pcs, u, h, Counted);
    }
    CountMember(s.pcs, h, HoldsLock);
    ReadersHoldWritelock(s, u);
    GroupIsBit(s);
    StepKeepsInv(s, h, Go);
    hide Count;
  }

  lemma {:induction false} HolderReleases(s: State, h: nat, u: nat) returns (run: seq<(nat, Action)>, e: State)
    requires Inv(s) && h < |s.pcs| && u < |s.pcs| && HoldsLock(s.pcs[h]) && s.pcs[u].Reading?
    ensures Reaches(s, run, e) && OnlyBy(run, h) && Inv(e) && e.lock == 1
    ensures |e.pcs| == |s.pcs| && e.pcs == s.pcs[h := e.pcs[h]] && (e.pcs[h].Out? || e.pcs[h].Reading?)
    decreases ToRelease(s.pcs[h])
  {
    hide Inv, Next;
    HolderAdvances(s, h, u);
    assert Enabled(s, h, Go);
    var e1 := Next(s, h, Go);
    if ToRelease(s.pcs[h]) == 1 {
      run, e := [(h, Go)], e1;
      assert Reaches(e1, [], e1) && run[1..] == [];
    } else {
      var rest;
      rest, e := HolderReleases(e1, h, u);
      run := [(h, Go)] + rest;
      assert run[1..] == rest;
    }
  }

  lemma {:induction false} ReachesConcat(s: State, run: seq<(nat, Action)>, m: State, more: seq<(nat, Action)>, e: State)
    requires Reaches(s, run, m) && Reaches(m, more, e)
    ensures Reaches(s, run + more, e)
    decreases |run|
  {
    if run == [] {
      assert run + more == more;
    } else {
      ReachesConcat(Next(s, run[0].0, run[0].1), run[1..], m, more, e);
      assert (run + more)[1..] == run[1..] + more;
    }
  }

  /** Readers do not block readers: from every reachable state in which some thread reads, a thread that asks to read
      gets in while that one goes on reading, by steps of its own and, before them, of whoever holds lock at most.
      With lock free it needs nobody else. */
  lemma ReadersShare(n: nat, run: seq<(nat, Action)>, s: State, t: nat, u: nat)
    returns (more: seq<(nat, Action)>, e: State)
    requires Reaches(Init(n), run, s) && t < |s.pcs| && u < |s.pcs|
    requires s.pcs[t].RWaitLock? && s.pcs[u].Reading?
    ensures Reaches(s, more, e) && |e.pcs| == |s.pcs| && e.pcs[t].Reading? && e.pcs[u].Reading?
    ensures forall k :: 0 <= k < |more| ==>
              more[k].0 == t || (s.lock == 0 && more[k].0 < |s.pcs| && HoldsLock(s.pcs[more[k].0]))
  {
    hide Inv, Count, Next, Reaches;
    InitInv(n);
    ReachableInv(Init(n), run, s);
    var first, m := [], s;
    LockHolder(s);
    if s.lock == 0 {
      var h :| 0 <= h < |s.pcs| && HoldsLock(s.pcs[h]);
      first, m := HolderReleases(s, h, u);
    } else {
      ReachesRefl(s);
    }
    var rest;
    LockHolder(m);
    ReaderEnters(m, t, u);
    rest, e := GoesAlone(m, t, 5);
    more := first + rest;
    ReachesConcat(s, first, m, rest, e);
  }

  lemma LockHolder(s: State)
    requires Inv(s)
    ensures s.lock == 0 || s.lock == 1
    ensures s.lock == 0 ==> exists h :: 0 <= h < |s.pcs| && HoldsLock(s.pcs[h])
  {
    if s.lock == 0 {
      var h := CountWitness(s.pcs, HoldsLock);
    }
  }

  lemma ReachesRefl(s: State)
    ensures Reaches(s, [], s)
  {
  }

  /** The first k of n threads read, the others are outside. */
  function Crowd(n: nat, k: nat): State {
    State(1, if k > 0 then 0 else 1, k, seq(n, i => if i < k then Reading else Out))
  }

  /** Any number of threads can read at once. */
  lemma {:induction false} AllCanRead(n: nat, k: nat) returns (run: seq<(nat, Action)>)
    requires k <= n
    ensures Reaches(Init(n), run, Crowd(n, k))
    decreases k
  {
    if k == 0 {
      run := [];
      assert Init(n) == Crowd(n, 0);
    } else {
      var before := AllCanRead(n, k - 1);
      var s, t := Crowd(n, k - 1), k - 1;
      ReachesSnoc(Init(n), before, s, t, StartRead);
      var s1 := Next(s, t, StartRead);
      var rest, e := GoesAlone(s1, t, if k == 1 then 6 else 5);
      JoinsCrowd(n, k);
      ReachesConcat(Init(n), before + [(t, StartRead)], s1, rest, e);
      run := before + [(t, StartRead)] + rest;
    }
  }

  lemma JoinsCrowd(n: nat, k: nat)
    requires 0 < k <= n
    ensures Enabled(Crowd(n, k - 1), k - 1, StartRead)
    ensures Alone(Next(Crowd(n, k - 1), k - 1, StartRead), k - 1, if k == 1 then 6 else 5) == Crowd(n, k)
  {
    var t := k - 1;
    var s0 := Next(Crowd(n, k - 1), t, StartRead);
    var s1 := Next(s0, t, Go);
    var s2 := Next(s1, t, Go);
    var s3 := Next(s2, t, Go);
    var s4 := Next(s3, t, Go);
    var s5 := Next(s4, t, Go);
    if k == 1 {
      var s6 := Next(s5, t, Go);
      assert s6.pcs == Crowd(n, 1).pcs;
      assert Alone(s0, t, 6) == Alone(s1, t, 5) == Alone(s2, t, 4) == Alone(s3, t, 3) == Alone(s4, t, 2)
          == Alone(s5, t, 1) == s6;
    } else {
      assert s5.pcs == Crowd(n, k).pcs;
      assert Alone(s0, t, 5) == Alone(s1, t, 4) == Alone(s2, t, 3) == Alone(s3, t, 2) == Alone(s4, t, 1) == s5;
    }
  }

  /** A writer that finds no reader counted, no writer inside and lock free gets in with its first xchg. */
  lemma WriterEnters(n: nat, run: seq<(nat, Action)>, s: State, t: nat)
    requires Reaches(Init(n), run, s) && t < |s.pcs| && s.pcs[t].WWait? && s.lock == 1
    requires forall u :: 0 <= u < |s.pcs| ==> !Counted(s.pcs[u]) && !Writer(s.pcs[u])
    ensures Next(s, t, Go).pcs[t].Writing?
  {
    InitInv(n);
    ReachableInv(Init(n), run, s);
    CountNone(s.pcs, Counted);
    CountNone(s.pcs, Writer);
  }
}
