/** The share total and the two policy passes over every run of one CPU: processes are dispatched, set a
    share, sleep, wake, fork, exit and are reaped, in any order. */
module Shares {
  import opened Scheduler
  import opened Fairness

  datatype Running = Idle | On(r: nat, m: Mode)

  datatype State = State(s: Sched, cpu: Running)

  datatype Step =
    | Dispatch(r: nat)              // the scheduler switches to slot r, which it selects: slot 0, even asleep, when
                                    // nothing qualifies
    | SetShare(i: int)              // set_cpu_share by the running process, not yet in stride mode
    | Exit                          // exit() by the running process, up to its first sleep
    | GiveUp(to: RunState)          // the running process sleeps, yields or has become a zombie
    | Wake(r: nat) | Fork(r: nat) | Reap(r: nat)

  function Boot(): State {
    State(Sched(seq(NPROC, _ => Proc(Unused, MLFQ, LOW, 0, 0, 0, false)), 0, 0, 0, 0, 0), Idle)
  }

  predicate Slotted(x: State) {
    |x.s.procs| == NPROC && (x.cpu.On? ==> x.cpu.r < NPROC)
  }

  /** A run ends where the accounting would divide by zero. */
  ghost predicate Enabled(x: State, t: Step) {
    Slotted(x) &&
    match t
    case Dispatch(r) => x.cpu.Idle? && r < NPROC && Selected(x.s, r)
                        && (x.s.procs[r].state.Runnable? || x.s.procs[r].state.Sleeping?)
    case SetShare(i) => x.cpu.On? && x.s.procs[x.cpu.r].mode.MLFQ? && Grants(x.s, x.cpu.r, i)
                        && !x.s.procs[x.cpu.r].left
    case Exit => x.cpu.On? && !x.s.procs[x.cpu.r].left
    case GiveUp(to) =>
      && x.cpu.On? && x.s.total != 100
      && (to.Runnable? || to.Sleeping? || (to.Zombie? && x.s.procs[x.cpu.r].left))
      && (x.cpu.m.Stride? ==> x.s.procs[x.cpu.r].share != 0)
    case Wake(r) => r < NPROC && x.s.procs[r].state.Sleeping?
    case Fork(r) => r < NPROC && x.s.procs[r].state.Unused?
    case Reap(r) => r < NPROC && x.s.procs[r].state.Zombie?
  }

  function InState(s: Sched, r: nat, st: RunState): Sched
    requires r < |s.procs|
  {
    s.(procs := s.procs[r := s.procs[r].(state := st)])
  }

  ghost function Next(x: State, t: Step): State
    requires Enabled(x, t)
  {
    match t
    case Dispatch(r) => State(InState(x.s, r, Running), On(r, ModeOf(x.s)))
    case SetShare(i) => x.(s := ShareSet(x.s, x.cpu.r, i))
    case Exit => x.(s := Left(x.s, x.cpu.r))
    case GiveUp(to) => State(Accounted(InState(x.s, x.cpu.r, to), x.cpu.m, x.cpu.r), Idle)
    case Wake(r) => x.(s := InState(x.s, r, Runnable))
    case Fork(r) => x.(s := x.s.(procs := x.s.procs[r := Proc(Runnable, MLFQ, HIGH, 0, 0, 0, false)]))
    case Reap(r) => x.(s := InState(x.s, r, Unused))
  }

  ghost predicate Reaches(x: State, run: seq<Step>, e: State)
    decreases |run|
  {
    if run == [] then x == e else Enabled(x, run[0]) && Reaches(Next(x, run[0]), run[1..], e)
  }

  // ----- the sum of live shares -----

  predicate Live(p: Proc) {
    p.mode.Stride? && !p.left
  }

  function Part(p: Proc): int {
    if Live(p) then p.share else 0
  }

  ghost function Sum(procs: seq<Proc>): int {
    if procs == [] then 0 else Part(procs[0]) + Sum(procs[1..])
  }

  lemma {:induction false} SumUpdate(procs: seq<Proc>, r: nat, p: Proc)
    requires r < |procs|
    ensures Sum(procs[r := p]) == Sum(procs) - Part(procs[r]) + Part(p)
  {
    if r == 0 {
      assert procs[r := p][1..] == procs[1..];
    } else {
      SumUpdate(procs[1..], r - 1, p);
      assert procs[r := p][1..] == procs[1..][r - 1 := p];
    }
  }

  lemma {:induction false} SumSame(procs: seq<Proc>, qs: seq<Proc>)
    requires |procs| == |qs| && forall j :: 0 <= j < |procs| ==> Part(procs[j]) == Part(qs[j])
    ensures Sum(procs) == Sum(qs)
  {
    if procs != [] {
      assert Part(procs[0]) == Part(qs[0]);
      SumSame(procs[1..], qs[1..]);
    }
  }

  lemma {:induction false} SumZero(procs: seq<Proc>)
    requires forall j :: 0 <= j < |procs| ==> Part(procs[j]) == 0
    ensures Sum(procs) == 0
  {
    if procs != [] {
      SumZero(procs[1..]);
    }
  }

  lemma {:induction false} SumAtLeast(procs: seq<Proc>, r: nat)
    requires r < |procs| && forall j :: 0 <= j < |procs| ==> Part(procs[j]) >= 0
    ensures Sum(procs) >= Part(procs[r]) && Sum(procs) >= 0
  {
    if r > 0 {
      SumAtLeast(procs[1..], r - 1);
    } else if |procs| > 1 {
      SumAtLeast(procs[1..], 0);
    }
  }

  // ----- the invariant -----

  /** The total is the sum of the live shares; a process gone from the table has none. */
  ghost predicate SharesOk(s: Sched) {
    && |s.procs| == NPROC && s.total == Sum(s.procs) && s.total <= 80
    && (forall j :: 0 <= j < NPROC && Live(s.procs[j]) ==> s.procs[j].share >= 1)
    && (forall j :: 0 <= j < NPROC && (s.procs[j].state.Unused? || s.procs[j].state.Zombie?) ==> !Live(s.procs[j]))
  }

  /** Between slots the gap is bounded; during a slot it has the sign that chose the policy. */
  ghost predicate PassesOk(x: State) {
    && -10000 < x.s.passM - x.s.passS <= 500
    && (x.cpu.Idle? && x.s.total == 0 ==> x.s.passM == x.s.passS == x.s.maxPass == 0)
    && (x.cpu.On? ==> x.cpu.r < NPROC && (x.cpu.m.MLFQ? <==> x.s.passM <= x.s.passS))
  }

  ghost predicate Inv(x: State) {
    && SharesOk(x.s) && PassesOk(x)
    && (x.cpu.On? ==> x.s.procs[x.cpu.r].state.Running?)
    && (forall j :: 0 <= j < NPROC && x.s.procs[j].state.Running? ==> x.cpu.On? && x.cpu.r == j)
  }

  lemma BootInv()
    ensures Inv(Boot())
  {
    SumZero(Boot().s.procs);
  }

  /** Changing the state of a process between live states changes no share. */
  lemma InStateKeeps(s: Sched, r: nat, st: RunState)
    requires SharesOk(s) && r < NPROC && (st.Unused? || st.Zombie? ==> !Live(s.procs[r]))
    ensures SharesOk(InState(s, r, st))
  {
    SumUpdate(s.procs, r, s.procs[r].(state := st));
    hide Sum;
  }

  /** Nothing that shares depend on. */
  ghost predicate SameShare(p: Proc, q: Proc) {
    Part(p) == Part(q) && p.state == q.state && (Live(p) <==> Live(q)) && p.share == q.share
  }

  lemma AccountedSame(s: Sched, m: Mode, r: nat)
    requires |s.procs| == NPROC && r < NPROC && s.total != 100 && (m.Stride? ==> s.procs[r].share != 0)
    ensures var e := Accounted(s, m, r);
            |e.procs| == NPROC && e.total == s.total && forall j :: 0 <= j < NPROC ==> SameShare(e.procs[j], s.procs[j])
  {
    hide CostM, CostS, StrideOf;
  }

  lemma AccountedKeeps(s: Sched, m: Mode, r: nat)
    requires SharesOk(s) && r < NPROC && s.total != 100 && (m.Stride? ==> s.procs[r].share != 0)
    ensures SharesOk(Accounted(s, m, r)) && Accounted(s, m, r).total == s.total
    ensures forall j :: 0 <= j < NPROC ==> Accounted(s, m, r).procs[j].state == s.procs[j].state
  {
    hide Accounted, Part, Live;
    AccountedSame(s, m, r);
    SumSame(Accounted(s, m, r).procs, s.procs);
  }

  lemma SetShareKeepsInv(x: State, i: int)
    requires Inv(x) && Enabled(x, SetShare(i))
    ensures Inv(Next(x, SetShare(i)))
  {
    var p := x.s.procs[x.cpu.r];
    SumUpdate(x.s.procs, x.cpu.r, p.(share := i, mode := Stride, pass := x.s.maxPass));
    hide Sum;
  }

  lemma ExitKeepsInv(x: State)
    requires Inv(x) && Enabled(x, Exit)
    ensures Inv(Next(x, Exit))
  {
    SumUpdate(x.s.procs, x.cpu.r, x.s.procs[x.cpu.r].(left := true));
    SumAtLeast(x.s.procs, x.cpu.r);
    hide Sum;
  }

  lemma GiveUpKeepsInv(x: State, to: RunState)
    requires Inv(x) && Enabled(x, GiveUp(to))
    ensures Inv(Next(x, GiveUp(to)))
  {
    var s, r := InState(x.s, x.cpu.r, to), x.cpu.r;
    InStateKeeps(x.s, r, to);
    AccountedKeeps(s, x.cpu.m, r);
    SumAtLeast(s.procs, 0);
    CostBounds(s.total);
    hide CostM, CostS, Sum, SharesOk, StrideOf;
  }

  lemma TableStepKeepsInv(x: State, t: Step)
    requires Inv(x) && Enabled(x, t) && (t.Dispatch? || t.Wake? || t.Fork? || t.Reap?)
    ensures Inv(Next(x, t))
  {
    match t {
      case Dispatch(r) => InStateKeeps(x.s, r, Running);
      case Wake(r) => InStateKeeps(x.s, r, Runnable);
      case Reap(r) => InStateKeeps(x.s, r, Unused);
      case Fork(r) => SumUpdate(x.s.procs, r, Proc(Runnable, MLFQ, HIGH, 0, 0, 0, false));
    }
    hide Sum;
  }

  lemma StepKeepsInv(x: State, t: Step)
    requires Inv(x) && Enabled(x, t)
    ensures Inv(Next(x, t))
  {
    hide Inv, Next;
    match t {
      case SetShare(i) => SetShareKeepsInv(x, i);
      case Exit => ExitKeepsInv(x);
      case GiveUp(to) => GiveUpKeepsInv(x, to);
      case _ => TableStepKeepsInv(x, t);
    }
  }

  lemma {:induction false} ReachableInv(x: State, run: seq<Step>, e: State)
    requires Inv(x) && Reaches(x, run, e)
    ensures Inv(e)
    decreases |run|
  {
    if run != [] {
      StepKeepsInv(x, run[0]);
      ReachableInv(Next(x, run[0]), run[1..], e);
    }
  }

  /** In every state of every run: the total is the sum of the live stride shares and at most 80, so no
      policy pass is divided by zero, and the policies' passes stay within (-10000, 500] of each other. */
  lemma ShareTotalAndGap(run: seq<Step>, e: State)
    requires Reaches(Boot(), run, e)
    ensures e.s.total == Sum(e.s.procs) && 0 <= e.s.total <= 80
    ensures -10000 < e.s.passM - e.s.passS <= 500
    ensures e.cpu.Idle? ==> GapOk(e.s)
  {
    BootInv();
    ReachableInv(Boot(), run, e);
    SumAtLeast(e.s.procs, 0);
  }

  // ----- fairness from every reachable state -----

  lemma StepKeepsTable(x: State, t: Step)
    requires TableOk(x.s) && Enabled(x, t)
    ensures TableOk(Next(x, t).s)
  {
    hide Revalued, StrideOf;
    if t.GiveUp? {
      var s := InState(x.s, x.cpu.r, t.to);
      RevaluedTable(if x.cpu.m.MLFQ? then AfterMlfq(s, x.cpu.r) else AfterStride(s, x.cpu.r), x.cpu.m);
    }
  }

  lemma RevaluedTable(s: Sched, m: Mode)
    requires s.total != 100
    ensures Revalued(s, m).procs == s.procs && Revalued(s, m).ticks == s.ticks
  {
  }

  lemma {:induction false} ReachableTable(x: State, run: seq<Step>, e: State)
    requires TableOk(x.s) && Reaches(x, run, e)
    ensures TableOk(e.s)
    decreases |run|
  {
    hide Next, TableOk;
    if run != [] {
      StepKeepsTable(x, run[0]);
      ReachableTable(Next(x, run[0]), run[1..], e);
    }
  }

  lemma StepKeepsShared(x: State, t: Step)
    requires Shared(x.s.procs) && Enabled(x, t)
    ensures Shared(Next(x, t).s.procs)
  {
    hide StrideOf, CostM, CostS, Selected;
  }

  lemma {:induction false} ReachableShared(x: State, run: seq<Step>, e: State)
    requires Shared(x.s.procs) && Reaches(x, run, e)
    ensures Shared(e.s.procs)
    decreases |run|
  {
    hide Next, Shared, Enabled;
    if run != [] {
      StepKeepsShared(x, run[0]);
      ReachableShared(Next(x, run[0]), run[1..], e);
    }
  }

  /** In every reachable state between slots: the next round divides by zero exactly if TrapAhead, and is a slot
      exactly if SlotAhead. */
  lemma RoundAheadReachable(run: seq<Step>, x: State, r: nat)
    requires Reaches(Boot(), run, x) && x.cpu.Idle? && |x.s.procs| == NPROC && Selected(x.s, r)
    ensures r < NPROC
    ensures TrapAhead(x.s) <==> ModeOf(x.s).Stride? && x.s.procs[r].share == 0
    ensures SlotAhead(x.s) <==> Ready(x.s.procs[r], ModeOf(x.s))
  {
    hide Reaches;
    ReachableShared(Boot(), run, x);
    RoundAhead(x.s, r);
  }

  /** From every state the kernel can be in between two slots, every ready MLFQ process runs within 904 slots. */
  lemma NoStarvationWhenReachable(run: seq<Step>, x: State, s: seq<Sched>, picks: seq<nat>, q: nat)
    requires Reaches(Boot(), run, x) && x.cpu.Idle?
    requires Run(s, picks) && s[0] == x.s && |picks| >= 904
    requires q < NPROC && |x.s.procs| == NPROC && Ready(x.s.procs[q], MLFQ)
    ensures SlotsOf(s, picks, MLFQ, q) >= 1
  {
    ReachableTable(Boot(), run, x);
    ShareTotalAndGap(run, x);
    EveryMlfqProcessRuns(s, picks, q);
  }

  /** What the caller can check of a state between slots: some ready MLFQ process is seen, and if any share is held some
      ready stride process is, with passes that leave room. Then 904 slots do follow, and every ready MLFQ process runs
      in them. */
  lemma NoStarvation(run: seq<Step>, x: State) returns (s: seq<Sched>, picks: seq<nat>)
    requires Reaches(Boot(), run, x) && x.cpu.Idle? && |x.s.procs| == NPROC
    requires exists q: nat :: SeenAtLeast(x.s, q)
    requires x.s.total > 0 ==>
               && (exists j :: 0 <= j < NPROC && Ready(x.s.procs[j], Stride))
               && (forall j :: 0 <= j < NPROC && Ready(x.s.procs[j], Stride) ==> x.s.procs[j].pass <= x.s.maxPass)
               && x.s.maxPass + 9040000 < NOPASS
    ensures Run(s, picks) && s[0] == x.s && |picks| == 904
    ensures forall q :: 0 <= q < NPROC && Ready(x.s.procs[q], MLFQ) ==> SlotsOf(s, picks, MLFQ, q) >= 1
  {
    hide Reaches, SlotsOf;
    ReachableTable(Boot(), run, x);
    ReachableShared(Boot(), run, x);
    ShareTotalAndGap(run, x);
    s, picks := SlotsGoOn(x.s, 904);
    forall q | 0 <= q < NPROC && Ready(x.s.procs[q], MLFQ)
      ensures SlotsOf(s, picks, MLFQ, q) >= 1
    {
      NoStarvationWhenReachable(run, x, s, picks, q);
    }
  }

  /** A first set_cpu_share is granted exactly when the shares of the processes still alive stay at most 80 with it. */
  lemma FirstShareGranted(run: seq<Step>, x: State, i: int)
    requires Reaches(Boot(), run, x) && x.cpu.On? && x.cpu.r < |x.s.procs| && x.s.procs[x.cpu.r].mode.MLFQ?
    ensures Grants(x.s, x.cpu.r, i) <==> 0 < i && Sum(x.s.procs) + i <= 80
  {
    ShareTotalAndGap(run, x);
  }

  // ----- where slots stop -----

  lemma {:induction false} ReachesSnoc(x: State, run: seq<Step>, e: State, t: Step)
    requires Reaches(x, run, e) && Enabled(e, t)
    ensures Reaches(x, run + [t], Next(e, t))
    decreases |run|
  {
    hide Enabled, Next;
    if run == [] {
      assert run + [t] == [t];
      assert Reaches(Next(e, t), [], Next(e, t));
    } else {
      assert (run + [t])[1..] == run[1..] + [t];
      ReachesSnoc(Next(x, run[0]), run[1..], e, t);
    }
  }

  /** A table with two processes. */
  function Two(p: Proc, q: Proc): (t: seq<Proc>)
    ensures |t| == NPROC && t[0] == p && t[1] == q
    ensures forall j :: 2 <= j < NPROC ==> t[j] == Proc(Unused, MLFQ, LOW, 0, 0, 0, false)
  {
    seq(NPROC, j => if j == 0 then p else if j == 1 then q else Proc(Unused, MLFQ, LOW, 0, 0, 0, false))
  }

  const NEWBORN := Proc(Runnable, MLFQ, HIGH, 0, 0, 0, false)
  const INIT := Proc(Sleeping, MLFQ, HIGH, 1, 0, 0, false)

  /** Between slots: the first process asleep, the second one q, no shares. */
  function Pair(q: Proc, ticks: nat): State {
    State(Sched(Two(INIT, q), 0, 0, 0, 0, ticks), Idle)
  }

  /** Boot, fork of the first process, its first slot in which it goes to sleep, fork of the second. */
  lemma PairReachable() returns (run: seq<Step>)
    ensures Reaches(Boot(), run, Pair(NEWBORN, 1))
  {
    var unused := Proc(Unused, MLFQ, LOW, 0, 0, 0, false);
    var x1 := Next(Boot(), Fork(0));
    assert x1.s.procs == Two(NEWBORN, unused);
    assert Choosable(x1.s.procs[0]);
    assert Selected(x1.s, 0);
    var x2 := Next(x1, Dispatch(0));
    var x3 := Next(x2, GiveUp(Sleeping));
    assert x3.s.procs == Two(INIT, unused);
    var x4 := Next(x3, Fork(1));
    assert x4.s.procs == Two(INIT, NEWBORN);
    run := [Fork(0)];
    assert Reaches(x1, [], x1);
    ReachesSnoc(Boot(), run, x1, Dispatch(0));
    ReachesSnoc(Boot(), run + [Dispatch(0)], x2, GiveUp(Sleeping));
    ReachesSnoc(Boot(), run + [Dispatch(0)] + [GiveUp(Sleeping)], x3, Fork(1));
    run := run + [Dispatch(0)] + [GiveUp(Sleeping)] + [Fork(1)];
  }

  /** With the first process asleep the scheduler selects the second one as long as the scan sees it. */
  lemma PairSelects(q: Proc, ticks: nat)
    requires Ready(q, MLFQ)
    ensures var s := Pair(q, ticks).s;
            (SomeChoosable(s.procs) <==> Choosable(q)) && (Selected(s, 1) <==> Choosable(q))
  {
    var s := Pair(q, ticks).s;
    assert Choosable(q) ==> Choosable(s.procs[1]);
  }

  /** The trap is reachable: the only stride process sleeps, the next slot is stride's, it falls to the first process,
      which holds no share, and the accounting after it divides by zero. */
  lemma StrideTrapReachable() returns (run: seq<Step>, x: State)
    ensures Reaches(Boot(), run, x) && x.cpu.Idle? && |x.s.procs| == NPROC && TrapAhead(x.s)
    ensures Enabled(x, Dispatch(0)) && Next(x, Dispatch(0)).cpu == On(0, Stride)
    ensures Next(x, Dispatch(0)).s.procs[0].share == 0
  {
    run := PairReachable();
    var x0 := Pair(NEWBORN, 1);
    PairSelects(NEWBORN, 1);
    var x1 := Next(x0, Dispatch(1));
    ReachesSnoc(Boot(), run, x0, Dispatch(1));
    var x2 := Next(x1, SetShare(1));
    ReachesSnoc(Boot(), run + [Dispatch(1)], x1, SetShare(1));
    ReachesSnoc(Boot(), run + [Dispatch(1)] + [SetShare(1)], x2, GiveUp(Sleeping));
    x := Next(x2, GiveUp(Sleeping));
    run := run + [Dispatch(1)] + [SetShare(1)] + [GiveUp(Sleeping)];
    assert x.s.total == 1 && x.s.passM == CostM(1) && x.s.passS == 0;
    assert CostM(1) == 101;
    assert x.s.procs[1].state.Sleeping?;
  }

  /** The second process after n slots of its own, if it sleeps whenever a boost comes. */
  function Slow(n: nat): Proc {
    if n < 5 then NEWBORN.(tick := n)
    else if n < 15 then NEWBORN.(level := MID, tick := n - 5)
    else NEWBORN.(level := LOW, tick := n - 15)
  }

  function SlowState(n: nat): State {
    Pair(Slow(n), (n + 1) % 100)
  }

  /** One more slot, given up by yielding, or by sleeping and waking when it brings the boost. */
  lemma SlowStep(n: nat, run: seq<Step>) returns (more: seq<Step>)
    requires n < 1015 && Reaches(Boot(), run, SlowState(n))
    ensures Reaches(Boot(), more, SlowState(n + 1))
  {
    hide Reaches;
    var x, ticks := SlowState(n), (n + 1) % 100;
    PairSelects(Slow(n), ticks);
    var x1 := Next(x, Dispatch(1));
    ReachesSnoc(Boot(), run, x, Dispatch(1));
    assert x1.s.procs == Two(INIT, Slow(n).(state := Running));
    var to := if ticks == 99 then Sleeping else Runnable;
    ReachesSnoc(Boot(), run + [Dispatch(1)], x1, GiveUp(to));
    var x2 := Next(x1, GiveUp(to));
    assert InState(x1.s, 1, to).procs == Two(INIT, Slow(n).(state := to));
    SlowGivesUp(n, to);
    assert x2 == State(Sched(Two(INIT, Slow(n + 1).(state := to)), 0, 0, 0, 0, (n + 2) % 100), Idle);
    more := run + [Dispatch(1)] + [GiveUp(to)];
    if ticks == 99 {
      ReachesSnoc(Boot(), more, x2, Wake(1));
      assert Next(x2, Wake(1)).s.procs == Two(INIT, Slow(n + 1));
      more := more + [Wake(1)];
    }
  }

  lemma SlowTicks(n: nat, to: RunState)
    ensures Ticked(Slow(n).(state := to)) == Slow(n + 1).(state := to)
  {
  }

  lemma PairBoosted(p: Proc)
    requires !p.state.Runnable?
    ensures BoostAll(Two(INIT, p)) == Two(INIT, p)
  {
  }

  lemma SlowGivesUp(n: nat, to: RunState)
    requires to == if (n + 1) % 100 == 99 then Sleeping else Runnable
    ensures var s := Sched(Two(INIT, Slow(n).(state := to)), 0, 0, 0, 0, (n + 1) % 100);
            Accounted(s, MLFQ, 1) == Sched(Two(INIT, Slow(n + 1).(state := to)), 0, 0, 0, 0, (n + 2) % 100)
  {
    hide Ticked, BoostAll, Slow;
    var s := Sched(Two(INIT, Slow(n).(state := to)), 0, 0, 0, 0, (n + 1) % 100);
    SlowTicks(n, to);
    assert s.procs[1 := Ticked(s.procs[1])] == Two(INIT, Slow(n + 1).(state := to));
    if (n + 1) % 100 == 99 {
      PairBoosted(Slow(n + 1).(state := to));
    }
  }

  lemma {:induction false} SlowReachable(n: nat) returns (run: seq<Step>)
    requires n <= 1015
    ensures Reaches(Boot(), run, SlowState(n))
    decreases n
  {
    if n == 0 {
      run := PairReachable();
    } else {
      var before := SlowReachable(n - 1);
      run := SlowStep(n - 1, before);
    }
  }

  /** A ready process can drop out of sight: after sleeping through ten boosts it is LOW with 1000 ticks, the scan sees
      nothing and falls to the first process, which is asleep. */
  lemma LowProcessVanishes() returns (run: seq<Step>, x: State)
    ensures Reaches(Boot(), run, x) && x.cpu.Idle? && |x.s.procs| == NPROC
    ensures Ready(x.s.procs[1], MLFQ) && !SlotAhead(x.s) && Selected(x.s, 0)
  {
    run := SlowReachable(1015);
    x := SlowState(1015);
    PairSelects(Slow(1015), 16);
  }

  // ----- two ways out of that discipline -----

  /** A second set_cpu_share leaves the total right only if it asks for the share already held. */
  lemma SecondShareBreaksTotal(s: Sched, r: nat, i: int)
    requires SharesOk(s) && r < NPROC && Live(s.procs[r]) && Grants(s, r, i)
    ensures var e := ShareSet(s, r, i);
            e.total == Sum(e.procs) <==> i == s.procs[r].share
  {
    SumUpdate(s.procs, r, s.procs[r].(share := i, mode := Stride, pass := s.maxPass));
  }

  /** thread_exit and thread_join: the slot is cleared, the total is not told. */
  function ThreadGone(s: Sched, r: nat): Sched
    requires r < |s.procs|
  {
    s.(procs := s.procs[r := s.procs[r].(state := Unused, tick := 0, level := HIGH, mode := MLFQ, share := 0, pass := 0)])
  }

  /** A thread that leaves through thread_exit leaks its share, unless it never had one. */
  lemma ThreadExitLeaksShare(s: Sched, r: nat)
    requires SharesOk(s) && r < NPROC
    ensures ThreadGone(s, r).total == Sum(ThreadGone(s, r).procs) <==> !Live(s.procs[r])
  {
    SumUpdate(s.procs, r,
              s.procs[r].(state := Unused, tick := 0, level := HIGH, mode := MLFQ, share := 0, pass := 0));
  }
}
