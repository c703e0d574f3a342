/** The combined MLFQ and stride scheduler of proc.c: selection loops, accounting, and set_cpu_share.
    Passes are doubles that only ever hold integers; they are integers here. */
module Scheduler {

  const NPROC: nat := 64
  const LOW: nat := 0
  const MID: nat := 1
  const HIGH: nat := 2
  const NOPASS: int := 2147483645      // the initial min_PASS of find_runnable_Stride

  datatype Mode = MLFQ | Stride
  datatype RunState = Unused | Embryo | Sleeping | Runnable | Running | Zombie

  /** `left` marks a process whose exit() has already taken its share out of the total. */
  datatype Proc = Proc(state: RunState, mode: Mode, level: nat, tick: nat, share: int, pass: int, left: bool)

  /** ptable, num_Stride, max_stride_proc_pass and num_MLFQ. */
  datatype Sched = Sched(procs: seq<Proc>, total: int, passM: int, passS: int, maxPass: int, ticks: nat)

  // ----- selection -----

  predicate Ready(p: Proc, m: Mode) {
    p.state.Runnable? && p.mode == m
  }

  /** Round robin inside a level compares ticks in units of its quantum. */
  function Bucket(p: Proc): nat {
    if p.level == HIGH then p.tick else if p.level == MID then p.tick / 2 else p.tick / 4
  }

  /** p goes before q in the MLFQ, the table order left aside. */
  predicate Before(p: Proc, q: Proc) {
    p.level > q.level || (p.level == q.level && Bucket(p) < Bucket(q))
  }

  /** The scan of find_runnable_MLFQ sees p: ready in MLFQ mode, and if LOW with ticks below 1000. */
  predicate Choosable(p: Proc) {
    Ready(p, MLFQ) && (p.level > LOW || p.tick < 1000)
  }

  ghost predicate SomeChoosable(procs: seq<Proc>) {
    exists j :: 0 <= j < |procs| && Choosable(procs[j])
  }

  /** The scan sees r, nothing it sees goes before r, and r is the first such in the table. */
  ghost predicate IsPick(procs: seq<Proc>, r: nat) {
    && r < |procs| && Choosable(procs[r])
    && (forall j :: 0 <= j < |procs| && Choosable(procs[j]) ==> !Before(procs[j], procs[r]))
    && (forall j :: 0 <= j < r && Choosable(procs[j]) ==> Before(procs[r], procs[j]))
  }

  /** r is ready in stride mode, with the least pass, the first such in the table. */
  ghost predicate IsLeastPass(procs: seq<Proc>, r: nat) {
    && r < |procs| && Ready(procs[r], Stride)
    && (forall j :: 0 <= j < |procs| && Ready(procs[j], Stride) ==> procs[r].pass <= procs[j].pass)
    && (forall j :: 0 <= j < r && Ready(procs[j], Stride) ==> procs[r].pass < procs[j].pass)
  }

  /** The scan of find_runnable_Stride sees a process: ready in stride mode, with a pass below NOPASS. */
  ghost predicate SomePassVisible(procs: seq<Proc>) {
    exists j :: 0 <= j < |procs| && Ready(procs[j], Stride) && procs[j].pass < NOPASS
  }

  ghost predicate Levels(procs: seq<Proc>) {
    forall j :: 0 <= j < |procs| ==> procs[j].level <= HIGH
  }

  /** find_runnable_MLFQ: the pick when there is something to choose, otherwise slot 0, ready or not. */
  method FindRunnableMLFQ(procs: seq<Proc>) returns (rp: nat)
    requires |procs| == NPROC && Levels(procs)
    ensures rp < NPROC
    ensures if SomeChoosable(procs) then IsPick(procs, rp) else rp == 0
  {
    var lv, tick := LOW, 1000;
    rp := 0;
    var p := 0;
    while p < NPROC
      invariant 0 <= p <= NPROC && rp < NPROC
      invariant if tick == 1000 && lv == LOW then
                  rp == 0 && forall j :: 0 <= j < p ==> !Choosable(procs[j])
                else
                  rp < p && Choosable(procs[rp]) && procs[rp].level == lv && procs[rp].tick == tick
      invariant !(tick == 1000 && lv == LOW) ==>
                  forall j :: 0 <= j < p && Choosable(procs[j]) ==>
                    !Before(procs[j], procs[rp]) && (j < rp ==> Before(procs[rp], procs[j]))
    {
      var q := procs[p];
      if q.state.Runnable? && q.mode.MLFQ? {
        if q.level > lv {
          rp, lv, tick := p, q.level, q.tick;
        } else if q.level == lv {
          if lv == HIGH && q.tick >= tick {
          } else if lv == MID && q.tick / 2 >= tick / 2 {
          } else if lv == LOW && q.tick / 4 >= tick / 4 {
          } else {
            rp, tick := p, q.tick;
          }
        }
      }
      p := p + 1;
    }
  }

  /** find_runnable_Stride: the least pass when the scan sees one, otherwise slot 0. */
  method FindRunnableStride(procs: seq<Proc>) returns (rp: nat)
    requires |procs| == NPROC
    ensures rp < NPROC
    ensures if SomePassVisible(procs) then IsLeastPass(procs, rp) else rp == 0
  {
    var min := NOPASS;
    rp := 0;
    var p := 0;
    while p < NPROC
      invariant 0 <= p <= NPROC && rp < NPROC && min <= NOPASS
      invariant if min == NOPASS then
                  rp == 0 && forall j :: 0 <= j < p && Ready(procs[j], Stride) ==> procs[j].pass >= NOPASS
                else
                  && rp < p && Ready(procs[rp], Stride) && procs[rp].pass == min
                  && (forall j :: 0 <= j < p && Ready(procs[j], Stride) ==> min <= procs[j].pass)
                  && (forall j :: 0 <= j < rp && Ready(procs[j], Stride) ==> min < procs[j].pass)
    {
      if procs[p].state.Runnable? && procs[p].mode.Stride? {
        if procs[p].pass < min {
          rp, min := p, procs[p].pass;
        }
      }
      p := p + 1;
    }
  }

  // ----- accounting after a slot -----

  /** sche_mode. */
  function ModeOf(s: Sched): Mode {
    if s.total == 0 || s.passM <= s.passS then MLFQ else Stride
  }

  /** One more tick for a process, moving it down a level when its allotment is used up. */
  function Ticked(p: Proc): Proc {
    var tick := p.tick + 1;
    if p.level == HIGH && tick >= 5 then p.(level := MID, tick := 0)
    else if p.level == MID && tick >= 10 then p.(level := LOW, tick := 0)
    else p.(tick := tick)
  }

  function Boosted(p: Proc): Proc {
    if p.state.Runnable? then p.(tick := 0, level := HIGH) else p
  }

  function BoostAll(procs: seq<Proc>): (r: seq<Proc>)
    ensures |r| == |procs| && forall j :: 0 <= j < |procs| ==> r[j] == Boosted(procs[j])
  {
    seq(|procs|, j requires 0 <= j < |procs| => Boosted(procs[j]))
  }

  /** adjust_MLFQ_state, then init_MLFQ_state. */
  function AfterMlfq(s: Sched, r: nat): Sched
    requires r < |s.procs|
  {
    var procs, ticks := s.procs[r := Ticked(s.procs[r])], s.ticks + 1;
    if ticks >= 100 then s.(procs := BoostAll(procs), ticks := 0) else s.(procs := procs, ticks := ticks)
  }

  /** What a stride slot adds to the pass of the process that ran. */
  function StrideOf(share: int): (d: int)
    ensures share >= 1 ==> d >= 0
  {
    if share == 0 then 0 else 10000 / share
  }

  /** adjust_Stride_state. */
  function AfterStride(s: Sched, r: nat): Sched
    requires r < |s.procs| && s.procs[r].share != 0
  {
    var p := s.procs[r].(pass := s.procs[r].pass + StrideOf(s.procs[r].share));
    s.(procs := s.procs[r := p], maxPass := if p.pass > s.maxPass then p.pass else s.maxPass)
  }

  /** What an MLFQ slot adds to the MLFQ policy's pass. */
  function CostM(total: int): int
    requires total != 100
  {
    10000 / (100 - total)
  }

  /** What a stride slot adds to the stride policy's pass. */
  function CostS(total: int): int
    requires total != 0
  {
    10000 / total
  }

  /** revaluate_PASS. */
  function Revalued(s: Sched, m: Mode): Sched
    requires s.total != 100
  {
    if s.total == 0 then s.(passM := 0, passS := 0, maxPass := 0)
    else if m.MLFQ? then s.(passM := s.passM + CostM(s.total))
    else s.(passS := s.passS + CostS(s.total))
  }

  /** The whole accounting after the process in slot r ran in mode m. */
  function Accounted(s: Sched, m: Mode, r: nat): Sched
    requires r < |s.procs| && s.total != 100 && (m.Stride? ==> s.procs[r].share != 0)
  {
    Revalued(if m.MLFQ? then AfterMlfq(s, r) else AfterStride(s, r), m)
  }

  /** The slot that the scheduler loop switches to. */
  ghost predicate Selected(s: Sched, r: nat) {
    if ModeOf(s).MLFQ? then if SomeChoosable(s.procs) then IsPick(s.procs, r) else r == 0
    else if SomePassVisible(s.procs) then IsLeastPass(s.procs, r) else r == 0
  }

  lemma SelectedUnique(s: Sched, r: nat, q: nat)
    requires Selected(s, r) && Selected(s, q)
    ensures r == q
  {
    if r < q {
    } else if q < r {
    }
  }

  /** One slot: the process selected is ready in the mode whose turn it is, runs, yields and is ready again. */
  ghost predicate Slot(s: Sched, r: nat, e: Sched) {
    && |s.procs| == NPROC && r < NPROC && s.total != 100 && Selected(s, r)
    && var m := ModeOf(s);
       && Ready(s.procs[r], m)
       && (m.Stride? ==> s.procs[r].share != 0)
       && e == Accounted(s, m, r)
  }

  /** Every stride process has a share. */
  ghost predicate Shared(procs: seq<Proc>) {
    forall j :: 0 <= j < |procs| && procs[j].mode.Stride? ==> procs[j].share >= 1
  }

  /** What the next round of the scheduler loop needs to be a slot: the scan of the policy whose turn it is sees a
      process, or slot 0, to which it falls, happens to be ready. */
  ghost predicate SlotAhead(s: Sched)
    requires |s.procs| == NPROC
  {
    if ModeOf(s).MLFQ? then SomeChoosable(s.procs) || Ready(s.procs[0], MLFQ)
    else SomePassVisible(s.procs) || Ready(s.procs[0], Stride)
  }

  /** What makes the next round divide by zero. */
  ghost predicate TrapAhead(s: Sched)
    requires |s.procs| == NPROC
  {
    ModeOf(s).Stride? && !SomePassVisible(s.procs) && s.procs[0].share == 0
  }

  /** The conditions on the state before a round, exactly, in terms of the slot selected. */
  lemma RoundAhead(s: Sched, r: nat)
    requires |s.procs| == NPROC && Shared(s.procs) && Selected(s, r)
    ensures r < NPROC
    ensures TrapAhead(s) <==> ModeOf(s).Stride? && s.procs[r].share == 0
    ensures SlotAhead(s) <==> Ready(s.procs[r], ModeOf(s))
    ensures SlotAhead(s) ==> !TrapAhead(s)
  {
    if ModeOf(s).Stride? && SomePassVisible(s.procs) {
      assert s.procs[r].share >= 1;
    }
  }

  /** When set_cpu_share accepts share i. */
  predicate Grants(s: Sched, r: nat, i: int)
    requires r < |s.procs|
  {
    i > 0 && s.total + i - (if s.procs[r].mode.Stride? then s.procs[r].share else 0) <= 80
  }

  /** What it then does: the total grows only for a newcomer. */
  function ShareSet(s: Sched, r: nat, i: int): Sched
    requires r < |s.procs|
  {
    s.(procs := s.procs[r := s.procs[r].(share := i, mode := Stride, pass := s.maxPass)],
       total := if s.procs[r].mode.Stride? then s.total else s.total + i)
  }

  function Left(s: Sched, r: nat): Sched
    requires r < |s.procs|
  {
    s.(procs := s.procs[r := s.procs[r].(left := true)],
       total := if s.procs[r].mode.Stride? then s.total - s.procs[r].share else s.total)
  }

  class Scheduler {
    var procs: seq<Proc>
    var total: int
    var passM: int
    var passS: int
    var maxPass: int
    var ticks: nat

    /** The table as the kernel finds it at boot. */
    constructor ()
      ensures procs == seq(NPROC, _ => Proc(Unused, MLFQ, LOW, 0, 0, 0, false))
      ensures total == 0 && passM == 0 && passS == 0 && maxPass == 0 && ticks == 0
    {
      procs := seq(NPROC, _ => Proc(Unused, MLFQ, LOW, 0, 0, 0, false));
      total, passM, passS, maxPass, ticks := 0, 0, 0, 0, 0;
    }

    ghost function State(): Sched
      reads this
    {
      Sched(procs, total, passM, passS, maxPass, ticks)
    }

    /** The scheduler loop up to swtch: choose a policy and a process, and start it. */
    method Dispatch() returns (m: Mode, r: nat)
      requires |procs| == NPROC && Levels(procs)
      modifies this`procs
      ensures m == ModeOf(old(State())) && r < NPROC
      ensures State() == old(State()).(procs := old(procs)[r := old(procs)[r].(state := Running)])
      ensures Selected(old(State()), r)
    {
      if total == 0 || passM <= passS {
        m := MLFQ;
        r := FindRunnableMLFQ(procs);
      } else {
        m := Stride;
        r := FindRunnableStride(procs);
      }
      procs := procs[r := procs[r].(state := Running)];
    }

    /** init_MLFQ_state: its loop over the table. */
    method InitMlfqState()
      modifies this`procs, this`ticks
      ensures procs == if old(ticks) >= 100 then BoostAll(old(procs)) else old(procs)
      ensures ticks == if old(ticks) >= 100 then 0 else old(ticks)
    {
      if ticks >= 100 {
        var p := 0;
        while p < |procs|
          invariant 0 <= p <= |procs| == |old(procs)| && ticks == old(ticks)
          invariant forall j :: 0 <= j < p ==> procs[j] == Boosted(old(procs)[j])
          invariant forall j :: p <= j < |procs| ==> procs[j] == old(procs)[j]
        {
          if procs[p].state.Runnable? {
            procs := procs[p := procs[p].(tick := 0, level := HIGH)];
          }
          p := p + 1;
        }
        ticks := 0;
      }
    }

    /** The scheduler loop after swtch returns. False is a division by zero in adjust_Stride_state. */
    method Account(m: Mode, r: nat) returns (ok: bool)
      requires r < |procs| && total != 100
      modifies this
      ensures ok <==> m.MLFQ? || old(procs)[r].share != 0
      ensures ok ==> State() == Accounted(old(State()), m, r)
    {
      if m.MLFQ? {
        var p := procs[r].(tick := procs[r].tick + 1);
        ticks := ticks + 1;
        if p.level == HIGH && p.tick >= 5 {
          p := p.(level := MID, tick := 0);
        } else if p.level == MID && p.tick >= 10 {
          p := p.(level := LOW, tick := 0);
        }
        procs := procs[r := p];
        InitMlfqState();
      } else {
        if procs[r].share == 0 {
          return false;
        }
        var p := procs[r].(pass := procs[r].pass + 10000 / procs[r].share);
        procs := procs[r := p];
        if p.pass > maxPass {
          maxPass := p.pass;
        }
      }
      if total == 0 {
        passM, passS, maxPass := 0, 0, 0;
      } else if m.MLFQ? {
        passM := passM + 10000 / (100 - total);
      } else {
        passS := passS + 10000 / total;
      }
      ok := true;
    }

    /** One round of the scheduler loop around a process that only yields. With every stride process holding a share,
        whether it traps and whether it is a slot can be told from the state before it. */
    method Round() returns (r: nat, ok: bool)
      requires |procs| == NPROC && Levels(procs) && total != 100
      modifies this
      ensures Selected(old(State()), r) && r < NPROC
      ensures ok <==> ModeOf(old(State())).MLFQ? || old(procs)[r].share != 0
      ensures Shared(old(procs)) ==> (!ok <==> TrapAhead(old(State())))
      ensures Shared(old(procs)) ==> (SlotAhead(old(State())) <==> ok && Slot(old(State()), r, State()))
      ensures ok ==> State() == Accounted(old(State()).(procs := old(procs)[r := old(procs)[r].(state := Runnable)]),
                                          ModeOf(old(State())), r)
    {
      var m;
      m, r := Dispatch();
      procs := procs[r := procs[r].(state := Runnable)];
      ghost var s := State();
      if Shared(old(procs)) {
        RoundAhead(old(State()), r);
      }
      ok := Account(m, r);
      assert s.procs == old(procs)[r := old(procs)[r].(state := Runnable)];
      assert old(procs)[r].state.Runnable? ==> s.procs == old(procs);
    }

    /** set_cpu_share by the process in slot r, as written: a process that is already in stride mode
        has its share overwritten before the old share is subtracted. */
    method SetCpuShare(r: nat, i: int) returns (ret: int)
      requires r < |procs|
      modifies this
      ensures ret == 0 || ret == -1
      ensures ret == 0 <==> Grants(old(State()), r, i)
      ensures State() == if ret == 0 then ShareSet(old(State()), r, i) else old(State())
    {
      if i <= 0 {
        return -1;
      }
      if procs[r].mode.MLFQ? {
        if total + i > 80 {
          return -1;
        }
        total := total + i;
        procs := procs[r := procs[r].(share := i, mode := Stride, pass := maxPass)];
        return 0;
      } else {
        if total + i - procs[r].share > 80 {
          return -1;
        }
        procs := procs[r := procs[r].(share := i)];
        total := total + i - procs[r].share;
        procs := procs[r := procs[r].(pass := maxPass)];
        return 0;
      }
    }

    /** The part of exit() that concerns shares. */
    method LeaveShares(r: nat)
      requires r < |procs|
      modifies this
      ensures State() == Left(old(State()), r)
    {
      if procs[r].mode.Stride? {
        total := total - procs[r].share;
      }
      procs := procs[r := procs[r].(left := true)];
    }
  }
}
