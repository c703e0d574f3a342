/** What the scheduler guarantees processes that always want to run. */
module Fairness {
  import opened Counting
  import opened Scheduler

  /** States s[0], ..., s[n] with slot i taking s[i] to s[i+1] and running process picks[i]. */
  ghost predicate Run(s: seq<Sched>, picks: seq<nat>) {
    && |s| == |picks| + 1
    && forall i :: 0 <= i < |picks| ==> Slot(s[i], picks[i], s[i + 1])
  }

  lemma RunTail(s: seq<Sched>, picks: seq<nat>)
    requires Run(s, picks) && picks != []
    ensures Run(s[1..], picks[1..]) && Slot(s[0], picks[0], s[1])
  {
    forall i | 0 <= i < |picks| - 1
      ensures Slot(s[1..][i], picks[1..][i], s[1..][i + 1])
    {
      assert Slot(s[i + 1], picks[i + 1], s[i + 1 + 1]);
    }
    assert Slot(s[0], picks[0], s[0 + 1]);
  }

  /** Slots given to a policy. */
  ghost function Slots(s: seq<Sched>, m: Mode): nat {
    if |s| <= 1 then 0 else Bit(ModeOf(s[0]) == m) + Slots(s[1..], m)
  }

  /** Slots given to process i by a policy. */
  ghost function SlotsOf(s: seq<Sched>, picks: seq<nat>, m: Mode, i: nat): nat
    requires |s| == |picks| + 1
  {
    if picks == [] then 0 else Bit(ModeOf(s[0]) == m && picks[0] == i) + SlotsOf(s[1..], picks[1..], m, i)
  }

  /** A slot changes nobody's state, mode or share. */
  lemma SlotKeeps(s: Sched, r: nat, e: Sched)
    requires Slot(s, r, e)
    ensures |e.procs| == NPROC && e.total == s.total
    ensures forall j :: 0 <= j < NPROC ==>
              && e.procs[j].state == s.procs[j].state && e.procs[j].mode == s.procs[j].mode
              && e.procs[j].share == s.procs[j].share
  {
  }

  // ----- MLFQ: bounded waiting -----

  /** What holds of the table in every state of the kernel. */
  ghost predicate TableOk(s: Sched) {
    s.ticks < 100 && |s.procs| == NPROC && Levels(s.procs)
  }

  lemma TableKept(s: Sched, r: nat, e: Sched)
    requires TableOk(s) && Slot(s, r, e)
    ensures TableOk(e)
  {
  }

  /** Ticks of ready MLFQ processes stay out of reach of 1000, where find_runnable_MLFQ loses sight of
      them. A process ready since the last boost has tick <= ticks. */
  ghost predicate TicksOk(s: Sched) {
    && TableOk(s)
    && forall j :: 0 <= j < NPROC && Ready(s.procs[j], MLFQ) ==> s.procs[j].tick < 900 + s.ticks
  }

  lemma TicksKept(s: Sched, r: nat, e: Sched)
    requires TicksOk(s) && Slot(s, r, e)
    ensures TicksOk(e)
  {
  }

  predicate Fresh(p: Proc) {
    Ready(p, MLFQ) && p.level == HIGH && p.tick == 0
  }

  predicate ReadyMlfq(p: Proc) {
    Ready(p, MLFQ)
  }

  /** An MLFQ slot from a state in which q is fresh runs a fresh process, and unless that is q or a
      boost comes, one process fewer is fresh. */
  lemma FreshSlot(s: Sched, r: nat, e: Sched, q: nat)
    requires TableOk(s) && Slot(s, r, e) && ModeOf(s).MLFQ? && q < NPROC && Fresh(s.procs[q]) && r != q
    requires s.ticks + Count(s.procs, Fresh) <= 100
    ensures Fresh(e.procs[q]) && Count(s.procs, Fresh) >= 2
    ensures Count(e.procs, Fresh) == Count(s.procs, Fresh) - 1
    ensures e.ticks + Count(e.procs, Fresh) <= 100
  {
    assert IsPick(s.procs, r);
    assert !Before(s.procs[q], s.procs[r]);
    assert Fresh(s.procs[r]);
    if q < r {
      CountTwo(s.procs, q, r, Fresh);
    } else {
      CountTwo(s.procs, r, q, Fresh);
    }
    CountUpdate(s.procs, r, Ticked(s.procs[r]), Fresh);
  }

  lemma StrideSlotKeepsMlfq(s: Sched, r: nat, e: Sched)
    requires Slot(s, r, e) && ModeOf(s).Stride?
    ensures e.ticks == s.ticks && |e.procs| == |s.procs|
    ensures Count(e.procs, Fresh) == Count(s.procs, Fresh)
    ensures Count(e.procs, ReadyMlfq) == Count(s.procs, ReadyMlfq)
    ensures forall j :: 0 <= j < NPROC ==> (Fresh(e.procs[j]) <==> Fresh(s.procs[j]))
  {
    CountSame(e.procs, s.procs, Fresh, Fresh);
    CountSame(e.procs, s.procs, ReadyMlfq, ReadyMlfq);
  }

  /** Once everything has been boosted, every process gets its turn before anyone gets a second one. */
  lemma {:induction false} AfterBoost(s: seq<Sched>, picks: seq<nat>, q: nat)
    requires Run(s, picks) && TableOk(s[0]) && q < NPROC && Fresh(s[0].procs[q])
    requires s[0].ticks + Count(s[0].procs, Fresh) <= 100
    requires Slots(s, MLFQ) >= Count(s[0].procs, Fresh)
    ensures SlotsOf(s, picks, MLFQ, q) >= 1
    decreases |picks|
  {
    CountOne(s[0].procs, q, Fresh);
    if picks != [] {
      RunTail(s, picks);
      TableKept(s[0], picks[0], s[1]);
      if ModeOf(s[0]).MLFQ? {
        if picks[0] != q {
          FreshSlot(s[0], picks[0], s[1], q);
          AfterBoost(s[1..], picks[1..], q);
        }
      } else {
        StrideSlotKeepsMlfq(s[0], picks[0], s[1]);
        AfterBoost(s[1..], picks[1..], q);
      }
    }
  }

  /** The slot that brings the hundredth tick makes every ready MLFQ process fresh. */
  lemma BoostSlot(s: Sched, r: nat, e: Sched)
    requires TableOk(s) && Slot(s, r, e) && ModeOf(s).MLFQ? && s.ticks == 99
    ensures e.ticks == 0 && TicksOk(e)
    ensures forall j :: 0 <= j < NPROC && Ready(s.procs[j], MLFQ) ==> Fresh(e.procs[j])
    ensures Count(e.procs, Fresh) == Count(s.procs, ReadyMlfq)
  {
    CountSame(e.procs, s.procs, Fresh, ReadyMlfq);
  }

  lemma MlfqSlotKeepsReady(s: Sched, r: nat, e: Sched)
    requires Slot(s, r, e)
    ensures Count(e.procs, ReadyMlfq) == Count(s.procs, ReadyMlfq)
  {
    SlotKeeps(s, r, e);
    CountSame(e.procs, s.procs, ReadyMlfq, ReadyMlfq);
  }

  /** Bounded waiting. With N ready MLFQ processes, each of them runs within 100 - ticks + N MLFQ slots,
      however the stride slots fall in between and whatever its ticks are. */
  lemma {:induction false} MlfqBoundedWaiting(s: seq<Sched>, picks: seq<nat>, q: nat)
    requires Run(s, picks) && TableOk(s[0]) && q < NPROC && Ready(s[0].procs[q], MLFQ)
    requires Slots(s, MLFQ) >= 100 - s[0].ticks + Count(s[0].procs, ReadyMlfq)
    ensures SlotsOf(s, picks, MLFQ, q) >= 1
    decreases |picks|
  {
    CountOne(s[0].procs, q, ReadyMlfq);
    if picks != [] {
      RunTail(s, picks);
      TableKept(s[0], picks[0], s[1]);
      SlotKeeps(s[0], picks[0], s[1]);
      MlfqSlotKeepsReady(s[0], picks[0], s[1]);
      if ModeOf(s[0]).MLFQ? && s[0].ticks == 99 {
        if picks[0] != q {
          BoostSlot(s[0], picks[0], s[1]);
          AfterBoost(s[1..], picks[1..], q);
        }
      } else {
        MlfqBoundedWaiting(s[1..], picks[1..], q);
      }
    }
  }

  // ----- MLFQ: quanta, allotments and boosts -----

  /** The time quantum of a level. */
  function Quantum(level: nat): nat {
    if level == HIGH then 1 else if level == MID then 2 else 4
  }

  /** Inside its quantum a process goes on running. */
  lemma QuantumHeld(s: Sched, r: nat, e: Sched)
    requires TableOk(s) && Slot(s, r, e) && ModeOf(s).MLFQ? && SomeChoosable(s.procs) && s.ticks < 99
    requires e.procs[r].level == s.procs[r].level && e.procs[r].tick % Quantum(s.procs[r].level) != 0
    requires ModeOf(e).MLFQ?
    ensures Selected(e, r)
  {
    assert IsPick(s.procs, r);
    assert Bucket(e.procs[r]) == Bucket(s.procs[r]);
    assert Choosable(e.procs[r]);
    forall j | 0 <= j < NPROC && j != r
      ensures e.procs[j] == s.procs[j]
    {
    }
  }

  /** At the end of its quantum it gives way to any process of its level that has run less. */
  lemma QuantumOver(e: Sched, r: nat, j: nat)
    requires |e.procs| == NPROC && Levels(e.procs) && r < NPROC && j < NPROC && ModeOf(e).MLFQ?
    requires Choosable(e.procs[j]) && e.procs[j].level == e.procs[r].level && e.procs[j].tick < e.procs[r].tick
    requires e.procs[r].tick % Quantum(e.procs[r].level) == 0
    ensures !Selected(e, r)
  {
    assert Before(e.procs[j], e.procs[r]);
  }

  /** Within the allotments: 5 ticks at HIGH, 10 at MID, any number at LOW. */
  predicate Allotted(p: Proc) {
    p.level <= HIGH && (p.level == HIGH ==> p.tick < 5) && (p.level == MID ==> p.tick < 10)
  }

  /** Ticks since p was last at HIGH with none. */
  function Used(p: Proc): nat {
    if p.level == HIGH then p.tick else if p.level == MID then 5 + p.tick else 15 + p.tick
  }

  /** Until the next boost a process's ticks are its MLFQ slots, and its level follows from them. */
  lemma {:induction false} LevelFollowsSlots(s: seq<Sched>, picks: seq<nat>, q: nat)
    requires Run(s, picks) && q < NPROC && |s[0].procs| == NPROC && Allotted(s[0].procs[q])
    requires s[0].ticks + Slots(s, MLFQ) < 100
    ensures |s[|picks|].procs| == NPROC
    ensures var p, k := s[|picks|].procs[q], Used(s[0].procs[q]) + SlotsOf(s, picks, MLFQ, q);
            Allotted(p) && Used(p) == k && p.level == if k < 5 then HIGH else if k < 15 then MID else LOW
    decreases |picks|
  {
    hide Slot;
    if picks != [] {
      RunTail(s, picks);
      UsedStep(s[0], picks[0], s[1], q);
      LevelFollowsSlots(s[1..], picks[1..], q);
    }
  }

  lemma UsedStep(s: Sched, r: nat, e: Sched, q: nat)
    requires Slot(s, r, e) && q < NPROC && Allotted(s.procs[q])
    requires s.ticks + Bit(ModeOf(s).MLFQ?) < 100
    ensures |e.procs| == NPROC && e.ticks == s.ticks + Bit(ModeOf(s).MLFQ?) && Allotted(e.procs[q])
    ensures Used(e.procs[q]) == Used(s.procs[q]) + Bit(ModeOf(s).MLFQ? && r == q)
  {
    hide StrideOf, CostM, CostS, IsPick, IsLeastPass, BoostAll;
  }

  /** A boost comes with every hundredth MLFQ slot and at no other time. */
  lemma {:induction false} BoostsCounted(s: seq<Sched>, picks: seq<nat>)
    requires Run(s, picks) && s[0].ticks < 100
    ensures s[|picks|].ticks == (s[0].ticks + Slots(s, MLFQ)) % 100
    decreases |picks|
  {
    hide Slot;
    if picks != [] {
      RunTail(s, picks);
      TickStep(s[0], picks[0], s[1]);
      BoostsCounted(s[1..], picks[1..]);
      Wraps(s[0].ticks + Bit(ModeOf(s[0]).MLFQ?), Slots(s[1..], MLFQ));
    }
  }

  lemma Wraps(a: nat, b: nat)
    ensures (a % 100 + b) % 100 == (a + b) % 100
  {
    assert a + b == 100 * (a / 100) + (a % 100 + b);
  }

  lemma TickStep(s: Sched, r: nat, e: Sched)
    requires Slot(s, r, e) && s.ticks < 100
    ensures e.ticks == (s.ticks + Bit(ModeOf(s).MLFQ?)) % 100
    ensures ModeOf(s).MLFQ? && s.ticks < 99 ==> forall j :: 0 <= j < NPROC && j != r ==> e.procs[j] == s.procs[j]
  {
    hide StrideOf, CostM, CostS, IsPick, IsLeastPass, BoostAll;
  }

  // ----- stride: shares are kept -----

  /** Every ready stride process is within B below the tracked maximum pass, B being no less than anyone's stride. */
  ghost predicate SpreadOk(s: Sched, B: int) {
    && |s.procs| == NPROC && s.total >= 1
    && forall j :: 0 <= j < NPROC && Ready(s.procs[j], Stride) ==>
         && s.procs[j].share >= 1 && 10000 / s.procs[j].share <= B
         && s.maxPass - B <= s.procs[j].pass <= s.maxPass
  }

  /** A process that gets a share, its first or another one, and so the tracked maximum as its pass, keeps the spread, with
      its own stride counted in, and starts behind every other one. */
  lemma ShareSetKeepsSpread(s: Sched, B: int, r: nat, i: int)
    requires |s.procs| == NPROC && r < NPROC && Grants(s, r, i) && 0 <= s.total
    requires s.procs[r].mode.Stride? ==> s.total >= 1
    requires s.total >= 1 ==> SpreadOk(s, B)
    requires s.total == 0 ==> forall j :: 0 <= j < NPROC ==> !Ready(s.procs[j], Stride)
    ensures SpreadOk(ShareSet(s, r, i), if B > 10000 / i then B else 10000 / i)
    ensures forall j :: 0 <= j < NPROC && Ready(s.procs[j], Stride) ==> s.procs[j].pass <= ShareSet(s, r, i).procs[r].pass
  {
  }

  lemma StrideIs(share: int)
    requires share != 0
    ensures StrideOf(share) == 10000 / share
  {
  }

  /** A slot keeps the spread; the maximum grows by at most B. */
  lemma SpreadKept(s: Sched, r: nat, e: Sched, B: int, i: nat)
    requires Slot(s, r, e) && SpreadOk(s, B) && s.maxPass < NOPASS
    requires i < NPROC && Ready(s.procs[i], Stride)
    ensures SpreadOk(e, B) && e.maxPass <= s.maxPass + B
    ensures e.procs[i].pass == s.procs[i].pass + Bit(ModeOf(s).Stride? && r == i) * (10000 / s.procs[i].share)
    ensures Ready(e.procs[i], Stride) && e.procs[i].share == s.procs[i].share
  {
    hide StrideOf, CostM, CostS;
    if ModeOf(s).Stride? {
      assert SomePassVisible(s.procs);
      assert IsLeastPass(s.procs, r);
      StrideIs(s.procs[r].share);
    }
  }

  /** A process's pass counts its slots. */
  lemma {:induction false} PassCountsSlots(s: seq<Sched>, picks: seq<nat>, B: int, i: nat)
    requires Run(s, picks) && SpreadOk(s[0], B) && forall k :: 0 <= k < |picks| ==> s[k].maxPass < NOPASS
    requires i < NPROC && Ready(s[0].procs[i], Stride)
    ensures SpreadOk(s[|picks|], B)
    ensures Ready(s[|picks|].procs[i], Stride)
    ensures s[|picks|].procs[i].pass ==
              s[0].procs[i].pass + SlotsOf(s, picks, Stride, i) * (10000 / s[0].procs[i].share)
    decreases |picks|
  {
    if picks != [] {
      RunTail(s, picks);
      SpreadKept(s[0], picks[0], s[1], B, i);
      PassCountsSlots(s[1..], picks[1..], B, i);
      Spread(Bit(ModeOf(s[0]) == Stride && picks[0] == i), SlotsOf(s[1..], picks[1..], Stride, i),
             10000 / s[0].procs[i].share);
    }
  }

  lemma PassesAgree(s: seq<Sched>, picks: seq<nat>, B: int, i: nat, j: nat)
    requires Run(s, picks) && SpreadOk(s[0], B) && forall k :: 0 <= k < |picks| ==> s[k].maxPass < NOPASS
    requires i < NPROC && Ready(s[0].procs[i], Stride) && j < NPROC && Ready(s[0].procs[j], Stride)
    ensures var x := SlotsOf(s, picks, Stride, i) * (10000 / s[0].procs[i].share);
            var y := SlotsOf(s, picks, Stride, j) * (10000 / s[0].procs[j].share);
            -2 * B <= x - y <= 2 * B
  {
    PassCountsSlots(s, picks, B, i);
    PassCountsSlots(s, picks, B, j);
  }

  /** Proportional sharing: over any window, slots divided by shares agree between any two ready stride processes up to
      a constant and the rounding of 10000 / share, however long the window, while the scan sees the passes. */
  lemma StrideProportional(s: seq<Sched>, picks: seq<nat>, B: int, i: nat, j: nat)
    requires Run(s, picks) && SpreadOk(s[0], B) && forall k :: 0 <= k < |picks| ==> s[k].maxPass < NOPASS
    requires i < NPROC && Ready(s[0].procs[i], Stride) && j < NPROC && Ready(s[0].procs[j], Stride)
    ensures var a, b := s[0].procs[i].share, s[0].procs[j].share;
            var x, y := SlotsOf(s, picks, Stride, i), SlotsOf(s, picks, Stride, j);
            && -2 * B <= x * (10000 / a) - y * (10000 / b) <= 2 * B
            && 10000 * (x * b - y * a) <= (2 * B + x) * (a * b)
            && 10000 * (y * a - x * b) <= (2 * B + y) * (a * b)
  {
    hide Slot, SlotsOf;
    PassesAgree(s, picks, B, i, j);
    WeighedBoth(SlotsOf(s, picks, Stride, i), SlotsOf(s, picks, Stride, j), s[0].procs[i].share, s[0].procs[j].share,
                2 * B);
  }

  lemma WeighedBoth(x: int, y: int, a: int, b: int, k: int)
    requires x >= 0 && y >= 0 && a >= 1 && b >= 1 && -k <= x * (10000 / a) - y * (10000 / b) <= k
    ensures 10000 * (x * b - y * a) <= (k + x) * (a * b)
    ensures 10000 * (y * a - x * b) <= (k + y) * (a * b)
  {
    Weighed(x, y, a, b, k);
    Weighed(y, x, b, a, k);
    assert a * b == b * a;
  }

  /** From costs back to the quantities whose reciprocals they are. */
  lemma Weighed(x: int, y: int, a: int, b: int, k: int)
    requires x >= 0 && y >= 0 && a >= 1 && b >= 1 && x * (10000 / a) - y * (10000 / b) <= k
    ensures 10000 * (x * b - y * a) <= (k + x) * (a * b)
  {
    var c, d := 10000 / a, 10000 / b;
    assert 10000 < c * a + a && d * b <= 10000;
    calc {
      10000 * (x * b - y * a);
    ==
      (x * b) * 10000 - (y * a) * 10000;
    <= { Times(x * b, 10000, c * a + a); Times(y * a, d * b, 10000); }
      (x * b) * (c * a + a) - (y * a) * (d * b);
    == { Regroup(x, y, a, b, c, d); }
      (x * c - y * d + x) * (a * b);
    <= { Times(a * b, x * c - y * d + x, k + x); }
      (k + x) * (a * b);
    }
  }

  lemma Times(n: int, u: int, v: int)
    requires n >= 0 && u <= v
    ensures n * u <= n * v
  {
  }

  lemma Regroup(x: int, y: int, a: int, b: int, c: int, d: int)
    ensures (x * b) * (c * a + a) - (y * a) * (d * b) == (x * c - y * d + x) * (a * b)
  {
  }

  /** The larger share gets no fewer slots, up to a constant. */
  lemma LargerShareMoreSlots(s: seq<Sched>, picks: seq<nat>, B: int, i: nat, j: nat)
    requires Run(s, picks) && SpreadOk(s[0], B) && forall k :: 0 <= k < |picks| ==> s[k].maxPass < NOPASS
    requires i < NPROC && Ready(s[0].procs[i], Stride) && j < NPROC && Ready(s[0].procs[j], Stride)
    requires s[0].procs[i].share >= s[0].procs[j].share
    ensures (SlotsOf(s, picks, Stride, j) - SlotsOf(s, picks, Stride, i)) * (10000 / s[0].procs[j].share) <= 2 * B
  {
    hide Slot, SlotsOf;
    PassesAgree(s, picks, B, i, j);
    Cheaper(SlotsOf(s, picks, Stride, i), SlotsOf(s, picks, Stride, j), s[0].procs[i].share, s[0].procs[j].share, 2 * B);
  }

  lemma Cheaper(x: int, y: int, a: int, b: int, k: int)
    requires x >= 0 && a >= b >= 1 && -k <= x * (10000 / a) - y * (10000 / b)
    ensures (y - x) * (10000 / b) <= k
  {
    QuotientFalls(b, a);
    var c, d := 10000 / a, 10000 / b;
    Times(x, c, d);
    Spread(y, -x, d);
  }

  // ----- the two policies against each other -----

  /** The gap between the policies' passes, and what it implies for an empty stride side. */
  ghost predicate GapOk(s: Sched) {
    && 0 <= s.total <= 80
    && -10000 < s.passM - s.passS <= 500
    && (s.total == 0 ==> s.passM == s.passS == s.maxPass == 0)
  }

  lemma CostBounds(T: int)
    requires 0 <= T <= 80
    ensures CostM(T) == 10000 / (100 - T) && 100 <= CostM(T) <= 500
    ensures T > 0 ==> CostS(T) == 10000 / T && 125 <= CostS(T) <= 10000
  {
    QuotientBounds(100 - T, 20, 100);
    if T > 0 {
      QuotientBounds(T, 1, 80);
    }
  }

  lemma QuotientBounds(d: int, lo: int, hi: int)
    requires 0 < lo <= d <= hi
    ensures 10000 / hi <= 10000 / d <= 10000 / lo
  {
    QuotientFalls(d, hi);
    QuotientFalls(lo, d);
  }

  lemma QuotientFalls(d: int, e: int)
    requires 0 < d <= e
    ensures 10000 / e <= 10000 / d
  {
    var k, q := 10000 / e, 10000 / d;
    assert 0 <= k && k * e <= 10000;
    assert 10000 < q * d + d;
    Squeeze(k, q, d, e);
  }

  lemma Squeeze(k: int, q: int, d: int, e: int)
    requires 0 < d <= e && 0 <= k && k * e < q * d + d
    ensures k <= q
  {
    assert k * d <= k * e;
    assert (k - q - 1) * d < 0;
  }

  lemma SlotGap(s: Sched, r: nat, e: Sched)
    requires Slot(s, r, e) && GapOk(s)
    ensures GapOk(e) && e.total == s.total
    ensures s.total > 0 ==>
              && e.passM == s.passM + Bit(ModeOf(s).MLFQ?) * (10000 / (100 - s.total))
              && e.passS == s.passS + Bit(ModeOf(s).Stride?) * (10000 / s.total)
  {
    CostBounds(s.total);
    hide CostM, CostS, IsPick, IsLeastPass, BoostAll;
  }

  /** The policies' slots, weighted by their costs, account for the change of the gap, and so differ by less than
      10500 over any window. */
  lemma {:induction false} PolicyProportional(s: seq<Sched>, picks: seq<nat>)
    requires Run(s, picks) && GapOk(s[0]) && s[0].total > 0
    ensures GapOk(s[|picks|]) && s[|picks|].total == s[0].total
    ensures s[|picks|].passM - s[|picks|].passS == s[0].passM - s[0].passS
              + Slots(s, MLFQ) * (10000 / (100 - s[0].total)) - Slots(s, Stride) * (10000 / s[0].total)
    ensures -10500 < Slots(s, MLFQ) * (10000 / (100 - s[0].total)) - Slots(s, Stride) * (10000 / s[0].total) < 10500
    decreases |picks|
  {
    hide Slot;
    if picks != [] {
      RunTail(s, picks);
      SlotGap(s[0], picks[0], s[1]);
      assert GapOk(s[1]) && 0 < s[1].total < 100;
      PolicyProportional(s[1..], picks[1..]);
      var m, n := Slots(s[1..], MLFQ), Slots(s[1..], Stride);
      Spread(Bit(ModeOf(s[0]) == MLFQ), m, 10000 / (100 - s[0].total));
      Spread(Bit(ModeOf(s[0]) == Stride), n, 10000 / s[0].total);
    }
  }

  /** Stride gets its percentage: of n slots in a row it gets the fraction total / 100, up to a constant and a quarter
      of a percent, which is the rounding of 10000 / total and 10000 / (100 - total). */
  lemma StrideGetsItsPercentage(s: seq<Sched>, picks: seq<nat>)
    requires Run(s, picks) && GapOk(s[0]) && s[0].total > 0
    ensures var T, n := s[0].total, |picks|;
            -(10500 + n) <= 4 * (100 * Slots(s, Stride) - T * n) <= 10500 + n
  {
    hide Slot, Slots;
    PolicyProportional(s, picks);
    SlotsAdd(s);
    Percentage(Slots(s, MLFQ), Slots(s, Stride), s[0].total);
  }

  lemma Percentage(m: int, n: int, T: int)
    requires m >= 0 && n >= 0 && 0 < T < 100
    requires -10500 <= m * (10000 / (100 - T)) - n * (10000 / T) <= 10500
    ensures -(10500 + m + n) <= 4 * (100 * n - T * (m + n)) <= 10500 + m + n
  {
    WeighedBoth(m, n, 100 - T, T, 10500);
    Gathered(m, n, T);
    var q, x := (100 - T) * T, T * (m + n) - 100 * n;
    Squares(T);
    Times(10500 + m, q, 2500);
    Times(10500 + n, q, 2500);
    assert 10000 * x <= (10500 + m) * 2500 && 10000 * -x <= (10500 + n) * 2500;
  }

  lemma Gathered(m: int, n: int, T: int)
    ensures m * T - n * (100 - T) == T * (m + n) - 100 * n
    ensures n * (100 - T) - m * T == -(T * (m + n) - 100 * n)
  {
  }

  lemma Squares(T: int)
    ensures (100 - T) * T <= 2500
  {
    assert (T - 50) * (T - 50) == T * T - 100 * T + 2500;
    assert (T - 50) * (T - 50) >= 0;
  }

  lemma Spread(b: int, k: int, d: int)
    ensures (b + k) * d == b * d + k * d
  {
  }

  lemma {:induction false} SlotsAdd(s: seq<Sched>)
    requires |s| >= 1
    ensures Slots(s, MLFQ) + Slots(s, Stride) == |s| - 1
  {
    if |s| > 1 {
      SlotsAdd(s[1..]);
    }
  }

  lemma {:induction false} NoStrideWithoutShares(s: seq<Sched>, picks: seq<nat>)
    requires Run(s, picks) && s[0].total == 0
    ensures Slots(s, Stride) == 0
    decreases |picks|
  {
    if picks != [] {
      RunTail(s, picks);
      SlotKeeps(s[0], picks[0], s[1]);
      NoStrideWithoutShares(s[1..], picks[1..]);
    }
  }

  /** Enough slots of any kind contain enough MLFQ slots. */
  lemma EnoughMlfqSlots(s: seq<Sched>, picks: seq<nat>)
    requires Run(s, picks) && GapOk(s[0]) && |picks| >= 904
    ensures Slots(s, MLFQ) >= 164
  {
    SlotsAdd(s);
    if s[0].total == 0 {
      NoStrideWithoutShares(s, picks);
    } else {
      PolicyProportional(s, picks);
      CostBounds(s[0].total);
      hide CostM, CostS, Slot, Run;
      FewMeansShort(Slots(s, MLFQ), Slots(s, Stride), 10000 / (100 - s[0].total), 10000 / s[0].total);
    }
  }

  lemma FewMeansShort(m: int, n: int, a: int, b: int)
    requires 0 <= m && 0 <= n && 100 <= a <= 500 && 125 <= b && m * a - n * b > -10500
    ensures m < 164 ==> m + n < 904
  {
    if m < 164 {
      assert m * a <= 163 * 500;
      assert n * 125 <= n * b;
    }
  }

  /** No starvation across policies: whatever the shares, every ready MLFQ process runs at least once
      in any 904 consecutive slots. */
  lemma EveryMlfqProcessRuns(s: seq<Sched>, picks: seq<nat>, q: nat)
    requires Run(s, picks) && TableOk(s[0]) && GapOk(s[0]) && |picks| >= 904
    requires q < NPROC && Ready(s[0].procs[q], MLFQ)
    ensures SlotsOf(s, picks, MLFQ, q) >= 1
  {
    EnoughMlfqSlots(s, picks);
    MlfqBoundedWaiting(s, picks, q);
  }

  // ----- slots go on -----

  lemma PickExists(procs: seq<Proc>) returns (r: nat)
    requires SomeChoosable(procs)
    ensures IsPick(procs, r)
  {
    var p, found := 0, false;
    r := 0;
    while p < |procs|
      invariant 0 <= p <= |procs|
      invariant if found then r < p && Choosable(procs[r]) else forall j :: 0 <= j < p ==> !Choosable(procs[j])
      invariant found ==> forall j :: 0 <= j < p && Choosable(procs[j]) ==>
                  !Before(procs[j], procs[r]) && (j < r ==> Before(procs[r], procs[j]))
    {
      if Choosable(procs[p]) && (!found || Before(procs[p], procs[r])) {
        r, found := p, true;
      }
      p := p + 1;
    }
  }

  lemma LeastPassExists(procs: seq<Proc>) returns (r: nat)
    requires SomePassVisible(procs)
    ensures IsLeastPass(procs, r)
  {
    var p, found := 0, false;
    r := 0;
    while p < |procs|
      invariant 0 <= p <= |procs|
      invariant if found then r < p && Ready(procs[r], Stride) else forall j :: 0 <= j < p ==> !Ready(procs[j], Stride)
      invariant found ==> forall j :: 0 <= j < p && Ready(procs[j], Stride) ==>
                  procs[r].pass <= procs[j].pass && (j < r ==> procs[r].pass < procs[j].pass)
    {
      if Ready(procs[p], Stride) && (!found || procs[p].pass < procs[r].pass) {
        r, found := p, true;
      }
      p := p + 1;
    }
  }

  predicate SeenAtLeast(s: Sched, q: nat) {
    q < |s.procs| && Ready(s.procs[q], MLFQ) && s.procs[q].tick < 900 + s.ticks
  }

  /** Each policy has a ready process of its own that its scan will see for k more slots. */
  ghost predicate Sustained(s: Sched, k: nat) {
    && TableOk(s) && GapOk(s) && Shared(s.procs)
    && (exists q: nat :: SeenAtLeast(s, q))
    && (s.total > 0 ==>
          && (exists j :: 0 <= j < NPROC && Ready(s.procs[j], Stride))
          && (forall j :: 0 <= j < NPROC && Ready(s.procs[j], Stride) ==> s.procs[j].pass <= s.maxPass)
          && s.maxPass + 10000 * k < NOPASS)
  }

  lemma StrideAtMost(share: int)
    requires share >= 1
    ensures 0 <= StrideOf(share) <= 10000
  {
    QuotientFalls(1, share);
  }

  lemma SustainedHasSlot(s: Sched, k: nat)
    requires Sustained(s, k)
    ensures ModeOf(s).MLFQ? ==> SomeChoosable(s.procs)
    ensures ModeOf(s).Stride? ==> SomePassVisible(s.procs)
  {
    var q: nat :| SeenAtLeast(s, q);
    assert Choosable(s.procs[q]);
  }

  /** The next slot is there, and leaves enough for the slots after it. */
  lemma SustainedSlot(s: Sched, k: nat) returns (r: nat, e: Sched)
    requires Sustained(s, k + 1)
    ensures Slot(s, r, e) && Sustained(e, k)
  {
    SustainedHasSlot(s, k + 1);
    if ModeOf(s).MLFQ? {
      r := PickExists(s.procs);
    } else {
      r := LeastPassExists(s.procs);
    }
    e := Accounted(s, ModeOf(s), r);
    SustainedKept(s, k, r, e);
  }

  lemma SustainedKept(s: Sched, k: nat, r: nat, e: Sched)
    requires Sustained(s, k + 1) && Slot(s, r, e)
    ensures Sustained(e, k)
  {
    hide CostM, CostS, StrideOf, IsPick, IsLeastPass;
    SlotGap(s, r, e);
    TableKept(s, r, e);
    SlotKeeps(s, r, e);
    var q: nat :| SeenAtLeast(s, q);
    assert SeenAtLeast(e, q);
    if s.total > 0 {
      if ModeOf(s).Stride? {
        StrideAtMost(s.procs[r].share);
      }
      var j :| 0 <= j < NPROC && Ready(s.procs[j], Stride);
      assert Ready(e.procs[j], Stride);
    }
  }

  /** From a sustained state there is a run of n slots. */
  lemma {:induction false} SlotsGoOn(s0: Sched, n: nat) returns (s: seq<Sched>, picks: seq<nat>)
    requires Sustained(s0, n)
    ensures Run(s, picks) && s[0] == s0 && |picks| == n
    decreases n
  {
    hide Sustained, Slot;
    if n == 0 {
      s, picks := [s0], [];
    } else {
      var r, e := SustainedSlot(s0, n - 1);
      var rest, more := SlotsGoOn(e, n - 1);
      s, picks := [s0] + rest, [r] + more;
    }
  }

  /** The scheduler leaves no choice: two runs from one state agree slot by slot. */
  lemma {:induction false} RunsAgree(s: seq<Sched>, picks: seq<nat>, s': seq<Sched>, picks': seq<nat>, k: nat)
    requires Run(s, picks) && Run(s', picks') && s[0] == s'[0] && k <= |picks| && k <= |picks'|
    ensures s[k] == s'[k] && (k > 0 ==> picks[k - 1] == picks'[k - 1])
  {
    if k > 0 {
      RunsAgree(s, picks, s', picks', k - 1);
      assert Slot(s[k - 1], picks[k - 1], s[k]) && Slot(s'[k - 1], picks'[k - 1], s'[k]);
      SelectedUnique(s[k - 1], picks[k - 1], picks'[k - 1]);
    }
  }
}
