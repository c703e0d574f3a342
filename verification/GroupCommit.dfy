/** begin_op, log_write and end_op as an interleaving: each critical section of log.c is one step,
    any number of operations run at once. */
module GroupCommit {
  import opened Recovery
  import BufferCache

  /** `logged` is the set of blocks in the in-memory header; `ops` maps every outstanding
      operation to the blocks it has logged so far. */
  datatype State = State(logged: set<nat>, ops: map<nat, set<nat>>, committing: bool)

  datatype Step =
    | Begin(id: nat)               // begin_op lets the operation in
    | Write(id: nat, block: nat)   // log_write that does not panic
    | End(id: nat)                 // end_op up to commit()
    | CommitDone                   // commit() has returned, committing = 0

  const INITIAL := State({}, map[], false)

  /** The test of begin_op. */
  predicate Admits(s: State) {
    !s.committing && |s.logged| + (|s.ops| + 1) * MAXOPBLOCKS <= LOGSIZE
  }

  /** The first panic of log_write. */
  predicate TooBig(s: State, a: Area) {
    |s.logged| >= LOGSIZE || |s.logged| >= a.size - 1
  }

  /** What callers promise: an operation logs at most MAXOPBLOCKS distinct blocks. */
  predicate WithinBudget(s: State, id: nat, block: nat) {
    id in s.ops && |s.ops[id] + {block}| <= MAXOPBLOCKS
  }

  predicate Enabled(s: State, a: Area, t: Step) {
    match t
    case Begin(id) => id !in s.ops && Admits(s)
    case Write(id, block) => WithinBudget(s, id, block) && !TooBig(s, a)
    case End(id) => id in s.ops
    case CommitDone => s.committing
  }

  function Next(s: State, a: Area, t: Step): State
    requires Enabled(s, a, t)
  {
    match t
    case Begin(id) => s.(ops := s.ops[id := {}])
    case Write(id, block) => s.(logged := s.logged + {block}, ops := s.ops[id := s.ops[id] + {block}])
    case End(id) =>
      var rest := s.ops - {id};
      s.(ops := rest, committing := s.committing || |rest| == 0)
    case CommitDone => State({}, s.ops, false)
  }

  /** The state after a run of steps, if each was enabled in turn. */
  ghost predicate Reaches(s: State, a: Area, run: seq<Step>, e: State)
    decreases |run|
  {
    if run == [] then s == e
    else Enabled(s, a, run[0]) && Reaches(Next(s, a, run[0]), a, run[1..], e)
  }

  /** Some outstanding operation. */
  ghost function AnyOp(ops: map<nat, set<nat>>): (id: nat)
    requires |ops| > 0
    ensures id in ops
  {
    var id :| id in ops;
    id
  }

  /** The budget that outstanding operations have not used. */
  ghost function Unused(ops: map<nat, set<nat>>): int
    decreases |ops|
  {
    if |ops| == 0 then 0
    else MAXOPBLOCKS - |ops[AnyOp(ops)]| + Unused(ops - {AnyOp(ops)})
  }

  lemma SmallerMap(ops: map<nat, set<nat>>, k: nat)
    requires k in ops
    ensures |ops - {k}| == |ops| - 1
  {
    assert (ops - {k}).Keys == ops.Keys - {k};
  }

  lemma {:induction false} UnusedSplit(ops: map<nat, set<nat>>, k: nat)
    requires k in ops
    ensures Unused(ops) == MAXOPBLOCKS - |ops[k]| + Unused(ops - {k})
    decreases |ops|
  {
    SmallerMap(ops, k);
    var id := AnyOp(ops);
    SmallerMap(ops, id);
    if id != k {
      UnusedSplit(ops - {id}, k);
      UnusedSplit(ops - {k}, id);
      assert ops - {id} - {k} == ops - {k} - {id};
    }
  }

  /** The reservation never exceeds the log; a commit runs alone; an idle log is empty. */
  ghost predicate Inv(s: State) {
    && (forall id :: id in s.ops ==> |s.ops[id]| <= MAXOPBLOCKS && s.ops[id] <= s.logged)
    && |s.logged| + Unused(s.ops) <= LOGSIZE
    && (s.committing ==> |s.ops| == 0)
    && (|s.ops| == 0 && !s.committing ==> s.logged == {})
  }

  lemma UnusedAtMost(ops: map<nat, set<nat>>)
    ensures Unused(ops) <= |ops| * MAXOPBLOCKS
    decreases |ops|
  {
    if |ops| > 0 {
      var id :| id in ops;
      UnusedSplit(ops, id);
      UnusedAtMost(ops - {id});
    }
  }

  lemma UnusedNonNegative(ops: map<nat, set<nat>>)
    requires forall id :: id in ops ==> |ops[id]| <= MAXOPBLOCKS
    ensures Unused(ops) >= 0
    decreases |ops|
  {
    if |ops| > 0 {
      var id :| id in ops;
      UnusedSplit(ops, id);
      UnusedNonNegative(ops - {id});
    }
  }

  lemma BeginKeepsInv(s: State, a: Area, id: nat)
    requires Inv(s) && Enabled(s, a, Begin(id))
    ensures Inv(Next(s, a, Begin(id)))
  {
    hide Unused;
    var ops := s.ops[id := {}];
    UnusedSplit(ops, id);
    assert ops - {id} == s.ops;
    UnusedAtMost(s.ops);
  }

  lemma AddSize(s: set<nat>, b: nat)
    ensures |s + {b}| == if b in s then |s| else |s| + 1
  {
    if b in s {
      assert s + {b} == s;
    }
  }

  lemma WriteKeepsInv(s: State, a: Area, id: nat, block: nat)
    requires Inv(s) && Enabled(s, a, Write(id, block))
    ensures Inv(Next(s, a, Write(id, block)))
  {
    hide Unused;
    var ops := s.ops[id := s.ops[id] + {block}];
    UnusedSplit(s.ops, id);
    UnusedSplit(ops, id);
    assert ops - {id} == s.ops - {id};
    AddSize(s.ops[id], block);
    AddSize(s.logged, block);
  }

  lemma EndKeepsInv(s: State, a: Area, id: nat)
    requires Inv(s) && Enabled(s, a, End(id))
    ensures Inv(Next(s, a, End(id)))
  {
    UnusedSplit(s.ops, id);
  }

  lemma StepKeepsInv(s: State, a: Area, t: Step)
    requires Inv(s) && Enabled(s, a, t)
    ensures Inv(Next(s, a, t))
  {
    match t {
      case Begin(id) => BeginKeepsInv(s, a, id);
      case Write(id, block) => WriteKeepsInv(s, a, id, block);
      case End(id) => EndKeepsInv(s, a, id);
      case CommitDone =>
    }
  }

  /** Group-commit safety, in every state of every run. */
  lemma {:induction false} GroupCommitSafety(s: State, a: Area, run: seq<Step>, e: State)
    requires Inv(s) && Reaches(s, a, run, e)
    ensures Inv(e)
    decreases |run|
  {
    if run != [] {
      StepKeepsInv(s, a, run[0]);
      GroupCommitSafety(Next(s, a, run[0]), a, run[1..], e);
    }
  }

  /** A refused begin_op is waiting for an operation or a commit that can move; when neither is left it is let in. */
  lemma WaiterIsAdmitted(a: Area, run: seq<Step>, e: State)
    requires Reaches(INITIAL, a, run, e)
    ensures Admits(e) || e.committing || (exists id :: id in e.ops && Enabled(e, a, End(id)))
    ensures |e.ops| == 0 && !e.committing ==> Admits(e)
    ensures e.committing ==> forall id :: id !in e.ops
  {
    GroupCommitSafety(INITIAL, a, run, e);
    if |e.ops| > 0 {
      var id :| id in e.ops;
      assert Enabled(e, a, End(id));
    }
  }

  // ----- does the reservation keep log_write from panicking? -----

  /** In every reachable state an operation inside its budget may log a fresh block. */
  ghost predicate ReservationHonoured(a: Area) {
    forall run, e, id, b :: Reaches(INITIAL, a, run, e) && WithinBudget(e, id, b) && b !in e.logged
                            ==> !TooBig(e, a)
  }

  lemma FreshFits(a: Area, run: seq<Step>, e: State, id: nat, b: nat)
    requires a.size > LOGSIZE && Reaches(INITIAL, a, run, e) && WithinBudget(e, id, b) && b !in e.logged
    ensures !TooBig(e, a)
  {
    GroupCommitSafety(INITIAL, a, run, e);
    UnusedSplit(e.ops, id);
    UnusedNonNegative(e.ops - {id});
    assert |e.ops[id] + {b}| == |e.ops[id]| + 1;
  }

  // Three operations; block i is logged by operation i / MAXOPBLOCKS.

  function Range(lo: nat, hi: nat): (r: set<nat>)
    ensures forall i :: i in r <==> lo <= i < hi
    ensures |r| == if lo <= hi then hi - lo else 0
  {
    if hi <= lo then {} else Range(lo, hi - 1) + {hi - 1}
  }

  /** The blocks below k that operation j logs. */
  function Part(k: nat, j: nat): (r: set<nat>)
    ensures |r| <= MAXOPBLOCKS
    ensures forall i: nat :: i in r <==> i < k && 10 * j <= i < 10 * j + 10
  {
    var lo, hi := 10 * j, 10 * j + 10;
    Range(lo, if k < hi then k else hi)
  }

  predicate Owns(j: nat, k: nat) {
    j < 3 && 10 * j <= k < 10 * j + 10
  }

  lemma PartStep(k: nat, j: nat, x: nat)
    requires Owns(j, k) && x < 3
    ensures Part(k + 1, x) == if x == j then Part(k, x) + {k} else Part(k, x)
  {
    hide Part, Range;
  }

  function Parts(k: nat): (m: map<nat, set<nat>>)
    ensures forall j :: j in m <==> 0 <= j < 3
    ensures forall j :: j in m ==> m[j] == Part(k, j)
  {
    map j: nat | 0 <= j < 3 :: Part(k, j)
  }

  function Filled(k: nat): State {
    State(Range(0, k), Parts(k), false)
  }

  lemma PartsStep(k: nat, j: nat)
    requires Owns(j, k)
    ensures Parts(k)[j := Part(k, j) + {k}] == Parts(k + 1)
  {
    hide Part, Range, Parts;
    forall x: nat | x < 3
      ensures Part(k + 1, x) == if x == j then Part(k, x) + {k} else Part(k, x)
    {
      PartStep(k, j, x);
    }
  }

  lemma FilledStep(k: nat, j: nat, a: Area)
    requires Owns(j, k)
    ensures WithinBudget(Filled(k), j, k) && k !in Filled(k).logged
    ensures !TooBig(Filled(k), a) ==>
              && Enabled(Filled(k), a, Write(j, k))
              && Next(Filled(k), a, Write(j, k)) == Filled(k + 1)
  {
    hide Part, Range, Parts;
    PartStep(k, j, j);
    PartsStep(k, j);
    assert Range(0, k) + {k} == Range(0, k + 1);
  }

  lemma ReachesSnoc(s: State, a: Area, run: seq<Step>, e: State, t: Step)
    requires Reaches(s, a, run, e) && Enabled(e, a, t)
    ensures Reaches(s, a, run + [t], Next(e, a, t))
    decreases |run|
  {
    if run == [] {
      assert (run + [t])[1..] == [];
    } else {
      ReachesSnoc(Next(s, a, run[0]), a, run[1..], e, t);
      assert (run + [t])[1..] == run[1..] + [t];
    }
  }

  lemma FilledZero()
    ensures Filled(0) == State({}, map[][0 := {}][1 := {}][2 := {}], false)
  {
    hide Part, Range, Parts;
    assert Range(0, 0) == {};
    assert Part(0, 0) == {} && Part(0, 1) == {} && Part(0, 2) == {};
    assert Parts(0) == map[][0 := {}][1 := {}][2 := {}];
  }

  lemma ThreeBegin(a: Area) returns (run: seq<Step>)
    ensures Reaches(INITIAL, a, run, Filled(0))
  {
    FilledZero();
    assert Reaches(INITIAL, a, [], INITIAL);
    hide Filled, Reaches;
    var s1 := Next(INITIAL, a, Begin(0));
    ReachesSnoc(INITIAL, a, [], INITIAL, Begin(0));
    ReachesSnoc(INITIAL, a, [] + [Begin(0)], s1, Begin(1));
    var s2 := Next(s1, a, Begin(1));
    ReachesSnoc(INITIAL, a, [] + [Begin(0)] + [Begin(1)], s2, Begin(2));
    run := [] + [Begin(0)] + [Begin(1)] + [Begin(2)];
  }

  lemma {:induction false} FilledReachable(k: nat, a: Area) returns (run: seq<Step>)
    requires k <= LOGSIZE && k <= a.size - 1
    ensures Reaches(INITIAL, a, run, Filled(k))
  {
    hide Part, Range, Parts, Reaches, Next;
    if k == 0 {
      run := ThreeBegin(a);
    } else {
      var before := FilledReachable(k - 1, a);
      var j := (k - 1) / MAXOPBLOCKS;
      FilledStep(k - 1, j, a);
      ReachesSnoc(INITIAL, a, before, Filled(k - 1), Write(j, k - 1));
      run := before + [Write(j, k - 1)];
    }
  }

  /** The reservation of begin_op suffices for log_write exactly when the log area has more than
      LOGSIZE blocks. mkfs makes it LOGSIZE blocks, header included. */
  lemma ReservationNeedsLargerLog(a: Area)
    requires a.size >= 1
    ensures ReservationHonoured(a) <==> a.size > LOGSIZE
  {
    if a.size > LOGSIZE {
      forall run, e, id, b | Reaches(INITIAL, a, run, e) && WithinBudget(e, id, b) && b !in e.logged
        ensures !TooBig(e, a)
      {
        FreshFits(a, run, e, id, b);
      }
    } else {
      var k := a.size - 1;
      var run := FilledReachable(k, a);
      FilledStep(k, k / MAXOPBLOCKS, a);
    }
  }

  /** Even with a large enough log, writing a block that is already logged panics when the log is full. */
  lemma AbsorptionPanicsWhenFull(a: Area) returns (run: seq<Step>, e: State)
    requires a.size > LOGSIZE
    ensures Reaches(INITIAL, a, run, e)
    ensures 2 in e.ops && 29 in e.ops[2] && WithinBudget(e, 2, 29) && TooBig(e, a)
  {
    run := FilledReachable(LOGSIZE, a);
    e := Filled(LOGSIZE);
    hide Range, Part;
    assert Part(LOGSIZE, 2) + {29} == Part(LOGSIZE, 2);
  }

  /** A log that honours the reservation can hold a group of NBUF blocks, and commit panics on exactly those:
      they pin every buffer. So no size of the log area makes both the reservation and the commit safe. */
  lemma HonouredLogPinsEveryBuffer(a: Area) returns (run: seq<Step>, e: State)
    requires a.size >= 1 && ReservationHonoured(a)
    ensures Reaches(INITIAL, a, run, e) && |e.logged| == BufferCache.NBUF && !e.committing && e.ops.Keys == {0, 1, 2}
  {
    hide Range, Part, ReservationHonoured, Reaches;
    ReservationNeedsLargerLog(a);
    run := FilledReachable(LOGSIZE, a);
    e := Filled(LOGSIZE);
  }
}
