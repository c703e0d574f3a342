/** Who sleeps on a pipe and who wakes them: any number of processes reading and writing one pipe, each
    step one section under its lock (see module Pipe for what the sections do to the bytes). */
module PipeWakeups {
  import opened Basics
  import opened Pipe

  datatype Call = Write | Read

  /** Outside, or inside a call with n bytes still to go. */
  datatype Proc = Out | In(call: Call, n: nat, asleep: bool, killed: bool)

  /** `count` bytes are in the ring. */
  datatype State = State(count: nat, readopen: bool, writeopen: bool, procs: seq<Proc>)

  datatype Step =
    | CallWrite(t: nat, n: nat) | CallRead(t: nat, n: nat)
    | Run(t: nat)        // the section a process that is awake in a call runs next
    | Kill(t: nat)       // kill() marks a process and makes it runnable
    | CloseWrite | CloseRead

  function Init(n: nat): State {
    State(0, true, true, seq(n, _ => Out))
  }

  predicate IsIn(p: Proc, c: Call) {
    p.In? && p.call == c
  }

  function WakeReader(p: Proc): Proc {
    if p.In? && p.call.Read? then p.(asleep := false) else p
  }

  function WakeWriter(p: Proc): Proc {
    if p.In? && p.call.Write? then p.(asleep := false) else p
  }

  function Map(procs: seq<Proc>, f: Proc -> Proc): (r: seq<Proc>)
    ensures |r| == |procs| && forall i :: 0 <= i < |procs| ==> r[i] == f(procs[i])
  {
    seq(|procs|, i requires 0 <= i < |procs| => f(procs[i]))
  }

  predicate Enabled(s: State, x: Step) {
    match x
    case CallWrite(t, _) => t < |s.procs| && s.procs[t].Out? && s.writeopen
    case CallRead(t, _) => t < |s.procs| && s.procs[t].Out? && s.readopen
    case Run(t) => t < |s.procs| && !s.procs[t].Out? && !s.procs[t].asleep && s.count <= PIPESIZE
    case Kill(t) => t < |s.procs| && !s.procs[t].Out?
    case CloseWrite => s.writeopen && forall t :: 0 <= t < |s.procs| ==> !IsIn(s.procs[t], Write)
    case CloseRead => s.readopen && forall t :: 0 <= t < |s.procs| ==> !IsIn(s.procs[t], Read)
  }

  /** The section gives up with -1 after filling the pipe. */
  predicate GivesUp(s: State, t: nat)
    requires t < |s.procs|
  {
    IsIn(s.procs[t], Write) && s.procs[t].n > PIPESIZE - s.count && (!s.readopen || s.procs[t].killed)
  }

  function Next(s: State, x: Step): State
    requires Enabled(s, x)
  {
    match x
    case CallWrite(t, n) => s.(procs := s.procs[t := In(Write, n, false, false)])
    case CallRead(t, n) => s.(procs := s.procs[t := In(Read, n, false, false)])
    case Kill(t) => s.(procs := s.procs[t := s.procs[t].(asleep := false, killed := true)])
    case CloseWrite => s.(writeopen := false, procs := Map(s.procs, WakeReader))
    case CloseRead => s.(readopen := false, procs := Map(s.procs, WakeWriter))
    case Run(t) =>
      var p := s.procs[t];
      if p.call.Write? then
        var k := Min(p.n, PIPESIZE - s.count);
        if k == p.n then s.(count := s.count + k, procs := Map(s.procs[t := Out], WakeReader))
        else if GivesUp(s, t) then s.(count := s.count + k, procs := s.procs[t := Out])
        else s.(count := s.count + k, procs := Map(s.procs[t := p.(n := p.n - k, asleep := true)], WakeReader))
      else if s.count == 0 && s.writeopen then
        s.(procs := s.procs[t := if p.killed then Out else p.(asleep := true)])
      else
        s.(count := s.count - Min(p.n, s.count), procs := Map(s.procs[t := Out], WakeWriter))
  }

  ghost predicate Reaches(s: State, run: seq<Step>, e: State)
    decreases |run|
  {
    if run == [] then s == e else Enabled(s, run[0]) && Reaches(Next(s, run[0]), run[1..], e)
  }

  /** A writer gives up, with bytes in the pipe and no wakeup, while a reader sleeps. */
  ghost predicate Strands(s: State, x: Step) {
    && x.Run? && x.t < |s.procs| && GivesUp(s, x.t)
    && exists u :: 0 <= u < |s.procs| && IsIn(s.procs[u], Read) && s.procs[u].asleep
  }

  ghost predicate NobodyStranded(s: State, run: seq<Step>)
    decreases |run|
  {
    run != [] && Enabled(s, run[0]) ==> !Strands(s, run[0]) && NobodyStranded(Next(s, run[0]), run[1..])
  }

  /** Sleepers have something to wait for: readers an empty open pipe, writers a full one with a reader. */
  ghost predicate SleepersOk(s: State) {
    && s.count <= PIPESIZE
    && forall t :: 0 <= t < |s.procs| ==> SleeperOk(s, s.procs[t])
  }

  predicate SleeperOk(s: State, p: Proc) {
    && (IsIn(p, Read) && p.asleep ==> s.count == 0 && s.writeopen)
    && (IsIn(p, Write) && p.asleep ==> s.count == PIPESIZE && s.readopen)
  }

  /** A section keeps that exactly when it does not strand a reader. */
  lemma StepKeepsSleepers(s: State, x: Step)
    requires SleepersOk(s) && Enabled(s, x)
    ensures SleepersOk(Next(s, x)) <==> !Strands(s, x)
  {
    var e := Next(s, x);
    if Strands(s, x) {
      var u :| 0 <= u < |s.procs| && IsIn(s.procs[u], Read) && s.procs[u].asleep;
      assert SleeperOk(s, s.procs[u]) && e.procs[u] == s.procs[u] && e.count > 0;
      assert !SleeperOk(e, e.procs[u]);
    } else {
      forall t | 0 <= t < |e.procs|
        ensures SleeperOk(e, e.procs[t])
      {
        assert SleeperOk(s, s.procs[t]);
      }
    }
  }

  lemma {:induction false} ReachableSleepers(s: State, run: seq<Step>, e: State)
    requires SleepersOk(s) && Reaches(s, run, e) && NobodyStranded(s, run)
    ensures SleepersOk(e)
    decreases |run|
  {
    if run != [] {
      StepKeepsSleepers(s, run[0]);
      ReachableSleepers(Next(s, run[0]), run[1..], e);
    }
  }

  /** Unless a writer that gives up strands a reader, no reader is left asleep on bytes and no writer on free space,
      so readers and writers never all sleep. */
  lemma NoLostWakeup(n: nat, run: seq<Step>, e: State)
    requires Reaches(Init(n), run, e) && NobodyStranded(Init(n), run)
    ensures forall t :: 0 <= t < |e.procs| && IsIn(e.procs[t], Read) && e.procs[t].asleep ==> e.count == 0 && e.writeopen
    ensures forall t :: 0 <= t < |e.procs| && IsIn(e.procs[t], Write) && e.procs[t].asleep ==>
              e.count == PIPESIZE && e.readopen
    ensures forall t, u :: 0 <= t < |e.procs| && 0 <= u < |e.procs| ==>
              IsIn(e.procs[t], Read) && IsIn(e.procs[u], Write) ==> !e.procs[t].asleep || !e.procs[u].asleep
  {
    ReachableSleepers(Init(n), run, e);
    forall t | 0 <= t < |e.procs|
      ensures SleeperOk(e, e.procs[t])
    {
    }
  }

  /** A writer killed midway does strand a reader: it fills the pipe and returns -1 without a wakeup. */
  lemma KilledWriterStrandsReader() returns (run: seq<Step>, e: State)
    ensures Reaches(Init(2), run, e)
    ensures |e.procs| == 2 && e.procs[0].Out?
    ensures IsIn(e.procs[1], Read) && e.procs[1].asleep && e.count == PIPESIZE
  {
    var s0 := Init(2);
    var s1 := Next(s0, CallRead(1, 1));
    var s2 := Next(s1, Run(1));
    var s3 := Next(s2, CallWrite(0, 513));
    var s4 := Next(s3, Kill(0));
    e := Next(s4, Run(0));
    run := [CallRead(1, 1), Run(1), CallWrite(0, 513), Kill(0), Run(0)];
    assert Reaches(e, [], e);
    assert run[4..] == [Run(0)] && Reaches(s4, run[4..], e);
    assert run[3..][1..] == run[4..] && Reaches(s3, run[3..], e);
    assert run[2..][1..] == run[3..] && Reaches(s2, run[2..], e);
    assert run[1..][1..] == run[2..] && Reaches(s1, run[1..], e);
  }
}
